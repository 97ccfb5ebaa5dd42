/**
 * The restriction-site scanner: a rolling-window pass over a FASTA file that
 * reports every occurrence of every enzyme motif, chromosome by chromosome,
 * with bounded memory. The window keeps the last `OverlapLen` bases between
 * chunks so that a motif straddling a chunk boundary is still found, and a
 * non-final chunk leaves the motifs starting in that overlap to the next one.
 *
 * The specification is the naive scan: find every (overlapping) occurrence
 * of each motif in the uppercased sequence of each whole chromosome.
 */
module RestrictionScan {
  import opened Text
  import opened Fasta
  import opened Sites
  import opened ScanInvariant

  // ---------------------------------------------------------------------
  // The scanner
  // ---------------------------------------------------------------------

  /** `process_buffer`: the sites of `buf` whose motif starts before the limit. */
  method ProcessBuffer(chrom: Option<string>, enzymes: seq<Enzyme>, overlap: int, buf: string, gPos: int, isLast: bool)
    returns (found: seq<Site>)
    ensures found == WindowHits(chrom, enzymes, Upper(buf), 0, if isLast then |buf| else |buf| - overlap, gPos)
  {
    var bufUp := Upper(buf);
    var limit := if isLast then |buf| else |buf| - overlap;
    found := [];
    var k := 0;
    while k < |enzymes|
      invariant 0 <= k <= |enzymes|
      invariant found == WindowHits(chrom, enzymes[..k], bufUp, 0, limit, gPos)
    {
      var hits := MotifHits(chrom, enzymes[k], bufUp, limit, gPos);
      assert enzymes[..k + 1][..k] == enzymes[..k];
      found := found + hits;
      k := k + 1;
    }
    assert enzymes[..k] == enzymes;
  }

  /**
   * `process_buffer` on a buffer that is the window of the chromosome's
   * sequence `F` at `gPos`: it reports exactly the sites of `F` that start in
   * the window's part before the limit. A non-final window keeps an overlap
   * as long as the longest motif less one, so no site is cut off.
   */
  method ScanWindow(chrom: Option<string>, enzymes: seq<Enzyme>, overlap: int, buf: string, gPos: int, isLast: bool,
                    ghost F: string)
    returns (found: seq<Site>)
    requires ValidTable(enzymes) && overlap == OverlapLen(enzymes)
    requires 0 <= gPos && gPos + |buf| <= |F| && buf == F[gPos..gPos + |buf|]
    requires isLast ==> gPos + |buf| == |F|
    requires !isLast ==> |buf| >= overlap
    ensures !isLast ==> found == WindowHits(chrom, enzymes, Upper(F), gPos, gPos + (|buf| - overlap), 0)
    ensures isLast ==> found == WindowHits(chrom, enzymes, Upper(F), gPos, |F|, 0)
  {
    found := ProcessBuffer(chrom, enzymes, overlap, buf, gPos, isLast);
    if isLast {
      ChunkIsWindow(enzymes, chrom, F, gPos, buf, |buf|);
    } else {
      ChunkIsWindow(enzymes, chrom, F, gPos, buf, |buf| - overlap);
    }
  }

  /** The `find` loop of `process_buffer` for one enzyme. */
  method MotifHits(chrom: Option<string>, e: Enzyme, bufUp: string, limit: int, gPos: int) returns (hits: seq<Site>)
    ensures hits == EnzymeHits(chrom, e, bufUp, 0, limit, gPos)
  {
    var pos := Find(bufUp, e.motif, 0);
    var from: nat := 0;
    hits := [];
    while pos != -1 && pos < limit
      invariant from == 0 || from <= limit
      invariant from <= |bufUp| + 1
      invariant pos == Find(bufUp, e.motif, from)
      invariant hits == EnzymeHits(chrom, e, bufUp, 0, from, gPos)
      decreases |bufUp| + 1 - from
    {
      var more := hits + [Site(chrom, e.name, gPos + pos + 1, gPos + pos + |e.motif|)];
      var next := pos + 1;
      MotifStep(chrom, e, bufUp, limit, gPos, from, pos, hits, more, next);
      hits := more;
      from := next;
      pos := Find(bufUp, e.motif, next);
    }
    FoundNone(chrom, e, bufUp, from, limit, gPos);
  }

  /** One turn of the `find` loop keeps its invariant and makes progress. */
  lemma {:induction false} MotifStep(chrom: Option<string>, e: Enzyme, u: string, limit: int, g: int,
                  from: nat, pos: int, hits: seq<Site>, more: seq<Site>, next: int)
    requires from <= pos < limit && Occurs(u, e.motif, pos)
    requires forall p :: from <= p < pos ==> !Occurs(u, e.motif, p)
    requires hits == EnzymeHits(chrom, e, u, 0, from, g)
    requires more == hits + [Site(chrom, e.name, g + pos + 1, g + pos + |e.motif|)] && next == pos + 1
    ensures from < next <= limit && next <= |u| + 1
    ensures more == EnzymeHits(chrom, e, u, 0, next, g)
  {
    assert HitAt(chrom, e, u, pos, g) == [Site(chrom, e.name, g + pos + 1, g + pos + |e.motif|)];
    EnzymeHitsGap(chrom, e, u, 0, from, pos, g);
    assert EnzymeHits(chrom, e, u, 0, next, g) == EnzymeHits(chrom, e, u, 0, pos, g) + HitAt(chrom, e, u, pos, g);
  }

  /** Once `find` fails or passes the limit, no site is left before the limit. */
  lemma {:induction false} FoundNone(chrom: Option<string>, e: Enzyme, u: string, from: nat, limit: int, g: int)
    requires from == 0 || from <= limit
    requires var pos := Find(u, e.motif, from); pos == -1 || pos >= limit
    ensures EnzymeHits(chrom, e, u, 0, limit, g) == EnzymeHits(chrom, e, u, 0, from, g)
  {
    if from <= limit {
      EnzymeHitsGap(chrom, e, u, 0, from, limit, g);
    }
  }

  /** `scan_restriction_sites`, for an enzyme table and a chunk size. */
  method ScanRestrictionSites(fasta: Option<seq<string>>, enzymes: seq<Enzyme>, chunkSize: int)
    returns (sites: seq<Site>)
    requires ValidTable(enzymes)
    requires chunkSize >= OverlapLen(enzymes)
    ensures fasta.None? ==> sites == []
    ensures fasta.Some? ==> multiset(Named(sites)) == multiset(NaiveScan(fasta.value, enzymes))
    ensures fasta.Some? && NoPreamble(fasta.value) ==> multiset(sites) == multiset(NaiveScan(fasta.value, enzymes))
  {
    sites := [];
    if fasta.None? {
      return;
    }
    var lines := fasta.value;
    var ov := OverlapLen(enzymes);
    var buffer := "";
    var globalPos := 0;
    var currentChrom: Option<string> := None;
    ghost var F := Body(lines);
    ghost var readBases := "";
    ghost var done: seq<Chrom> := [];
    ghost var junk: seq<Site> := [];
    StartScan(lines, enzymes);
    var i := 0;
    while i < |lines|
      invariant Reading(lines, i, done, currentChrom, F, readBases, globalPos, buffer)
      invariant Reported(lines, enzymes, sites, junk, done, currentChrom, F, globalPos)
    {
      var stop;
      stop, sites, junk, done, currentChrom, F, readBases, globalPos, buffer :=
        ScanLine(lines, i, Strip(lines[i]), enzymes, ov, chunkSize, sites, junk, done, currentChrom,
                 F, readBases, globalPos, buffer);
      if stop {
        return;
      }
      i := i + 1;
    }
    sites, junk, done := FlushChromosome(lines, i, enzymes, ov, sites, junk, done, currentChrom,
                                         F, readBases, globalPos, buffer);
    Conclude(lines, i, enzymes, sites, junk, done);
  }

  /** One stripped line of the file: a header, or a sequence line (possibly blank). */
  method ScanLine(ghost lines: seq<string>, ghost i: int, line: string, enzymes: seq<Enzyme>, ov: int, chunkSize: int,
                  sites: seq<Site>, ghost junk: seq<Site>, ghost done: seq<Chrom>, currentChrom: Option<string>,
                  ghost F: string, ghost readBases: string, globalPos: int, buffer: string)
    returns (stop: bool, sites': seq<Site>, ghost junk': seq<Site>, ghost done': seq<Chrom>,
             currentChrom': Option<string>, ghost F': string, ghost readBases': string, globalPos': int, buffer': string)
    requires ValidTable(enzymes) && ov == OverlapLen(enzymes) && chunkSize >= ov
    requires Reading(lines, i, done, currentChrom, F, readBases, globalPos, buffer)
    requires Reported(lines, enzymes, sites, junk, done, currentChrom, F, globalPos)
    requires i < |lines| && line == Strip(lines[i])
    ensures stop ==> multiset(Named(sites')) == multiset(NaiveScan(lines, enzymes))
    ensures stop && NoPreamble(lines) ==> multiset(sites') == multiset(NaiveScan(lines, enzymes))
    ensures !stop ==> Reading(lines, i + 1, done', currentChrom', F', readBases', globalPos', buffer')
    ensures !stop ==> Reported(lines, enzymes, sites', junk', done', currentChrom', F', globalPos')
  {
    if line != "" && line[0] == '>' {
      stop, sites', junk', done', currentChrom', F', readBases', globalPos', buffer' :=
        ReadHeader(lines, i, line, enzymes, ov, sites, junk, done, currentChrom, F, readBases, globalPos, buffer);
    } else {
      stop, junk', done', currentChrom', F' := false, junk, done, currentChrom, F;
      sites', globalPos', buffer', readBases' := FeedLine(lines, i, line, enzymes, ov, chunkSize, sites, junk, done,
                                                          currentChrom, F, readBases, globalPos, buffer);
    }
  }

  /**
   * A header line: flush the chromosome being read, then open the one the
   * header names; a header with no name raises, which ends the scan.
   */
  method ReadHeader(ghost lines: seq<string>, ghost i: int, line: string, enzymes: seq<Enzyme>, ov: int,
                    sites: seq<Site>, ghost junk: seq<Site>, ghost done: seq<Chrom>, currentChrom: Option<string>,
                    ghost F: string, ghost readBases: string, globalPos: int, buffer: string)
    returns (stop: bool, sites': seq<Site>, ghost junk': seq<Site>, ghost done': seq<Chrom>,
             currentChrom': Option<string>, ghost F': string, ghost readBases': string, globalPos': int, buffer': string)
    requires ValidTable(enzymes) && ov == OverlapLen(enzymes)
    requires Reading(lines, i, done, currentChrom, F, readBases, globalPos, buffer)
    requires Reported(lines, enzymes, sites, junk, done, currentChrom, F, globalPos)
    requires i < |lines| && line == Strip(lines[i]) && line != "" && line[0] == '>'
    ensures stop ==> multiset(Named(sites')) == multiset(NaiveScan(lines, enzymes))
    ensures stop && NoPreamble(lines) ==> multiset(sites') == multiset(NaiveScan(lines, enzymes))
    ensures !stop ==> Reading(lines, i + 1, done', currentChrom', F', readBases', globalPos', buffer')
    ensures !stop ==> Reported(lines, enzymes, sites', junk', done', currentChrom', F', globalPos')
    ensures stop <==> FirstToken(line[1..]).None?
    ensures !stop ==> currentChrom' == FirstToken(line[1..]) && globalPos' == 0 && buffer' == ""
  {
    sites', junk', done' := FlushChromosome(lines, i, enzymes, ov, sites, junk, done, currentChrom,
                                            F, readBases, globalPos, buffer);
    match FirstToken(line[1..]) {
      case None =>
        Conclude(lines, i, enzymes, sites', junk', done');
        stop := true;
        currentChrom', F', readBases', globalPos', buffer' := currentChrom, F, readBases, globalPos, buffer;
      case Some(name) =>
        HeaderReading(lines, i, done', name);
        OpenChrom(lines, enzymes, sites', junk', done', name, Body(lines[i + 1..]));
        stop := false;
        currentChrom', F', readBases', globalPos', buffer' := Some(name), Body(lines[i + 1..]), "", 0, "";
    }
  }

  /**
   * A sequence line of the scan: append it to the buffer, and once the buffer
   * holds a chunk, report its sites and keep only the overlap. A blank line is
   * skipped: it changes nothing.
   */
  method FeedLine(ghost lines: seq<string>, ghost i: int, line: string, enzymes: seq<Enzyme>, ov: int, chunkSize: int,
                  sites: seq<Site>, ghost junk: seq<Site>, ghost done: seq<Chrom>, currentChrom: Option<string>,
                  ghost F: string, ghost readBases: string, globalPos: int, buffer: string)
    returns (sites': seq<Site>, globalPos': int, buffer': string, ghost readBases': string)
    requires ValidTable(enzymes) && ov == OverlapLen(enzymes) && chunkSize >= ov
    requires Reading(lines, i, done, currentChrom, F, readBases, globalPos, buffer)
    requires Reported(lines, enzymes, sites, junk, done, currentChrom, F, globalPos)
    requires i < |lines| && !IsHeader(lines[i]) && line == Strip(lines[i])
    ensures Reading(lines, i + 1, done, currentChrom, F, readBases', globalPos', buffer')
    ensures Reported(lines, enzymes, sites', junk, done, currentChrom, F, globalPos')
    ensures line == "" ==> sites' == sites && globalPos' == globalPos && buffer' == buffer
    ensures line != "" ==> |buffer'| < chunkSize || |buffer'| == ov
  {
    if line == "" {
      BlankLineReading(lines, i, done, currentChrom, F, readBases, globalPos, buffer);
      return sites, globalPos, buffer, readBases;
    }
    BodyLineReading(lines, i, done, currentChrom, F, readBases, globalPos, buffer);
    sites', globalPos', buffer', readBases' := sites, globalPos, buffer + line, readBases + line;
    if |buffer'| >= chunkSize {
      sites', globalPos', buffer' := ReportChunk(lines, i + 1, enzymes, ov, sites', junk, done, currentChrom,
                                                 F, readBases', globalPos', buffer');
    }
  }

  /** A full buffer: report the sites of its chunk and keep its last `ov` bases. */
  method ReportChunk(ghost lines: seq<string>, ghost i: int, enzymes: seq<Enzyme>, ov: int,
                     sites: seq<Site>, ghost junk: seq<Site>, ghost done: seq<Chrom>, currentChrom: Option<string>,
                     ghost F: string, ghost readBases: string, globalPos: int, buffer: string)
    returns (sites': seq<Site>, globalPos': int, buffer': string)
    requires ValidTable(enzymes) && ov == OverlapLen(enzymes) && |buffer| >= ov
    requires Reading(lines, i, done, currentChrom, F, readBases, globalPos, buffer)
    requires Reported(lines, enzymes, sites, junk, done, currentChrom, F, globalPos)
    ensures Reading(lines, i, done, currentChrom, F, readBases, globalPos', buffer')
    ensures Reported(lines, enzymes, sites', junk, done, currentChrom, F, globalPos')
    ensures |buffer'| == ov && buffer' == buffer[|buffer| - ov..]
    ensures ov >= 1 ==> buffer' == PythonTail(buffer, ov)
    ensures globalPos' == globalPos + (|buffer| - ov)
  {
    BufferWindow(lines, i, done, currentChrom, F, readBases, globalPos, buffer);
    var next := globalPos + (|buffer| - ov);
    var found := ScanChunk(currentChrom, enzymes, ov, F, globalPos, buffer, next);
    sites', globalPos', buffer' := sites + found, next, buffer[|buffer| - ov..];
    ChunkStep(lines, i, enzymes, sites, junk, done, currentChrom, F, readBases, globalPos, buffer, ov, found,
              sites', globalPos', buffer');
  }

  /** The sites of a full buffer's chunk, as a window of the chromosome's sites. */
  method ScanChunk(currentChrom: Option<string>, enzymes: seq<Enzyme>, ov: int, ghost F: string,
                   globalPos: int, buffer: string, next: int)
    returns (found: seq<Site>)
    requires ValidTable(enzymes) && ov == OverlapLen(enzymes) && |buffer| >= ov
    requires 0 <= globalPos && globalPos + |buffer| <= |F| && buffer == F[globalPos..globalPos + |buffer|]
    requires next == globalPos + (|buffer| - ov)
    ensures found == WindowHits(currentChrom, enzymes, Upper(F), globalPos, next, 0)
  {
    found := ScanWindow(currentChrom, enzymes, ov, buffer, globalPos, false, F);
  }

  /**
   * At a header or at the end of the file: scan what is left in the buffer as
   * the last window of the chromosome, and count the chromosome as done.
   */
  method FlushChromosome(ghost lines: seq<string>, ghost i: int, enzymes: seq<Enzyme>, ov: int,
                         sites: seq<Site>, ghost junk: seq<Site>, ghost done: seq<Chrom>, currentChrom: Option<string>,
                         ghost F: string, ghost readBases: string, globalPos: int, buffer: string)
    returns (sites': seq<Site>, ghost junk': seq<Site>, ghost done': seq<Chrom>)
    requires ValidTable(enzymes) && ov == OverlapLen(enzymes)
    requires Reading(lines, i, done, currentChrom, F, readBases, globalPos, buffer)
    requires Reported(lines, enzymes, sites, junk, done, currentChrom, F, globalPos)
    requires i == |lines| || IsHeader(lines[i])
    ensures FlushedLines(lines, i, done') && FlushedSites(lines, enzymes, sites', junk', done')
  {
    FlushReading(lines, i, done, currentChrom, F, readBases, globalPos, buffer);
    var found := [];
    if currentChrom.Some? && buffer != "" {
      found := ScanWindow(currentChrom, enzymes, ov, buffer, globalPos, true, F);
    }
    FlushReported(lines, enzymes, sites, junk, done, currentChrom, F, globalPos, found);
    sites' := sites + found;
    junk' := FlushJunk(junk, currentChrom, enzymes, F, globalPos);
    done' := done + Current(currentChrom, F);
  }

  /** The scan as the build runs it: the fixed enzyme table and chunks of a million bases. */
  method ScanGenome(fasta: Option<seq<string>>) returns (sites: seq<Site>)
    ensures fasta.None? ==> sites == []
    ensures fasta.Some? ==> multiset(Named(sites)) == multiset(NaiveScan(fasta.value, ENZYMES))
    ensures fasta.Some? && NoPreamble(fasta.value) ==> multiset(sites) == multiset(NaiveScan(fasta.value, ENZYMES))
  {
    EnzymeTable();
    sites := ScanRestrictionSites(fasta, ENZYMES, 1000000);
  }
}
