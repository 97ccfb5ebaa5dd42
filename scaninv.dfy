/**
 * The loop invariant of the restriction-site scanner, split in what it has
 * read of the file (`Reading`) and what it has reported (`Reported`), and the
 * lemmas that carry it across one line, one chunk and one flush.
 */
module ScanInvariant {
  import opened Text
  import opened Fasta
  import opened Sites

  // ---------------------------------------------------------------------
  // The loop invariant of the scanner and its steps
  // ---------------------------------------------------------------------

  /** Sequence read before the first header is scanned without a chromosome name. */
  function FlushJunk(junk: seq<Site>, cur: Option<string>, enzymes: seq<Enzyme>, bases: string, g: int): seq<Site>
  {
    if cur.None? then junk + WindowHits(None, enzymes, Upper(bases), 0, g, 0) else junk
  }

  /**
   * Before line i: `F` is the whole sequence of the chromosome being read,
   * `readBases` the part of it read so far, and the buffer holds what follows
   * position `g`; `done` are the chromosomes already flushed.
   */
  ghost predicate Reading(lines: seq<string>, i: int, done: seq<Chrom>, cur: Option<string>,
                          F: string, readBases: string, g: int, buffer: string)
  {
    && 0 <= i <= |lines|
    && 0 <= g <= |readBases| && buffer == readBases[g..]
    && readBases + Body(lines[i..]) == F
    && (cur.None? ==> done == [] && F == Body(lines))
    && Chroms(lines) == done + Current(cur, F) + Chroms(lines[i..])
  }

  /**
   * The sites reported so far are those of the chromosomes in `done`, those
   * of a preamble (`junk`, unnamed), and every motif of `F` starting before `g`.
   */
  ghost predicate Reported(lines: seq<string>, enzymes: seq<Enzyme>, sites: seq<Site>, junk: seq<Site>,
                           done: seq<Chrom>, cur: Option<string>, F: string, g: int)
  {
    && (forall s | s in junk :: s.chrom.None?)
    && (NoPreamble(lines) ==> junk == [])
    && multiset(sites) == multiset(junk + NaiveOf(done, enzymes) + WindowHits(cur, enzymes, Upper(F), 0, g, 0))
  }

  /** After a chromosome is flushed, and before the next one is opened. */
  ghost predicate FlushedLines(lines: seq<string>, i: int, done: seq<Chrom>)
  {
    0 <= i <= |lines| && Chroms(lines) == done + Chroms(lines[i..])
  }

  ghost predicate FlushedSites(lines: seq<string>, enzymes: seq<Enzyme>, sites: seq<Site>, junk: seq<Site>, done: seq<Chrom>)
  {
    && (forall s | s in junk :: s.chrom.None?)
    && (NoPreamble(lines) ==> junk == [])
    && multiset(sites) == multiset(junk + NaiveOf(done, enzymes))
  }

  /** Reporting the sites `found` of the next window extends what the reported sites stand for. */
  lemma {:induction false} MultisetStep(sites: seq<Site>, found: seq<Site>, before: seq<Site>, window: seq<Site>, extended: seq<Site>)
    requires multiset(sites) == multiset(before + window)
    requires multiset(window) + multiset(found) == multiset(extended)
    ensures multiset(sites + found) == multiset(before + extended)
  {
  }

  lemma {:induction false} BodyLineReading(lines: seq<string>, i: int, done: seq<Chrom>, cur: Option<string>,
                        F: string, readBases: string, g: int, buffer: string)
    requires Reading(lines, i, done, cur, F, readBases, g, buffer)
    requires i < |lines| && !IsHeader(lines[i])
    ensures var line := Strip(lines[i]);
      Reading(lines, i + 1, done, cur, F, readBases + line, g, buffer + line)
  {
    BodyAtLine(lines, i);
    AppendLine(readBases, Strip(lines[i]), Body(lines[i + 1..]), F, g, buffer);
  }

  /** A blank line leaves the reading state as it was, one line further on. */
  lemma {:induction false} BlankLineReading(lines: seq<string>, i: int, done: seq<Chrom>, cur: Option<string>,
                         F: string, readBases: string, g: int, buffer: string)
    requires Reading(lines, i, done, cur, F, readBases, g, buffer)
    requires i < |lines| && Strip(lines[i]) == ""
    ensures Reading(lines, i + 1, done, cur, F, readBases, g, buffer)
  {
    BodyLineReading(lines, i, done, cur, F, readBases, g, buffer);
    assert readBases + "" == readBases && buffer + "" == buffer;
  }

  /** Moving a line from the unread rest of a sequence to its read part. */
  lemma {:induction false} AppendLine(readBases: string, line: string, rest: string, F: string, g: int, buffer: string)
    requires readBases + (line + rest) == F
    requires 0 <= g <= |readBases| && buffer == readBases[g..]
    ensures (readBases + line) + rest == F
    ensures 0 <= g <= |readBases + line| && buffer + line == (readBases + line)[g..]
  {
    assert (readBases + line) + rest == readBases + (line + rest);
    assert (readBases + line)[g..] == buffer + line;
  }

  lemma {:induction false} ChunkReading(lines: seq<string>, i: int, done: seq<Chrom>, cur: Option<string>,
                     F: string, readBases: string, g: int, buffer: string, ov: nat)
    requires Reading(lines, i, done, cur, F, readBases, g, buffer)
    requires |buffer| >= ov
    ensures Reading(lines, i, done, cur, F, readBases, g + (|buffer| - ov), buffer[|buffer| - ov..])
  {
  }

  /** The buffer is the window of the chromosome's sequence at `g`. */
  lemma {:induction false} BufferWindow(lines: seq<string>, i: int, done: seq<Chrom>, cur: Option<string>,
                     F: string, readBases: string, g: int, buffer: string)
    requires Reading(lines, i, done, cur, F, readBases, g, buffer)
    ensures 0 <= g && g + |buffer| <= |F| && buffer == F[g..g + |buffer|]
  {
  }

  /** A chunk's sites, reported with its offset, are a window of the chromosome's sites. */
  lemma {:induction false} ChunkIsWindow(enzymes: seq<Enzyme>, cur: Option<string>, F: string, g: int, buffer: string, limit: int)
    requires 0 <= g && g + |buffer| <= |F| && buffer == F[g..g + |buffer|]
    requires limit + OverlapLen(enzymes) <= |buffer| || g + |buffer| == |F|
    ensures WindowHits(cur, enzymes, Upper(buffer), 0, limit, g) == WindowHits(cur, enzymes, Upper(F), g, g + limit, 0)
  {
    var u, w := Upper(buffer), Upper(F);
    UpperSlice(F, g, g + |buffer|);
    assert u == w[g..g + |u|];
    assert MaxMotifLen(enzymes) <= OverlapLen(enzymes) + 1;
    WindowHitsShift(cur, enzymes, u, w, g, 0, limit);
  }

  /** Reporting the next window [g, g') of the chromosome. */
  lemma {:induction false} ReportWindow(lines: seq<string>, enzymes: seq<Enzyme>, sites: seq<Site>, junk: seq<Site>,
                     done: seq<Chrom>, cur: Option<string>, F: string, g: int, g': int, found: seq<Site>)
    requires Reported(lines, enzymes, sites, junk, done, cur, F, g)
    requires 0 <= g <= g'
    requires found == WindowHits(cur, enzymes, Upper(F), g, g', 0)
    ensures Reported(lines, enzymes, sites + found, junk, done, cur, F, g')
  {
    WindowHitsSplit(cur, enzymes, Upper(F), 0, g, g', 0);
    MultisetStep(sites, found, junk + NaiveOf(done, enzymes), WindowHits(cur, enzymes, Upper(F), 0, g, 0),
                 WindowHits(cur, enzymes, Upper(F), 0, g', 0));
  }

  /**
   * Reporting a full chunk and keeping its last `ov` bases preserves both
   * invariants; the new state is passed in as `sites'`, `g'` and `buffer'`.
   */
  lemma {:induction false} ChunkStep(lines: seq<string>, i: int, enzymes: seq<Enzyme>, sites: seq<Site>, junk: seq<Site>,
                  done: seq<Chrom>, cur: Option<string>, F: string, readBases: string, g: int, buffer: string,
                  ov: nat, found: seq<Site>, sites': seq<Site>, g': int, buffer': string)
    requires Reading(lines, i, done, cur, F, readBases, g, buffer)
    requires Reported(lines, enzymes, sites, junk, done, cur, F, g)
    requires |buffer| >= ov && g' == g + (|buffer| - ov) && buffer' == buffer[|buffer| - ov..]
    requires found == WindowHits(cur, enzymes, Upper(F), g, g', 0) && sites' == sites + found
    ensures Reading(lines, i, done, cur, F, readBases, g', buffer')
    ensures Reported(lines, enzymes, sites', junk, done, cur, F, g')
  {
    ReportWindow(lines, enzymes, sites, junk, done, cur, F, g, g', found);
    ChunkReading(lines, i, done, cur, F, readBases, g, buffer, ov);
  }

  lemma {:induction false} FlushReading(lines: seq<string>, i: int, done: seq<Chrom>, cur: Option<string>,
                     F: string, readBases: string, g: int, buffer: string)
    requires Reading(lines, i, done, cur, F, readBases, g, buffer)
    requires i == |lines| || IsHeader(lines[i])
    ensures F == readBases && 0 <= g && g + |buffer| == |F| && buffer == F[g..g + |buffer|]
    ensures cur.None? ==> done == [] && F == Body(lines)
    ensures FlushedLines(lines, i, done + Current(cur, F))
  {
    assert Body(lines[i..]) == "";
  }

  lemma {:induction false} FlushReported(lines: seq<string>, enzymes: seq<Enzyme>, sites: seq<Site>, junk: seq<Site>,
                      done: seq<Chrom>, cur: Option<string>, F: string, g: int, found: seq<Site>)
    requires Reported(lines, enzymes, sites, junk, done, cur, F, g)
    requires 0 <= g <= |F|
    requires cur.None? ==> done == [] && F == Body(lines)
    requires found == if cur.Some? && g < |F| then WindowHits(cur, enzymes, Upper(F), g, |F|, 0) else []
    ensures FlushedSites(lines, enzymes, sites + found, FlushJunk(junk, cur, enzymes, F, g), done + Current(cur, F))
  {
    match cur
    case None =>
      FlushPreamble(lines, enzymes, sites, junk, F, g);
      assert sites + found == sites;
    case Some(name) =>
      if g == |F| {
        WindowHitsEmpty(cur, enzymes, Upper(F), g, |F|, 0);
      }
      ReportWindow(lines, enzymes, sites, junk, done, cur, F, g, |F|, found);
      FlushChrom(lines, enzymes, sites + found, junk, done, name, F);
  }

  /** Sites of a preamble stay unnamed, and there are none when there is no preamble. */
  lemma {:induction false} FlushPreamble(lines: seq<string>, enzymes: seq<Enzyme>, sites: seq<Site>, junk: seq<Site>, F: string, g: int)
    requires Reported(lines, enzymes, sites, junk, [], None, F, g)
    requires 0 <= g <= |F| && F == Body(lines)
    ensures FlushedSites(lines, enzymes, sites, FlushJunk(junk, None, enzymes, F, g), [])
  {
    WindowHitsNamed(None, enzymes, Upper(F), 0, g, 0);
    if NoPreamble(lines) {
      WindowHitsEmpty(None, enzymes, Upper(F), 0, g, 0);
    }
    assert [] + Current(None, F) == [];
  }

  /** A chromosome all of whose sites are reported joins the flushed ones. */
  lemma {:induction false} FlushChrom(lines: seq<string>, enzymes: seq<Enzyme>, sites: seq<Site>, junk: seq<Site>,
                   done: seq<Chrom>, name: string, F: string)
    requires Reported(lines, enzymes, sites, junk, done, Some(name), F, |F|)
    ensures FlushedSites(lines, enzymes, sites, junk, done + Current(Some(name), F))
  {
    var done' := done + [Chrom(name, F)];
    assert done'[..|done'| - 1] == done;
    assert NaiveOf(done', enzymes) == NaiveOf(done, enzymes) + ChromSites(Chrom(name, F), enzymes);
  }

  /** Before the first line nothing is read and nothing is reported. */
  lemma {:induction false} StartScan(lines: seq<string>, enzymes: seq<Enzyme>)
    ensures Reading(lines, 0, [], None, Body(lines), "", 0, "")
    ensures Reported(lines, enzymes, [], [], [], None, Body(lines), 0)
  {
    assert lines[0..] == lines;
    WindowHitsEmpty(None, enzymes, Upper(Body(lines)), 0, 0, 0);
  }

  /** A new chromosome starts with none of its sites reported. */
  lemma {:induction false} OpenChrom(lines: seq<string>, enzymes: seq<Enzyme>, sites: seq<Site>, junk: seq<Site>,
                  done: seq<Chrom>, name: string, F: string)
    requires FlushedSites(lines, enzymes, sites, junk, done)
    ensures Reported(lines, enzymes, sites, junk, done, Some(name), F, 0)
  {
    WindowHitsEmpty(Some(name), enzymes, Upper(F), 0, 0, 0);
    assert junk + NaiveOf(done, enzymes) + [] == junk + NaiveOf(done, enzymes);
  }

  lemma {:induction false} HeaderReading(lines: seq<string>, i: int, done: seq<Chrom>, name: string)
    requires FlushedLines(lines, i, done)
    requires i < |lines| && IsHeader(lines[i]) && HeaderName(lines[i]) == Some(name)
    ensures Reading(lines, i + 1, done, Some(name), Body(lines[i + 1..]), "", 0, "")
  {
    ChromsAtHeader(lines, i, name);
    var F := Body(lines[i + 1..]);
    OpenedChrom(Chroms(lines), done, Chroms(lines[i..]), name, F, Chroms(lines[i + 1..]));
    assert "" + F == F;
  }

  lemma {:induction false} OpenedChrom(all: seq<Chrom>, done: seq<Chrom>, tail: seq<Chrom>, name: string, F: string, rest: seq<Chrom>)
    requires all == done + tail && tail == [Chrom(name, F)] + rest
    ensures all == done + Current(Some(name), F) + rest
  {
  }

  lemma {:induction false} Conclude(lines: seq<string>, i: int, enzymes: seq<Enzyme>, sites: seq<Site>, junk: seq<Site>, done: seq<Chrom>)
    requires FlushedLines(lines, i, done) && FlushedSites(lines, enzymes, sites, junk, done)
    requires i == |lines| || (IsHeader(lines[i]) && HeaderName(lines[i]).None?)
    ensures multiset(Named(sites)) == multiset(NaiveScan(lines, enzymes))
    ensures NoPreamble(lines) ==> multiset(sites) == multiset(NaiveScan(lines, enzymes))
  {
    assert Chroms(lines[i..]) == [];
    assert done + [] == done;
    var naive := NaiveScan(lines, enzymes);
    NaiveOfNamed(done, enzymes);
    NamedMultiset(sites, junk + naive);
    NamedAppend(junk, naive);
    NamedOfNone(junk);
    NamedOfSome(naive);
    assert junk + naive == if junk == [] then naive else junk + naive;
  }
}
