/**
 * The three line-oriented annotation parsers of the build: GFF3 exons,
 * VCF-like variants and UCSC RepeatMasker rows. Each turns one line into
 * nothing, one record, or an integer-conversion failure that ends the whole
 * file's stream (the parser's `try` encloses its entire `for` loop).
 * A file is `None` when its path does not exist, otherwise its list of lines.
 */
module Parsers {
  import opened Text

  datatype ExonRecord = ExonRecord(chrom: string, start: int, end: int, transcriptId: string)
  datatype VariantRecord = VariantRecord(chrom: string, pos: int)
  datatype RepeatRecord = RepeatRecord(chrom: string, start: int, end: int)

  /** A RepeatMasker interval, 0-based half-open, as the 1-based inclusive record. */
  function OneBased(chrom: string, rawStart: int, rawEnd: int): (r: RepeatRecord)
    ensures r.chrom == chrom && r.end == rawEnd && r.end - r.start + 1 == rawEnd - rawStart
  {
    RepeatRecord(chrom, rawStart + 1, rawEnd)
  }

  /** The effect of one line on the stream: nothing, one record, or an exception that ends it. */
  datatype Decoded<T> = Skip | Yield(record: T) | Abort

  /** `line.strip().split('\t')` */
  function Fields(line: string): seq<string>
  {
    Split(Strip(line), "\t")
  }

  // ---------------------------------------------------------------------
  // Per-line decoders
  // ---------------------------------------------------------------------

  /** The transcript id of a GFF3 attributes column: one attribute value, so never a `;`. */
  function TranscriptId(attr: string): (r: string)
    ensures ';' !in r
    ensures !Contains(attr, "Parent=") ==> r == "unknown"
  {
    if Contains(attr, "Parent=") then
      var v := Split(Split(attr, "Parent=")[1], ";")[0];
      FirstPieceHasNoChar(Split(attr, "Parent=")[1], ';');
      ReplaceKeepsOut(v, "transcript:", "", ';');
      Replace(v, "transcript:", "")
    else
      "unknown"
  }

  lemma {:induction false} FirstPieceHasNoChar(s: string, c: char)
    ensures c !in Split(s, [c])[0]
  {
    var piece := Split(s, [c])[0];
    forall p | 0 <= p < |piece|
      ensures piece[p] != c
    {
      OccursChar(piece, [c], p);
    }
  }

  /**
   * A `#` line, a line of fewer than 9 columns and a non-exon row are skipped;
   * an exon row whose column 4 or 5 is not an integer raises; any other line
   * yields column 1, the two integers and the transcript id of column 9.
   */
  function DecodeExonLine(line: string): Decoded<ExonRecord>
  {
    if StartsWith(line, "#") then Skip
    else
      var parts := Fields(line);
      if |parts| < 9 || parts[2] != "exon" then Skip
      else
        match (ParseInt(parts[3]), ParseInt(parts[4]))
        case (Some(start), Some(end)) => Yield(ExonRecord(parts[0], start, end, TranscriptId(parts[8])))
        case _ => Abort
  }

  /** A `#` line or a line of fewer than 2 columns is skipped; a non-integer column 2 raises. */
  function DecodeVariantLine(line: string): Decoded<VariantRecord>
  {
    if StartsWith(line, "#") then Skip
    else
      var parts := Fields(line);
      if |parts| < 2 then Skip
      else
        match ParseInt(parts[1])
        case Some(pos) => Yield(VariantRecord(parts[0], pos))
        case None => Abort
  }

  /**
   * RepeatMasker rows are 0-based half-open; the record is 1-based inclusive.
   * A line of fewer than 8 columns is skipped, with no `#` test; a non-integer
   * column 7 or 8 raises.
   */
  function DecodeRepeatLine(line: string): Decoded<RepeatRecord>
  {
    var parts := Fields(line);
    if |parts| < 8 then Skip
    else
      match (ParseInt(parts[6]), ParseInt(parts[7]))
      case (Some(rawStart), Some(rawEnd)) => Yield(OneBased(parts[5], rawStart, rawEnd))
      case _ => Abort
  }

  /** The three outcomes of a GFF3 line, each exactly when the code takes its branch. */
  lemma {:induction false} ExonLineOutcome(line: string)
    ensures DecodeExonLine(line).Skip? <==>
      StartsWith(line, "#") || |Fields(line)| < 9 || Fields(line)[2] != "exon"
    ensures DecodeExonLine(line).Abort? <==>
      !DecodeExonLine(line).Skip? && (ParseInt(Fields(line)[3]).None? || ParseInt(Fields(line)[4]).None?)
    ensures DecodeExonLine(line).Yield? ==>
      DecodeExonLine(line).record ==
        ExonRecord(Fields(line)[0], ParseInt(Fields(line)[3]).value, ParseInt(Fields(line)[4]).value,
                   TranscriptId(Fields(line)[8]))
  {
  }

  /** The three outcomes of a VCF line. */
  lemma {:induction false} VariantLineOutcome(line: string)
    ensures DecodeVariantLine(line).Skip? <==> StartsWith(line, "#") || |Fields(line)| < 2
    ensures DecodeVariantLine(line).Abort? <==> !DecodeVariantLine(line).Skip? && ParseInt(Fields(line)[1]).None?
    ensures DecodeVariantLine(line).Yield? ==>
      DecodeVariantLine(line).record == VariantRecord(Fields(line)[0], ParseInt(Fields(line)[1]).value)
  {
  }

  /** The three outcomes of a RepeatMasker line. */
  lemma {:induction false} RepeatLineOutcome(line: string)
    ensures DecodeRepeatLine(line).Skip? <==> |Fields(line)| < 8
    ensures DecodeRepeatLine(line).Abort? <==>
      |Fields(line)| >= 8 && (ParseInt(Fields(line)[6]).None? || ParseInt(Fields(line)[7]).None?)
    ensures DecodeRepeatLine(line).Yield? ==>
      DecodeRepeatLine(line).record ==
        OneBased(Fields(line)[5], ParseInt(Fields(line)[6]).value, ParseInt(Fields(line)[7]).value)
  {
  }

  // ---------------------------------------------------------------------
  // The file-level stream
  // ---------------------------------------------------------------------

  /** Index of the first line whose decoding raises, or `|lines|` if none does. */
  function FirstAbort<T>(lines: seq<string>, decode: string -> Decoded<T>): (k: nat)
    ensures k <= |lines|
    ensures k < |lines| ==> decode(lines[k]).Abort?
    ensures forall i :: 0 <= i < k ==> !decode(lines[i]).Abort?
  {
    if lines == [] || decode(lines[0]).Abort? then 0 else 1 + FirstAbort(lines[1..], decode)
  }

  /** The records of the lines that yield one, in line order. */
  function Yields<T>(lines: seq<string>, decode: string -> Decoded<T>): seq<T>
  {
    if lines == [] then []
    else
      Yields(lines[..|lines| - 1], decode)
      + match decode(lines[|lines| - 1]) case Yield(r) => [r] case _ => []
  }

  /** What a parser generator produces for a file: nothing for a missing file,
      otherwise the records of the lines before the first one that raises. */
  function Stream<T>(file: Option<seq<string>>, decode: string -> Decoded<T>): seq<T>
  {
    match file
    case None => []
    case Some(lines) => Yields(lines[..FirstAbort(lines, decode)], decode)
  }

  /** The `for line in f` loop shared by the three parsers. */
  method DecodeLines<T>(file: Option<seq<string>>, decode: string -> Decoded<T>) returns (records: seq<T>)
    ensures file.None? ==> records == []
    ensures file.Some? ==> records == Yields(file.value[..FirstAbort(file.value, decode)], decode)
    ensures records == Stream(file, decode)
  {
    records := [];
    if file.None? {
      return;
    }
    var lines := file.value;
    var i := 0;
    while i < |lines|
      invariant 0 <= i <= |lines|
      invariant forall k :: 0 <= k < i ==> !decode(lines[k]).Abort?
      invariant records == Yields(lines[..i], decode)
      decreases |lines| - i
    {
      assert lines[..i + 1][..i] == lines[..i];
      match decode(lines[i]) {
        case Skip =>
        case Yield(r) =>
          records := records + [r];
        case Abort =>
          break;
      }
      i := i + 1;
    }
  }

  method ParseGff3(file: Option<seq<string>>) returns (exons: seq<ExonRecord>)
    ensures exons == Stream(file, DecodeExonLine)
  {
    exons := DecodeLines(file, DecodeExonLine);
  }

  method ParseVcf(file: Option<seq<string>>) returns (variants: seq<VariantRecord>)
    ensures variants == Stream(file, DecodeVariantLine)
  {
    variants := DecodeLines(file, DecodeVariantLine);
  }

  method ParseRepeatsRmsk(file: Option<seq<string>>) returns (repeats: seq<RepeatRecord>)
    ensures repeats == Stream(file, DecodeRepeatLine)
  {
    repeats := DecodeLines(file, DecodeRepeatLine);
  }

  // ---------------------------------------------------------------------
  // Properties of the stream
  // ---------------------------------------------------------------------

  lemma {:induction false} YieldsAppend<T>(a: seq<string>, b: seq<string>, decode: string -> Decoded<T>)
    ensures Yields(a + b, decode) == Yields(a, decode) + Yields(b, decode)
    decreases |b|
  {
    if b == [] {
      assert a + b == a;
    } else {
      var b' := b[..|b| - 1];
      assert (a + b)[..|a + b| - 1] == a + b';
      YieldsAppend(a, b', decode);
    }
  }

  /** A line that raises ends the stream: what came before stands, what comes after is never decoded. */
  lemma {:induction false} StreamStopsAtAbort<T>(before: seq<string>, bad: string, after: seq<string>, decode: string -> Decoded<T>)
    requires forall i :: 0 <= i < |before| ==> !decode(before[i]).Abort?
    requires decode(bad).Abort?
    ensures Stream(Some(before + [bad] + after), decode) == Yields(before, decode)
  {
    var lines := before + [bad] + after;
    assert lines[|before|] == bad;
    assert forall i :: 0 <= i < |before| ==> lines[i] == before[i];
    assert FirstAbort(lines, decode) == |before|;
    assert lines[..|before|] == before;
  }

  /** Reading further lines never takes back a record already produced. */
  lemma {:induction false} StreamExtends<T>(lines: seq<string>, more: seq<string>, decode: string -> Decoded<T>)
    ensures Stream(Some(lines), decode) <= Stream(Some(lines + more), decode)
  {
    var all := lines + more;
    var k := FirstAbort(lines, decode);
    var k' := FirstAbort(all, decode);
    assert forall i :: 0 <= i < |lines| ==> all[i] == lines[i];
    if k < |lines| {
      assert k' == k;
      assert all[..k'] == lines[..k];
    } else {
      assert k' >= |lines|;
      assert all[..k'] == lines + more[..k' - |lines|];
      assert lines[..k] == lines;
      YieldsAppend(lines, more[..k' - |lines|], decode);
    }
  }

  /** The indices of the lines that yield a record. */
  function YieldingLines<T>(lines: seq<string>, decode: string -> Decoded<T>): set<int>
  {
    set i | 0 <= i < |lines| && decode(lines[i]).Yield?
  }

  /** A file none of whose lines raises yields one record per yielding line. */
  lemma {:induction false} StreamOfCleanFile<T>(lines: seq<string>, decode: string -> Decoded<T>)
    requires forall i :: 0 <= i < |lines| ==> !decode(lines[i]).Abort?
    ensures Stream(Some(lines), decode) == Yields(lines, decode)
    ensures |Yields(lines, decode)| == |YieldingLines(lines, decode)|
  {
    assert lines[..FirstAbort(lines, decode)] == lines;
    YieldsCount(lines, decode);
  }

  /** One record per line that yields one. */
  lemma {:induction false} YieldsCount<T>(lines: seq<string>, decode: string -> Decoded<T>)
    ensures |Yields(lines, decode)| == |YieldingLines(lines, decode)|
    decreases |lines|
  {
    if lines != [] {
      YieldsCount(lines[..|lines| - 1], decode);
      YieldingLast(lines, decode);
    }
  }

  /** The last line adds its index to the yielding ones exactly when it yields. */
  lemma {:induction false} YieldingLast<T>(lines: seq<string>, decode: string -> Decoded<T>)
    requires lines != []
    ensures var init := lines[..|lines| - 1];
      |YieldingLines(lines, decode)|
      == |YieldingLines(init, decode)| + if decode(lines[|lines| - 1]).Yield? then 1 else 0
  {
    var k := |lines| - 1;
    var s := YieldingLines(lines[..k], decode);
    YieldingSet(lines, decode);
    assert k !in s;
  }

  lemma {:induction false} YieldingSet<T>(lines: seq<string>, decode: string -> Decoded<T>)
    requires lines != []
    ensures var k := |lines| - 1; var s := YieldingLines(lines[..k], decode);
      YieldingLines(lines, decode) == if decode(lines[k]).Yield? then s + {k} else s
  {
    var k := |lines| - 1;
    var init := lines[..k];
    forall i | 0 <= i < k ensures i in YieldingLines(lines, decode) <==> i in YieldingLines(init, decode) {
      assert init[i] == lines[i];
    }
  }

  // ---------------------------------------------------------------------
  // Properties of the decoders on well-formed rows
  // ---------------------------------------------------------------------

  /** Each line keeps its `\n` under `for line in f`; `strip()` removes it, so no decoder sees it. */
  lemma {:induction false} TerminatedLine(line: string)
    ensures DecodeExonLine(line + "\n") == DecodeExonLine(line)
    ensures DecodeVariantLine(line + "\n") == DecodeVariantLine(line)
    ensures DecodeRepeatLine(line + "\n") == DecodeRepeatLine(line)
  {
    var t := line + "\n";
    StripNewline(line);
    if line != "" {
      assert t[0] == line[0];
    }
    assert StartsWith(t, "#") <==> StartsWith(line, "#");
    SameColumns(t, line);
  }

  /** The decoders see a line only through its `#` prefix and its columns. */
  lemma {:induction false} SameColumns(a: string, b: string)
    requires Fields(a) == Fields(b) && (StartsWith(a, "#") <==> StartsWith(b, "#"))
    ensures DecodeExonLine(a) == DecodeExonLine(b)
    ensures DecodeVariantLine(a) == DecodeVariantLine(b)
    ensures DecodeRepeatLine(a) == DecodeRepeatLine(b)
  {
    ExonSameColumns(a, b);
    VariantSameColumns(a, b);
    RepeatSameColumns(a, b);
  }

  lemma {:induction false} ExonSameColumns(a: string, b: string)
    requires Fields(a) == Fields(b) && (StartsWith(a, "#") <==> StartsWith(b, "#"))
    ensures DecodeExonLine(a) == DecodeExonLine(b)
  {
    ExonLineOutcome(a);
    ExonLineOutcome(b);
  }

  lemma {:induction false} VariantSameColumns(a: string, b: string)
    requires Fields(a) == Fields(b) && (StartsWith(a, "#") <==> StartsWith(b, "#"))
    ensures DecodeVariantLine(a) == DecodeVariantLine(b)
  {
    VariantLineOutcome(a);
    VariantLineOutcome(b);
  }

  lemma {:induction false} RepeatSameColumns(a: string, b: string)
    requires Fields(a) == Fields(b)
    ensures DecodeRepeatLine(a) == DecodeRepeatLine(b)
  {
    RepeatLineOutcome(a);
    RepeatLineOutcome(b);
  }

  /** A row of tab-free columns whose line neither starts nor ends with whitespace. */
  predicate CleanRow(fields: seq<string>)
  {
    && |fields| >= 1
    && (forall i :: 0 <= i < |fields| ==> '\t' !in fields[i])
    && fields[0] != "" && !IsSpace(fields[0][0])
    && fields[|fields| - 1] != "" && !IsSpace(fields[|fields| - 1][|fields[|fields| - 1]| - 1])
  }

  /** `'\t'.join(fields)` */
  function Row(fields: seq<string>): string
  {
    Join(fields, "\t")
  }

  lemma {:induction false} JoinLast(fields: seq<string>, sep: string)
    requires |fields| >= 1 && fields[|fields| - 1] != ""
    ensures var s := Join(fields, sep);
      && |s| > 0
      && s[|s| - 1] == fields[|fields| - 1][|fields[|fields| - 1]| - 1]
    decreases |fields|
  {
    if |fields| > 1 {
      var rest := fields[1..];
      assert rest[|rest| - 1] == fields[|fields| - 1];
      JoinLast(rest, sep);
    }
  }

  /** Splitting the line of a clean row gives back its columns. */
  lemma {:induction false} FieldsOfRow(fields: seq<string>)
    requires CleanRow(fields)
    ensures Fields(Row(fields)) == fields
    ensures Row(fields)[0] == fields[0][0]
  {
    JoinLast(fields, "\t");
    assert Row(fields)[0] == fields[0][0];
    StripClean(Row(fields));
    SplitJoin(fields, '\t');
  }

  lemma {:induction false} ExonRowDecodes(fields: seq<string>, start: int, end: int)
    requires CleanRow(fields) && |fields| >= 9 && fields[0][0] != '#' && fields[2] == "exon"
    requires ParseInt(fields[3]) == Some(start) && ParseInt(fields[4]) == Some(end)
    ensures DecodeExonLine(Row(fields)) == Yield(ExonRecord(fields[0], start, end, TranscriptId(fields[8])))
  {
    FieldsOfRow(fields);
  }

  lemma {:induction false} ExonRowSkipped(fields: seq<string>)
    requires CleanRow(fields)
    requires fields[0][0] == '#' || |fields| < 9 || fields[2] != "exon"
    ensures DecodeExonLine(Row(fields)) == Skip
  {
    FieldsOfRow(fields);
  }

  lemma {:induction false} ExonRowAborts(fields: seq<string>)
    requires CleanRow(fields) && |fields| >= 9 && fields[0][0] != '#' && fields[2] == "exon"
    requires ParseInt(fields[3]).None? || ParseInt(fields[4]).None?
    ensures DecodeExonLine(Row(fields)) == Abort
  {
    FieldsOfRow(fields);
  }

  lemma {:induction false} VariantRowDecodes(fields: seq<string>, pos: int)
    requires CleanRow(fields) && |fields| >= 2 && fields[0][0] != '#'
    requires ParseInt(fields[1]) == Some(pos)
    ensures DecodeVariantLine(Row(fields)) == Yield(VariantRecord(fields[0], pos))
  {
    FieldsOfRow(fields);
  }

  lemma {:induction false} VariantRowSkipped(fields: seq<string>)
    requires CleanRow(fields)
    requires fields[0][0] == '#' || |fields| < 2
    ensures DecodeVariantLine(Row(fields)) == Skip
  {
    FieldsOfRow(fields);
  }

  lemma {:induction false} VariantRowAborts(fields: seq<string>)
    requires CleanRow(fields) && |fields| >= 2 && fields[0][0] != '#'
    requires ParseInt(fields[1]).None?
    ensures DecodeVariantLine(Row(fields)) == Abort
  {
    FieldsOfRow(fields);
  }

  /** The 0-based half-open interval [rawStart, rawEnd) becomes the 1-based inclusive
      [rawStart + 1, rawEnd], covering the same rawEnd - rawStart bases. No `#` test applies. */
  lemma {:induction false} RepeatRowDecodes(fields: seq<string>, rawStart: int, rawEnd: int)
    requires CleanRow(fields) && |fields| >= 8
    requires ParseInt(fields[6]) == Some(rawStart) && ParseInt(fields[7]) == Some(rawEnd)
    ensures DecodeRepeatLine(Row(fields)) == Yield(RepeatRecord(fields[5], rawStart + 1, rawEnd))
    ensures var r := DecodeRepeatLine(Row(fields)).record; r.end - r.start + 1 == rawEnd - rawStart
  {
    FieldsOfRow(fields);
    RepeatColumns(Row(fields), fields, rawStart, rawEnd);
  }

  lemma {:induction false} RepeatColumns(line: string, parts: seq<string>, rawStart: int, rawEnd: int)
    requires Fields(line) == parts && |parts| >= 8
    requires ParseInt(parts[6]) == Some(rawStart) && ParseInt(parts[7]) == Some(rawEnd)
    ensures DecodeRepeatLine(line) == Yield(OneBased(parts[5], rawStart, rawEnd))
  {
  }

  lemma {:induction false} RepeatRowSkipped(fields: seq<string>)
    requires CleanRow(fields) && |fields| < 8
    ensures DecodeRepeatLine(Row(fields)) == Skip
  {
    FieldsOfRow(fields);
  }

  lemma {:induction false} RepeatRowAborts(fields: seq<string>)
    requires CleanRow(fields) && |fields| >= 8
    requires ParseInt(fields[6]).None? || ParseInt(fields[7]).None?
    ensures DecodeRepeatLine(Row(fields)) == Abort
  {
    FieldsOfRow(fields);
  }

  // ---------------------------------------------------------------------
  // The transcript id
  // ---------------------------------------------------------------------

  /** `s.split(sep)[0]` is `s` up to the first `sep`. */
  lemma {:induction false} SplitHead(s: string, sep: string)
    requires sep != ""
    ensures var i := Find(s, sep, 0); Split(s, sep)[0] == if i == -1 then s else s[..i]
  {
  }

  /** The first `Parent=` of `a + "Parent=" + tail` is the one after `a`: the key has no proper border. */
  lemma {:induction false} SplitAfterKey(a: string, tail: string)
    requires !Contains(a, "Parent=")
    ensures Contains(a + "Parent=" + tail, "Parent=")
    ensures Split(a + "Parent=" + tail, "Parent=")[1] == Split(tail, "Parent=")[0]
  {
    var P := "Parent=";
    var attr := a + P + tail;
    forall p | 0 <= p < |a| ensures !Occurs(attr, P, p) {
      if p + |P| <= |a| {
        assert attr[p..p + |P|] == a[p..p + |P|];
        assert !Occurs(a, P, p);
      } else {
        assert attr[|a|] == 'P';
        assert attr[p..p + |P|][|a| - p] == attr[|a|];
      }
    }
    assert attr[|a|..|a| + |P|] == P;
    FindAt(attr, P, 0, |a|);
    ContainsFind(attr, P);
    assert attr[|a| + |P|..] == tail;
  }

  /** Cutting `v + rest` at its first `Parent=` keeps `v` and, if anything more, the `;` after it. */
  lemma {:induction false} KeyCutKeepsValue(v: string, rest: string)
    requires ';' !in v && !Contains(v, "Parent=")
    requires rest == "" || rest[0] == ';'
    ensures var piece := Split(v + rest, "Parent=")[0];
      && |v| <= |piece| && piece[..|v|] == v
      && (|v| < |piece| ==> piece[|v|] == ';')
  {
    var P := "Parent=";
    var tail := v + rest;
    forall p | 0 <= p <= |v| ensures !Occurs(tail, P, p) {
      NoKeyAtValue(v, rest, p);
    }
    var j := Find(tail, P, 0);
    assert j == -1 || j > |v|;
    SplitHead(tail, P);
    var piece := Split(tail, P)[0];
    assert piece == if j == -1 then tail else tail[..j];
  }

  lemma {:induction false} NoKeyAtValue(v: string, rest: string, p: nat)
    requires ';' !in v && !Contains(v, "Parent=")
    requires rest == "" || rest[0] == ';'
    requires p <= |v|
    ensures !Occurs(v + rest, "Parent=", p)
  {
    var P := "Parent=";
    var tail := v + rest;
    if p + |P| <= |tail| {
      if p + |P| <= |v| {
        assert tail[p..p + |P|] == v[p..p + |P|];
        assert !Occurs(v, P, p);
      } else {
        assert tail[p..p + |P|][|v| - p] == tail[|v|] == ';';
      }
    }
  }

  /** `piece.split(';')[0]` is `v` when `piece` is `v`, or `v` followed by a `;`. */
  lemma {:induction false} SemicolonHead(piece: string, v: string)
    requires ';' !in v
    requires |v| <= |piece| && piece[..|v|] == v
    requires |v| < |piece| ==> piece[|v|] == ';'
    ensures Split(piece, ";")[0] == v
  {
    forall p | 0 <= p < |v| ensures !Occurs(piece, ";", p) {
      OccursChar(piece, ";", p);
      assert piece[p] == v[p];
    }
    if |v| < |piece| {
      OccursChar(piece, ";", |v|);
      FindAt(piece, ";", 0, |v|);
    } else {
      assert piece == v;
      forall p | 0 <= p ensures !Occurs(piece, ";", p) {
        OccursChar(piece, ";", p);
        if p < |piece| { assert piece[p] == v[p]; }
      }
    }
    SplitHead(piece, ";");
  }

  /** With `v` free of `;` and of `Parent=`, the id is `v` with every `transcript:`
      removed, whatever precedes the first `Parent=` and whatever follows the `;`. */
  lemma {:induction false} TranscriptIdOfParent(a: string, v: string, rest: string)
    requires !Contains(a, "Parent=")
    requires ';' !in v && !Contains(v, "Parent=")
    requires rest == "" || rest[0] == ';'
    ensures TranscriptId(a + "Parent=" + v + rest) == Replace(v, "transcript:", "")
  {
    var tail := v + rest;
    assert a + "Parent=" + v + rest == a + "Parent=" + tail;
    SplitAfterKey(a, tail);
    ValueOfTail(v, rest);
  }

  /** The value after the key: `tail.split("Parent=")[0].split(";")[0]` of `v + rest` is `v`. */
  lemma {:induction false} ValueOfTail(v: string, rest: string)
    requires ';' !in v && !Contains(v, "Parent=")
    requires rest == "" || rest[0] == ';'
    ensures Split(Split(v + rest, "Parent=")[0], ";")[0] == v
  {
    KeyCutKeepsValue(v, rest);
    SemicolonHead(Split(v + rest, "Parent=")[0], v);
  }

  /** Ensembl-style `transcript:` prefixes are dropped. */
  lemma {:induction false} DropTranscriptPrefix(w: string)
    requires !Contains(w, "transcript:")
    ensures Replace("transcript:" + w, "transcript:", "") == w
  {
    var T := "transcript:";
    assert Occurs(T + w, T, 0);
    FindAt(T + w, T, 0, 0);
    assert (T + w)[|T|..] == w;
  }
}
