/**
 * How the scanner reads a FASTA file: each line is stripped; blank lines are
 * ignored; a line starting with `>` opens a chromosome named by its first
 * word; the other lines are that chromosome's sequence. A header with no
 * word raises, which ends the scan.
 */
module Fasta {
  import opened Text

  /** A chromosome of the file: its name and its concatenated sequence lines. */
  datatype Chrom = Chrom(name: string, bases: string)

  /** A stripped, non-empty line starting with `>`. */
  predicate IsHeader(line: string)
  {
    var t := Strip(line);
    t != "" && t[0] == '>'
  }

  /** `line[1:].split()[0]`, or None where that raises. */
  function HeaderName(line: string): (r: Option<string>)
    requires IsHeader(line)
    ensures r.None? <==> AllSpace(Strip(line)[1..])
    ensures r.Some? ==> r.value != ""
  {
    FirstToken(Strip(line)[1..])
  }

  /** The stripped sequence lines up to the next header, concatenated. */
  function Body(lines: seq<string>): string
  {
    if lines == [] || IsHeader(lines[0]) then "" else Strip(lines[0]) + Body(lines[1..])
  }

  /** No line is a header: the lines continue the current sequence. */
  predicate SequenceLines(lines: seq<string>)
  {
    lines == [] || (!IsHeader(lines[0]) && SequenceLines(lines[1..]))
  }

  /** Sequence lines followed by more lines: their stripped text comes first. */
  lemma {:induction false} BodyAppend(a: seq<string>, b: seq<string>)
    requires SequenceLines(a)
    ensures Body(a + b) == Body(a) + Body(b)
    decreases |a|
  {
    if a == [] {
      assert a + b == b;
    } else {
      var tail := a[1..];
      BodyAppend(tail, b);
      BodyCons(a, b);
      ConcatAssoc(Strip(a[0]), Body(tail), Body(b));
    }
  }

  /** A header right after sequence lines ends the sequence. */
  lemma {:induction false} BodyBeforeHeader(a: seq<string>, b: seq<string>)
    requires SequenceLines(a) && b != [] && IsHeader(b[0])
    ensures Body(a + b) == Body(a)
  {
    BodyAppend(a, b);
    assert Body(a) + "" == Body(a);
  }

  lemma {:induction false} ConcatAssoc(x: string, y: string, z: string)
    ensures x + (y + z) == (x + y) + z
  {
  }

  lemma {:induction false} BodyCons(a: seq<string>, b: seq<string>)
    requires a != [] && !IsHeader(a[0])
    ensures Body(a + b) == Strip(a[0]) + Body(a[1..] + b)
    ensures Body(a) == Strip(a[0]) + Body(a[1..])
  {
    var t := a + b;
    assert t[0] == a[0] && t[1..] == a[1..] + b;
  }

  /** The chromosomes of a file, in order; a header without a name ends the file. */
  function Chroms(lines: seq<string>): (r: seq<Chrom>)
    ensures |r| <= |lines|
  {
    if lines == [] then []
    else if IsHeader(lines[0]) then
      match HeaderName(lines[0])
      case None => []
      case Some(name) => [Chrom(name, Body(lines[1..]))] + Chroms(lines[1..])
    else Chroms(lines[1..])
  }

  /** Every chromosome is named by a non-empty header token. */
  lemma {:induction false} ChromsNamed(lines: seq<string>)
    ensures forall i :: 0 <= i < |Chroms(lines)| ==> Chroms(lines)[i].name != ""
    decreases |lines|
  {
    if lines != [] {
      ChromsNamed(lines[1..]);
    }
  }

  /** The file starts with a header (possibly after blank lines). */
  predicate NoPreamble(lines: seq<string>)
  {
    Body(lines) == ""
  }

  /** The chromosome being read, as a list of zero or one chromosomes. */
  function Current(cur: Option<string>, bases: string): seq<Chrom>
  {
    match cur
    case None => []
    case Some(name) => [Chrom(name, bases)]
  }

  // ---------------------------------------------------------------------
  // Reading one line further
  // ---------------------------------------------------------------------

  lemma {:induction false} ChromsAtHeader(lines: seq<string>, i: int, name: string)
    requires 0 <= i < |lines| && IsHeader(lines[i]) && HeaderName(lines[i]) == Some(name)
    ensures Chroms(lines[i..]) == [Chrom(name, Body(lines[i + 1..]))] + Chroms(lines[i + 1..])
  {
    assert lines[i..][1..] == lines[i + 1..];
  }

  lemma {:induction false} BodyAtLine(lines: seq<string>, i: int)
    requires 0 <= i < |lines| && !IsHeader(lines[i])
    ensures Body(lines[i..]) == Strip(lines[i]) + Body(lines[i + 1..])
    ensures Chroms(lines[i..]) == Chroms(lines[i + 1..])
  {
    assert lines[i..][1..] == lines[i + 1..];
  }

}
