/**
 * The Python string built-ins the ingestion script relies on, as pure
 * functions over `seq<char>`: `str.isspace`, `str.strip()`, `str.split(sep)`,
 * `sep.join`, `str.find`, `str.replace`, `int(str)`, `str(int)`, `str.upper()`
 * and `str.split()[0]`.
 */
module Text {

  datatype Option<T> = None | Some(value: T)

  /** Python's `str.isspace` for one character. */
  predicate IsSpace(c: char)
  {
    ('\t' <= c <= '\r') || ('\U{1C}' <= c <= ' ') || c == '\U{85}' || c == '\U{A0}'
    || c == '\U{1680}' || ('\U{2000}' <= c <= '\U{200A}') || c == '\U{2028}' || c == '\U{2029}'
    || c == '\U{202F}' || c == '\U{205F}' || c == '\U{3000}'
  }

  predicate AllSpace(s: string)
  {
    forall i :: 0 <= i < |s| ==> IsSpace(s[i])
  }

  predicate StartsWith(s: string, prefix: string)
  {
    prefix <= s
  }

  // ---------------------------------------------------------------------
  // strip()
  // ---------------------------------------------------------------------

  function LeadingSpaces(s: string): (n: nat)
    ensures n <= |s|
  {
    if s == [] || !IsSpace(s[0]) then 0 else 1 + LeadingSpaces(s[1..])
  }

  function TrailingSpaces(s: string): (n: nat)
    ensures n <= |s|
  {
    if s == [] || !IsSpace(s[|s| - 1]) then 0 else 1 + TrailingSpaces(s[..|s| - 1])
  }

  /** The leading run of whitespace is maximal. */
  lemma {:induction false} LeadingSpacesSpec(s: string)
    ensures AllSpace(s[..LeadingSpaces(s)])
    ensures LeadingSpaces(s) < |s| ==> !IsSpace(s[LeadingSpaces(s)])
    decreases |s|
  {
    if s != [] && IsSpace(s[0]) {
      LeadingSpacesSpec(s[1..]);
      var n := LeadingSpaces(s[1..]);
      assert s[..n + 1] == [s[0]] + s[1..][..n];
    }
  }

  /** The trailing run of whitespace is maximal. */
  lemma {:induction false} TrailingSpacesSpec(s: string)
    ensures AllSpace(s[|s| - TrailingSpaces(s)..])
    ensures TrailingSpaces(s) < |s| ==> !IsSpace(s[|s| - 1 - TrailingSpaces(s)])
    decreases |s|
  {
    if s != [] && IsSpace(s[|s| - 1]) {
      var t := s[..|s| - 1];
      TrailingSpacesSpec(t);
      TrailingStep(s, t, TrailingSpaces(t));
    }
  }

  /** One more whitespace character at the end extends a maximal trailing run of `n` by one. */
  lemma {:induction false} TrailingStep(s: string, t: string, n: nat)
    requires s != [] && t == s[..|s| - 1] && IsSpace(s[|s| - 1]) && n <= |t|
    requires AllSpace(t[|t| - n..]) && (n < |t| ==> !IsSpace(t[|t| - 1 - n]))
    ensures AllSpace(s[|s| - (n + 1)..])
    ensures n + 1 < |s| ==> !IsSpace(s[|s| - 1 - (n + 1)])
  {
    assert s[|s| - (n + 1)..] == t[|t| - n..] + [s[|s| - 1]];
    AllSpaceSnoc(t[|t| - n..], s[|s| - 1]);
    if n < |t| {
      assert s[|s| - 1 - (n + 1)] == t[|t| - 1 - n];
    }
  }

  lemma {:induction false} AllSpaceSnoc(x: string, c: char)
    requires AllSpace(x) && IsSpace(c)
    ensures AllSpace(x + [c])
  {
    var y := x + [c];
    forall i | 0 <= i < |y| ensures IsSpace(y[i]) {
      if i < |x| {
        assert y[i] == x[i];
      }
    }
  }

  /** Python's `s.strip()`: the longest slice of `s` that neither starts nor ends with whitespace. */
  function Strip(s: string): (r: string)
    ensures |r| <= |s|
    ensures r == "" || (!IsSpace(r[0]) && !IsSpace(r[|r| - 1]))
  {
    var a := LeadingSpaces(s);
    var e := |s| - TrailingSpaces(s);
    StripBounds(s, a, e);
    if a < e then s[a..e] else ""
  }

  /** What `Strip` keeps and what it drops. */
  lemma {:induction false} StripSpec(s: string)
    ensures var r := Strip(s);
      && (r == "" || (!IsSpace(r[0]) && !IsSpace(r[|r| - 1])))
      && LeadingSpaces(s) + |r| <= |s|
      && r == s[LeadingSpaces(s)..LeadingSpaces(s) + |r|]
      && AllSpace(s[LeadingSpaces(s) + |r|..])
      && (r == "" <==> AllSpace(s))
  {
    StripBounds(s, LeadingSpaces(s), |s| - TrailingSpaces(s));
  }

  lemma {:induction false} StripBounds(s: string, a: nat, e: int)
    requires a == LeadingSpaces(s) && e == |s| - TrailingSpaces(s)
    ensures a < e ==> !IsSpace(s[a]) && !IsSpace(s[e - 1]) && AllSpace(s[e..])
    ensures a < e <==> !AllSpace(s)
    ensures a >= e ==> AllSpace(s[a..])
  {
    LeadingSpacesSpec(s);
    TrailingSpacesSpec(s);
    assert AllSpace(s[e..]);
    if a >= e {
      assert a == |s| && s[..a] == s;
    }
    assert a < |s| ==> !IsSpace(s[a]);
  }

  lemma {:induction false} StripClean(s: string)
    requires s != "" && !IsSpace(s[0]) && !IsSpace(s[|s| - 1])
    ensures Strip(s) == s
  {
  }

  /** The line terminator that `for line in f` leaves on each line is removed by `strip()`. */
  lemma {:induction false} StripNewline(s: string)
    ensures Strip(s + "\n") == Strip(s)
  {
    var t := s + "\n";
    assert t[..|s|] == s && t[|s|] == '\n';
    assert TrailingSpaces(t) == 1 + TrailingSpaces(s);
    LeadingAppendSpace(s, '\n');
    var a, e := LeadingSpaces(s), |s| - TrailingSpaces(s);
    if a < |s| {
      assert a < e ==> t[a..e] == s[a..e];
    }
  }

  /** Whitespace appended to `s` joins its leading run only when `s` is all whitespace. */
  lemma {:induction false} LeadingAppendSpace(s: string, c: char)
    requires IsSpace(c)
    ensures LeadingSpaces(s + [c]) == if LeadingSpaces(s) == |s| then |s| + 1 else LeadingSpaces(s)
    decreases |s|
  {
    var t := s + [c];
    if s == [] {
      assert t == [c] && t[1..] == [];
    } else if IsSpace(s[0]) {
      assert t[0] == s[0] && t[1..] == s[1..] + [c];
      LeadingAppendSpace(s[1..], c);
    } else {
      assert t[0] == s[0];
    }
  }

  // ---------------------------------------------------------------------
  // find, split, join, replace
  // ---------------------------------------------------------------------

  /** `sub` occurs in `s` starting at index `p`. */
  predicate Occurs(s: string, sub: string, p: int)
  {
    0 <= p && p + |sub| <= |s| && s[p..p + |sub|] == sub
  }

  /** A one-character pattern occurs exactly where that character is. */
  lemma {:induction false} OccursChar(s: string, sub: string, p: int)
    requires |sub| == 1
    ensures Occurs(s, sub, p) <==> 0 <= p < |s| && s[p] == sub[0]
  {
    if 0 <= p < |s| {
      assert s[p..p + 1] == [s[p]];
    }
  }

  /** Python's `sub in s`. */
  predicate Contains(s: string, sub: string)
  {
    exists p :: 0 <= p <= |s| - |sub| && Occurs(s, sub, p)
  }

  /** Python's `s.find(sub, start)`: the least occurrence at or after `start`, or -1. */
  function Find(s: string, sub: string, start: nat): (r: int)
    ensures r == -1 || (start <= r && Occurs(s, sub, r))
    ensures forall p :: start <= p && (r == -1 || p < r) ==> !Occurs(s, sub, p)
    decreases |s| + 1 - start
  {
    if start + |sub| > |s| then -1
    else if s[start..start + |sub|] == sub then start
    else Find(s, sub, start + 1)
  }

  lemma {:induction false} FindAt(s: string, sub: string, start: nat, k: int)
    requires start <= k && Occurs(s, sub, k)
    requires forall p :: start <= p < k ==> !Occurs(s, sub, p)
    ensures Find(s, sub, start) == k
  {
  }

  lemma {:induction false} ContainsFind(s: string, sub: string)
    ensures Contains(s, sub) <==> Find(s, sub, 0) != -1
  {
  }

  /** Python's `sep.join(parts)`. */
  function Join(parts: seq<string>, sep: string): string
  {
    if parts == [] then ""
    else if |parts| == 1 then parts[0]
    else parts[0] + sep + Join(parts[1..], sep)
  }

  lemma {:induction false} OccursInPrefix(s: string, sub: string, i: nat, p: int)
    requires i <= |s| && Occurs(s[..i], sub, p)
    ensures Occurs(s, sub, p) && p + |sub| <= i
  {
    assert s[..i][p..p + |sub|] == s[p..p + |sub|];
  }

  /** Python's `s.split(sep)` for a non-empty separator, cutting left to right. */
  function Split(s: string, sep: string): (r: seq<string>)
    requires sep != ""
    ensures |r| >= 1
    ensures Join(r, sep) == s
    ensures forall i :: 0 <= i < |r| ==> !Contains(r[i], sep)
    ensures |r| == 1 <==> !Contains(s, sep)
    decreases |s|
  {
    var i := Find(s, sep, 0);
    if i == -1 then
      [s]
    else
      var rest := Split(s[i + |sep|..], sep);
      SplitStep(s, sep, i, rest);
      [s[..i]] + rest
  }

  lemma {:induction false} SplitStep(s: string, sep: string, i: int, rest: seq<string>)
    requires sep != "" && i == Find(s, sep, 0) && i != -1
    requires |rest| >= 1 && Join(rest, sep) == s[i + |sep|..]
    requires forall k :: 0 <= k < |rest| ==> !Contains(rest[k], sep)
    ensures Join([s[..i]] + rest, sep) == s
    ensures forall k :: 0 <= k < |rest| + 1 ==> !Contains(([s[..i]] + rest)[k], sep)
    ensures Contains(s, sep)
  {
    JoinCons(s[..i], rest, sep);
    CutAt(s, i, |sep|);
    FirstPieceHasNoSep(s, sep, i);
    PiecesHaveNoSep(s[..i], rest, sep);
    assert Occurs(s, sep, i);
  }

  lemma {:induction false} PiecesHaveNoSep(x: string, rest: seq<string>, sep: string)
    requires !Contains(x, sep)
    requires forall k :: 0 <= k < |rest| ==> !Contains(rest[k], sep)
    ensures forall k :: 0 <= k < |rest| + 1 ==> !Contains(([x] + rest)[k], sep)
  {
    var r := [x] + rest;
    forall k | 0 <= k < |r| ensures !Contains(r[k], sep) {
      if k > 0 { assert r[k] == rest[k - 1]; }
    }
  }

  lemma {:induction false} JoinCons(x: string, rest: seq<string>, sep: string)
    requires |rest| >= 1
    ensures Join([x] + rest, sep) == x + sep + Join(rest, sep)
  {
    assert ([x] + rest)[1..] == rest;
  }

  lemma {:induction false} CutAt(s: string, i: nat, n: nat)
    requires i + n <= |s|
    ensures s == s[..i] + s[i..i + n] + s[i + n..]
  {
  }

  lemma {:induction false} FirstPieceHasNoSep(s: string, sep: string, i: int)
    requires sep != "" && i == Find(s, sep, 0) && i != -1
    ensures !Contains(s[..i], sep)
  {
    forall p | 0 <= p <= i - |sep| && Occurs(s[..i], sep, p) ensures false {
      OccursInPrefix(s, sep, i, p);
    }
  }

  /** Splitting what was joined with a one-character separator gives back the parts. */
  lemma {:induction false} SplitJoin(parts: seq<string>, c: char)
    requires |parts| >= 1
    requires forall i :: 0 <= i < |parts| ==> c !in parts[i]
    ensures Split(Join(parts, [c]), [c]) == parts
    decreases |parts|
  {
    var h := parts[0];
    if |parts| == 1 {
      SplitWithoutSep(h, c);
    } else {
      var rest := parts[1..];
      JoinCons(h, rest, [c]);
      assert parts == [h] + rest;
      assert forall i :: 0 <= i < |rest| ==> c !in rest[i] by {
        forall i | 0 <= i < |rest| ensures c !in rest[i] { assert rest[i] == parts[i + 1]; }
      }
      SplitJoin(rest, c);
      SplitAtFirst(h, c, Join(rest, [c]));
    }
  }

  lemma {:induction false} SplitWithoutSep(h: string, c: char)
    requires c !in h
    ensures Split(h, [c]) == [h]
  {
    forall p | 0 <= p < |h| ensures !Occurs(h, [c], p) {
      OccursChar(h, [c], p);
    }
    assert Find(h, [c], 0) == -1;
  }

  /** The first `c` of `h + [c] + tail`, with no `c` in `h`, is the one after `h`. */
  lemma {:induction false} SplitAtFirst(h: string, c: char, tail: string)
    requires c !in h
    ensures Split(h + [c] + tail, [c]) == [h] + Split(tail, [c])
  {
    var s := h + [c] + tail;
    forall p | 0 <= p < |h| ensures !Occurs(s, [c], p) {
      OccursChar(s, [c], p);
      assert s[p] == h[p];
    }
    OccursChar(s, [c], |h|);
    FindAt(s, [c], 0, |h|);
    assert s[..|h|] == h && s[|h| + 1..] == tail;
  }

  /** Python's `s.replace(old, new)` for a non-empty `old`. */
  function Replace(s: string, pat: string, rep: string): (r: string)
    requires pat != ""
    ensures !Contains(s, pat) ==> r == s
    decreases |s|
  {
    var i := Find(s, pat, 0);
    if i == -1 then s else s[..i] + rep + Replace(s[i + |pat|..], pat, rep)
  }

  /** Replacing a pattern by text without `c` never introduces a `c`. */
  lemma {:induction false} ReplaceKeepsOut(s: string, pat: string, rep: string, c: char)
    requires pat != "" && c !in s && c !in rep
    ensures c !in Replace(s, pat, rep)
    decreases |s|
  {
    var i := Find(s, pat, 0);
    if i != -1 {
      var rest := s[i + |pat|..];
      SliceKeepsOut(s, c, 0, i);
      SliceKeepsOut(s, c, i + |pat|, |s|);
      ReplaceKeepsOut(rest, pat, rep, c);
      ConcatKeepsOut(s[..i], rep, Replace(rest, pat, rep), c);
    }
  }

  lemma {:induction false} SliceKeepsOut(s: string, c: char, lo: int, hi: int)
    requires 0 <= lo <= hi <= |s| && c !in s
    ensures c !in s[lo..hi]
  {
    forall k | 0 <= k < hi - lo ensures s[lo..hi][k] != c { assert s[lo..hi][k] == s[lo + k]; }
  }

  lemma {:induction false} ConcatKeepsOut(a: string, b: string, d: string, c: char)
    requires c !in a && c !in b && c !in d
    ensures c !in a + b + d
  {
    forall k | 0 <= k < |a + b + d| ensures (a + b + d)[k] != c {
      if k < |a| { assert (a + b + d)[k] == a[k]; }
      else if k < |a| + |b| { assert (a + b + d)[k] == b[k - |a|]; }
      else { assert (a + b + d)[k] == d[k - |a| - |b|]; }
    }
  }

  /** Python's `s[-k:]` for `k >= 0`: the last `k` elements, except that `s[-0:]` is all of `s`. */
  function PythonTail(s: string, k: nat): (r: string)
    ensures k == 0 ==> r == s
    ensures |r| <= |s| && r == s[|s| - |r|..]
    ensures 0 < k ==> |r| == if k <= |s| then k else |s|
  {
    if k == 0 || k >= |s| then s else s[|s| - k..]
  }

  /** Python's identity `s.replace(a, b) == b.join(s.split(a))`. */
  lemma {:induction false} ReplaceIsJoinOfSplit(s: string, pat: string, rep: string)
    requires pat != ""
    ensures Replace(s, pat, rep) == Join(Split(s, pat), rep)
    decreases |s|
  {
    var i := Find(s, pat, 0);
    if i != -1 {
      var rest := s[i + |pat|..];
      ReplaceIsJoinOfSplit(rest, pat, rep);
      var parts := Split(s, pat);
      assert parts == [s[..i]] + Split(rest, pat);
      assert parts[1..] == Split(rest, pat);
    }
  }

  // ---------------------------------------------------------------------
  // int() and str()
  // ---------------------------------------------------------------------

  predicate IsDigit(c: char)
  {
    '0' <= c <= '9'
  }

  predicate AllDigits(s: string)
  {
    forall i :: 0 <= i < |s| ==> IsDigit(s[i])
  }

  function DigitValue(c: char): nat
    requires IsDigit(c)
  {
    (c as int) - ('0' as int)
  }

  function DigitChar(d: nat): (c: char)
    requires d < 10
    ensures IsDigit(c) && DigitValue(c) == d
  {
    (('0' as int) + d) as char
  }

  /** The value of a string of decimal digits, most significant first. */
  function DigitsValue(ds: string): nat
    requires AllDigits(ds)
  {
    if ds == [] then 0 else DigitsValue(ds[..|ds| - 1]) * 10 + DigitValue(ds[|ds| - 1])
  }

  /** An optional sign and then one or more decimal digits. */
  predicate IsIntLiteral(t: string)
  {
    t != "" && if t[0] == '-' || t[0] == '+' then t[1..] != "" && AllDigits(t[1..]) else AllDigits(t)
  }

  /**
   * The four information separators U+001C..U+001F: `str.isspace` holds for
   * them, but `int()` does not skip them as whitespace.
   */
  predicate IsSeparatorControl(c: char)
  {
    '\U{1C}' <= c <= '\U{1F}'
  }

  /** The whitespace `int()` skips around its digits. */
  predicate IntSpace(c: char)
  {
    IsSpace(c) && !IsSeparatorControl(c)
  }

  predicate AllIntSpace(s: string)
  {
    forall i :: 0 <= i < |s| ==> IntSpace(s[i])
  }

  predicate NoSeparatorControl(s: string)
  {
    forall i :: 0 <= i < |s| ==> !IsSeparatorControl(s[i])
  }

  /**
   * CPython's default `sys.get_int_max_str_digits()`: `int()` raises on a
   * decimal literal of more digits, leading zeros included, and `str()`
   * raises on an integer that needs more.
   */
  const MaxStrDigits := 4300

  /** The number of digits of a literal, its sign not counted. */
  function DigitCount(t: string): nat
  {
    if t != "" && (t[0] == '-' || t[0] == '+') then |t| - 1 else |t|
  }

  /**
   * Python's `int(s)` on a `str`: surrounding whitespace, an optional sign,
   * then at most `MaxStrDigits` decimal digits. A literal holds no separator
   * control, so one anywhere in `s` is padding that `int()` rejects (see
   * `ParseIntPadding`).
   */
  function ParseInt(s: string): (r: Option<int>)
    ensures r.Some? <==> IsIntLiteral(Strip(s)) && NoSeparatorControl(s) && DigitCount(Strip(s)) <= MaxStrDigits
    ensures r.Some? ==> (r.value < 0 ==> Strip(s)[0] == '-')
  {
    var t := Strip(s);
    if t == "" || !NoSeparatorControl(s) || DigitCount(t) > MaxStrDigits then None
    else if t[0] == '-' || t[0] == '+' then
      var ds := t[1..];
      if ds != "" && AllDigits(ds) then
        var v: int := DigitsValue(ds);
        Some(if t[0] == '-' then -v else v)
      else None
    else if AllDigits(t) then Some(DigitsValue(t))
    else None
  }

  /**
   * `int(s)` succeeds exactly when `s` is a literal padded on both sides with
   * the whitespace `int()` skips: the padding that `strip()` drops must hold
   * no separator control.
   */
  lemma {:induction false} ParseIntPadding(s: string)
    ensures var a, t := LeadingSpaces(s), Strip(s);
      a + |t| <= |s| &&
      (ParseInt(s).Some? <==>
        IsIntLiteral(t) && DigitCount(t) <= MaxStrDigits && AllIntSpace(s[..a]) && AllIntSpace(s[a + |t|..]))
  {
    StripSpec(s);
    LeadingSpacesSpec(s);
    var a, t := LeadingSpaces(s), Strip(s);
    var p, q := s[..a], s[a + |t|..];
    assert s == p + t + q;
    if IsIntLiteral(t) && AllIntSpace(p) && AllIntSpace(q) {
      JoinNoControl(p, t, q);
    }
    if NoSeparatorControl(s) {
      NoControlParts(p, t, q);
    }
  }

  lemma {:induction false} JoinNoControl(p: string, t: string, q: string)
    requires AllIntSpace(p) && IsIntLiteral(t) && AllIntSpace(q)
    ensures NoSeparatorControl(p + t + q)
  {
    var s := p + t + q;
    forall i | 0 <= i < |s|
      ensures !IsSeparatorControl(s[i])
    {
      if i < |p| {
        assert s[i] == p[i];
      } else if i < |p| + |t| {
        assert s[i] == t[i - |p|];
        LiteralChar(t, i - |p|);
      } else {
        assert s[i] == q[i - |p| - |t|];
      }
    }
  }

  lemma {:induction false} NoControlParts(p: string, t: string, q: string)
    requires NoSeparatorControl(p + t + q) && AllSpace(p) && AllSpace(q)
    ensures AllIntSpace(p) && AllIntSpace(q)
  {
    var s := p + t + q;
    forall i | 0 <= i < |p| ensures IntSpace(p[i]) {
      assert p[i] == s[i];
    }
    forall i | 0 <= i < |q| ensures IntSpace(q[i]) {
      assert q[i] == s[|p| + |t| + i];
    }
  }

  /** No character of an integer literal is a separator control. */
  lemma {:induction false} LiteralChar(t: string, i: int)
    requires IsIntLiteral(t) && 0 <= i < |t|
    ensures !IsSeparatorControl(t[i])
  {
    if i > 0 && (t[0] == '-' || t[0] == '+') {
      assert t[i] == t[1..][i - 1];
    }
  }

  /** Python's `str(n)` for a natural number. */
  function ShowNat(n: nat): (s: string)
    ensures s != "" && AllDigits(s)
  {
    if n < 10 then [DigitChar(n)] else ShowNat(n / 10) + [DigitChar(n % 10)]
  }

  /** Python's `str(n)`. */
  function ShowInt(n: int): (s: string)
    ensures s != "" && !IsSpace(s[0]) && !IsSpace(s[|s| - 1])
  {
    if n < 0 then "-" + ShowNat(-n) else ShowNat(n)
  }

  lemma {:induction false} ShowNatValue(n: nat)
    ensures DigitsValue(ShowNat(n)) == n
  {
    if n >= 10 {
      ShowNatValue(n / 10);
      var s := ShowNat(n);
      assert s[..|s| - 1] == ShowNat(n / 10);
    }
  }

  lemma {:induction false} ShowIntNoControl(n: int)
    ensures NoSeparatorControl(ShowInt(n))
  {
    var s := ShowInt(n);
    forall i | 0 <= i < |s| ensures !IsSeparatorControl(s[i]) {
      if n < 0 && i > 0 {
        assert s[i] == ShowNat(-n)[i - 1];
      }
    }
  }

  /** `int(str(n)) == n` for every `n` that `str()` can print. */
  lemma {:induction false} IntRoundTrip(n: int)
    requires DigitCount(ShowInt(n)) <= MaxStrDigits
    ensures ParseInt(ShowInt(n)) == Some(n)
  {
    var s := ShowInt(n);
    StripClean(s);
    ShowIntNoControl(n);
    if n < 0 {
      ShowNatValue(-n);
      assert s[1..] == ShowNat(-n);
    } else {
      ShowNatValue(n);
      assert IsDigit(s[0]);
    }
  }

  predicate AllZeros(z: string)
  {
    forall i :: 0 <= i < |z| ==> z[i] == '0'
  }

  /** A magnitude with the sign `int()` read in front of it. */
  function Signed(sign: string, v: nat): int
  {
    if sign == "-" then 0 - v else v
  }

  /** `strip()` of a literal padded with whitespace is the literal. */
  lemma {:induction false} StripPadded(p: string, t: string, q: string)
    requires AllSpace(p) && AllSpace(q)
    requires t != "" && !IsSpace(t[0]) && !IsSpace(t[|t| - 1])
    ensures Strip(p + t + q) == t
  {
    var s := p + t + q;
    assert s == p + (t + q);
    LeadingOfPadded(p, t + q);
    TrailingOfPadded(p + t, q);
    assert s[|p|..|s| - |q|] == t;
  }

  lemma {:induction false} LeadingOfPadded(p: string, u: string)
    requires AllSpace(p) && u != [] && !IsSpace(u[0])
    ensures LeadingSpaces(p + u) == |p|
    decreases |p|
  {
    if p == [] {
      assert p + u == u;
    } else {
      assert (p + u)[0] == p[0] && (p + u)[1..] == p[1..] + u;
      LeadingOfPadded(p[1..], u);
    }
  }

  lemma {:induction false} TrailingOfPadded(u: string, q: string)
    requires AllSpace(q) && u != [] && !IsSpace(u[|u| - 1])
    ensures TrailingSpaces(u + q) == |q|
    decreases |q|
  {
    var s := u + q;
    if q == [] {
      assert s == u;
    } else {
      assert s[|s| - 1] == q[|q| - 1] && s[..|s| - 1] == u + q[..|q| - 1];
      TrailingOfPadded(u, q[..|q| - 1]);
    }
  }

  lemma {:induction false} IntSpaceIsSpace(p: string)
    requires AllIntSpace(p)
    ensures AllSpace(p)
  {
    forall i | 0 <= i < |p| ensures IsSpace(p[i]) {
      assert IntSpace(p[i]);
    }
  }

  /**
   * The value `int()` gives a padded literal: the value of its digits,
   * negated after a `-` sign.
   */
  lemma {:induction false} ParseIntValue(p: string, sign: string, ds: string, q: string)
    requires AllIntSpace(p) && AllIntSpace(q)
    requires sign == "" || sign == "+" || sign == "-"
    requires ds != "" && AllDigits(ds) && |ds| <= MaxStrDigits
    ensures var r := ParseInt(p + sign + ds + q);
      r == Some(Signed(sign, DigitsValue(ds)))
  {
    var t := sign + ds;
    assert p + sign + ds + q == p + t + q;
    SignedLiteral(sign, ds);
    IntSpaceIsSpace(p);
    IntSpaceIsSpace(q);
    StripPadded(p, t, q);
    JoinNoControl(p, t, q);
    LiteralValue(p + t + q, sign, ds);
  }

  lemma {:induction false} SignedLiteral(sign: string, ds: string)
    requires sign == "" || sign == "+" || sign == "-"
    requires ds != "" && AllDigits(ds)
    ensures var t := sign + ds;
      IsIntLiteral(t) && DigitCount(t) == |ds| && !IsSpace(t[0]) && !IsSpace(t[|t| - 1])
  {
    var t := sign + ds;
    assert IsDigit(ds[0]) && IsDigit(ds[|ds| - 1]);
    assert t[|t| - 1] == ds[|ds| - 1];
    if sign != "" {
      assert t[1..] == ds;
    } else {
      assert t == ds;
    }
  }

  lemma {:induction false} LiteralValue(s: string, sign: string, ds: string)
    requires sign == "" || sign == "+" || sign == "-"
    requires ds != "" && AllDigits(ds) && |ds| <= MaxStrDigits
    requires Strip(s) == sign + ds && NoSeparatorControl(s)
    ensures var r := ParseInt(s);
      r == Some(Signed(sign, DigitsValue(ds)))
  {
    var t := sign + ds;
    var v: int := DigitsValue(ds);
    assert t != "" && NoSeparatorControl(s);
    if sign == "-" {
      assert t[0] == '-' && t[1..] == ds;
      assert DigitCount(t) == |ds|;
      assert ParseInt(s) == Some(-v);
    } else if sign == "+" {
      assert t[0] == '+' && t[1..] == ds;
      assert DigitCount(t) == |ds|;
      assert ParseInt(s) == Some(v);
    } else {
      assert IsDigit(ds[0]) && t == ds;
      assert DigitCount(t) == |ds|;
      assert ParseInt(s) == Some(v);
    }
  }

  /** Leading zeros do not change the value of a string of digits. */
  lemma {:induction false} LeadingZeros(z: string, ds: string)
    requires AllZeros(z) && AllDigits(ds)
    ensures AllDigits(z + ds) && DigitsValue(z + ds) == DigitsValue(ds)
    decreases |ds|
  {
    var s := z + ds;
    assert AllDigits(s) by {
      forall i | 0 <= i < |s| ensures IsDigit(s[i]) {
        if i < |z| {
          assert s[i] == z[i];
        } else {
          assert s[i] == ds[i - |z|];
        }
      }
    }
    if ds == [] {
      assert s == z;
      ZerosValue(z);
    } else {
      assert s[..|s| - 1] == z + ds[..|ds| - 1] && s[|s| - 1] == ds[|ds| - 1];
      LeadingZeros(z, ds[..|ds| - 1]);
    }
  }

  lemma {:induction false} ZerosValue(z: string)
    requires AllZeros(z)
    ensures AllDigits(z) && DigitsValue(z) == 0
    decreases |z|
  {
    if z != [] {
      ZerosValue(z[..|z| - 1]);
      assert z[|z| - 1] == '0';
    }
  }

  /**
   * `int(p + sign + zeros + str(n) + q) == ±n` for any natural `n`, any run
   * of zeros and any padding `int()` skips, within the digit limit.
   */
  lemma {:induction false} ParseIntCanonical(p: string, sign: string, zeros: string, n: nat, q: string)
    requires AllIntSpace(p) && AllIntSpace(q)
    requires sign == "" || sign == "+" || sign == "-"
    requires AllZeros(zeros) && |zeros| + |ShowNat(n)| <= MaxStrDigits
    ensures var r := ParseInt(p + sign + zeros + ShowNat(n) + q);
      r == Some(Signed(sign, n))
  {
    var ds := zeros + ShowNat(n);
    LeadingZeros(zeros, ShowNat(n));
    ShowNatValue(n);
    assert p + sign + zeros + ShowNat(n) + q == p + sign + ds + q;
    ParseIntValue(p, sign, ds, q);
  }

  // ---------------------------------------------------------------------
  // upper() and split()[0]
  // ---------------------------------------------------------------------

  function UpperChar(c: char): char
  {
    if 'a' <= c <= 'z' then ((c as int) - 32) as char else c
  }

  /** Python's `s.upper()` on ASCII letters; every other character is kept. */
  function Upper(s: string): (r: string)
    ensures |r| == |s|
  {
    seq(|s|, i requires 0 <= i < |s| => UpperChar(s[i]))
  }

  /** No lower-case letter is left, every other character is kept, and upper-casing twice changes nothing more. */
  lemma {:induction false} UpperSpec(s: string)
    ensures forall i :: 0 <= i < |s| ==> !('a' <= Upper(s)[i] <= 'z')
    ensures forall i :: 0 <= i < |s| && !('a' <= s[i] <= 'z') ==> Upper(s)[i] == s[i]
    ensures forall i :: 0 <= i < |s| && 'a' <= s[i] <= 'z' ==> Upper(s)[i] as int == s[i] as int - 32
    ensures Upper(Upper(s)) == Upper(s)
  {
  }

  lemma {:induction false} UpperSlice(s: string, a: nat, b: nat)
    requires a <= b <= |s|
    ensures Upper(s[a..b]) == Upper(s)[a..b]
  {
  }

  function TokenLength(s: string): (n: nat)
    ensures n <= |s|
    ensures forall i :: 0 <= i < n ==> !IsSpace(s[i])
    ensures n < |s| ==> IsSpace(s[n])
  {
    if s == [] || IsSpace(s[0]) then 0 else 1 + TokenLength(s[1..])
  }

  /** Python's `s.split()[0]`, or None where `s.split()` is empty (and indexing it raises). */
  function FirstToken(s: string): (r: Option<string>)
    ensures r.None? <==> AllSpace(s)
    ensures r.Some? ==> r.value != "" && |r.value| <= |s|
  {
    var a := LeadingSpaces(s);
    LeadingSpacesSpec(s);
    if a == |s| then
      assert s[..a] == s;
      None
    else
      assert s[a..][0] == s[a];
      Some(s[a..][..TokenLength(s[a..])])
  }

  /** The first word is the maximal run of non-whitespace after the leading whitespace. */
  lemma {:induction false} FirstTokenSpec(s: string)
    ensures var r := FirstToken(s);
      && (r.None? <==> AllSpace(s))
      && (r.Some? ==> r.value != "" && (forall i :: 0 <= i < |r.value| ==> !IsSpace(r.value[i])))
      && (r.Some? ==> var a := LeadingSpaces(s);
           a + |r.value| <= |s| && s[a..a + |r.value|] == r.value
           && (a + |r.value| == |s| || IsSpace(s[a + |r.value|])))
  {
    LeadingSpacesSpec(s);
    var a := LeadingSpaces(s);
    if a == |s| {
      assert s[..a] == s;
    } else {
      assert !AllSpace(s) by { assert !IsSpace(s[a]); }
    }
  }
}
