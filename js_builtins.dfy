/**
 * The few JavaScript built-ins the script relies on, stated on Dafny values:
 * `String.prototype.split` with a non-empty string separator,
 * `Array.prototype.join`, `String.prototype.trim`, `filter(Boolean)` on strings,
 * the IEEE number values that `Number(...)` produces and the end index that
 * `Array.prototype.slice(0, end)` computes from such a number.
 */
module JsBuiltins {
  import opened Wrappers

  // ---------------------------------------------------------------------------
  // split and join

  /** `sep` occurs in `s` at index `k`. */
  predicate OccursAt(s: string, sep: string, k: int) {
    0 <= k && k + |sep| <= |s| && s[k..k + |sep|] == sep
  }

  /** `sep` occurs nowhere in `s`. */
  ghost predicate Free(s: string, sep: string) {
    forall k :: !OccursAt(s, sep, k)
  }

  /**
   * Written in front of `sep`, the piece `p` is cut exactly at that `sep`:
   * no occurrence of `sep` in `p + sep` starts inside `p`.
   */
  ghost predicate Separated(p: string, sep: string) {
    forall k :: 0 <= k < |p| ==> !OccursAt(p + sep, sep, k)
  }

  /** The first occurrence of `sep` in `s` at or after `from`. */
  function IndexOf(s: string, sep: string, from: nat): (r: Option<nat>)
    requires from <= |s|
    ensures r.Some? ==> from <= r.value && OccursAt(s, sep, r.value)
    ensures forall k :: from <= k && (r.None? || k < r.value) ==> !OccursAt(s, sep, k)
    decreases |s| - from
  {
    if from + |sep| > |s| then None
    else if s[from..from + |sep|] == sep then Some(from)
    else IndexOf(s, sep, from + 1)
  }

  /** `s.split(sep)`: the pieces between the occurrences of `sep` found left to right. */
  function Split(s: string, sep: string): (parts: seq<string>)
    requires |sep| > 0
    ensures |parts| >= 1
    decreases |s|
  {
    match IndexOf(s, sep, 0)
    case None => [s]
    case Some(i) => [s[..i]] + Split(s[i + |sep|..], sep)
  }

  /** `parts.join(sep)`. */
  function Join(parts: seq<string>, sep: string): string
    decreases |parts|
  {
    if |parts| == 0 then ""
    else if |parts| == 1 then parts[0]
    else parts[0] + sep + Join(parts[1..], sep)
  }

  /** The pieces of a well-formed split: every piece but the last is cut exactly at the separator after it, and the last holds none. */
  ghost predicate SplitShape(parts: seq<string>, sep: string) {
    |parts| >= 1 &&
    (forall i :: 0 <= i < |parts| - 1 ==> Separated(parts[i], sep)) &&
    Free(parts[|parts| - 1], sep)
  }

  lemma SliceOfPrefix(a: string, b: string, k: nat, n: nat)
    requires k + n <= |a|
    ensures (a + b)[k..k + n] == a[k..k + n]
  {
  }

  lemma IndexOfFirst(s: string, sep: string, i: nat)
    requires OccursAt(s, sep, i)
    requires forall k :: 0 <= k < i ==> !OccursAt(s, sep, k)
    ensures IndexOf(s, sep, 0) == Some(i)
  {
  }

  /** Joining the pieces of a split gives back the string. */
  lemma {:induction false} SplitJoin(s: string, sep: string)
    requires |sep| > 0
    ensures Join(Split(s, sep), sep) == s
    decreases |s|
  {
    var r := IndexOf(s, sep, 0);
    if r.None? {
      assert Split(s, sep) == [s];
    } else {
      var i := r.value;
      var rest := s[i + |sep|..];
      var pieces := Split(rest, sep);
      assert Split(s, sep) == [s[..i]] + pieces;
      SplitJoin(rest, sep);
      JoinCons(s[..i], pieces, sep);
      assert s[i..i + |sep|] == sep;
      Recompose(s, i, i + |sep|);
    }
  }

  lemma Recompose(s: string, i: nat, j: nat)
    requires i <= j <= |s|
    ensures s[..i] + s[i..j] + s[j..] == s
  {
  }

  lemma FirstPieceSeparated(s: string, sep: string, i: nat)
    requires IndexOf(s, sep, 0) == Some(i)
    ensures Separated(s[..i], sep)
  {
    var p, rest := s[..i], s[i + |sep|..];
    assert s == (p + sep) + rest;
    forall k | 0 <= k < |p|
      ensures !OccursAt(p + sep, sep, k)
    {
      assert !OccursAt(s, sep, k);
      SliceOfPrefix(p + sep, rest, k, |sep|);
    }
  }

  lemma ShapeCons(p: string, parts: seq<string>, sep: string)
    requires Separated(p, sep) && SplitShape(parts, sep)
    ensures SplitShape([p] + parts, sep)
  {
    var all := [p] + parts;
    forall j | 0 <= j < |all| - 1
      ensures Separated(all[j], sep)
    {
      if j > 0 {
        assert all[j] == parts[j - 1];
      }
    }
    assert all[|all| - 1] == parts[|parts| - 1];
  }

  /** The pieces of a split have the shape of a well-formed split. */
  lemma {:induction false} SplitHasShape(s: string, sep: string)
    requires |sep| > 0
    ensures SplitShape(Split(s, sep), sep)
    decreases |s|
  {
    var r := IndexOf(s, sep, 0);
    if r.None? {
      assert Split(s, sep) == [s];
    } else {
      var i := r.value;
      var rest := s[i + |sep|..];
      assert Split(s, sep) == [s[..i]] + Split(rest, sep);
      SplitHasShape(rest, sep);
      FirstPieceSeparated(s, sep, i);
      ShapeCons(s[..i], Split(rest, sep), sep);
    }
  }

  lemma SplitFree(s: string, sep: string)
    requires |sep| > 0
    requires Free(s, sep)
    ensures Split(s, sep) == [s]
  {
    assert IndexOf(s, sep, 0).None?;
  }

  lemma SplitCons(p: string, tail: string, sep: string)
    requires |sep| > 0
    requires Separated(p, sep)
    ensures Split(p + sep + tail, sep) == [p] + Split(tail, sep)
  {
    var s := p + sep + tail;
    forall k | 0 <= k < |p|
      ensures !OccursAt(s, sep, k)
    {
      assert !OccursAt(p + sep, sep, k);
      SliceOfPrefix(p + sep, tail, k, |sep|);
    }
    assert s[|p|..|p| + |sep|] == sep;
    IndexOfFirst(s, sep, |p|);
    assert s[..|p|] == p;
    assert s[|p| + |sep|..] == tail;
  }

  /** A sequence of pieces in the shape of a split is what splitting their join gives back. */
  lemma {:induction false} JoinSplit(parts: seq<string>, sep: string)
    requires |sep| > 0
    requires SplitShape(parts, sep)
    ensures Split(Join(parts, sep), sep) == parts
    decreases |parts|
  {
    if |parts| == 1 {
      SplitFree(parts[0], sep);
    } else {
      var p, rest := parts[0], parts[1..];
      assert parts == [p] + rest;
      assert SplitShape(rest, sep) by {
        forall j | 0 <= j < |rest| - 1
          ensures Separated(rest[j], sep)
        {
          assert rest[j] == parts[j + 1];
        }
      }
      JoinSplit(rest, sep);
      JoinCons(p, rest, sep);
      SplitCons(p, Join(rest, sep), sep);
    }
  }

  lemma JoinCons(p: string, rest: seq<string>, sep: string)
    requires |rest| >= 1
    ensures Join([p] + rest, sep) == p + sep + Join(rest, sep)
  {
    assert ([p] + rest)[1..] == rest;
  }

  lemma {:induction false} JoinAppend(a: seq<string>, b: seq<string>, sep: string)
    requires |a| >= 1 && |b| >= 1
    ensures Join(a + b, sep) == Join(a, sep) + sep + Join(b, sep)
    decreases |a|
  {
    if |a| == 1 {
      assert (a + b)[1..] == b;
    } else {
      JoinAppend(a[1..], b, sep);
      assert (a + b)[1..] == a[1..] + b;
    }
  }

  lemma FreeSeparated(p: string, sep: string)
    requires |sep| == 1
    requires Free(p, sep)
    ensures Separated(p, sep)
  {
    forall k | 0 <= k < |p|
      ensures !OccursAt(p + sep, sep, k)
    {
      assert !OccursAt(p, sep, k);
      assert (p + sep)[k..k + 1] == p[k..k + 1];
    }
  }

  lemma AppendShape(pa: seq<string>, pb: seq<string>, sep: string)
    requires |sep| == 1
    requires SplitShape(pa, sep) && SplitShape(pb, sep)
    ensures SplitShape(pa + pb, sep)
  {
    FreeSeparated(pa[|pa| - 1], sep);
    var parts := pa + pb;
    forall j | 0 <= j < |parts| - 1
      ensures Separated(parts[j], sep)
    {
      if j >= |pa| {
        assert parts[j] == pb[j - |pa|];
      } else {
        assert parts[j] == pa[j];
      }
    }
    assert parts[|parts| - 1] == pb[|pb| - 1];
  }

  /** With a one-character separator, splitting around one occurrence of it splits both sides independently. */
  lemma SplitAppend(a: string, b: string, sep: string)
    requires |sep| == 1
    ensures Split(a + sep + b, sep) == Split(a, sep) + Split(b, sep)
  {
    var pa, pb := Split(a, sep), Split(b, sep);
    SplitHasShape(a, sep);
    SplitHasShape(b, sep);
    AppendShape(pa, pb, sep);
    JoinSplit(pa + pb, sep);
    SplitJoin(a, sep);
    SplitJoin(b, sep);
    JoinAppend(pa, pb, sep);
  }

  // ---------------------------------------------------------------------------
  // trim and filter(Boolean)

  /** The characters `trim` removes: ECMAScript's WhiteSpace (space separators included) and LineTerminator. */
  predicate IsWhiteSpace(c: char) {
    c == '\t' || c == '\U{B}' || c == '\U{C}' || c == ' ' || c == '\U{A0}' || c == '\U{FEFF}'
    || c == '\n' || c == '\r' || c == '\U{2028}' || c == '\U{2029}'
    || c == '\U{1680}' || ('\U{2000}' <= c <= '\U{200A}') || c == '\U{202F}' || c == '\U{205F}' || c == '\U{3000}'
  }

  predicate AllWhiteSpace(s: string) {
    forall k :: 0 <= k < |s| ==> IsWhiteSpace(s[k])
  }

  /** No white space at either end. */
  predicate Trimmed(s: string) {
    s == [] || (!IsWhiteSpace(s[0]) && !IsWhiteSpace(s[|s| - 1]))
  }

  /** `s` without its leading white space: a suffix of `s`, everything dropped being white space. */
  function TrimStart(s: string): (r: string)
    ensures |r| <= |s| && r == s[|s| - |r|..]
    ensures AllWhiteSpace(s[..|s| - |r|])
    ensures r == [] || !IsWhiteSpace(r[0])
    decreases |s|
  {
    if |s| > 0 && IsWhiteSpace(s[0]) then TrimStart(s[1..]) else s
  }

  /** `s` without its trailing white space: a prefix of `s`, everything dropped being white space. */
  function TrimEnd(s: string): (r: string)
    ensures |r| <= |s| && r == s[..|r|]
    ensures AllWhiteSpace(s[|r|..])
    ensures r == [] || !IsWhiteSpace(r[|r| - 1])
    decreases |s|
  {
    if |s| > 0 && IsWhiteSpace(s[|s| - 1]) then
      var r := TrimEnd(s[..|s| - 1]);
      assert s[|r|..] == s[..|s| - 1][|r|..] + [s[|s| - 1]];
      r
    else s
  }

  lemma TrimBlank(s: string)
    ensures TrimEnd(TrimStart(s)) == [] <==> AllWhiteSpace(s)
  {
    var t := TrimStart(s);
    var d := |s| - |t|;
    assert t != [] ==> t[0] == s[d];
    assert t[0..] == t;
    assert t == [] ==> s[..d] == s;
  }

  /** `s.trim()`. */
  function Trim(s: string): (r: string)
    ensures |r| <= |s| && Trimmed(r)
    ensures r == [] <==> AllWhiteSpace(s)
    ensures Trimmed(s) ==> r == s
  {
    var t := TrimStart(s);
    var r := TrimEnd(t);
    TrimBlank(s);
    assert r != [] ==> r[0] == t[0];
    r
  }

  /** `r` is `s` with `i` white-space characters cut from the front and only white space cut from the back. */
  predicate CutAtEnds(s: string, r: string, i: int) {
    0 <= i <= |s| - |r| && r == s[i..i + |r|] && AllWhiteSpace(s[..i]) && AllWhiteSpace(s[i + |r|..])
  }

  /** `trim` only cuts off white space at the two ends: what is left is a slice of `s`. */
  lemma TrimCutsEnds(s: string)
    ensures exists i :: CutAtEnds(s, Trim(s), i)
  {
    var t := TrimStart(s);
    var r := TrimEnd(t);
    assert r == Trim(s);
    SliceOfSlice(s, t, r);
    assert CutAtEnds(s, r, |s| - |t|);
  }

  /** `r` cut from the front of `t`, itself cut from the back of `s`, is a slice of `s`. */
  lemma SliceOfSlice(s: string, t: string, r: string)
    requires |t| <= |s| && t == s[|s| - |t|..] && AllWhiteSpace(s[..|s| - |t|])
    requires |r| <= |t| && r == t[..|r|] && AllWhiteSpace(t[|r|..])
    ensures CutAtEnds(s, r, |s| - |t|)
  {
    var i := |s| - |t|;
    assert s[i + |r|..] == t[|r|..];
  }

  /** White space in front of a string is lost to `trim`. */
  lemma TrimLeadingWhiteSpace(c: char, s: string)
    requires IsWhiteSpace(c)
    ensures Trim([c] + s) == Trim(s)
  {
    assert ([c] + s)[1..] == s;
    assert TrimStart([c] + s) == TrimStart(s);
  }

  /** `xs.filter(Boolean)` on strings: the non-empty ones, in their order. */
  function NonEmpty(xs: seq<string>): (ys: seq<string>)
    ensures |ys| <= |xs|
    ensures forall y :: y in ys ==> y != "" && y in xs
    ensures forall x :: x in xs && x != "" ==> x in ys
    decreases |xs|
  {
    if xs == [] then []
    else (if xs[0] == "" then [] else [xs[0]]) + NonEmpty(xs[1..])
  }

  /** Filtering keeps the order: filtering a concatenation concatenates the filtered parts. */
  lemma {:induction false} NonEmptyAppend(xs: seq<string>, ys: seq<string>)
    ensures NonEmpty(xs + ys) == NonEmpty(xs) + NonEmpty(ys)
    decreases |xs|
  {
    if xs != [] {
      NonEmptyAppend(xs[1..], ys);
      assert (xs + ys)[1..] == xs[1..] + ys;
    } else {
      assert xs + ys == ys;
    }
  }

  // ---------------------------------------------------------------------------
  // numbers and slice

  /** An IEEE double as the script can observe it; finite values are kept as reals. */
  datatype JsNumber = NaN | Finite(value: real) | PositiveInfinity | NegativeInfinity

  /** Truncation toward zero (the integer part of ToIntegerOrInfinity). */
  function Truncate(x: real): (t: int)
    ensures x >= 0.0 ==> 0 <= t && t as real <= x < t as real + 1.0
    ensures x < 0.0 ==> t <= 0 && t as real - 1.0 < x <= t as real
  {
    if x >= 0.0 then x.Floor else -((-x).Floor)
  }

  /** The end index of `a.slice(0, end)` on an array of length `len`. */
  function SliceEnd(len: nat, end: JsNumber): (k: nat)
    ensures k <= len
    ensures end.Finite? && -1.0 < end.value ==> k == if end.value < len as real then Truncate(end.value) else len
    ensures end.Finite? && end.value <= -1.0 ==> k == if Truncate(-end.value) < len then len - Truncate(-end.value) else 0
    ensures end.NaN? || end.NegativeInfinity? ==> k == 0
    ensures end.PositiveInfinity? ==> k == len
  {
    match end
    case NaN => 0
    case PositiveInfinity => len
    case NegativeInfinity => 0
    case Finite(x) =>
      var t := Truncate(x);
      if t < 0 then (if len + t < 0 then 0 else len + t)
      else if t < len then t else len
  }
}
