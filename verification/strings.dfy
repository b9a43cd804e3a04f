/**
  String helpers shared by the scraper model: Python's notion of whitespace,
  `str.strip`, `str.lower` restricted to ASCII, substring search and the
  order-preserving subsequence relation.
 */
module Strings {

  /** Python's `None` or a value. */
  datatype Option<+T> = None | Some(value: T) {
    /** `x or default`: the value, or `default` when there is none. */
    function GetOr(default: T): T {
      match this
      case Some(v) => v
      case None => default
    }
  }

  /** The values present in a sequence of options, in order. */
  function Somes<T(==)>(xs: seq<Option<T>>): (r: seq<T>)
    ensures |r| <= |xs|
    ensures forall k :: 0 <= k < |r| ==> Some(r[k]) in xs
    ensures forall k :: 0 <= k < |xs| && xs[k].Some? ==> xs[k].value in r
  {
    if |xs| == 0 then []
    else
      assert xs == [xs[0]] + xs[1..];
      (if xs[0].Some? then [xs[0].value] else []) + Somes(xs[1..])
  }

  /** `Somes` distributes over concatenation, so it keeps the order of the
      values it collects. */
  lemma {:induction false} SomesAppend<T>(xs: seq<Option<T>>, ys: seq<Option<T>>)
    ensures Somes(xs + ys) == Somes(xs) + Somes(ys)
    decreases |xs|
  {
    if |xs| > 0 {
      assert (xs + ys)[0] == xs[0];
      assert (xs + ys)[1..] == xs[1..] + ys;
      SomesAppend(xs[1..], ys);
    } else {
      assert xs + ys == ys;
    }
  }

  /** `f` applied to every element of `s`, in order. */
  function Map<A, B>(f: A -> B, s: seq<A>): (r: seq<B>)
    ensures |r| == |s|
    ensures forall k :: 0 <= k < |s| ==> r[k] == f(s[k])
  {
    seq(|s|, k requires 0 <= k < |s| => f(s[k]))
  }

  /** `Map` distributes over concatenation. */
  lemma MapAppend<A, B>(f: A -> B, a: seq<A>, b: seq<A>)
    ensures Map(f, a + b) == Map(f, a) + Map(f, b)
  {
    var x, y := Map(f, a + b), Map(f, a) + Map(f, b);
    forall k | 0 <= k < |x|
      ensures x[k] == y[k]
    {
      if k < |a| {
        assert (a + b)[k] == a[k];
      } else {
        assert (a + b)[k] == b[k - |a|];
      }
    }
  }

  /** The characters for which Python's `str.isspace()` holds; `re`'s `\s`
      matches the same set in `str` patterns. */
  predicate IsSpace(c: char) {
    || c == ' '
    || ('\t' <= c <= '\r')
    || ('\U{1C}' <= c <= '\U{1F}')
    || c == '\U{85}' || c == '\U{A0}' || c == '\U{1680}'
    || ('\U{2000}' <= c <= '\U{200A}')
    || c == '\U{2028}' || c == '\U{2029}' || c == '\U{202F}'
    || c == '\U{205F}' || c == '\U{3000}'
  }

  predicate AllSpace(s: string) {
    forall i :: 0 <= i < |s| ==> IsSpace(s[i])
  }

  predicate IsDigit(c: char) {
    '0' <= c <= '9'
  }

  predicate AllDigits(s: string) {
    forall i :: 0 <= i < |s| ==> IsDigit(s[i])
  }

  /** A string with no whitespace at either end. */
  predicate IsStripped(s: string) {
    |s| == 0 || (!IsSpace(s[0]) && !IsSpace(s[|s| - 1]))
  }

  /** `s.lstrip()` */
  function TrimStart(s: string): (r: string)
    ensures |r| <= |s| && r == s[|s| - |r|..]
    ensures AllSpace(s[..|s| - |r|])
    ensures |r| == 0 || !IsSpace(r[0])
  {
    if |s| > 0 && IsSpace(s[0]) then TrimStart(s[1..]) else s
  }

  /** `s.rstrip()` */
  function TrimEnd(s: string): (r: string)
    ensures |r| <= |s| && r == s[..|r|]
    ensures AllSpace(s[|r|..])
    ensures |r| == 0 || !IsSpace(r[|r| - 1])
  {
    if |s| > 0 && IsSpace(s[|s| - 1]) then
      var r := TrimEnd(s[..|s| - 1]);
      TrimEndStep(s, r);
      r
    else s
  }

  /** Dropping one more trailing space keeps a trimmed prefix a prefix whose
      remainder is all whitespace. */
  lemma TrimEndStep(s: string, r: string)
    requires |s| > 0 && IsSpace(s[|s| - 1])
    requires |r| <= |s| - 1 && r == s[..|s| - 1][..|r|] && AllSpace(s[..|s| - 1][|r|..])
    ensures r == s[..|r|] && AllSpace(s[|r|..])
  {
    assert s[|r|..] == s[..|s| - 1][|r|..] + [s[|s| - 1]];
  }

  /** `s.strip()`: the slice of `s` left once the whitespace at both ends is
      removed. */
  function Strip(s: string): (r: string)
    ensures IsStripped(r)
    ensures exists i, j :: 0 <= i <= j <= |s| && r == s[i..j] && AllSpace(s[..i]) && AllSpace(s[j..])
  {
    var t := TrimStart(s);
    var r := TrimEnd(t);
    TrimBoth(s, t, r);
    r
  }

  /** Trimming the start, then the end, leaves the slice of `s` between
      offsets `|s| - |t|` and `|s| - |t| + |r|`, with whitespace on both
      sides of it. */
  lemma TrimBoth(s: string, t: string, r: string)
    requires t == TrimStart(s) && r == TrimEnd(t)
    ensures IsStripped(r)
    ensures var i := |s| - |t|;
            && 0 <= i <= i + |r| <= |s| && r == s[i..i + |r|]
            && AllSpace(s[..i]) && AllSpace(s[i + |r|..])
  {
    var i := |s| - |t|;
    assert AllSpace(s[..i]);
    SliceOfSuffix(s, t, r);
    assert AllSpace(s[i + |r|..]);
    if |r| > 0 {
      assert r[0] == t[0];
    }
  }

  /** A prefix `r` of a suffix `t` of `s` is a slice of `s`, and whitespace
      after `r` in `t` is whitespace after it in `s`. */
  lemma SliceOfSuffix(s: string, t: string, r: string)
    requires |t| <= |s| && t == s[|s| - |t|..]
    requires |r| <= |t| && r == t[..|r|] && AllSpace(t[|r|..])
    ensures var i := |s| - |t|; r == s[i..i + |r|] && AllSpace(s[i + |r|..])
  {
    var i := |s| - |t|;
    PrefixOfSuffix(s, i, |r|);
    var u := s[i + |r|..];
    forall m | 0 <= m < |u|
      ensures IsSpace(u[m])
    {
      assert u[m] == t[|r|..][m];
    }
  }

  lemma PrefixOfSuffix<T>(s: seq<T>, i: nat, n: nat)
    requires i + n <= |s|
    ensures s[i..][..n] == s[i..i + n]
  {
    var u := s[i..][..n];
    var v := s[i..i + n];
    forall m | 0 <= m < n
      ensures u[m] == v[m]
    {
    }
    assert u == v;
  }

  lemma {:induction false} TrimStartNoOp(s: string)
    requires |s| == 0 || !IsSpace(s[0])
    ensures TrimStart(s) == s
  {
  }

  lemma {:induction false} TrimEndNoOp(s: string)
    requires |s| == 0 || !IsSpace(s[|s| - 1])
    ensures TrimEnd(s) == s
  {
  }

  /** Stripping a string that has no whitespace at its ends leaves it alone;
      in particular `Strip` is idempotent. */
  lemma StripNoOp(s: string)
    requires IsStripped(s)
    ensures Strip(s) == s
  {
    TrimStartNoOp(s);
    TrimEndNoOp(s);
  }

  lemma StripIdempotent(s: string)
    ensures Strip(Strip(s)) == Strip(s)
  {
    StripNoOp(Strip(s));
  }

  function LowerChar(c: char): char {
    if 'A' <= c <= 'Z' then (c as int + 32) as char else c
  }

  /** `s.lower()` on the ASCII letters; every other character is kept. */
  function Lower(s: string): (r: string)
    ensures |r| == |s|
    ensures forall i :: 0 <= i < |s| ==> r[i] == LowerChar(s[i])
  {
    seq(|s|, i requires 0 <= i < |s| => LowerChar(s[i]))
  }

  lemma LowerAppend(a: string, b: string)
    ensures Lower(a + b) == Lower(a) + Lower(b)
  {
  }

  /** `p` occurs in `s` starting at index `i`. */
  predicate OccursAt(s: string, p: string, i: int) {
    0 <= i && i + |p| <= |s| && s[i..i + |p|] == p
  }

  /** Python's `p in s`. */
  predicate Contains(s: string, p: string) {
    exists i | 0 <= i <= |s| - |p| :: OccursAt(s, p, i)
  }

  predicate StartsWith(s: string, p: string) {
    |p| <= |s| && s[..|p|] == p
  }

  /** Python's `s.endswith(p)`. */
  predicate EndsWith(s: string, p: string) {
    |p| <= |s| && s[|s| - |p|..] == p
  }

  /** The first index at or after `from` where `p` occurs in `s`. */
  function IndexOfFrom(s: string, p: string, from: nat): (r: Option<nat>)
    requires from <= |s|
    decreases |s| - from
    ensures r.Some? ==> from <= r.value && OccursAt(s, p, r.value)
    ensures r.Some? ==> forall k :: from <= k < r.value ==> !OccursAt(s, p, k)
    ensures r.None? ==> forall k :: from <= k ==> !OccursAt(s, p, k)
  {
    if OccursAt(s, p, from) then Some(from)
    else if from == |s| then None
    else IndexOfFrom(s, p, from + 1)
  }

  /** Python's `s.find(p)`, with `None` for -1. */
  function IndexOf(s: string, p: string): (r: Option<nat>)
    ensures r.Some? <==> Contains(s, p)
    ensures r.Some? ==> OccursAt(s, p, r.value) && forall k :: 0 <= k < r.value ==> !OccursAt(s, p, k)
  {
    IndexOfFrom(s, p, 0)
  }

  /** A non-empty pattern whose first character does not recur in it. */
  predicate LeadsOnce(p: string) {
    |p| > 0 && forall m :: 1 <= m < |p| ==> p[m] != p[0]
  }

  /** A pattern whose first character does not recur in it, placed right
      after a text that lacks it, is first found where it was placed: no
      occurrence can straddle the join. */
  lemma FirstAfter(a: string, p: string, b: string)
    requires LeadsOnce(p) && !Contains(a, p) && StartsWith(b, p)
    ensures IndexOf(a + b, p) == Some(|a|)
  {
    var s := a + b;
    assert s[|a|..|a| + |p|] == b[..|p|];
    assert OccursAt(s, p, |a|);
    assert s[|a|] == p[0];
    forall x | 0 <= x < |a|
      ensures !OccursAt(s, p, x)
    {
      NotBefore(a, p, b, x);
    }
  }

  lemma NotBefore(a: string, p: string, b: string, x: nat)
    requires |p| > 0 && !Contains(a, p) && x < |a| < |a + b|
    requires (a + b)[|a|] == p[0] && forall m :: 1 <= m < |p| ==> p[m] != p[0]
    ensures !OccursAt(a + b, p, x)
  {
    var s := a + b;
    if x + |p| <= |a| {
      assert s[x..x + |p|] == a[x..x + |p|];
      assert !OccursAt(a, p, x);
    } else {
      var m := |a| - x;
      assert s[x + m] != p[m];
      assert x + |p| > |s| || s[x..x + |p|][m] != p[m];
    }
  }

  /** A pattern cannot occur in `s` when one of its characters other than
      the first is missing from `s` past its first character. */
  lemma NotAfterLead(s: string, p: string, k: nat)
    requires 0 < k < |p| && 0 < |s| && p[k] !in s[1..]
    ensures !Contains(s, p)
  {
    forall i | 0 <= i <= |s| - |p|
      ensures !OccursAt(s, p, i)
    {
      assert s[i + k] == s[1..][i + k - 1];
      assert s[i..i + |p|][k] == s[i + k];
    }
  }

  /** A single character occurs where it stands. */
  lemma CharOccurs(s: string, x: nat)
    requires x < |s|
    ensures OccursAt(s, [s[x]], x)
  {
    assert s[x..x + 1] == [s[x]];
  }

  /** Each character of an occurrence is a character of the string. */
  lemma OccursChar(s: string, p: string, x: int, m: nat)
    requires OccursAt(s, p, x) && m < |p|
    ensures s[x + m] == p[m] && p[m] in s
  {
    assert s[x..x + |p|][m] == s[x + m];
  }

  lemma OccursFirstChar(s: string, p: string, x: int)
    requires |p| > 0 && OccursAt(s, p, x)
    ensures s[x] == p[0]
  {
    OccursChar(s, p, x, 0);
  }

  /** A string lacking one of the characters of a pattern does not contain
      it. */
  lemma MissingChar(s: string, p: string, m: nat)
    requires m < |p| && p[m] !in s
    ensures !Contains(s, p)
  {
    if Contains(s, p) {
      var x :| 0 <= x <= |s| - |p| && OccursAt(s, p, x);
      OccursChar(s, p, x, m);
      assert false;
    }
  }

  /** An occurrence inside a slice is an occurrence in the slice. */
  lemma OccursInSlice(s: string, p: string, x: nat, i: nat, j: nat)
    requires i <= x && x + |p| <= j <= |s| && OccursAt(s, p, x)
    ensures OccursAt(s[i..j], p, x - i)
  {
    var u := s[i..j][x - i..x - i + |p|];
    var v := s[x..x + |p|];
    forall m | 0 <= m < |p|
      ensures u[m] == v[m]
    {
    }
    assert u == v;
  }

  /** A substring of a slice of `s` is a substring of `s`. */
  lemma ContainsSlice(s: string, p: string, i: nat, j: nat)
    requires i <= j <= |s|
    requires Contains(s[i..j], p)
    ensures Contains(s, p)
  {
    var k :| 0 <= k <= j - i - |p| && OccursAt(s[i..j], p, k);
    forall m | 0 <= m < |p|
      ensures s[i + k + m] == p[m]
    {
      assert s[i..j][k..k + |p|][m] == p[m];
    }
    assert OccursAt(s, p, i + k);
  }

  /** `r` is an order-preserving subsequence of `xs`. */
  predicate IsSubsequence<T(==)>(r: seq<T>, xs: seq<T>)
    decreases |xs|
  {
    || |r| == 0
    || (|xs| > 0 && ((r[0] == xs[0] && IsSubsequence(r[1..], xs[1..])) || IsSubsequence(r, xs[1..])))
  }

  lemma {:induction false} SubsequenceTransitive<T>(a: seq<T>, b: seq<T>, c: seq<T>)
    requires IsSubsequence(a, b) && IsSubsequence(b, c)
    ensures IsSubsequence(a, c)
    decreases |c|
  {
    if |a| == 0 {
    } else if IsSubsequence(b, c[1..]) {
      SubsequenceTransitive(a, b, c[1..]);
    } else {
      assert b[0] == c[0] && IsSubsequence(b[1..], c[1..]);
      if a[0] == b[0] && IsSubsequence(a[1..], b[1..]) {
        SubsequenceTransitive(a[1..], b[1..], c[1..]);
      } else {
        SubsequenceTransitive(a, b[1..], c[1..]);
      }
    }
  }

  /** Every prefix of a sequence is a subsequence of it. */
  lemma {:induction false} PrefixIsSubsequence<T>(xs: seq<T>, n: nat)
    requires n <= |xs|
    ensures IsSubsequence(xs[..n], xs)
    decreases n
  {
    if n > 0 {
      PrefixIsSubsequence(xs[1..], n - 1);
      assert xs[..n][1..] == xs[1..][..n - 1];
    }
  }
}
