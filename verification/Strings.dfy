/**
 * The few Python `str` operations the converter relies on: `strip()`,
 * `startswith()`, slicing `s[n:]` and `sep.join(parts)`.
 */
module Strings {

  /** Python's `str.isspace()` for one character: the set `strip()` removes. */
  predicate IsSpace(c: char) {
    var n := c as int;
    (9 <= n <= 13) || (28 <= n <= 32) || n == 0x85 || n == 0xA0 || n == 0x1680
    || (0x2000 <= n <= 0x200A) || n == 0x2028 || n == 0x2029 || n == 0x202F
    || n == 0x205F || n == 0x3000
  }

  predicate AllSpace(s: string) {
    forall i :: 0 <= i < |s| ==> IsSpace(s[i])
  }

  /** The end of `s[lo..j]` once its trailing whitespace is dropped. */
  function SkipSpaceBack(s: string, lo: nat, j: nat): (n: nat)
    requires lo <= j <= |s|
    ensures lo <= n <= j
    ensures forall k :: n <= k < j ==> IsSpace(s[k])
    ensures n > lo ==> !IsSpace(s[n - 1])
    decreases j
  {
    if lo < j && IsSpace(s[j - 1]) then SkipSpaceBack(s, lo, j - 1) else j
  }

  /** `s.strip()`: `s` without its leading and trailing whitespace
      (`StripShape` states what that means). */
  function Strip(s: string): (r: string)
    ensures |r| <= |s|
    decreases |s|
  {
    if s != [] && IsSpace(s[0]) then Strip(s[1..]) else s[..SkipSpaceBack(s, 0, |s|)]
  }

  /** What `strip()` keeps: nothing exactly when the whole string is whitespace;
      otherwise a string that neither starts nor ends with whitespace and that
      starts with the first character of `s` when that is not whitespace. In
      every case it is a middle slice of `s` with only whitespace on either
      side of it. */
  lemma {:induction false} StripShape(s: string)
    ensures Strip(s) == [] <==> AllSpace(s)
    ensures Strip(s) != [] ==> !IsSpace(Strip(s)[0]) && !IsSpace(Strip(s)[|Strip(s)| - 1])
    ensures s != [] && !IsSpace(s[0]) ==> Strip(s) != [] && Strip(s)[0] == s[0]
    ensures exists a, b :: 0 <= a <= b <= |s| && Strip(s) == s[a..b] && AllSpace(s[..a]) && AllSpace(s[b..])
    decreases |s|
  {
    if s != [] && IsSpace(s[0]) {
      StripShape(s[1..]);
      assert forall k :: 1 <= k < |s| ==> s[k] == s[1..][k - 1];
    } else {
      var hi := SkipSpaceBack(s, 0, |s|);
      assert s != [] ==> hi > 0;
    }
    StripSlice(s);
  }

  /** `strip()` cuts whitespace only: the result is `s[a..b]` for some `a`
      and `b` with nothing but whitespace before `a` and from `b` on. */
  lemma {:induction false} StripSlice(s: string)
    ensures exists a, b :: 0 <= a <= b <= |s| && Strip(s) == s[a..b] && AllSpace(s[..a]) && AllSpace(s[b..])
    decreases |s|
  {
    if s != [] && IsSpace(s[0]) {
      StripSlice(s[1..]);
      var t := s[1..];
      var a, b :| 0 <= a <= b <= |t| && Strip(t) == t[a..b] && AllSpace(t[..a]) && AllSpace(t[b..]);
      SliceBehindSpace(s, a, b);
    } else {
      var hi := SkipSpaceBack(s, 0, |s|);
      var post := s[hi..];
      assert AllSpace(post) by {
        forall k | 0 <= k < |post| ensures IsSpace(post[k]) { assert post[k] == s[hi + k]; }
      }
      assert Strip(s) == s[0..hi] && AllSpace(s[..0]);
    }
  }

  /** A slice of `s[1..]` with whitespace around it, when `s[0]` is whitespace
      too, is the same slice of `s` one further on. */
  lemma SliceBehindSpace(s: string, a: nat, b: nat)
    requires s != [] && IsSpace(s[0]) && a <= b <= |s| - 1
    requires AllSpace(s[1..][..a]) && AllSpace(s[1..][b..])
    ensures s[a + 1..b + 1] == s[1..][a..b]
    ensures AllSpace(s[..a + 1]) && AllSpace(s[b + 1..])
  {
    var t := s[1..];
    assert s[a + 1..b + 1] == t[a..b] by {
      forall k | 0 <= k < b - a ensures s[a + 1..b + 1][k] == t[a..b][k] {
        assert s[a + 1..b + 1][k] == s[a + 1 + k] == t[a + k];
      }
    }
    assert s[b + 1..] == t[b..] by {
      forall k | 0 <= k < |s| - 1 - b ensures s[b + 1..][k] == t[b..][k] {
        assert s[b + 1..][k] == s[b + 1 + k] == t[b + k];
      }
    }
    var pre := s[..a + 1];
    assert AllSpace(pre) by {
      forall k | 0 <= k < |pre| ensures IsSpace(pre[k]) {
        if k > 0 { assert pre[k] == t[..a][k - 1]; }
      }
    }
  }

  /** Concatenation regroups freely; stated once so that proofs about lines
      and pieces need not redo it in a context full of other facts. */
  lemma AppendAssoc<T>(a: seq<T>, b: seq<T>, c: seq<T>)
    ensures a + b + c == a + (b + c)
  {
  }

  /** `s.startswith(p)`: `s` is at least as long as `p` and agrees with it
      position by position. */
  predicate StartsWith(s: string, p: string) {
    |p| <= |s| && s[..|p|] == p
  }

  lemma StartsWithPointwise(s: string, p: string)
    ensures StartsWith(s, p) <==> |p| <= |s| && forall i :: 0 <= i < |p| ==> s[i] == p[i]
  {
  }

  /** Python's `s[n:]`, which is empty rather than an error when `n` is past the end. */
  function Drop(s: string, n: nat): (r: string)
    ensures n <= |s| ==> s == s[..n] + r
    ensures n >= |s| ==> r == []
  {
    if n <= |s| then s[n..] else []
  }

  /** `sep.join(parts)`: the first part opens the result (`JoinAppend` adds
      the rest one at a time). */
  function Join(parts: seq<string>, sep: string): (r: string)
    ensures parts != [] ==> |parts[0]| <= |r| && r[..|parts[0]|] == parts[0]
    ensures parts == [] ==> r == []
    decreases |parts|
  {
    if |parts| == 0 then []
    else if |parts| == 1 then parts[0]
    else parts[0] + sep + Join(parts[1..], sep)
  }

  /** Joining one part more puts the separator and that part at the end. */
  lemma {:induction false} JoinAppend(parts: seq<string>, x: string, sep: string)
    requires parts != []
    ensures Join(parts + [x], sep) == Join(parts, sep) + sep + x
    decreases |parts|
  {
    if |parts| > 1 {
      JoinAppend(parts[1..], x, sep);
      assert (parts + [x])[1..] == parts[1..] + [x];
    }
  }

  /** A run of `n` copies of `c`, Python's `c * n`. */
  function Repeat(c: char, n: nat): (r: string)
    ensures |r| == n && forall i :: 0 <= i < n ==> r[i] == c
  {
    if n == 0 then [] else [c] + Repeat(c, n - 1)
  }

}
