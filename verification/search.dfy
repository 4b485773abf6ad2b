/**
  Leftmost delimiter search inside the first `max` elements of a buffer: the
  `indexOf` helper of the request parser, which also underlies the model of
  Java's `String.split` and `String.replace`.
 */
module Search {

  /** `t` occurs in `a` starting at index `i`. */
  predicate MatchesAt<T(==)>(a: seq<T>, t: seq<T>, i: int)
  {
    0 <= i && i + |t| <= |a| && a[i..i + |t|] == t
  }

  /** `t` occurs nowhere in `a`. */
  predicate Free<T(==)>(a: seq<T>, t: seq<T>)
  {
    forall k :: 0 <= k <= |a| - |t| ==> !MatchesAt(a, t, k)
  }

  /**
    `indexOf(array, target, start, max)`: the outer loop tries every `i` with
    `start <= i < max - |target| + 1`, so only the first `max` elements are
    ever compared. The result is the leftmost `i` in that range where the
    target occurs, or -1. A `max` below `start + |target|` (in particular the
    -1 that `read` returns at end of stream) leaves the range empty.
   */
  function IndexOf<T(==)>(a: seq<T>, t: seq<T>, start: nat, max: int): (r: int)
    requires max <= |a|
    ensures r == -1 || (start <= r <= max - |t| && MatchesAt(a, t, r))
    ensures r != -1 ==> forall k :: start <= k < r ==> !MatchesAt(a, t, k)
    ensures r == -1 <==> forall k :: start <= k <= max - |t| ==> !MatchesAt(a, t, k)
    decreases max - start
  {
    if max - |t| < start then -1
    else if a[start..start + |t|] == t then start
    else IndexOf(a, t, start + 1, max)
  }

  /**
    The nested loops of `indexOf` as written: an outer scan over candidate
    starts and an inner element-by-element comparison whose first mismatch
    continues the outer loop.
   */
  method IndexOfLoop<T(==)>(a: seq<T>, t: seq<T>, start: nat, max: int) returns (r: int)
    requires max <= |a|
    ensures r == -1 || (start <= r <= max - |t| && MatchesAt(a, t, r))
    ensures r != -1 ==> forall k :: start <= k < r ==> !MatchesAt(a, t, k)
    ensures r == -1 <==> forall k :: start <= k <= max - |t| ==> !MatchesAt(a, t, k)
    ensures r == IndexOf(a, t, start, max)
  {
    var i := start;
    while i < max - |t| + 1
      invariant start <= i
      invariant forall k :: start <= k < i ==> !MatchesAt(a, t, k)
    {
      var j := 0;
      var matched := true;
      while j < |t|
        invariant 0 <= j <= |t|
        invariant forall q :: 0 <= q < j ==> a[i + q] == t[q]
      {
        if a[i + j] != t[j] {
          matched := false;
          break;
        }
        j := j + 1;
      }
      if matched {
        assert a[i..i + |t|] == t;
        return i;
      }
      assert a[i..i + |t|][j] != t[j];
      i := i + 1;
    }
    return -1;
  }

  /** The leftmost-match description pins the result down. */
  lemma IndexOfIs<T>(a: seq<T>, t: seq<T>, start: nat, max: int, k: int)
    requires max <= |a|
    requires start <= k <= max - |t| && MatchesAt(a, t, k)
    requires forall j :: start <= j < k ==> !MatchesAt(a, t, j)
    ensures IndexOf(a, t, start, max) == k
  {
  }

  /** Cutting the sequence after an occurrence keeps it. */
  lemma MatchesAtPrefix<T>(s: seq<T>, t: seq<T>, k: int, i: int)
    requires 0 <= k && k + |t| <= i <= |s|
    ensures MatchesAt(s[..i], t, k) <==> MatchesAt(s, t, k)
  {
    assert s[..i][k..k + |t|] == s[k..k + |t|];
  }

  /** Matching is unaffected by a prefix in front of the buffer. */
  lemma MatchesAtShift<T>(p: seq<T>, s: seq<T>, t: seq<T>, k: int)
    requires 0 <= k
    ensures MatchesAt(p + s, t, |p| + k) <==> MatchesAt(s, t, k)
  {
    if k + |t| <= |s| {
      assert (p + s)[|p| + k..|p| + k + |t|] == s[k..k + |t|];
    }
  }

  /** Searching `p + s` from `|p| + start` is searching `s` from `start`, shifted by `|p|`. */
  lemma IndexOfShift<T>(p: seq<T>, s: seq<T>, t: seq<T>, start: nat, max: int)
    requires max <= |s|
    ensures var r := IndexOf(s, t, start, max);
            IndexOf(p + s, t, |p| + start, |p| + max) == if r == -1 then -1 else |p| + r
  {
    var r := IndexOf(s, t, start, max);
    if r == -1 {
      forall j | |p| + start <= j <= |p| + max - |t|
        ensures !MatchesAt(p + s, t, j)
      {
        MatchesAtShift(p, s, t, j - |p|);
      }
    } else {
      forall j | |p| + start <= j < |p| + r
        ensures !MatchesAt(p + s, t, j)
      {
        MatchesAtShift(p, s, t, j - |p|);
      }
      MatchesAtShift(p, s, t, r);
      IndexOfIs(p + s, t, |p| + start, |p| + max, |p| + r);
    }
  }

  /** A delimiter whose first element is absent from `a` is first found right after `a`. */
  lemma FirstMatchAfter<T>(a: seq<T>, t: seq<T>, rest: seq<T>)
    requires |t| > 0 && t[0] !in a
    ensures IndexOf(a + t + rest, t, 0, |a + t + rest|) == |a|
  {
    var s := a + t + rest;
    assert s[|a|..|a| + |t|] == t;
    forall j | 0 <= j < |a|
      ensures !MatchesAt(s, t, j)
    {
      assert s[j] == a[j];
    }
    IndexOfIs(s, t, 0, |s|, |a|);
  }

  /** A match, element by element. */
  lemma MatchesAtElements<T>(a: seq<T>, t: seq<T>, k: int)
    ensures MatchesAt(a, t, k) <==>
      (0 <= k && k + |t| <= |a| && forall q :: 0 <= q < |t| ==> a[k + q] == t[q])
  {
    if 0 <= k && k + |t| <= |a| {
      var w := a[k..k + |t|];
      assert forall q :: 0 <= q < |t| ==> w[q] == a[k + q];
    }
  }

  /** A single-element delimiter is absent exactly when its element is. */
  lemma FreeSingle<T>(a: seq<T>, c: T)
    ensures Free(a, [c]) <==> c !in a
  {
    if c in a {
      var k :| 0 <= k < |a| && a[k] == c;
      assert a[k..k + 1] == [c];
      assert MatchesAt(a, [c], k);
    } else {
      forall k | 0 <= k <= |a| - 1
        ensures !MatchesAt(a, [c], k)
      {
        assert a[k..k + 1] == [a[k]];
      }
    }
  }

  /** A delimiter whose first element is absent from `a` does not occur in `a`. */
  lemma FreeOfHead<T>(a: seq<T>, t: seq<T>)
    requires |t| > 0 && t[0] !in a
    ensures Free(a, t)
  {
    forall k | 0 <= k <= |a| - |t|
      ensures !MatchesAt(a, t, k)
    {
      assert a[k..k + |t|][0] == a[k];
    }
  }
}
