/**
  The parts of `java.lang.String` the server relies on, for a literal
  (non-regex) delimiter: `split`, `replace`, `equalsIgnoreCase` restricted to
  ASCII, and the decimal rendering of a non-negative number in string
  concatenation.
 */
module JavaStrings {
  import opened Search

  /** The pieces joined back together, `d` between neighbours. */
  function Join<T>(xs: seq<seq<T>>, d: seq<T>): seq<T>
  {
    if |xs| == 0 then []
    else if |xs| == 1 then xs[0]
    else xs[0] + d + Join(xs[1..], d)
  }

  /** `n` empty pieces. */
  function Empties<T>(n: nat): (r: seq<seq<T>>)
    ensures |r| == n && forall k :: 0 <= k < n ==> r[k] == []
  {
    seq(n, _ => [])
  }

  /**
    Every piece of `s` between leftmost, non-overlapping occurrences of `d`,
    empty pieces included: the list that Java's `split` builds before it
    trims trailing empty strings.
   */
  function SplitAll<T(==)>(s: seq<T>, d: seq<T>): (r: seq<seq<T>>)
    requires |d| > 0
    ensures |r| >= 1
    ensures |r| == 1 <==> Free(s, d)
    ensures Join(r, d) == s
    ensures forall k :: 0 <= k < |r| ==> Free(r[k], d)
    decreases |s|
  {
    var i := IndexOf(s, d, 0, |s|);
    if i == -1 then
      [s]
    else
      var rest := SplitAll(s[i + |d|..], d);
      SplitAllCons(s, d, i, rest);
      [s[..i]] + rest
  }

  /** The piece before the leftmost occurrence, in front of the pieces after it. */
  lemma SplitAllCons<T>(s: seq<T>, d: seq<T>, i: int, rest: seq<seq<T>>)
    requires |d| > 0 && i == IndexOf(s, d, 0, |s|) && i != -1
    requires |rest| >= 1 && Join(rest, d) == s[i + |d|..]
    requires forall k :: 0 <= k < |rest| ==> Free(rest[k], d)
    ensures var r := [s[..i]] + rest;
            && |r| > 1 && !Free(s, d)
            && Join(r, d) == s
            && forall k :: 0 <= k < |r| ==> Free(r[k], d)
  {
    PieceBeforeFirstIsFree(s, d, i);
    JoinAround(s, d, i, rest);
    var r := [s[..i]] + rest;
    forall k | 0 <= k < |r|
      ensures Free(r[k], d)
    {
      if k > 0 {
        assert r[k] == rest[k - 1];
      }
    }
  }

  /** Rejoining at an occurrence of `d` at index `i`. */
  lemma JoinAround<T>(s: seq<T>, d: seq<T>, i: int, rest: seq<seq<T>>)
    requires MatchesAt(s, d, i)
    requires |rest| >= 1 && Join(rest, d) == s[i + |d|..]
    ensures Join([s[..i]] + rest, d) == s
  {
    var a := s[..i];
    var b := s[i + |d|..];
    assert s[i..i + |d|] == d;
    assert s == a + s[i..i + |d|] + b;
    JoinCons(a, rest, d);
  }

  /** Joining a piece in front of a non-empty list of pieces. */
  lemma JoinCons<T>(x: seq<T>, xs: seq<seq<T>>, d: seq<T>)
    requires |xs| >= 1
    ensures Join([x] + xs, d) == x + d + Join(xs, d)
  {
    assert ([x] + xs)[1..] == xs;
  }

  /** Nothing before the leftmost occurrence of `d` contains `d`. */
  lemma PieceBeforeFirstIsFree<T>(s: seq<T>, d: seq<T>, i: int)
    requires |d| > 0 && i == IndexOf(s, d, 0, |s|) && i != -1
    ensures Free(s[..i], d)
  {
    NoMatchBefore(s, d, i);
  }

  lemma NoMatchBefore<T>(s: seq<T>, d: seq<T>, i: int)
    requires |d| > 0 && 0 <= i <= |s|
    requires forall k :: 0 <= k < i ==> !MatchesAt(s, d, k)
    ensures Free(s[..i], d)
  {
    var p := s[..i];
    forall k | 0 <= k <= |p| - |d|
      ensures !MatchesAt(p, d, k)
    {
      MatchesAtPrefix(s, d, k, i);
    }
  }

  /** Drops the empty pieces at the end of `xs`, as `split` with no limit does. */
  function TrimTrailingEmpty<T>(xs: seq<seq<T>>): (r: seq<seq<T>>)
    ensures |r| <= |xs| && r == xs[..|r|]
    ensures |r| > 0 ==> |r[|r| - 1]| > 0
    ensures forall k :: |r| <= k < |xs| ==> xs[k] == []
    decreases |xs|
  {
    if |xs| > 0 && |xs[|xs| - 1]| == 0 then TrimTrailingEmpty(xs[..|xs| - 1]) else xs
  }

  /**
    `s.split(d)` for a literal delimiter: when `d` does not occur the result
    is `[s]` itself (so an empty string splits into one empty piece);
    otherwise all pieces, leading empty ones kept, trailing empty ones
    dropped, which can leave no piece at all.
   */
  function Split<T(==)>(s: seq<T>, d: seq<T>): (r: seq<seq<T>>)
    requires |d| > 0
    ensures Free(s, d) ==> r == [s]
    ensures forall k :: 0 <= k < |r| ==> Free(r[k], d)
    ensures !Free(s, d) && |r| > 0 ==> |r[|r| - 1]| > 0
    ensures |r| <= |SplitAll(s, d)| && r == SplitAll(s, d)[..|r|]
    ensures forall k :: |r| <= k < |SplitAll(s, d)| ==> SplitAll(s, d)[k] == []
    ensures |r| == 0 <==>
      !Free(s, d) && forall k :: 0 <= k < |SplitAll(s, d)| ==> |SplitAll(s, d)[k]| == 0
  {
    var all := SplitAll(s, d);
    if |all| == 1 then all else TrimTrailingEmpty(all)
  }

  /** How many trailing empty pieces `Split` dropped. */
  function Dropped<T(==)>(s: seq<T>, d: seq<T>): nat
    requires |d| > 0
  {
    |SplitAll(s, d)| - |Split(s, d)|
  }

  /** Putting the dropped pieces back and joining gives the original string. */
  lemma SplitRejoin<T>(s: seq<T>, d: seq<T>)
    requires |d| > 0
    ensures Split(s, d) + Empties(Dropped(s, d)) == SplitAll(s, d)
    ensures Join(Split(s, d) + Empties(Dropped(s, d)), d) == s
  {
    var all := SplitAll(s, d);
    var r := Split(s, d);
    assert r + Empties(Dropped(s, d)) == all;
  }

  /** Trailing empty pieces are only dropped from a string that ends with the delimiter. */
  lemma DroppedMeansTrailingDelimiter<T>(s: seq<T>, d: seq<T>)
    requires |d| > 0 && Dropped(s, d) > 0
    ensures |s| >= |d| && s[|s| - |d|..] == d
  {
    var ys := SplitAll(s, d);
    SplitRejoin(s, d);
    assert |ys| >= 2;
    JoinEndsWithDelimiter(ys, d);
  }

  /** A string that does not end in the delimiter is its split pieces joined back. */
  lemma SplitJoinsBack<T>(s: seq<T>, d: seq<T>)
    requires |d| > 0 && !(|s| >= |d| && s[|s| - |d|..] == d)
    ensures Join(Split(s, d), d) == s
  {
    if Dropped(s, d) > 0 {
      DroppedMeansTrailingDelimiter(s, d);
    }
    SplitRejoin(s, d);
    assert Split(s, d) + Empties(0) == Split(s, d);
  }

  /** Splitting at a first occurrence that follows a delimiter-free piece. */
  lemma SplitAllStep<T>(a: seq<T>, d: seq<T>, b: seq<T>)
    requires |d| > 0 && d[0] !in a
    ensures SplitAll(a + d + b, d) == [a] + SplitAll(b, d)
  {
    var s := a + d + b;
    FirstMatchAfter(a, d, b);
    assert s[..|a|] == a;
    assert s[|a| + |d|..] == b;
  }

  /** Pieces free of the delimiter's first element split back out of their join. */
  lemma {:induction false} SplitAllJoin<T>(xs: seq<seq<T>>, d: seq<T>)
    requires |d| > 0 && |xs| >= 1
    requires forall k :: 0 <= k < |xs| ==> d[0] !in xs[k]
    ensures SplitAll(Join(xs, d), d) == xs
    decreases |xs|
  {
    if |xs| == 1 {
      FreeOfHead(xs[0], d);
    } else {
      SplitAllJoin(xs[1..], d);
      SplitAllStep(xs[0], d, Join(xs[1..], d));
      assert [xs[0]] + xs[1..] == xs;
    }
  }

  /** Trimming stops at the last non-empty piece. */
  lemma {:induction false} TrimPadded<T>(xs: seq<seq<T>>, n: nat)
    requires |xs| >= 1 && |xs[|xs| - 1]| > 0
    ensures TrimTrailingEmpty(xs + Empties(n)) == xs
    decreases n
  {
    if n > 0 {
      var ys := xs + Empties(n);
      assert ys[..|ys| - 1] == xs + Empties(n - 1);
      TrimPadded(xs, n - 1);
    }
  }

  /**
    `split` undoes a join of delimiter-free pieces followed by `n` empty
    pieces (trailing delimiters), provided the last real piece is not empty.
   */
  lemma SplitJoinPadded<T>(xs: seq<seq<T>>, n: nat, d: seq<T>)
    requires |d| > 0 && |xs| >= 1 && |xs[|xs| - 1]| > 0
    requires forall k :: 0 <= k < |xs| ==> d[0] !in xs[k]
    ensures Split(Join(xs + Empties(n), d), d) == xs
  {
    var ys := xs + Empties(n);
    SplitAllJoin(ys, d);
    TrimPadded(xs, n);
    assert ys == xs + Empties(0) || |ys| > 1;
    if n == 0 {
      assert ys == xs;
      assert TrimTrailingEmpty(xs) == xs;
    }
  }

  /** `split` undoes a join when the last piece is non-empty or the only one. */
  lemma SplitJoin<T>(xs: seq<seq<T>>, d: seq<T>)
    requires |d| > 0 && |xs| >= 1
    requires |xs| > 1 ==> |xs[|xs| - 1]| > 0
    requires forall k :: 0 <= k < |xs| ==> d[0] !in xs[k]
    ensures Split(Join(xs, d), d) == xs
  {
    SplitAllJoin(xs, d);
  }

  /** An element absent from the pieces and the delimiter is absent from the join. */
  lemma {:induction false} NotInJoin<T>(xs: seq<seq<T>>, d: seq<T>, c: T)
    requires c !in d && forall k :: 0 <= k < |xs| ==> c !in xs[k]
    ensures c !in Join(xs, d)
    decreases |xs|
  {
    if |xs| > 1 {
      NotInJoin(xs[1..], d, c);
    }
  }

  /** Whatever a piece holds, the join holds. */
  lemma {:induction false} InJoin<T>(xs: seq<seq<T>>, d: seq<T>, k: int, c: T)
    requires 0 <= k < |xs| && c in xs[k]
    ensures c in Join(xs, d)
    decreases |xs|
  {
    if |xs| > 1 && k > 0 {
      InJoin(xs[1..], d, k - 1, c);
    }
  }

  /** A join of more than one piece whose last piece is empty ends with the delimiter. */
  lemma {:induction false} JoinEndsWithDelimiter<T>(xs: seq<seq<T>>, d: seq<T>)
    requires |xs| >= 2 && |xs[|xs| - 1]| == 0
    ensures Join(xs, d) == Join(xs[..|xs| - 1], d) + d
    decreases |xs|
  {
    if |xs| == 2 {
      assert xs[..1] == [xs[0]];
      assert xs[1] == [];
    } else {
      JoinEndsWithDelimiter(xs[1..], d);
      assert xs[1..][..|xs| - 2] == xs[..|xs| - 1][1..];
    }
  }

  /** A join starts with its first piece. */
  lemma {:induction false} JoinStartsWithHead<T>(xs: seq<seq<T>>, d: seq<T>)
    requires |xs| >= 1
    ensures |xs[0]| <= |Join(xs, d)| && Join(xs, d)[..|xs[0]|] == xs[0]
  {
  }

  // ---------------------------------------------------------------------------
  // replace

  /** How many leftmost, non-overlapping occurrences of `d` there are in `s`. */
  function Occurrences<T(==)>(s: seq<T>, d: seq<T>): nat
    requires |d| > 0
    decreases |s|
  {
    var i := IndexOf(s, d, 0, |s|);
    if i == -1 then 0 else 1 + Occurrences(s[i + |d|..], d)
  }

  /** The split has one piece more than there are occurrences. */
  lemma {:induction false} PiecesCount<T>(s: seq<T>, d: seq<T>)
    requires |d| > 0
    ensures |SplitAll(s, d)| == Occurrences(s, d) + 1
    decreases |s|
  {
    var i := IndexOf(s, d, 0, |s|);
    if i != -1 {
      PiecesCount(s[i + |d|..], d);
    }
  }

  /**
    `s.replace(target, replacement)` for a non-empty target: one
    left-to-right pass that replaces each leftmost occurrence and resumes
    after it, so occurrences never overlap and the replacement text is not
    searched again.
   */
  function Replace<T(==)>(s: seq<T>, target: seq<T>, replacement: seq<T>): (r: seq<T>)
    requires |target| > 0
    ensures |r| == |s| + Occurrences(s, target) * (|replacement| - |target|)
    decreases |s|
  {
    var i := IndexOf(s, target, 0, |s|);
    if i == -1 then s
    else
      var rest := s[i + |target|..];
      var tail := Replace(rest, target, replacement);
      var r := s[..i] + replacement + tail;
      ReplacedLength(|s|, Occurrences(s, target), |r|, i, |target|, |replacement|, |rest|,
                     |tail|, Occurrences(rest, target));
      r
  }

  /** The length bookkeeping of one replacement step. */
  lemma ReplacedLength(before: int, count: int, after: int, i: int, t: int, r: int, rest: int, tail: int, n: int)
    requires before == i + t + rest && after == i + r + tail && count == n + 1
    requires tail == rest + n * (r - t)
    ensures after == before + count * (r - t)
  {
  }

  /** Replacing is joining the pieces around the target with the replacement instead. */
  lemma {:induction false} ReplaceJoinsPieces<T>(s: seq<T>, target: seq<T>, replacement: seq<T>)
    requires |target| > 0
    ensures Replace(s, target, replacement) == Join(SplitAll(s, target), replacement)
    decreases |s|
  {
    var i := IndexOf(s, target, 0, |s|);
    if i != -1 {
      var rest := s[i + |target|..];
      ReplaceJoinsPieces(rest, target, replacement);
      var pieces := SplitAll(s, target);
      assert pieces == [s[..i]] + SplitAll(rest, target);
      assert pieces[1..] == SplitAll(rest, target);
    }
  }

  // ---------------------------------------------------------------------------
  // equalsIgnoreCase

  /** ASCII upper-casing; every other character maps to itself. */
  function UpperAscii(c: char): char
  {
    if 'a' <= c <= 'z' then (c as int - 32) as char else c
  }

  /** Every character of `s` upper-cased. */
  function UpperString(s: string): (u: string)
    ensures |u| == |s| && forall i :: 0 <= i < |s| ==> u[i] == UpperAscii(s[i])
  {
    seq(|s|, i requires 0 <= i < |s| => UpperAscii(s[i]))
  }

  /** `a.equalsIgnoreCase(b)` with case folding restricted to ASCII letters. */
  predicate EqualsIgnoreCase(a: string, b: string)
    ensures EqualsIgnoreCase(a, b) <==> UpperString(a) == UpperString(b)
  {
    |a| == |b| && forall i :: 0 <= i < |a| ==> UpperAscii(a[i]) == UpperAscii(b[i])
  }

  /** Equality ignoring case is an equivalence: every name matches itself, in either order, and through a third name. */
  lemma EqualsIgnoreCaseIsEquivalence(a: string, b: string, c: string)
    ensures EqualsIgnoreCase(a, a)
    ensures EqualsIgnoreCase(a, b) ==> EqualsIgnoreCase(b, a)
    ensures EqualsIgnoreCase(a, b) && EqualsIgnoreCase(b, c) ==> EqualsIgnoreCase(a, c)
  {
  }

  predicate IsAsciiLetter(c: char)
  {
    'a' <= c <= 'z' || 'A' <= c <= 'Z'
  }

  /**
    Only ASCII letters may differ between names equal ignoring case: every
    other character must match exactly, and a letter matches only itself
    or the same letter in the other case.
   */
  lemma EqualsIgnoreCaseAt(a: string, b: string, i: nat)
    requires EqualsIgnoreCase(a, b) && i < |a|
    ensures !IsAsciiLetter(a[i]) ==> b[i] == a[i]
    ensures IsAsciiLetter(a[i]) ==> IsAsciiLetter(b[i]) && (b[i] == a[i] || b[i] as int - a[i] as int == 32
                                                                      || a[i] as int - b[i] as int == 32)
  {
    assert UpperAscii(a[i]) == UpperAscii(b[i]);
  }

  // ---------------------------------------------------------------------------
  // decimal rendering

  /** The character of a decimal digit. */
  function DigitChar(n: nat): char
    requires n < 10
  {
    ('0' as int + n) as char
  }

  predicate IsDigit(c: char)
  {
    '0' <= c <= '9'
  }

  /** `"" + n` for a non-negative `int` or `long`: digits, most significant first, no leading zero. */
  function Decimal(n: nat): (s: string)
    ensures |s| >= 1
    ensures forall i :: 0 <= i < |s| ==> IsDigit(s[i])
    ensures |s| > 1 ==> s[0] != '0'
    ensures n < 10 <==> |s| == 1
  {
    if n < 10 then [DigitChar(n)] else Decimal(n / 10) + [DigitChar(n % 10)]
  }

  /** The value of a non-empty string of decimal digits, as `Long.parseLong` reads it. */
  function DigitsValue(s: string): (n: nat)
    requires forall i :: 0 <= i < |s| ==> IsDigit(s[i])
    decreases |s|
  {
    if |s| == 0 then 0
    else
      var last := s[|s| - 1];
      assert IsDigit(last);
      10 * DigitsValue(s[..|s| - 1]) + (last as int - '0' as int)
  }

  /** A reader recovers the number from its decimal rendering. */
  lemma {:induction false} DecimalRoundTrip(n: nat)
    ensures DigitsValue(Decimal(n)) == n
    decreases n
  {
    if n >= 10 {
      DecimalRoundTrip(n / 10);
      var s := Decimal(n);
      assert s[..|s| - 1] == Decimal(n / 10);
    }
  }
}
