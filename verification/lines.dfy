/**
  CRLF-delimited lines and the blank line that ends a header block, shared
  by the request parser and the response framing (section 2.1 of RFC 9112).
 */
module Lines {
  import opened Search
  import opened JavaStrings

  const CRLF: string := "\r\n"
  const CRLFCRLF: string := "\r\n\r\n"

  /** At least one line, every line non-empty and free of CR: a header block with no blank line in it. */
  predicate PlainLines(xs: seq<string>)
  {
    |xs| >= 1 && forall k :: 0 <= k < |xs| ==> |xs[k]| > 0 && '\r' !in xs[k]
  }

  /** Inside a block of plain lines no CRLFCRLF starts, whatever follows the block. */
  lemma {:induction false} NoBlankLineInside(xs: seq<string>, tail: string)
    requires PlainLines(xs)
    ensures forall j :: 0 <= j < |Join(xs, CRLF)| ==> !MatchesAt(Join(xs, CRLF) + tail, CRLFCRLF, j)
    decreases |xs|
  {
    var block := Join(xs, CRLF);
    var s := block + tail;
    if |xs| == 1 {
      forall j | 0 <= j < |block|
        ensures !MatchesAt(s, CRLFCRLF, j)
      {
        MatchesAtElements(s, CRLFCRLF, j);
        assert s[j] == xs[0][j];
      }
    } else {
      var x := xs[0];
      var more := Join(xs[1..], CRLF);
      assert PlainLines(xs[1..]) by {
        assert forall k :: 0 <= k < |xs[1..]| ==> xs[1..][k] == xs[k + 1];
      }
      NoBlankLineInside(xs[1..], tail);
      JoinStartsWithHead(xs[1..], CRLF);
      assert xs[1..][0] == xs[1];
      assert s == (x + CRLF) + (more + tail);
      forall j | 0 <= j < |block|
        ensures !MatchesAt(s, CRLFCRLF, j)
      {
        MatchesAtElements(s, CRLFCRLF, j);
        if j < |x| {
          assert s[j] == x[j];
        } else if j == |x| {
          assert s[j + 2] == more[0] == xs[1][0];
        } else if j == |x| + 1 {
          assert s[j] == '\n';
        } else {
          MatchesAtShift(x + CRLF, more + tail, CRLFCRLF, j - |x| - 2);
        }
      }
    }
  }

  /** The first CRLFCRLF after a block of plain lines is the one that ends it. */
  lemma BlankLineEndsLines(xs: seq<string>, rest: string)
    requires PlainLines(xs)
    ensures var s := Join(xs, CRLF) + CRLFCRLF + rest;
            IndexOf(s, CRLFCRLF, 0, |s|) == |Join(xs, CRLF)|
  {
    var block := Join(xs, CRLF);
    var s := block + CRLFCRLF + rest;
    NoBlankLineInside(xs, CRLFCRLF + rest);
    assert s == block + (CRLFCRLF + rest);
    assert s[|block|..|block| + 4] == CRLFCRLF;
    IndexOfIs(s, CRLFCRLF, 0, |s|, |block|);
  }

  /** Splitting a block of plain lines on CRLF gives the lines back. */
  lemma LinesSplitBack(xs: seq<string>)
    requires PlainLines(xs)
    ensures Split(Join(xs, CRLF), CRLF) == xs
  {
    SplitJoin(xs, CRLF);
  }
}
