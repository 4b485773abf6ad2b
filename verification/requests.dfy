/**
  The request value and `Request.createRequest`: one bounded read into a
  4096-byte buffer, a scan for the end of the request line, its split into
  method, target and version (section 3 of RFC 9112), a scan for the blank
  line ending the header block, and the header block cut into raw lines.

  A byte is modelled by the character with the same code, so the buffer is a
  `string` and `new String(bytes)` is the identity (exact for ASCII input).
 */
module Requests {
  import opened Wrappers
  import opened Search
  import opened JavaStrings
  import opened Methods
  import opened Lines

  /** The size of the buffer the single `read` fills. */
  const Limit: nat := 4096

  /** A query parameter (`NameValuePair`). */
  datatype Param = Param(name: string, value: string)

  datatype Request = Request(httpMethod: Method, path: string, headers: seq<string>, params: seq<Param>)

  /**
    `new URIBuilder(new URI(path), UTF_8).getQueryParams()`, a library call
    outside this model: the parameters of `path`, or None where `new URI`
    throws `URISyntaxException`.
   */
  type QueryParser = string -> Option<seq<Param>>

  /** What `createRequest` does: return a request, return `null`, or throw `URISyntaxException`. */
  datatype Created = Created(request: Request) | NoRequest | UriSyntaxError

  // ---------------------------------------------------------------------------
  // getQueryParam

  /** The first parameter whose name equals `name` ignoring case. */
  function FindParam(params: seq<Param>, name: string): (r: Option<Param>)
    ensures r.Some? ==> EqualsIgnoreCase(r.value.name, name)
    ensures r.None? <==> forall i :: 0 <= i < |params| ==> !EqualsIgnoreCase(params[i].name, name)
    ensures r.Some? ==> exists i :: 0 <= i < |params| && params[i] == r.value
                                    && forall j :: 0 <= j < i ==> !EqualsIgnoreCase(params[j].name, name)
  {
    if |params| == 0 then None
    else if EqualsIgnoreCase(params[0].name, name) then Some(params[0])
    else
      var r := FindParam(params[1..], name);
      assert forall i :: 1 <= i < |params| ==> params[i] == params[1..][i - 1];
      r
  }

  /**
    `getQueryParam(name)`: the first parameter whose name matches `name`
    ignoring case, otherwise a parameter named `name` with the empty value.
   */
  function GetQueryParam(req: Request, name: string): (p: Param)
    ensures (exists i :: 0 <= i < |req.params| && EqualsIgnoreCase(req.params[i].name, name)) ==>
              exists i :: 0 <= i < |req.params| && req.params[i] == p && EqualsIgnoreCase(p.name, name)
                          && forall j :: 0 <= j < i ==> !EqualsIgnoreCase(req.params[j].name, name)
    ensures (forall i :: 0 <= i < |req.params| ==> !EqualsIgnoreCase(req.params[i].name, name)) ==>
              p == Param(name, "")
  {
    FindParam(req.params, name).GetOr(Param(name, ""))
  }

  /** Names that differ only in ASCII case select the same value. */
  lemma {:induction false} GetQueryParamIgnoresCase(req: Request, name1: string, name2: string)
    requires EqualsIgnoreCase(name1, name2)
    ensures GetQueryParam(req, name1).value == GetQueryParam(req, name2).value
  {
    SameParamIgnoringCase(req.params, name1, name2);
  }

  lemma {:induction false} SameParamIgnoringCase(params: seq<Param>, name1: string, name2: string)
    requires EqualsIgnoreCase(name1, name2)
    ensures FindParam(params, name1) == FindParam(params, name2)
    decreases |params|
  {
    if |params| > 0 {
      var n := params[0].name;
      assert EqualsIgnoreCase(n, name1) <==> EqualsIgnoreCase(n, name2);
      SameParamIgnoringCase(params[1..], name1, name2);
    }
  }

  // ---------------------------------------------------------------------------
  // createRequest

  /** The bytes that land in the buffer: at most `Limit` of what the stream delivers to one `read`. */
  function Received(chunk: string): (r: string)
    ensures |r| <= Limit && |r| <= |chunk| && r == chunk[..|r|]
    ensures |chunk| >= Limit ==> |r| == Limit
    ensures |chunk| <= Limit ==> r == chunk
  {
    if |chunk| <= Limit then chunk else chunk[..Limit]
  }

  /** The value `read` returns: the number of bytes stored, or -1 at end of stream. */
  function ReadCount(buffer: string): (n: int)
    ensures n == -1 <==> |buffer| == 0
    ensures n != -1 ==> n == |buffer|
  {
    if |buffer| == 0 then -1 else |buffer|
  }

  /** What `read` returns for what arrives: -1 iff nothing arrived, otherwise between 1 and the buffer size. */
  lemma ReadCountOfReceived(chunk: string)
    ensures ReadCount(Received(chunk)) == -1 <==> chunk == []
    ensures chunk != [] ==> 1 <= ReadCount(Received(chunk)) <= Limit
    ensures chunk != [] ==> ReadCount(Received(chunk)) == |chunk| || ReadCount(Received(chunk)) == Limit
  {
  }

  /** `createRequest`, given the chunk that the one `read` call delivers. */
  function CreateRequest(chunk: string, query: QueryParser): (r: Created)
    ensures Free(Received(chunk), CRLF) ==> r == NoRequest
    ensures r.Created? ==> ' ' !in r.request.path
    ensures r.Created? ==> forall k :: 0 <= k < |r.request.headers| ==> Free(r.request.headers[k], CRLF)
    ensures r.Created? ==> query(r.request.path) == Some(r.request.params)
  {
    ParseBufferFacts(Received(chunk), query);
    ParseBuffer(Received(chunk), query)
  }

  /** What every outcome of the parse after the read satisfies. */
  lemma ParseBufferFacts(buffer: string, query: QueryParser)
    ensures var r := ParseBuffer(buffer, query);
            && (Free(buffer, CRLF) ==> r == NoRequest)
            && (r.Created? ==> ' ' !in r.request.path)
            && (r.Created? ==> forall k :: 0 <= k < |r.request.headers| ==> Free(r.request.headers[k], CRLF))
            && (r.Created? ==> query(r.request.path) == Some(r.request.params))
  {
    var e1 := IndexOf(buffer, CRLF, 0, ReadCount(buffer));
    assert ParseBuffer(buffer, query) == ParseRequestLine(buffer, e1, query);
    if 0 <= e1 {
      RequestLineOfFacts(buffer[..e1]);
    }
  }

  /**
    The body of `createRequest` after the read. Failures before the URI is
    parsed give NoRequest; the CRLFCRLF search starts after the first CRLF,
    so the request line's own terminator is never part of the blank line.
   */
  function ParseBuffer(buffer: string, query: QueryParser): (r: Created)
    ensures IndexOf(buffer, CRLF, 0, ReadCount(buffer)) == -1 ==> r == NoRequest
  {
    ParseRequestLine(buffer, IndexOf(buffer, CRLF, 0, ReadCount(buffer)), query)
  }

  /** The request line ends at `requestLineEnd`, or there is none when that is -1. */
  function ParseRequestLine(buffer: string, requestLineEnd: int, query: QueryParser): (r: Created)
    requires requestLineEnd <= |buffer|
    ensures !r.NoRequest? ==> 0 <= requestLineEnd && RequestLineOf(buffer[..requestLineEnd]).Some?
  {
    if requestLineEnd < 0 then NoRequest
    else
      var line := RequestLineOf(buffer[..requestLineEnd]);
      if line.None? then NoRequest
      else ParseHeaders(buffer, requestLineEnd + |CRLF|, line.value.verb, line.value.target, query)
  }

  /**
    The rest of `createRequest` once the request line gave a method and a
    target: the header block runs from `headersStart` to the first CRLFCRLF
    at or after it, and only then is the target handed to the URI parser.
   */
  function ParseHeaders(buffer: string, headersStart: nat, found: Method, path: string,
                        query: QueryParser): (r: Created)
    ensures r.Created? ==> && r.request.httpMethod == found && r.request.path == path
                           && query(path) == Some(r.request.params)
    ensures r.Created? ==> forall k :: 0 <= k < |r.request.headers| ==> Free(r.request.headers[k], CRLF)
    ensures r.NoRequest? <==> IndexOf(buffer, CRLFCRLF, headersStart, ReadCount(buffer)) == -1
    ensures r.UriSyntaxError? <==> IndexOf(buffer, CRLFCRLF, headersStart, ReadCount(buffer)) != -1
                                   && query(path).None?
    ensures r.Created? ==> var headersEnd := IndexOf(buffer, CRLFCRLF, headersStart, ReadCount(buffer));
                           && headersStart <= headersEnd <= |buffer|
                           && r.request.headers == Split(buffer[headersStart..headersEnd], CRLF)
  {
    var headersEnd := IndexOf(buffer, CRLFCRLF, headersStart, ReadCount(buffer));
    if headersEnd == -1 then NoRequest
    else
      var headers := Split(buffer[headersStart..headersEnd], CRLF);
      match query(path)
      case None => UriSyntaxError
      case Some(params) => Created(Request(found, path, headers, params))
  }

  /** The method and the target a request line names. */
  datatype RequestTarget = RequestTarget(verb: Method, target: string)

  /**
    The request line split on single spaces: exactly three tokens, the
    first the name of a method, give that method and the second token as
    the target; anything else is None.
   */
  function RequestLineOf(line: string): (r: Option<RequestTarget>)
    ensures r.Some? ==> |Split(line, " ")| == 3 && r.value.target == Split(line, " ")[1]
                        && r.value.verb in Values
  {
    var requestLine := Split(line, " ");
    if |requestLine| != 3 then None
    else
      var found := FromString(requestLine[0]);
      if !(found.Some? && found.value in Values) then None
      else Some(RequestTarget(found.value, requestLine[1]))
  }

  /** Which request lines give a method and a target, and which ones. */
  lemma RequestLineOfFacts(line: string)
    ensures var r := RequestLineOf(line);
            && (r.Some? <==> |Split(line, " ")| == 3 && FromString(Split(line, " ")[0]).Some?)
            && (r.Some? ==>
                  && Split(line, " ")[0] == Name(r.value.verb)
                  && Split(line, " ")[1] == r.value.target && ' ' !in r.value.target)
  {
    var tokens := Split(line, " ");
    if |tokens| == 3 {
      FreeSingle(tokens[1], ' ');
    }
  }

  // ---------------------------------------------------------------------------
  // requests on the wire

  /**
    A request as it travels: the request-line tokens joined by single spaces
    and followed by `trailing` further spaces, CRLF, the header lines joined
    by CRLF, the blank line, then anything at all (a body, say).
   */
  function Wire(tokens: seq<string>, trailing: nat, headers: seq<string>, rest: string): string
  {
    RequestLine(tokens, trailing) + CRLF + Join(headers, CRLF) + CRLFCRLF + rest
  }

  /** The request line of `Wire`. */
  function RequestLine(tokens: seq<string>, trailing: nat): string
  {
    Join(tokens + Empties(trailing), " ")
  }

  /** Request-line tokens that survive the round trip: no SP, no CR, the last one not empty. */
  predicate Tokens(tokens: seq<string>)
  {
    && |tokens| >= 1 && |tokens[|tokens| - 1]| > 0
    && forall k :: 0 <= k < |tokens| ==> ' ' !in tokens[k] && '\r' !in tokens[k]
  }

  /** A method name is a token. */
  lemma NameIsToken(m: Method)
    ensures |Name(m)| > 0 && ' ' !in Name(m) && '\r' !in Name(m)
  {
  }

  /** Where `createRequest` finds the request line of a chunk that starts with one. */
  lemma RequestLineParts(tokens: seq<string>, trailing: nat, rest: string)
    requires Tokens(tokens)
    requires |RequestLine(tokens, trailing) + CRLF + rest| <= Limit
    ensures var line := RequestLine(tokens, trailing);
            var w := line + CRLF + rest;
            && Received(w) == w && ReadCount(w) == |w|
            && IndexOf(w, CRLF, 0, |w|) == |line|
            && w[..|line|] == line
            && Split(line, " ") == tokens
  {
    var line := RequestLine(tokens, trailing);
    var w := line + CRLF + rest;
    var all := tokens + Empties(trailing);
    assert forall k :: 0 <= k < |all| ==> '\r' !in all[k] && ' ' !in all[k] by {
      assert forall k :: 0 <= k < |tokens| ==> all[k] == tokens[k];
    }
    NotInJoin(all, " ", '\r');
    FirstMatchAfter(line, CRLF, rest);
    assert w[..|line|] == line;
    SplitJoinPadded(tokens, trailing, " ");
  }

  /** A search that starts where a prefix ends finds what the same search finds after the prefix, shifted. */
  lemma ShiftedIndex(w: string, prefix: string, after: string, t: string, start: nat, n: int)
    requires w == prefix + after && start == |prefix|
    requires n != -1 && IndexOf(after, t, 0, |after|) == n
    ensures IndexOf(w, t, start, |w|) == start + n
  {
    IndexOfShift(prefix, after, t, 0, |after|);
  }

  lemma SliceAfterPrefix(prefix: string, after: string, n: nat)
    requires n <= |after|
    ensures (prefix + after)[|prefix|..|prefix| + n] == after[..n]
  {
  }

  /** Where `createRequest` finds every part of a well-formed wire request. */
  lemma WireParts(tokens: seq<string>, trailing: nat, headers: seq<string>, rest: string)
    requires Tokens(tokens) && PlainLines(headers)
    requires |Wire(tokens, trailing, headers, rest)| <= Limit
    ensures var line := RequestLine(tokens, trailing);
            var block := Join(headers, CRLF);
            var w := Wire(tokens, trailing, headers, rest);
            && Received(w) == w && ReadCount(w) == |w|
            && IndexOf(w, CRLF, 0, |w|) == |line|
            && w[..|line|] == line
            && Split(line, " ") == tokens
            && IndexOf(w, CRLFCRLF, |line| + 2, |w|) == |line| + 2 + |block|
            && w[|line| + 2..|line| + 2 + |block|] == block
            && Split(block, CRLF) == headers
  {
    WireLineParts(tokens, trailing, headers, rest);
    WireHeaderParts(tokens, trailing, headers, rest);
    LinesSplitBack(headers);
  }

  /** Where `createRequest` finds the request line of a wire request. */
  lemma WireLineParts(tokens: seq<string>, trailing: nat, headers: seq<string>, rest: string)
    requires Tokens(tokens)
    requires |Wire(tokens, trailing, headers, rest)| <= Limit
    ensures var line := RequestLine(tokens, trailing);
            var w := Wire(tokens, trailing, headers, rest);
            && Received(w) == w && ReadCount(w) == |w|
            && IndexOf(w, CRLF, 0, |w|) == |line|
            && w[..|line|] == line
            && Split(line, " ") == tokens
  {
    var after := Join(headers, CRLF) + CRLFCRLF + rest;
    assert Wire(tokens, trailing, headers, rest) == RequestLine(tokens, trailing) + CRLF + after;
    RequestLineParts(tokens, trailing, after);
  }

  /** Where `createRequest` finds the header block of a wire request. */
  lemma WireHeaderParts(tokens: seq<string>, trailing: nat, headers: seq<string>, rest: string)
    requires PlainLines(headers)
    ensures var line := RequestLine(tokens, trailing);
            var block := Join(headers, CRLF);
            var w := Wire(tokens, trailing, headers, rest);
            && IndexOf(w, CRLFCRLF, |line| + 2, |w|) == |line| + 2 + |block|
            && w[|line| + 2..|line| + 2 + |block|] == block
  {
    WireBlockEnd(tokens, trailing, headers, rest);
    WireBlock(tokens, trailing, headers, rest);
  }

  /** A wire request is its request line and CRLF, then everything after. */
  lemma WireAfterLine(tokens: seq<string>, trailing: nat, headers: seq<string>, rest: string)
    ensures Wire(tokens, trailing, headers, rest)
         == (RequestLine(tokens, trailing) + CRLF) + (Join(headers, CRLF) + CRLFCRLF + rest)
  {
  }

  /** The blank line of a wire request is the first CRLFCRLF after the request line. */
  lemma WireBlockEnd(tokens: seq<string>, trailing: nat, headers: seq<string>, rest: string)
    requires PlainLines(headers)
    ensures var line := RequestLine(tokens, trailing);
            var w := Wire(tokens, trailing, headers, rest);
            IndexOf(w, CRLFCRLF, |line| + 2, |w|) == |line| + 2 + |Join(headers, CRLF)|
  {
    var p := RequestLine(tokens, trailing) + CRLF;
    var block := Join(headers, CRLF);
    var after := block + CRLFCRLF + rest;
    WireAfterLine(tokens, trailing, headers, rest);
    BlankLineEndsLines(headers, rest);
    ShiftedIndex(Wire(tokens, trailing, headers, rest), p, after, CRLFCRLF, |RequestLine(tokens, trailing)| + 2, |block|);
  }

  /** Between the request line's CRLF and the blank line lie the header lines joined by CRLF. */
  lemma WireBlock(tokens: seq<string>, trailing: nat, headers: seq<string>, rest: string)
    ensures var line := RequestLine(tokens, trailing);
            var block := Join(headers, CRLF);
            var w := Wire(tokens, trailing, headers, rest);
            w[|line| + 2..|line| + 2 + |block|] == block
  {
    var p := RequestLine(tokens, trailing) + CRLF;
    var block := Join(headers, CRLF);
    var after := block + CRLFCRLF + rest;
    WireAfterLine(tokens, trailing, headers, rest);
    SliceAfterPrefix(p, after, |block|);
    assert after[..|block|] == block;
  }

  /**
    A request line of method, target and version followed by header lines
    and the blank line parses back into exactly that method, target and
    those header lines; the query parameters come from the URI parser.
   */
  lemma CreateRequestOfWire(m: Method, path: string, version: string, trailing: nat,
                            headers: seq<string>, rest: string, query: QueryParser)
    requires ' ' !in path && '\r' !in path
    requires |version| > 0 && ' ' !in version && '\r' !in version
    requires PlainLines(headers)
    requires |Wire([Name(m), path, version], trailing, headers, rest)| <= Limit
    ensures CreateRequest(Wire([Name(m), path, version], trailing, headers, rest), query)
         == match query(path)
            case None => UriSyntaxError
            case Some(params) => Created(Request(m, path, headers, params))
  {
    var tokens := [Name(m), path, version];
    var w := Wire(tokens, trailing, headers, rest);
    var line := RequestLine(tokens, trailing);
    NameIsToken(m);
    assert Tokens(tokens);
    WireParts(tokens, trailing, headers, rest);
    ParseBufferWhen(w, query, |line|, m, path, |line| + 2 + |Join(headers, CRLF)|, headers);
  }

  /** `createRequest` on a buffer, given where its searches land and what its splits give. */
  lemma ParseBufferWhen(buffer: string, query: QueryParser, e1: int, m: Method, path: string,
                        e2: int, headers: seq<string>)
    requires |buffer| > 0 && 0 <= e1 <= |buffer| && IndexOf(buffer, CRLF, 0, |buffer|) == e1
    requires var tokens := Split(buffer[..e1], " ");
             |tokens| == 3 && tokens[0] == Name(m) && tokens[1] == path
    requires e2 != -1 && IndexOf(buffer, CRLFCRLF, e1 + 2, |buffer|) == e2
    requires Split(buffer[e1 + 2..e2], CRLF) == headers
    ensures ParseBuffer(buffer, query)
         == match query(path)
            case None => UriSyntaxError
            case Some(params) => Created(Request(m, path, headers, params))
  {
    assert ReadCount(buffer) == |buffer|;
    assert ParseBuffer(buffer, query) == ParseRequestLine(buffer, e1, query);
    RequestLineOfTokens(buffer[..e1], m, path);
    ParseHeadersWhen(buffer, e1 + 2, m, path, query, e2, headers);
  }

  /** A request line of three tokens, a method's name first, names that method and the second token. */
  lemma RequestLineOfTokens(line: string, m: Method, path: string)
    requires var tokens := Split(line, " ");
             |tokens| == 3 && tokens[0] == Name(m) && tokens[1] == path
    ensures RequestLineOf(line) == Some(RequestTarget(m, path))
  {
    FromStringName(m);
    ValuesComplete();
  }

  /** The header stage, given where its search lands and what its split gives. */
  lemma ParseHeadersWhen(buffer: string, headersStart: nat, m: Method, path: string, query: QueryParser,
                         e2: int, headers: seq<string>)
    requires |buffer| > 0 && e2 != -1 && IndexOf(buffer, CRLFCRLF, headersStart, |buffer|) == e2
    requires Split(buffer[headersStart..e2], CRLF) == headers
    ensures ParseHeaders(buffer, headersStart, m, path, query)
         == match query(path)
            case None => UriSyntaxError
            case Some(params) => Created(Request(m, path, headers, params))
  {
    assert ReadCount(buffer) == |buffer|;
  }

  /** A request line with other than three tokens (a leading space adds an empty one) gives `null`. */
  lemma WrongTokenCountIsNoRequest(tokens: seq<string>, trailing: nat, rest: string, query: QueryParser)
    requires Tokens(tokens) && |tokens| != 3
    requires |RequestLine(tokens, trailing) + CRLF + rest| <= Limit
    ensures CreateRequest(RequestLine(tokens, trailing) + CRLF + rest, query) == NoRequest
  {
    RequestLineParts(tokens, trailing, rest);
  }

  /** A leading space turns a three-token line into four tokens, so `null`. */
  lemma LeadingSpaceIsNoRequest(m: Method, path: string, version: string, rest: string, query: QueryParser)
    requires ' ' !in path && '\r' !in path
    requires |version| > 0 && ' ' !in version && '\r' !in version
    requires |" " + RequestLine([Name(m), path, version], 0) + CRLF + rest| <= Limit
    ensures CreateRequest(" " + RequestLine([Name(m), path, version], 0) + CRLF + rest, query) == NoRequest
  {
    NameIsToken(m);
    var tokens := ["", Name(m), path, version];
    assert RequestLine(tokens, 0) == " " + RequestLine([Name(m), path, version], 0) by {
      assert tokens + Empties(0) == [""] + ([Name(m), path, version] + Empties(0));
      JoinCons("", [Name(m), path, version] + Empties(0), " ");
    }
    WrongTokenCountIsNoRequest(tokens, 0, rest, query);
  }

  /** A first token that names no method gives `null`. */
  lemma UnknownMethodIsNoRequest(word: string, path: string, version: string, trailing: nat,
                                 rest: string, query: QueryParser)
    requires Tokens([word, path, version]) && FromString(word) == None
    requires |RequestLine([word, path, version], trailing) + CRLF + rest| <= Limit
    ensures CreateRequest(RequestLine([word, path, version], trailing) + CRLF + rest, query) == NoRequest
  {
    RequestLineParts([word, path, version], trailing, rest);
  }

  /**
    A request line followed by nothing but the blank line gives `null`: the
    CRLFCRLF search starts after the request line's CRLF, where only one
    CRLF is left.
   */
  lemma RequestLineThenBlankLineIsNoRequest(line: string, query: QueryParser)
    requires '\r' !in line && |line| + 4 <= Limit
    ensures CreateRequest(line + CRLF + CRLF, query) == NoRequest
  {
    FirstMatchAfter(line, CRLF, CRLF);
  }

  /** Nothing past the first `Limit` bytes of the chunk is ever looked at. */
  lemma OnlyTheBufferCounts(chunk: string, extra: string, query: QueryParser)
    requires |chunk| >= Limit
    ensures CreateRequest(chunk + extra, query) == CreateRequest(chunk, query)
  {
    assert (chunk + extra)[..Limit] == chunk[..Limit];
    assert Received(chunk + extra) == Received(chunk);
  }

  /** The bytes before the first CRLFCRLF at or after `start` do not end in CRLF. */
  lemma BlockDoesNotEndInCRLF(buffer: string, start: nat, e: int)
    requires MatchesAt(buffer, CRLFCRLF, e) && start <= e
    requires forall k :: start <= k < e ==> !MatchesAt(buffer, CRLFCRLF, k)
    ensures var block := buffer[start..e];
            !(|block| >= 2 && block[|block| - 2..] == CRLF)
  {
    var block := buffer[start..e];
    if |block| >= 2 {
      assert !MatchesAt(buffer, CRLFCRLF, e - 2);
      assert buffer[e..e + 2] == buffer[e..e + 4][..2] == CRLFCRLF[..2] == CRLF;
      assert buffer[e - 2..e] == block[|block| - 2..];
      assert buffer[e - 2..e + 2] == buffer[e - 2..e] + buffer[e..e + 2];
      assert CRLF + CRLF == CRLFCRLF;
    }
  }

  /** So splitting the header block drops nothing, and joining the lines gives the block back. */
  lemma HeaderBlockRejoins(buffer: string, start: nat, max: int)
    requires max <= |buffer| && IndexOf(buffer, CRLFCRLF, start, max) != -1
    ensures var block := buffer[start..IndexOf(buffer, CRLFCRLF, start, max)];
            Join(Split(block, CRLF), CRLF) == block
  {
    var e := IndexOf(buffer, CRLFCRLF, start, max);
    BlockDoesNotEndInCRLF(buffer, start, e);
    SplitJoinsBack(buffer[start..e], CRLF);
  }

  /** What a successful parse of a buffer has found along the way. */
  lemma CreatedParts(buffer: string, query: QueryParser)
    requires ParseBuffer(buffer, query).Created?
    ensures var req := ParseBuffer(buffer, query).request;
            var e1 := IndexOf(buffer, CRLF, 0, ReadCount(buffer));
            var e2 := IndexOf(buffer, CRLFCRLF, e1 + 2, ReadCount(buffer));
            && e1 != -1 && e2 != -1 && e1 + 2 <= e2
            && var tokens := Split(buffer[..e1], " ");
               && |tokens| == 3 && tokens[0] == Name(req.httpMethod) && tokens[1] == req.path
               && req.headers == Split(buffer[e1 + 2..e2], CRLF)
  {
    CreatedLine(buffer, query);
    CreatedHeaders(buffer, query);
  }

  /** A successful parse found a request line of three tokens, the method's name and the target first. */
  lemma CreatedLine(buffer: string, query: QueryParser)
    requires ParseBuffer(buffer, query).Created?
    ensures var req := ParseBuffer(buffer, query).request;
            var e1 := IndexOf(buffer, CRLF, 0, ReadCount(buffer));
            && e1 != -1
            && var tokens := Split(buffer[..e1], " ");
               && |tokens| == 3 && tokens[0] == Name(req.httpMethod) && tokens[1] == req.path
  {
    var e1 := IndexOf(buffer, CRLF, 0, ReadCount(buffer));
    assert e1 != -1;
    var tokens := Split(buffer[..e1], " ");
    assert |tokens| == 3;
    var found := FromString(tokens[0]);
    assert ParseBuffer(buffer, query).request.httpMethod == found.value;
  }

  /** A successful parse found the blank line after the request line, and split the block before it. */
  lemma CreatedHeaders(buffer: string, query: QueryParser)
    requires ParseBuffer(buffer, query).Created?
    ensures var req := ParseBuffer(buffer, query).request;
            var e1 := IndexOf(buffer, CRLF, 0, ReadCount(buffer));
            var e2 := IndexOf(buffer, CRLFCRLF, e1 + 2, ReadCount(buffer));
            && e1 != -1 && e2 != -1 && e1 + 2 <= e2
            && req.headers == Split(buffer[e1 + 2..e2], CRLF)
  {
    var e1 := StagedAtRequestLine(buffer, query);
    var line := RequestLineOf(buffer[..e1]).value;
    HeadersFound(buffer, e1 + 2, line.verb, line.target, query);
  }

  /** A parse that got past the request line is its header stage. */
  lemma StagedAtRequestLine(buffer: string, query: QueryParser) returns (e1: int)
    requires !ParseBuffer(buffer, query).NoRequest?
    ensures e1 == IndexOf(buffer, CRLF, 0, ReadCount(buffer)) && 0 <= e1 <= |buffer|
    ensures RequestLineOf(buffer[..e1]).Some?
    ensures ParseBuffer(buffer, query)
         == ParseHeaders(buffer, e1 + 2, RequestLineOf(buffer[..e1]).value.verb,
                         RequestLineOf(buffer[..e1]).value.target, query)
  {
    e1 := IndexOf(buffer, CRLF, 0, ReadCount(buffer));
    assert ParseBuffer(buffer, query) == ParseRequestLine(buffer, e1, query);
    PastRequestLine(buffer, e1, query);
  }

  /** A request-line stage that did not give `null` handed over to the header stage. */
  lemma PastRequestLine(buffer: string, e1: int, query: QueryParser)
    requires e1 <= |buffer| && !ParseRequestLine(buffer, e1, query).NoRequest?
    ensures 0 <= e1 && RequestLineOf(buffer[..e1]).Some?
    ensures ParseRequestLine(buffer, e1, query)
         == ParseHeaders(buffer, e1 + 2, RequestLineOf(buffer[..e1]).value.verb,
                         RequestLineOf(buffer[..e1]).value.target, query)
  {
  }

  /** A header stage that created a request found the blank line and split the block before it. */
  lemma HeadersFound(buffer: string, headersStart: nat, found: Method, path: string, query: QueryParser)
    requires ParseHeaders(buffer, headersStart, found, path, query).Created?
    ensures var e2 := IndexOf(buffer, CRLFCRLF, headersStart, ReadCount(buffer));
            && e2 != -1 && headersStart <= e2
            && ParseHeaders(buffer, headersStart, found, path, query).request.headers
               == Split(buffer[headersStart..e2], CRLF)
  {
  }

  /**
    What a parse that threw `URISyntaxException` has found along the way:
    the URI parser is reached only after a three-token request line naming
    a method and after the blank line, and it rejected the target.
   */
  lemma UriSyntaxErrorParts(buffer: string, query: QueryParser)
    requires ParseBuffer(buffer, query).UriSyntaxError?
    ensures var e1 := IndexOf(buffer, CRLF, 0, ReadCount(buffer));
            && 0 <= e1 <= |buffer|
            && var tokens := Split(buffer[..e1], " ");
               && |tokens| == 3 && FromString(tokens[0]).Some?
               && IndexOf(buffer, CRLFCRLF, e1 + 2, ReadCount(buffer)) != -1
               && query(tokens[1]).None?
  {
    var e1 := StagedAtRequestLine(buffer, query);
    RequestLineOfFacts(buffer[..e1]);
  }

  /** The request line, rebuilt from its tokens and the trailing spaces `split` dropped. */
  lemma RequestLineRejoins(line: string, m: Method, path: string) returns (version: string, trailing: nat)
    requires var tokens := Split(line, " ");
             |tokens| == 3 && tokens[0] == Name(m) && tokens[1] == path
    ensures |version| > 0 && ' ' !in version
    ensures line == RequestLine([Name(m), path, version], trailing)
  {
    var tokens := Split(line, " ");
    trailing := Dropped(line, " ");
    SplitRejoin(line, " ");
    version := tokens[2];
    FreeSingle(version, ' ');
    assert tokens == [Name(m), path, version];
  }

  /** A buffer cut at a CRLF and at a later CRLFCRLF. */
  lemma CutAtDelimiters(buffer: string, e1: int, e2: int)
    requires MatchesAt(buffer, CRLF, e1) && MatchesAt(buffer, CRLFCRLF, e2) && e1 + 2 <= e2
    ensures buffer == buffer[..e1] + CRLF + buffer[e1 + 2..e2] + CRLFCRLF + buffer[e2 + 4..]
  {
    assert buffer == buffer[..e1] + buffer[e1..e1 + 2] + buffer[e1 + 2..e2] + buffer[e2..e2 + 4] + buffer[e2 + 4..];
  }

  /**
    The converse of the round trip: whatever `createRequest` accepts is a
    wire request whose request line starts with the method's name and the
    target, and whose header block is the header lines joined by CRLF.
   */
  lemma CreatedIsWire(chunk: string, query: QueryParser)
    requires CreateRequest(chunk, query).Created?
    ensures var req := CreateRequest(chunk, query).request;
            exists version: string, trailing: nat, rest: string ::
              && |version| > 0 && ' ' !in version
              && Received(chunk) == Wire([Name(req.httpMethod), req.path, version], trailing, req.headers, rest)
  {
    var version, trailing, rest := ParsedIsWire(Received(chunk), query);
  }

  /** A buffer the parse accepts, rebuilt from what the parse found. */
  lemma ParsedIsWire(buffer: string, query: QueryParser) returns (version: string, trailing: nat, rest: string)
    requires ParseBuffer(buffer, query).Created?
    ensures |version| > 0 && ' ' !in version
    ensures var req := ParseBuffer(buffer, query).request;
            buffer == Wire([Name(req.httpMethod), req.path, version], trailing, req.headers, rest)
  {
    var req := ParseBuffer(buffer, query).request;
    CreatedParts(buffer, query);
    var read := ReadCount(buffer);
    var e1 := IndexOf(buffer, CRLF, 0, read);
    var e2 := IndexOf(buffer, CRLFCRLF, e1 + 2, read);
    version, trailing := RequestLineRejoins(buffer[..e1], req.httpMethod, req.path);
    HeaderBlockRejoins(buffer, e1 + 2, read);
    CutIsWire(buffer, e1, e2, [Name(req.httpMethod), req.path, version], trailing, req.headers);
    rest := buffer[e2 + 4..];
  }

  /** A buffer cut into a request line, a header block and the rest is a wire request. */
  lemma CutIsWire(buffer: string, e1: int, e2: int, tokens: seq<string>, trailing: nat, headers: seq<string>)
    requires MatchesAt(buffer, CRLF, e1) && MatchesAt(buffer, CRLFCRLF, e2) && e1 + 2 <= e2
    requires buffer[..e1] == RequestLine(tokens, trailing)
    requires buffer[e1 + 2..e2] == Join(headers, CRLF)
    ensures buffer == Wire(tokens, trailing, headers, buffer[e2 + 4..])
  {
    CutAtDelimiters(buffer, e1, e2);
  }
}
