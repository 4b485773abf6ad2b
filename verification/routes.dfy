/**
  The routes `Main` registers, used as concrete scenarios for the parser
  and the dispatcher together: GET and POST on `/messages`, and GET on `/`.
*/
module Routes {
  import opened Wrappers
  import opened Methods
  import opened Lines
  import opened Requests
  import opened Handlers
  import opened Server

  /** The handler `Main` registers for GET `/messages`: it answers 404. */
  const GetMessages: HandlerId := 0
  /** The handler `Main` registers for POST `/messages`: it answers 503. */
  const PostMessages: HandlerId := 1
  /** The handler `Main` registers for GET `/`: it serves `index.html`. */
  const GetRoot: HandlerId := 2

  /** The table after the three `addHandler` calls of `Main`, in order. */
  function MainTable(): (h: Table)
    ensures h.Keys == {GET, POST}
    ensures Lookup(h, GET, "/messages") == Some(GetMessages)
    ensures Lookup(h, POST, "/messages") == Some(PostMessages)
    ensures Lookup(h, GET, "/") == Some(GetRoot)
    ensures forall p :: p != "/messages" && p != "/" ==> Lookup(h, GET, p).None?
    ensures forall p :: p != "/messages" ==> Lookup(h, POST, p).None?
  {
    var h1 := AddHandler(Empty, GET, "/messages", GetMessages);
    var h2 := AddHandler(h1, POST, "/messages", PostMessages);
    AddHandler(h2, GET, "/", GetRoot)
  }

  /** The request line `method SP target SP HTTP/1.1`, CRLF, header lines, the blank line, and a body. */
  function Chunk(m: Method, target: string, headers: seq<string>, body: string): string
  {
    Wire([Name(m), target, "HTTP/1.1"], 0, headers, body)
  }

  /** What a request line and header block that fit the buffer need. */
  predicate WellFormed(target: string, headers: seq<string>, m: Method, body: string)
  {
    && ' ' !in target && '\r' !in target && PlainLines(headers)
    && |Chunk(m, target, headers, body)| <= Limit
  }

  lemma VersionIsToken()
    ensures |"HTTP/1.1"| > 0 && ' ' !in "HTTP/1.1" && '\r' !in "HTTP/1.1"
  {
  }

  /** A well-formed request parses into its method, target and header lines. */
  lemma ParsesAs(m: Method, target: string, headers: seq<string>, body: string, query: QueryParser)
    requires WellFormed(target, headers, m, body) && query(target).Some?
    ensures CreateRequest(Chunk(m, target, headers, body), query)
         == Created(Request(m, target, headers, query(target).value))
  {
    VersionIsToken();
    CreateRequestOfWire(m, target, "HTTP/1.1", 0, headers, body, query);
  }

  /** A well-formed request whose lookup key is bound reaches the bound handler with the parsed request. */
  lemma RoutedChunkIsHandled(h: Table, m: Method, target: string, key: string, id: HandlerId,
                             headers: seq<string>, body: string, query: QueryParser, files: Files, now: string)
    requires WellFormed(target, headers, m, body) && query(target).Some?
    requires LookupKey(target) == Some(key) && Lookup(h, m, key) == Some(id)
    ensures ResolveCommand(h, Chunk(m, target, headers, body), query, files, now)
         == Handled(id, Request(m, target, headers, query(target).value))
  {
    var req := Request(m, target, headers, query(target).value);
    ParsesAs(m, target, headers, body, query);
    ResolveParsed(h, Chunk(m, target, headers, body), query, files, now, req);
    BoundRouteIsInvoked(h, req, key, id);
  }

  /** GET `/messages` with any query reaches the handler registered for it. */
  lemma QueryStringIsStripped(q: string, headers: seq<string>, body: string, query: QueryParser,
                              files: Files, now: string)
    requires WellFormed("/messages" + "?" + q, headers, GET, body) && query("/messages" + "?" + q).Some?
    ensures ResolveCommand(MainTable(), Chunk(GET, "/messages" + "?" + q, headers, body), query, files, now)
         == Handled(GetMessages, Request(GET, "/messages" + "?" + q, headers, query("/messages" + "?" + q).value))
  {
    KeyOfPathWithQuery("/messages", q);
    RoutedChunkIsHandled(MainTable(), GET, "/messages" + "?" + q, "/messages", GetMessages,
                         headers, body, query, files, now);
  }

  /** POST and GET on the same target reach different handlers. */
  lemma MethodSelectsHandler(headers: seq<string>, body: string, query: QueryParser, files: Files, now: string)
    requires WellFormed("/messages", headers, POST, body) && query("/messages").Some?
    ensures ResolveCommand(MainTable(), Chunk(POST, "/messages", headers, body), query, files, now)
         == Handled(PostMessages, Request(POST, "/messages", headers, query("/messages").value))
  {
    KeyOfPlainPath("/messages");
    RoutedChunkIsHandled(MainTable(), POST, "/messages", "/messages", PostMessages,
                         headers, body, query, files, now);
  }

  /** A method `Main` registers nothing for is answered 400, whatever the target. */
  lemma UnroutedMethodIsBadRequest(m: Method, target: string, headers: seq<string>, body: string,
                                   query: QueryParser, files: Files, now: string)
    requires m != GET && m != POST
    requires WellFormed(target, headers, m, body) && query(target).Some?
    ensures ResolveCommand(MainTable(), Chunk(m, target, headers, body), query, files, now)
         == Wrote(EmptyContent("400", "Bad Request"))
  {
    ParsesAs(m, target, headers, body, query);
  }

  /** GET on an allow-listed file is served from the public files: 200 with the file, or the read's exception. */
  lemma AllowListedFileIsServed(target: string, headers: seq<string>, body: string,
                                query: QueryParser, files: Files, now: string)
    requires target in ValidPaths
    requires WellFormed(target, headers, GET, body) && query(target).Some?
    ensures ResolveCommand(MainTable(), Chunk(GET, target, headers, body), query, files, now)
         == match DefaultHandler(target, files(target), now)
            case None => Crashed(FileError)
            case Some(bytes) => Wrote(bytes)
  {
    RoutesAreNotAllowListed();
    AllowListedPathsHaveNoQuery();
    ParsesAs(GET, target, headers, body, query);
    KeyOfPlainPath(target);
    var req := Request(GET, target, headers, query(target).value);
    assert Decide(MainTable(), Created(req)) == ServeStatic(target);
  }

  /** Neither routed target of `Main` is on the allow-list. */
  lemma RoutesAreNotAllowListed()
    ensures "/messages" !in ValidPaths && "/" !in ValidPaths
  {
    assert forall i :: 0 <= i < |ValidPaths| ==> |ValidPaths[i]| != 9 && |ValidPaths[i]| != 1;
  }

  /** No allow-listed path has a `?`, so each is its own lookup key. */
  lemma AllowListedPathsHaveNoQuery()
    ensures forall p :: p in ValidPaths ==> '?' !in p
  {
    forall i | 0 <= i < |ValidPaths|
      ensures '?' !in ValidPaths[i]
    {
      if i == 0 { assert '?' !in "/index.html"; }
      else if i == 1 { assert '?' !in "/spring.svg"; }
      else if i == 2 { assert '?' !in "/spring.png"; }
      else if i == 3 { assert '?' !in "/resources.html"; }
      else if i == 4 { assert '?' !in "/styles.css"; }
      else if i == 5 { assert '?' !in "/app.js"; }
      else if i == 6 { assert '?' !in "/links.html"; }
      else if i == 7 { assert '?' !in "/forms.html"; }
      else if i == 8 { assert '?' !in "/classic.html"; }
      else if i == 9 { assert '?' !in "/events.html"; }
      else { assert '?' !in "/events.js"; }
    }
  }

  /** GET on a target that is neither routed nor allow-listed is answered 404, not 400. */
  lemma UnknownTargetIsNotFound(target: string, headers: seq<string>, body: string,
                                query: QueryParser, files: Files, now: string)
    requires '?' !in target && target !in ValidPaths && target != "/messages" && target != "/"
    requires WellFormed(target, headers, GET, body) && query(target).Some?
    ensures ResolveCommand(MainTable(), Chunk(GET, target, headers, body), query, files, now)
         == Wrote(EmptyContent("404", "Not Found"))
  {
    ParsesAs(GET, target, headers, body, query);
    KeyOfPlainPath(target);
  }

  /** A target the URI parser rejects ends the connection with the exception, not with 400. */
  lemma BadUriIsThrown(m: Method, target: string, headers: seq<string>, body: string,
                       query: QueryParser, files: Files, now: string)
    requires WellFormed(target, headers, m, body) && query(target).None?
    ensures ResolveCommand(MainTable(), Chunk(m, target, headers, body), query, files, now)
         == Crashed(UriSyntax)
  {
    VersionIsToken();
    CreateRequestOfWire(m, target, "HTTP/1.1", 0, headers, body, query);
  }

  /**
    A request with no header lines at all, `GET /messages HTTP/1.1` then
    the blank line and nothing else, is not parsed, so it is answered 400
    although GET `/messages` is routed.
   */
  lemma RequestWithoutHeadersIsBadRequest(query: QueryParser, files: Files, now: string)
    ensures ResolveCommand(MainTable(), "GET /messages HTTP/1.1" + CRLF + CRLF, query, files, now)
         == Wrote(EmptyContent("400", "Bad Request"))
  {
    RequestLineThenBlankLineIsNoRequest("GET /messages HTTP/1.1", query);
    UnparsedIsBadRequest(MainTable(), "GET /messages HTTP/1.1" + CRLF + CRLF, query, files, now);
  }

  /** A one-token request line is answered 400. */
  lemma OneTokenIsBadRequest(query: QueryParser, files: Files, now: string)
    ensures ResolveCommand(MainTable(), "BADLINE" + CRLF + CRLF, query, files, now)
         == Wrote(EmptyContent("400", "Bad Request"))
  {
    RequestLineThenBlankLineIsNoRequest("BADLINE", query);
    UnparsedIsBadRequest(MainTable(), "BADLINE" + CRLF + CRLF, query, files, now);
  }

  /** A chunk that gives no request is answered 400. */
  lemma UnparsedIsBadRequest(h: Table, chunk: string, query: QueryParser, files: Files, now: string)
    requires CreateRequest(chunk, query) == NoRequest
    ensures ResolveCommand(h, chunk, query, files, now) == Wrote(EmptyContent("400", "Bad Request"))
  {
  }

  /** A GET whose target is only `?` characters ends in the exception of `split("\\?")[0]`. */
  lemma QuestionMarkTargetIsThrown(headers: seq<string>, body: string, query: QueryParser, files: Files, now: string)
    requires WellFormed("?", headers, GET, body) && query("?").Some?
    ensures ResolveCommand(MainTable(), Chunk(GET, "?", headers, body), query, files, now)
         == Crashed(NoLookupKey)
  {
    var req := Request(GET, "?", headers, query("?").value);
    ParsesAs(GET, "?", headers, body, query);
    ResolveParsed(MainTable(), Chunk(GET, "?", headers, body), query, files, now, req);
    assert LookupKey(req.path).None?;
    assert Decide(MainTable(), Created(req)) == Thrown(NoLookupKey);
  }
}
