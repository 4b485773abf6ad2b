/**
  The decisions of `Server`: the lookup key cut from the request target, the
  choice `resolveCommand` makes between 400, a registered handler, the
  static allow-list and 404, and the bytes `emptyContent` and
  `defaultHandler` write.

  The file system and the clock are parameters: a public file is its probed
  MIME type (None for `null`) and its bytes, a missing or unreadable file is
  None, and the current time is the string `LocalDateTime.now()` renders.
*/
module Server {
  import opened Wrappers
  import opened Search
  import opened JavaStrings
  import opened Methods
  import opened Lines
  import opened Requests
  import opened Handlers

  /** The files `defaultHandler` may serve when no handler claims a path. */
  const ValidPaths: seq<string> := [
    "/index.html", "/spring.svg", "/spring.png",
    "/resources.html", "/styles.css", "/app.js", "/links.html",
    "/forms.html", "/classic.html", "/events.html", "/events.js"
  ]

  /** The one file whose `{time}` placeholders are filled in before serving. */
  const Classic: string := "/classic.html"

  const TimePlaceholder: string := "{time}"

  // ---------------------------------------------------------------------------
  // the lookup key

  /**
    `path.split("\\?")[0]`: the target up to its first `?`. A non-empty
    target made only of `?` splits into no piece at all, and indexing the
    empty array throws, which is None here.
   */
  function LookupKey(path: string): (r: Option<string>)
    ensures r.None? <==> |path| > 0 && forall i :: 0 <= i < |path| ==> path[i] == '?'
    ensures r.Some? ==> '?' !in r.value && |r.value| <= |path| && path[..|r.value|] == r.value
    ensures r.Some? && |r.value| < |path| ==> path[|r.value|] == '?'
  {
    var parts := Split(path, "?");
    KeyIsFirstPiece(path);
    NoPieceMeansOnlyQuestionMarks(path);
    if |parts| == 0 then None else Some(parts[0])
  }

  /** The first piece of the split is the target up to its first `?`. */
  lemma KeyIsFirstPiece(path: string)
    ensures var all := SplitAll(path, "?");
            && '?' !in all[0] && |all[0]| <= |path| && path[..|all[0]|] == all[0]
            && (|all[0]| < |path| ==> path[|all[0]|] == '?')
  {
    var all := SplitAll(path, "?");
    FreeSingle(all[0], '?');
    JoinStartsWithHead(all, "?");
    if |all| > 1 {
      JoinCons(all[0], all[1..], "?");
      assert [all[0]] + all[1..] == all;
    }
  }

  /** The split has no piece exactly when the target is non-empty and all `?`. */
  lemma NoPieceMeansOnlyQuestionMarks(path: string)
    ensures |Split(path, "?")| == 0 <==> |path| > 0 && forall i :: 0 <= i < |path| ==> path[i] == '?'
  {
    var all := SplitAll(path, "?");
    FreeSingle(path, '?');
    if |Split(path, "?")| == 0 {
      forall i | 0 <= i < |path|
        ensures path[i] == '?'
      {
        if path[i] != '?' {
          NotInJoin(all, "?", path[i]);
        }
      }
    }
    if |path| > 0 && forall i :: 0 <= i < |path| ==> path[i] == '?' {
      assert path[0] == '?';
      forall k | 0 <= k < |all|
        ensures |all[k]| == 0
      {
        FreeSingle(all[k], '?');
        if |all[k]| > 0 {
          InJoin(all, "?", k, all[k][0]);
        }
      }
    }
  }

  /** A target without `?` is its own key. */
  lemma KeyOfPlainPath(path: string)
    requires '?' !in path
    ensures LookupKey(path) == Some(path)
  {
  }

  /** A query suffix is cut off: the key of `p?q` is `p`, whatever the query. */
  lemma {:induction false} KeyOfPathWithQuery(p: string, q: string)
    requires '?' !in p && |p| > 0
    ensures LookupKey(p + "?" + q) == Some(p)
  {
    var path := p + "?" + q;
    assert path[0] != '?';
    assert path[..|p|] == p && path[|p|] == '?';
  }

  // ---------------------------------------------------------------------------
  // resolveCommand

  /** An exception that leaves `resolveCommand` instead of a response. */
  datatype Failure =
    | UriSyntax     // `URISyntaxException` from `createRequest`
    | NoLookupKey   // `ArrayIndexOutOfBoundsException` from `split("\\?")[0]`
    | FileError     // `IOException` while serving a public file

  /** What `resolveCommand` does with one connection. */
  datatype Decision =
    | BadRequest
    | Invoke(handler: HandlerId, request: Request)
    | ServeStatic(path: string)
    | NotFound
    | Thrown(failure: Failure)

  /**
    The branch `resolveCommand` takes for the outcome of `createRequest`:
    no request, or a method with no routes at all, is 400; otherwise the key
    is looked up among that method's routes, then in the allow-list.
   */
  function Decide(h: Table, created: Created): (d: Decision)
    ensures d == BadRequest <==> created.NoRequest? || (created.Created? && created.request.httpMethod !in h)
    ensures d.Invoke? ==> created.Created? && d.request == created.request
                          && exists key :: LookupKey(d.request.path) == Some(key)
                                           && Lookup(h, d.request.httpMethod, key) == Some(d.handler)
    ensures d.ServeStatic? ==> created.Created? && created.request.httpMethod in h
                               && LookupKey(created.request.path) == Some(d.path)
                               && d.path in ValidPaths && Lookup(h, created.request.httpMethod, d.path).None?
    ensures d == NotFound ==> created.Created? && created.request.httpMethod in h
                              && exists key :: LookupKey(created.request.path) == Some(key)
                                               && key !in ValidPaths && Lookup(h, created.request.httpMethod, key).None?
    ensures d == Thrown(UriSyntax) <==> created.UriSyntaxError?
    ensures d == Thrown(NoLookupKey) <==> created.Created? && created.request.httpMethod in h
                                          && LookupKey(created.request.path).None?
    ensures d != Thrown(FileError)
  {
    match created
    case UriSyntaxError => Thrown(UriSyntax)
    case NoRequest => BadRequest
    case Created(req) =>
      if req.httpMethod !in h then BadRequest
      else
        match LookupKey(req.path)
        case None => Thrown(NoLookupKey)
        case Some(key) =>
          if key in h[req.httpMethod] then Invoke(h[req.httpMethod][key], req)
          else if key in ValidPaths then ServeStatic(key)
          else NotFound
  }

  // ---------------------------------------------------------------------------
  // responses

  /** A response head: the status line and header lines joined by CRLF, the blank line, then the body. */
  function Frame(lines: seq<string>, body: string): string
  {
    Join(lines, CRLF) + CRLFCRLF + body
  }

  function StatusLine(code: string, status: string): string
  {
    "HTTP/1.1 " + code + " " + status
  }

  /** `emptyContent(out, code, status)`: a status line, a zero length, and no body. */
  function EmptyContent(code: string, status: string): (r: string)
    ensures r == Frame([StatusLine(code, status), "Content-Length: 0", "Connection: close"], "")
  {
    var r := "HTTP/1.1 " + code + " " + status + "\r\n" +
             "Content-Length: 0\r\n" +
             "Connection: close\r\n" + "\r\n";
    JoinCons(StatusLine(code, status), ["Content-Length: 0", "Connection: close"], CRLF);
    JoinCons("Content-Length: 0", ["Connection: close"], CRLF);
    r
  }

  /** A file under `public`: the type `probeContentType` reports (None for `null`) and the bytes. */
  datatype PublicFile = PublicFile(mimeType: Option<string>, content: string)

  /** The file system as `defaultHandler` sees it: None where reading throws `IOException`. */
  type Files = string -> Option<PublicFile>

  /** String concatenation renders a `null` type as "null". */
  function MimeText(mimeType: Option<string>): (r: string)
    ensures mimeType.None? ==> r == "null"
    ensures mimeType.Some? ==> r == mimeType.value
  {
    match mimeType
    case None => "null"
    case Some(t) => t
  }

  /** How a reader takes the text back: "null" is read as no type. */
  function MimeOfText(text: string): Option<string>
  {
    if text == "null" then None else Some(text)
  }

  /**
    The rendered type reads back as the probed type, except for a type
    literally named "null", which cannot be told apart from an unknown type.
   */
  lemma MimeTextRoundTrip(mimeType: Option<string>)
    ensures mimeType != Some("null") ==> MimeOfText(MimeText(mimeType)) == mimeType
    ensures MimeText(None) == MimeText(Some("null"))
  {
  }

  /** The bytes served for `path`: the template with `{time}` filled in for the classic page, the file otherwise. */
  function Body(path: string, content: string, now: string): (b: string)
    ensures path == Classic ==> |b| == |content| + Occurrences(content, TimePlaceholder) * (|now| - |TimePlaceholder|)
    ensures path == Classic ==> b == Join(SplitAll(content, TimePlaceholder), now)
    ensures path != Classic ==> b == content
  {
    ReplaceJoinsPieces(content, TimePlaceholder, now);
    if path == Classic then Replace(content, TimePlaceholder, now) else content
  }

  /** The header lines `defaultHandler` writes before a body of `length` bytes. */
  function OkLines(mimeType: Option<string>, length: nat): seq<string>
  {
    [StatusLine("200", "OK"), "Content-Type: " + MimeText(mimeType), "Content-Length: " + Decimal(length), "Connection: close"]
  }

  /**
    `defaultHandler(out, path)`: 200 with the type, the byte length of what
    follows, and the bytes themselves. None is the `IOException` of an
    unreadable file. For the classic page the length is measured after the
    substitution; for any other file it is `Files.size`, the length of the
    bytes `Files.copy` then writes.
   */
  function DefaultHandler(path: string, file: Option<PublicFile>, now: string): (r: Option<string>)
    ensures r.None? <==> file.None?
    ensures r.Some? ==> var body := Body(path, file.value.content, now);
                        && |body| <= |r.value| && r.value[|r.value| - |body|..] == body
                        && r.value == Frame(OkLines(file.value.mimeType, |body|), body)
  {
    match file
    case None => None
    case Some(f) =>
      if path == Classic then
        var content := Replace(f.content, TimePlaceholder, now);
        Some(OkHead(f.mimeType, |content|) + content)
      else
        Some(OkHead(f.mimeType, |f.content|) + f.content)
  }

  /** The head `defaultHandler` writes for a body of `length` bytes. */
  function OkHead(mimeType: Option<string>, length: nat): (r: string)
    ensures r == Join(OkLines(mimeType, length), CRLF) + CRLFCRLF
  {
    var mime := "Content-Type: " + MimeText(mimeType);
    var size := "Content-Length: " + Decimal(length);
    JoinFour(StatusLine("200", "OK"), mime, size, "Connection: close", CRLF);
    StatusLine("200", "OK") + CRLF +
    mime + CRLF +
    size + CRLF +
    "Connection: close" + CRLFCRLF
  }

  /** Four lines joined. */
  lemma JoinFour(a: string, b: string, c: string, e: string, d: string)
    ensures Join([a, b, c, e], d) == a + d + b + d + c + d + e
  {
    JoinCons(a, [b, c, e], d);
    JoinCons(b, [c, e], d);
    JoinCons(c, [e], d);
    assert [a, b, c, e] == [a] + [b, c, e];
    assert [b, c, e] == [b] + [c, e];
    assert [c, e] == [c] + [e];
  }

  /** What one connection ends in: bytes written by the server itself, a handler call, or an exception. */
  datatype Outcome =
    | Wrote(bytes: string)
    | Handled(handler: HandlerId, request: Request)
    | Crashed(failure: Failure)

  /** A decision carried out, the public files and the clock given. */
  function Carry(d: Decision, files: Files, now: string): (o: Outcome)
    ensures d == BadRequest ==> o == Wrote(EmptyContent("400", "Bad Request"))
    ensures d == NotFound ==> o == Wrote(EmptyContent("404", "Not Found"))
    ensures o.Handled? <==> d.Invoke?
    ensures o.Crashed? <==> d.Thrown? || (d.ServeStatic? && files(d.path).None?)
    ensures d.Invoke? ==> o == Handled(d.handler, d.request)
    ensures d.Thrown? ==> o == Crashed(d.failure)
    ensures d.ServeStatic? && files(d.path).None? ==> o == Crashed(FileError)
    ensures d.ServeStatic? && files(d.path).Some? ==> o == Wrote(DefaultHandler(d.path, files(d.path), now).value)
  {
    match d
    case BadRequest => Wrote(EmptyContent("400", "Bad Request"))
    case NotFound => Wrote(EmptyContent("404", "Not Found"))
    case Invoke(id, req) => Handled(id, req)
    case Thrown(f) => Crashed(f)
    case ServeStatic(path) =>
      match DefaultHandler(path, files(path), now)
      case None => Crashed(FileError)
      case Some(bytes) => Wrote(bytes)
  }

  /** `resolveCommand` for the chunk one `read` delivers. */
  function ResolveCommand(h: Table, chunk: string, query: QueryParser, files: Files, now: string): (o: Outcome)
    ensures CreateRequest(chunk, query).NoRequest? ==> o == Wrote(EmptyContent("400", "Bad Request"))
    ensures o.Handled? ==> CreateRequest(chunk, query) == Created(o.request)
    ensures o.Handled? ==> exists key :: LookupKey(o.request.path) == Some(key)
                                         && Lookup(h, o.request.httpMethod, key) == Some(o.handler)
    ensures CreateRequest(chunk, query).Created? && CreateRequest(chunk, query).request.httpMethod !in h
            ==> o == Wrote(EmptyContent("400", "Bad Request"))
    ensures CreateRequest(chunk, query).UriSyntaxError? <==> o == Crashed(UriSyntax)
    ensures var c := CreateRequest(chunk, query);
            c.Created? && c.request.httpMethod in h && LookupKey(c.request.path).None?
            ==> o == Crashed(NoLookupKey)
    ensures var c := CreateRequest(chunk, query);
            c.Created? && LookupKey(c.request.path).Some?
            && Lookup(h, c.request.httpMethod, LookupKey(c.request.path).value).Some?
            ==> o == Handled(Lookup(h, c.request.httpMethod, LookupKey(c.request.path).value).value, c.request)
    ensures var c := CreateRequest(chunk, query);
            c.Created? && c.request.httpMethod in h && LookupKey(c.request.path).Some?
            && Lookup(h, c.request.httpMethod, LookupKey(c.request.path).value).None?
            && LookupKey(c.request.path).value !in ValidPaths
            ==> o == Wrote(EmptyContent("404", "Not Found"))
    ensures var c := CreateRequest(chunk, query);
            c.Created? && c.request.httpMethod in h && LookupKey(c.request.path).Some?
            && Lookup(h, c.request.httpMethod, LookupKey(c.request.path).value).None?
            && LookupKey(c.request.path).value in ValidPaths
            ==> var key := LookupKey(c.request.path).value;
                o == match DefaultHandler(key, files(key), now)
                     case None => Crashed(FileError)
                     case Some(bytes) => Wrote(bytes)
  {
    Carry(Decide(h, CreateRequest(chunk, query)), files, now)
  }

  // ---------------------------------------------------------------------------
  // dispatch and registration together

  /** After `addHandler(m, p, id)` a request for `m` whose target is `p`, with or without a query, reaches `id`. */
  lemma RegisteredRouteIsInvoked(h: Table, m: Method, p: string, id: HandlerId, req: Request)
    requires req.httpMethod == m && LookupKey(req.path) == Some(p)
    ensures Decide(AddHandler(h, m, p, id), Created(req)) == Invoke(id, req)
  {
  }

  /** A request whose lookup key is bound in the table reaches the bound handler. */
  lemma BoundRouteIsInvoked(h: Table, req: Request, key: string, id: HandlerId)
    requires LookupKey(req.path) == Some(key) && Lookup(h, req.httpMethod, key) == Some(id)
    ensures Decide(h, Created(req)) == Invoke(id, req)
  {
  }

  /** `resolveCommand` on a chunk that parses carries out the decision for the parsed request. */
  lemma ResolveParsed(h: Table, chunk: string, query: QueryParser, files: Files, now: string, req: Request)
    requires CreateRequest(chunk, query) == Created(req)
    ensures ResolveCommand(h, chunk, query, files, now) == Carry(Decide(h, Created(req)), files, now)
  {
  }

  /** A method that was never registered gets 400, whatever the target. */
  lemma UnregisteredMethodIsBadRequest(h: Table, req: Request)
    requires req.httpMethod !in h
    ensures Decide(h, Created(req)) == BadRequest
  {
  }

  /**
    Once a method has any route, no target of a parsed request is 400: it
    reaches a handler, the allow-list, 404, or the exception of an all-`?`
    target.
   */
  lemma KnownMethodIsNeverBadRequest(h: Table, req: Request)
    requires req.httpMethod in h
    ensures Decide(h, Created(req)) != BadRequest
  {
  }

  /** Registering one route changes the decision for no other route. */
  lemma {:induction false} OtherRoutesUnaffected(h: Table, m: Method, p: string, id: HandlerId, req: Request)
    requires m in h
    requires req.httpMethod != m || LookupKey(req.path) != Some(p)
    ensures Decide(AddHandler(h, m, p, id), Created(req)) == Decide(h, Created(req))
  {
    var h' := AddHandler(h, m, p, id);
    match LookupKey(req.path)
    case None =>
    case Some(key) =>
      assert Lookup(h', req.httpMethod, key) == Lookup(h, req.httpMethod, key);
  }

  /** The root `/` is not on the allow-list, so without a handler it is 404. */
  lemma RootIsNotStatic(h: Table, req: Request)
    requires req.httpMethod in h && req.path == "/" && Lookup(h, req.httpMethod, "/").None?
    ensures Decide(h, Created(req)) == NotFound
  {
    KeyOfPlainPath("/");
  }
}
