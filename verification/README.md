# A verified model of the netology HTTP server core

This project models in Dafny the sequential decision logic of a small
HTTP/1.1 server written in Java (package `ru.netology`). It covers four parts:

- **Request parser.** `Request.createRequest` makes one bounded read into a
  4096-byte buffer. It scans for the CRLF that ends the request line and
  splits that line on spaces with Java's `String.split`. It then resolves the
  method with `Method.fromString`, scans for the CRLFCRLF after the request
  line, and cuts the header block into raw lines. `Request.indexOf` is the
  scanner and `getQueryParam` does parameter lookup.
- **Method lookup.** The nine-constant `Method` enum, `values`, and the exact,
  case-sensitive `fromString`.
- **Handler table.** `Server.addHandler` keeps a two-level map from method to
  path to handler. Handlers are opaque identifiers here.
- **Dispatcher.** `Server.resolveCommand` picks one of:
  - 400;
  - the registered handler;
  - the static files on the `validPaths` allow-list;
  - 404;
  - an exception.

  The model also gives the exact bytes of `emptyContent` and of the
  `defaultHandler` response, including the `{time}` substitution on
  `/classic.html`.

Modules, one file each:

| module | file | role |
|---|---|---|
| `Wrappers` | `wrappers.dfy` | `Option` |
| `Search` | `search.dfy` | `indexOf`: a function and a loop proved equal |
| `JavaStrings` | `java_strings.dfy` | `String.split`, `String.replace`, `"" + n`, `equalsIgnoreCase` |
| `Methods` | `methods.dfy` | the enum |
| `Lines` | `lines.dfy` | CRLF-separated header lines |
| `Requests` | `requests.dfy` | the `Request` value, `createRequest`, `getQueryParam` |
| `Handlers` | `handlers.dfy` | the handler table |
| `Server` | `server.dfy` | lookup key, dispatch decision, response bytes |
| `Responses` | `responses.dfy` | a client-side reader of responses, the partner of the response writers |
| `Routes` | `routes.dfy` | the three routes `Main` registers, as end-to-end scenarios |

Representation choices:

- **Bytes.** A byte is the character with the same code, so a buffer is a
  `string` and `new String(bytes)` is the identity. This is exact for ASCII.
- **The read.** The stream delivers a chunk, and `Received` keeps its first
  4096 bytes. `read` is -1 when nothing arrives.
- **`mark`/`reset`/`skip`/`readNBytes`.** This sequence is a slice of that
  one buffer.
- **The URI library.** `new URI(path)` with `URIBuilder.getQueryParams` is a
  parameter `query: string -> Option<seq<Param>>`. None stands for
  `URISyntaxException`.
- **The file system.** It is a parameter `files: string -> Option<PublicFile>`.
  None stands for `IOException`. A `PublicFile` carries the probed MIME type,
  where None is `null`, plus the file's bytes.
- **The clock.** `LocalDateTime.now().toString()` is a parameter `now: string`.
- **Exceptions.** `createRequest`'s three outcomes are `Created`,
  `NoRequest` (`null`) and `UriSyntaxError`. The connection's outcome is
  `Wrote(bytes)`, `Handled(handler, request)` or `Crashed(failure)`.
- **Java `split`.** `SplitAll` lists every piece between leftmost
  non-overlapping occurrences. `Split` then drops the trailing empty pieces.
  When the delimiter does not occur at all, the result is the whole string.
  Leading empty pieces are kept.

Two consequences of the code are worth stating on their own:

- **Request with no header lines.** `GET /messages HTTP/1.1` followed
  directly by the blank line and nothing else gives `null` and so 400. The
  CRLFCRLF search starts after the request line's own CRLF, and only one
  CRLF is left there. See `Routes.RequestWithoutHeadersIsBadRequest`.
- **Malformed target.** A target `new URI` rejects makes `createRequest`
  throw `URISyntaxException`, and `resolveCommand` rethrows it, so no
  response is written. See `Routes.BadUriIsThrown`.

## Model

| member | source | states |
|---|---|---|
| Search.IndexOf | src/main/java/ru/netology/Request.java:121-132 | The result is -1 or the leftmost `i` in `[start, max - |target|]` where the target occurs. It is -1 exactly when no index in that range matches, including when the range is empty (`read` = -1). |
| Search.IndexOfLoop | src/main/java/ru/netology/Request.java:121-132 | The nested-loop search with `continue outer` returns the same leftmost match, or -1, and equals the functional search. |
| Search.FirstMatchAfter | src/main/java/ru/netology/Request.java:85-86 | In `a + t + rest`, when `t`'s first element is not in `a`, the first occurrence of `t` is right after `a`. |
| JavaStrings.SplitAll | src/main/java/ru/netology/Request.java:91 | The pieces between occurrences of the delimiter contain no delimiter and join back to the string. There is exactly one piece iff the delimiter does not occur. |
| JavaStrings.Split | src/main/java/ru/netology/Request.java:91 | `split` keeps a prefix of all pieces, and every piece it drops is empty. When the delimiter occurs, the last kept piece is non-empty, so exactly the trailing empty pieces are dropped. A string without the delimiter is its own single piece, and every piece is free of the delimiter. |
| JavaStrings.SplitJoin | src/main/java/ru/netology/Request.java:114 | Pieces that do not contain the delimiter's first element, with a non-empty last piece when there are several, split back out of their join. This covers space-free tokens and CR-free header lines. |
| JavaStrings.SplitJoinPadded | src/main/java/ru/netology/Request.java:91-92 | `split` drops trailing delimiters. Take a non-empty delimiter and at least one piece, none containing the delimiter's first element and the last one non-empty. Joined with any number of extra trailing delimiters, they split back to the same pieces. |
| JavaStrings.SplitRejoin | src/main/java/ru/netology/Request.java:91 | Restoring the dropped empty pieces gives the full split, and joining that gives the original string. |
| JavaStrings.SplitJoinsBack | src/main/java/ru/netology/Request.java:114 | A string that does not end in the delimiter is its split pieces joined back. |
| JavaStrings.PiecesCount | src/main/java/ru/netology/Server.java:74-77 | There is one more piece than there are non-overlapping occurrences. |
| JavaStrings.Replace | src/main/java/ru/netology/Server.java:74-77 | Replacing every occurrence left to right changes the length by the occurrence count times the length difference. |
| JavaStrings.ReplaceJoinsPieces | src/main/java/ru/netology/Server.java:74-77 | `replace` equals splitting on the target and joining with the replacement. |
| JavaStrings.Decimal | src/main/java/ru/netology/Server.java:81 | The decimal text of a length is a non-empty string of digits. |
| JavaStrings.DecimalRoundTrip | src/main/java/ru/netology/Server.java:81 | Reading the decimal digits of `n` back gives `n`. |
| JavaStrings.EqualsIgnoreCaseIsEquivalence | src/main/java/ru/netology/Request.java:51 | Equality ignoring case is reflexive, symmetric and transitive, so every name of a case-class selects the same first parameter. |
| JavaStrings.EqualsIgnoreCaseAt | src/main/java/ru/netology/Request.java:51 | Names equal ignoring case differ only in ASCII letters. Any other character matches exactly, and a letter matches only itself or the same letter in the other case. |
| Methods.FindByName | src/main/java/ru/netology/Method.java:19-22 | The stream search returns an element named exactly `s` with no earlier element so named, and None iff no element has that name. |
| Methods.FromString | src/main/java/ru/netology/Method.java:18-23 | The result is a constant named exactly `s` and a member of `values`. None means no constant has that name. |
| Methods.FromStringName | src/main/java/ru/netology/Method.java:18-22 | `fromString(m.name())` is `m` for every constant. |
| Methods.FromStringIsCaseSensitive | src/main/java/ru/netology/Method.java:20 | `"get"`, `"Get"` and `""` name no method. |
| Methods.ValuesComplete | src/main/java/ru/netology/Method.java:16 | Every constant is in `values`. |
| Methods.ValuesDistinct | src/main/java/ru/netology/Method.java:6-16 | `values` has nine entries, none repeated. |
| Methods.NameInjective | src/main/java/ru/netology/Method.java:20-21 | At most one constant has any given name. |
| Methods.Ordinal | src/main/java/ru/netology/Method.java:5-16 | Each constant sits at its ordinal in `values`. |
| Lines.BlankLineEndsLines | src/main/java/ru/netology/Request.java:103-105 | Take at least one header line, every line non-empty and CR-free, joined by CRLF and followed by the blank line. The first CRLFCRLF is the one right after the lines. |
| Lines.LinesSplitBack | src/main/java/ru/netology/Request.java:114 | At least one line, every line non-empty and CR-free, joined by CRLF, splits on `"\r\n"` back into the same lines. |
| Requests.FindParam | src/main/java/ru/netology/Request.java:50-52 | The first parameter whose name matches ignoring ASCII case. None iff there is none. |
| Requests.GetQueryParam | src/main/java/ru/netology/Request.java:49-66 | If a parameter matches ignoring case, the result is the first such one. Otherwise the result is `(name, "")`. |
| Requests.GetQueryParamIgnoresCase | src/main/java/ru/netology/Request.java:51 | Names that differ only in ASCII case select the same value. |
| Requests.Received | src/main/java/ru/netology/Request.java:80-83 | The buffer holds the first 4096 bytes of what arrives: the whole chunk when it fits, exactly 4096 bytes otherwise. |
| Requests.ReadCountOfReceived | src/main/java/ru/netology/Request.java:80-83 | `read` returns -1 iff nothing arrived. Otherwise it returns between 1 and 4096: the whole chunk's length, or 4096 when more arrived. |
| Requests.ParseBuffer | src/main/java/ru/netology/Request.java:85-118 | Without a CRLF among the bytes read, the result is `null`. |
| Requests.ParseRequestLine | src/main/java/ru/netology/Request.java:87-101 | The parse gets past the request line only when a CRLF was found and the line before it gives a method and a target. |
| Requests.RequestLineOf | src/main/java/ru/netology/Request.java:91-99 | A method and target come back only for exactly three space-separated tokens. The target is the second token, and the method is in `values`. |
| Requests.CreateRequest | src/main/java/ru/netology/Request.java:79-119 | With no CRLF in the buffer the result is `null`. A created request's target has no space, its header lines contain no CRLF, and its parameters are what the URI parser gives for the target. |
| Requests.ParseHeaders | src/main/java/ru/netology/Request.java:103-118 | No CRLFCRLF at or after the header start gives `null`, and only then. `URISyntaxException` is thrown iff the blank line was found and the URI parser rejects the target, so the URI is parsed only after the blank line. On success the method and target are kept and the headers are exactly the block before the blank line, split on CRLF. |
| Requests.RequestLineOfFacts | src/main/java/ru/netology/Request.java:91-101 | The request line gives a method and target iff it splits into exactly three tokens whose first is a method name. The method is that name's constant and the target the second token, which has no space. |
| Requests.CreateRequestOfWire | src/main/java/ru/netology/Request.java:79-119 | Round trip for a request that fits in the 4096-byte buffer. The request is `method SP target SP version` (target and version free of spaces and CR, version non-empty), any trailing spaces, then CRLF. After that come at least one header line (each non-empty and CR-free), the blank line, and anything after. It parses to that method, target and header lines. The result is a `URISyntaxException` iff the URI parser rejects the target. With no header line the result is `null` instead, see `Requests.RequestLineThenBlankLineIsNoRequest`. |
| Requests.CreatedIsWire | src/main/java/ru/netology/Request.java:79-119 | Converse: every buffer `createRequest` accepts is such a wire request, for some version, some trailing spaces and some rest. |
| Requests.CreatedParts | src/main/java/ru/netology/Request.java:96-114 | On success both searches succeeded. The request line split into three tokens: the method's name and the target. The headers are exactly the bytes between the request line's CRLF and the first later CRLFCRLF, split on CRLF. |
| Requests.UriSyntaxErrorParts | src/main/java/ru/netology/Request.java:85-116 | A parse that threw `URISyntaxException` found a three-token request line naming a method and the blank line after it, and the URI parser rejected the second token. |
| Requests.WrongTokenCountIsNoRequest | src/main/java/ru/netology/Request.java:91-94 | A request line with other than three space-separated tokens gives `null`. |
| Requests.LeadingSpaceIsNoRequest | src/main/java/ru/netology/Request.java:91-94 | A leading space adds an empty first token, so an otherwise valid request line gives `null`. |
| Requests.UnknownMethodIsNoRequest | src/main/java/ru/netology/Request.java:96-99 | A first token that names no method gives `null`. |
| Requests.RequestLineThenBlankLineIsNoRequest | src/main/java/ru/netology/Request.java:103-108 | A request line followed only by CRLF CRLF gives `null`, because the blank-line search starts after the first CRLF. |
| Requests.OnlyTheBufferCounts | src/main/java/ru/netology/Request.java:80-83 | Bytes beyond the first 4096 of the stream never change the result. |
| Requests.HeaderBlockRejoins | src/main/java/ru/netology/Request.java:113-114 | The header block never ends in CRLF, so splitting it on CRLF drops nothing and the lines join back to the block. |
| Handlers.RegisteredLastWins | src/main/java/ru/netology/Server.java:45-48 | After any sequence of `addHandler` calls, looking a route up (`get` of `get`, Server.java:117-120) gives the handler of its last registration. A route never registered keeps what it had. |
| Handlers.AddHandler | src/main/java/ru/netology/Server.java:45-48 | After registration the method is in the table and `(m, path)` leads to the new handler. Every other `(method, path)` lookup is unchanged, and an existing method's paths grow by `path`. |
| Handlers.AddHandlerLastWins | src/main/java/ru/netology/Server.java:47 | Registering the same route twice is the same as registering only the second handler. |
| Handlers.AddHandlerCommutes | src/main/java/ru/netology/Server.java:45-48 | Registrations of different routes can be made in either order. |
| Handlers.AddHandlerKeepsInnerMapsNonEmpty | src/main/java/ru/netology/Server.java:46-47 | Tables built by `addHandler` never hold a method with no paths. |
| Server.LookupKey | src/main/java/ru/netology/Server.java:118 | The key is the longest `?`-free prefix of the target, which is the whole target or stops at a `?`. Indexing the split throws (None) iff the target is non-empty and only `?`s. |
| Server.KeyOfPlainPath | src/main/java/ru/netology/Server.java:118 | A target without `?` is its own key. |
| Server.KeyOfPathWithQuery | src/main/java/ru/netology/Server.java:118 | The key of `p?q` is `p` for any query `q`, when `p` is non-empty and `?`-free. |
| Server.Decide | src/main/java/ru/netology/Server.java:108-125 | 400 iff there is no request or its method has no routes. A handler runs only for the bound key, and static serving only for an allow-listed, unbound key. 404 only for a key that is neither. A URI error and an all-`?` target are thrown exactly in their cases, and a file error is never decided. |
| Server.EmptyContent | src/main/java/ru/netology/Server.java:50-65 | The bytes are the status line, `Content-Length: 0` and `Connection: close` joined by CRLF, then the blank line and no body. |
| Server.Body | src/main/java/ru/netology/Server.java:72-77 | The classic page is the template's pieces around each `{time}`, joined with the current time, and its length changes by the number of placeholders times the length difference. Any other file is served as it is. |
| Server.MimeTextRoundTrip | src/main/java/ru/netology/Server.java:80 | A reader that takes `null` for no type gets the probed type back from the rendered text. The one exception is a type literally named `null`, which renders the same as an unknown type. |
| Server.DefaultHandler | src/main/java/ru/netology/Server.java:67-101 | An unreadable file throws, and otherwise the response is framed. The head is `200 OK`, the MIME type (`null` when unknown), the body's byte length and `Connection: close`. The served body follows the blank line and ends the response. |
| Server.OkHead | src/main/java/ru/netology/Server.java:78-83 | The written head is the four header lines joined by CRLF, then the blank line. |
| Server.Carry | src/main/java/ru/netology/Server.java:110-125 | 400 and 404 write their `emptyContent`. A handler is called iff one was chosen, and it is the chosen handler with the parsed request. A decided exception is raised as that exception. Static serving writes `defaultHandler`'s bytes for the file, or throws the file error if the file cannot be read. |
| Server.ResolveCommand | src/main/java/ru/netology/Server.java:103-129 | Every branch, for the connection as a whole. A `null` request, or a parsed request whose method has no routes, gets the 400 bytes. A request whose lookup key is bound reaches that handler, with the parsed request. If the key is unbound it gets `defaultHandler`'s bytes (or the file error) when allow-listed, and the 404 bytes otherwise. A target made only of `?` throws the index exception. The connection ends in `URISyntaxException` iff parsing threw it. A handler only ever receives the request that was parsed. |
| Server.RegisteredRouteIsInvoked | src/main/java/ru/netology/Server.java:117-121 | After `addHandler(m, p, id)`, a request for `m` whose key is `p` reaches `id`, with or without a query. |
| Server.UnregisteredMethodIsBadRequest | src/main/java/ru/netology/Server.java:110-112 | A method with no routes gets 400 whatever the target. |
| Server.KnownMethodIsNeverBadRequest | src/main/java/ru/netology/Server.java:110-125 | A parsed request whose method has a route is never answered 400. |
| Server.OtherRoutesUnaffected | src/main/java/ru/netology/Server.java:45-48 | Registering a route for a method that already has routes changes the decision for no other route. |
| Server.RootIsNotStatic | src/main/java/ru/netology/Server.java:20-24 | `/` is not on the allow-list, so without a handler it gets 404. |
| Responses.ReadResponse | src/main/java/ru/netology/Server.java:56-60 | A response read back ends with its body, and bytes without a blank line are not a response. |
| Responses.ReadEmptyContent | src/main/java/ru/netology/Server.java:56-60 | Reading `emptyContent`'s bytes gives version `HTTP/1.1`, the code and status, the two fields, an empty body and a declared length of 0. |
| Responses.ReadDefaultHandler | src/main/java/ru/netology/Server.java:78-95 | Reading `defaultHandler`'s bytes gives `200 OK` with the type, length and connection fields and exactly the served body. The declared `Content-Length` equals the body's length, including after the `{time}` substitution. |
| Responses.OkContentLength | src/main/java/ru/netology/Server.java:81 | The `Content-Length` field of a 200 head reads back as the body's length. |
| Routes.MainTable | src/main/java/ru/netology/Main.java:7-15 | The table `Main` builds binds exactly GET `/messages`, POST `/messages` and GET `/`. |
| Routes.QueryStringIsStripped | src/main/java/ru/netology/Server.java:117-121 | GET `/messages?…` reaches the GET `/messages` handler, whatever the query. |
| Routes.MethodSelectsHandler | src/main/java/ru/netology/Main.java:11-13 | POST `/messages` reaches the POST handler, not the GET one. |
| Routes.UnroutedMethodIsBadRequest | src/main/java/ru/netology/Server.java:110-112 | A well-formed request with a method other than GET or POST gets the 400 bytes. |
| Routes.AllowListedFileIsServed | src/main/java/ru/netology/Server.java:123-124 | GET on an allow-listed file writes `defaultHandler`'s bytes, or throws if the file cannot be read. |
| Routes.RoutesAreNotAllowListed | src/main/java/ru/netology/Server.java:20-24 | Neither `/messages` nor `/` is on the allow-list. |
| Routes.AllowListedPathsHaveNoQuery | src/main/java/ru/netology/Server.java:20-24 | No allow-listed path contains `?`, so each is its own lookup key. |
| Routes.UnknownTargetIsNotFound | src/main/java/ru/netology/Server.java:123 | GET on a target that is neither routed nor allow-listed gets the 404 bytes. |
| Routes.BadUriIsThrown | src/main/java/ru/netology/Request.java:116 | A target the URI parser rejects ends in the exception, not a response. |
| Routes.RequestWithoutHeadersIsBadRequest | src/main/java/ru/netology/Request.java:103-108 | `GET /messages HTTP/1.1` then the blank line and nothing else gets 400. |
| Routes.OneTokenIsBadRequest | src/main/java/ru/netology/Request.java:91-94 | A one-token request line gets 400. |
| Routes.QuestionMarkTargetIsThrown | src/main/java/ru/netology/Server.java:118 | GET on the target `?` ends in the index exception of `split("\\?")[0]`. |

## Left out

- `listen`, the server socket, the 64-thread pool and concurrent access to the handler map: network I/O and concurrency. The table is a value, and the model looks at one connection at a time.
- Reading the socket: the model takes the chunk one `read` call delivers. An `IOException` during the read, and streams that deliver the request over several reads, are not modelled.
- `Files.probeContentType`, `Files.size`, `Files.readString`, `Files.copy`: the file system is a parameter. The model assumes `Files.size` equals the number of bytes `Files.copy` writes.
- `LocalDateTime.now()`: the clock is the parameter `now`.
- `new URI(path)` and `URIBuilder.getQueryParams`: a foreign library, taken as the parameter `query`.
- The platform charset in `new String(bytes)` and `getBytes()`: bytes are characters with the same code, exact for ASCII.
- `EqualsIgnoreCase`: folds ASCII letters only, not the Unicode case mappings of Java's `equalsIgnoreCase`.
- `toString` and `System.out.println` logging: output only, no effect on the decision.
- Handler bodies and the `Handler` interface: handlers are opaque identifiers. What the routes of `Main` write (404, 503, `index.html`) is not modelled.
- The `RuntimeException` wrapping in `resolveCommand`, `emptyContent` and `defaultHandler`: every exception is an outcome `Crashed(failure)`.
- Output-stream write and flush failures in `emptyContent` and `defaultHandler`: the model assumes writes succeed.
- JavaStrings.Replace: its own contract states only the length of the result. What the result contains is stated separately by `ReplaceJoinsPieces`.
