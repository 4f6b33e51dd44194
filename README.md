# A verified model of the toy HTTP server's request handling

The server reads one request per connection. Its parts:

- `RequestParser.parse` turns the lines of the request into a `Request`:
  - the request line gives type, path and version;
  - header lines go into a map;
  - every other line goes into the content.
- `Server` keeps a registry of handlers. The registry is keyed by a one-entry map `{type -> path}`. `handleNewConnection` picks the matching handler and gives it the request.
- `Main` registers a handler for `GET /messages` and one for `POST /messages`. The POST handler echoes the request content back, as a `200 OK` response with `Content-Length` set to the content's byte count.
- `Request.toString` writes a request back out as text.

The Dafny model follows that structure, one module per Java class:

| module | file | models |
|---|---|---|
| `Wrappers` | `wrappers.dfy` | `Option` |
| `Text` | `text.dfy` | the `java.lang.String` operations the code relies on: `strip()`, `split(" ")`, `split(": ", 2)` / `indexOf`, `Integer.toString`, `getBytes().length` (UTF-8), and CRLF-terminated lines |
| `Requests` | `requests.dfy` | `Request`: the value, its getters, and `toString` as a loop that appends |
| `RequestParser` | `request_parser.dfy` | `parse`: a specification function `ParseRequest` and the loop `Parse`, proved equal to it |
| `HttpServer` | `server.dfy` | the `Server` class: the handler registry, `addHandler`, the lookup loop and dispatch |
| `App` | `main.dfy` | `main`'s two registrations and the text of the POST echo response |

Modelling choices:

- The request is the list of lines the reader yields. An empty list means `readLine()` returned `null`.
- Handlers are opaque numbers. The model says which handler is invoked and with which request; it never runs one.
- The iteration order of a `HashMap` is not known, so it is taken as a parameter wherever it shows in the output: the header order in `toString`. The lookup loop in `handleNewConnection` instead visits the registry in an arbitrary order (`:|`). It is proved to give the same answer for every order.

The model follows the code, which behaves as follows in places where one might expect otherwise:

- **An empty path is accepted.** A doubled space between type and version, as in `"GET  HTTP/1.1"`, splits into three parts with an empty path, and the line is accepted (`EmptyPathAccepted`).
- **The blank line goes into the content.** The line that separates the headers from the body is not a header line, so the content gets it too, as a leading CRLF:
  - The POST request `POST /messages HTTP/1.1`, `Content-Type: text/plain`, ``, `hello world` has content `"\r\nhello world\r\n"`. The echo therefore answers with `Content-Length: 15`, not 13 (`PostParsed`, `PostEchoed`).
  - For the same reason, `toString` followed by `parse` gives back type, path, version and every header, but the content gains a leading CRLF (`ReparseRendered`). This holds for a request that `parse` itself could have produced:
    - type and version are non-empty;
    - no space is in type, path or version;
    - type does not start with whitespace, and version does not end with it;
    - no CR or LF is in any field;
    - every header name is made of `[A-Za-z-]` only;
    - no header value holds a line terminator (CR, LF, U+0085, U+2028, U+2029);
    - the content is lines, each ended by CRLF, none holding CR or LF and none shaped like a header.
  - Outside these conditions the round trip changes the request in other ways:
    - A space inside a field makes `parse` return `null`.
    - A header whose name is not `[A-Za-z-]+` (`Content-MD5`, say), or whose value holds U+0085, U+2028 or U+2029, comes back in the content instead of the map.
    - Content not ended by CRLF gains one.
    - A content line shaped like `Name: value` is read as a header.
- **Length overhead of `toString`.** The request line adds 4 characters beyond type, path and version: two spaces and CRLF. Each header adds 4 beyond its name and value. The blank line adds 2 (`RenderedLength`).
- **`toString` with no headers.** The request line's CRLF is followed by a second CRLF before the content (`RenderedWithoutHeaders`).

`Request`'s getters are the datatype's destructors. For example, `getType()` is `requestType` and `getHTTPVersion()` is `httpVersion`. Each one returns its constructor argument, and a datatype value cannot change after construction, which matches the class having no setters.

## Model

| member | source | states |
|---|---|---|
| Text.StripLeading | src/main/java/ru/netology/server/RequestParser.java:23 | the result is a suffix of the input; everything removed is whitespace; the result does not start with whitespace |
| Text.StripTrailing | src/main/java/ru/netology/server/RequestParser.java:23 | the result is a prefix of the input; everything removed is whitespace; the result does not end with whitespace |
| Text.Strip | src/main/java/ru/netology/server/RequestParser.java:23 | `strip()`: the result is empty or has no `Character.isWhitespace` character at either end |
| Text.StripUnchanged | src/main/java/ru/netology/server/RequestParser.java:23 | a line with no whitespace at its ends is left unchanged by `strip()` |
| Text.Pieces | src/main/java/ru/netology/server/RequestParser.java:23 | there is always at least one piece |
| Text.PiecesSpec | src/main/java/ru/netology/server/RequestParser.java:23 | the pieces between separators: one more piece than there are separators, none holds the separator, and joining them with it gives the input back |
| Text.DropTrailingEmpty | src/main/java/ru/netology/server/RequestParser.java:23 | the result is a prefix of the input; it does not end with an empty piece; every piece dropped is empty |
| Text.Split | src/main/java/ru/netology/server/RequestParser.java:23 | `split(" ")`: no part holds a space; a line without a space is its own single part (the empty line gives one empty part); otherwise trailing empty parts are removed |
| Text.SplitIsPieces | src/main/java/ru/netology/server/RequestParser.java:23 | a non-empty line that does not end with the separator splits into all its pieces, one more than its separators |
| Text.PiecesOfJoin | src/main/java/ru/netology/server/RequestParser.java:23 | splitting separator-free tokens joined by the separator gives back exactly those tokens |
| Text.FindFrom | src/main/java/ru/netology/server/RequestParser.java:34 | the first occurrence at or after the start: the result is an occurrence with none before it, or there is no occurrence at all |
| Text.IndexOfFirst | src/main/java/ru/netology/server/RequestParser.java:34 | an occurrence with none before it is the one `indexOf` returns |
| Text.SplitOnce | src/main/java/ru/netology/server/RequestParser.java:34 | `split(sep, 2)`: one part, the whole string, exactly when sep does not occur; otherwise two parts, with the string equal to part 0 + sep + part 1, and sep not occurring within part 0 |
| Text.TerminatedAppend | src/main/java/ru/netology/server/RequestParser.java:36-39 | appending line + CRLF for two runs of lines is the same as for their concatenation |
| Text.TerminatedStep | src/main/java/ru/netology/server/RequestParser.java:36-39 | one more line adds that line and CRLF at the end |
| Text.HeadEndsAtFirstBlankLine | src/main/java/ru/netology/Main.java:50-56 | after non-empty CR-free lines, each ended by CRLF, and one more CRLF, the first CRLF CRLF is where the head ends, and what follows it is the body verbatim |
| Text.BlankAfterLastLine | src/main/java/ru/netology/Main.java:50-56 | when no blank line starts in the earlier lines, the first one starts right after the CR-free last line |
| Text.DigitChar | src/main/java/ru/netology/Main.java:53 | the digit character for a value below 10 is a digit with that value |
| Text.Decimal | src/main/java/ru/netology/Main.java:53 | `Integer.toString` of a non-negative number: a non-empty string of digits that starts with 0 only for 0 |
| Text.DecimalRoundTrip | src/main/java/ru/netology/Main.java:53 | the printed number reads back as that number |
| Text.Utf8Width | src/main/java/ru/netology/Main.java:49 | a character takes 1 to 4 bytes, and 1 exactly when it is ASCII |
| Text.Utf8Length | src/main/java/ru/netology/Main.java:49 | `getBytes().length`: between the character count and four times that count, and equal to the character count exactly when every character is ASCII |
| Requests.ToString | src/main/java/ru/netology/server/Request.java:52-66 | the `StringBuilder` loop over the header entries produces `Rendered(request, order)`, the request line, header lines and a blank line, each ended by CRLF, followed by the content |
| Requests.AppendHeaderLine | src/main/java/ru/netology/server/Request.java:59-62 | one pass of the loop appends the next header's name, ": ", value and CRLF, which is the rendering of one more header |
| Requests.HeaderLinesStep | src/main/java/ru/netology/server/Request.java:59-62 | the header lines of one more name are the earlier ones followed by that name's line |
| Requests.RenderedLayout | src/main/java/ru/netology/server/Request.java:53-64 | the text is the request line, CRLF, the header block, CRLF and the content, in that order |
| Requests.RenderedFrame | src/main/java/ru/netology/server/Request.java:52-66 | the text starts with type + " " + path + " " + version + CRLF and ends with CRLF followed by the content verbatim |
| Requests.RenderedWithoutHeaders | src/main/java/ru/netology/server/Request.java:52-66 | with an empty header map, the order is empty and the text is the request line, CRLF, CRLF and the content |
| Requests.RenderedHeaderAt | src/main/java/ru/netology/server/Request.java:59-62 | the i-th header in iteration order contributes exactly name + ": " + value + CRLF, right after the request line and the headers before it |
| Requests.HeaderBlockSplit | src/main/java/ru/netology/server/Request.java:59-62 | the header block is the entries before position i, the entry at i, then the entries after it |
| Requests.HeaderBlockLength | src/main/java/ru/netology/server/Request.java:59-62 | the header block is as long as the sum of name + value + 4 over the headers |
| Requests.RenderedLength | src/main/java/ru/netology/server/Request.java:52-66 | the length of `toString()` is type + path + version + 4, plus name + value + 4 per header, plus content + 2 |
| Requests.HeadersLengthPermutation | src/main/java/ru/netology/server/Request.java:59-62 | two orders holding the same names the same number of times give the same header-block length |
| Requests.LengthIndependentOfOrder | src/main/java/ru/netology/server/Request.java:52-66 | the length of `toString()` does not depend on the order in which the header map is iterated |
| RequestParser.NameLength | src/main/java/ru/netology/server/RequestParser.java:33 | the longest run of `[A-Za-z-]` characters at the start of the line |
| RequestParser.IsHeaderLine | src/main/java/ru/netology/server/RequestParser.java:33 | `requestLine.matches("[A-Za-z-]+: .*")`: a header line is a single line (no line terminator anywhere in it) with ": " right after its name; it decides exactly the regular expression (`HeaderLineIsPatternMatch`) |
| RequestParser.HeaderLineIsPatternMatch | src/main/java/ru/netology/server/RequestParser.java:33 | the single-scan test `IsHeaderLine` holds exactly when the line matches `[A-Za-z-]+: .*` (the dot excludes the line terminators) |
| RequestParser.ScanMatchesPattern | src/main/java/ru/netology/server/RequestParser.java:33 | a line the scan accepts matches `[A-Za-z-]+: .*` |
| RequestParser.PatternMatchesScan | src/main/java/ru/netology/server/RequestParser.java:33 | a line matching `[A-Za-z-]+: .*` is accepted by the scan |
| RequestParser.PatternSplitIsNameLength | src/main/java/ru/netology/server/RequestParser.java:33 | the only way to match the pattern is to end the name where the run of name characters ends |
| RequestParser.SeparatorAfterName | src/main/java/ru/netology/server/RequestParser.java:34 | in a header line, the first ": " is the one right after the name |
| RequestParser.HeaderName | src/main/java/ru/netology/server/RequestParser.java:34-35 | `headersLine[0]`: a non-empty `[A-Za-z-]` name that, followed by ": ", starts the line |
| RequestParser.HeaderValue | src/main/java/ru/netology/server/RequestParser.java:34-35 | `headersLine[1]`: the rest of the line after the name and ": ", so name + ": " + value is the line, and it holds no line terminator |
| RequestParser.SplitGivesNameAndValue | src/main/java/ru/netology/server/RequestParser.java:34-35 | `split(": ", 2)` on a header line gives the name and the rest of the line; the value may itself contain ": " |
| RequestParser.HeaderLineRoundTrip | src/main/java/ru/netology/server/RequestParser.java:33-35 | name + ": " + value is a header line when the name is `[A-Za-z-]+` and the value holds no line terminator, and it gives that name and value back |
| RequestParser.Parse | src/main/java/ru/netology/server/RequestParser.java:19-42 | the result is exactly `ParseRequest(lines)`: `MissingRequestLine` for no line at all, `null` (Malformed) unless the stripped request line splits into three parts, otherwise the three parts with the header map and content of the later lines |
| RequestParser.ReadHeadersAndContent | src/main/java/ru/netology/server/RequestParser.java:31-40 | the `while (in.ready())` loop ends with the header map `HeadersOf(rest)` and the content `ContentOf(rest)` of all the lines after the request line |
| RequestParser.ReadOneLine | src/main/java/ru/netology/server/RequestParser.java:32-39 | one more line read: a header line puts its name and value into the map (replacing an earlier value) and leaves the content alone; any other line leaves the map alone and appends itself and CRLF to the content |
| RequestParser.ParsedIffTwoSpaces | src/main/java/ru/netology/server/RequestParser.java:23-27 | the request line is accepted exactly when the stripped line holds exactly two spaces; otherwise the result is `null` |
| RequestParser.ParsedRequestLine | src/main/java/ru/netology/server/RequestParser.java:28-30 | on success type, path and version hold no space, type and version are non-empty, and joined by single spaces they are the stripped line |
| RequestParser.ThreeParts | src/main/java/ru/netology/server/RequestParser.java:23-30 | a stripped line that splits into three parts is those parts joined by single spaces |
| RequestParser.RequestLineRoundTrip | src/main/java/ru/netology/server/RequestParser.java:22-30 | a line type + " " + path + " " + version from space-free parts, with no whitespace at its ends, parses to exactly those parts (the path may be empty) |
| RequestParser.EmptyPathAccepted | src/main/java/ru/netology/server/RequestParser.java:23-30 | `"GET  HTTP/1.1"` is accepted, with an empty path |
| RequestParser.DoubledSpaceRefused | src/main/java/ru/netology/server/RequestParser.java:23-27 | a doubled space between three tokens gives four parts, so the result is `null` |
| RequestParser.TabRefused | src/main/java/ru/netology/server/RequestParser.java:23-27 | a tab is not a separator: two parts, so the result is `null` |
| RequestParser.SingleTokenRefused | src/main/java/ru/netology/server/RequestParser.java:23-27 | a one-token line and the empty line give `null` |
| RequestParser.RefusedTokens | src/main/java/ru/netology/server/RequestParser.java:23-27 | any number of space-free tokens other than three, joined by single spaces, gives `null` |
| RequestParser.LastHeaderWins | src/main/java/ru/netology/server/RequestParser.java:35 | when a header name repeats, the stored value comes from its last line |
| RequestParser.HeaderNamesFromLines | src/main/java/ru/netology/server/RequestParser.java:31-40 | the stored names are exactly the names of the header lines |
| RequestParser.BodyLines | src/main/java/ru/netology/server/RequestParser.java:36-39 | the lines kept are all non-header lines |
| RequestParser.HeaderLinesOf | src/main/java/ru/netology/server/RequestParser.java:33-35 | the lines kept are all header lines |
| RequestParser.ContentIsBodyLines | src/main/java/ru/netology/server/RequestParser.java:36-39 | the content is line + CRLF over exactly the non-header lines, in order, the blank line included |
| RequestParser.LinesPartition | src/main/java/ru/netology/server/RequestParser.java:31-40 | header lines and body lines together are all the lines; header lines add nothing to the content and body lines nothing to the map |
| RequestParser.PartitionMultiset | src/main/java/ru/netology/server/RequestParser.java:31-40 | the header lines and the body lines together are the lines read, each exactly as often |
| RequestParser.SortLine | src/main/java/ru/netology/server/RequestParser.java:33-39 | each line read goes either to the header lines or to the body lines |
| RequestParser.NothingAfterRequestLine | src/main/java/ru/netology/server/RequestParser.java:31-41 | with nothing after the request line, the headers are empty and the content is "" |
| RequestParser.HeadersIgnoreBodyLines | src/main/java/ru/netology/server/RequestParser.java:36-39 | lines that are not header lines leave the header map unchanged |
| RequestParser.ContentAppend | src/main/java/ru/netology/server/RequestParser.java:36-39 | the content of two runs of lines is the content of the first followed by that of the second |
| RequestParser.ContentOfBodyLines | src/main/java/ru/netology/server/RequestParser.java:36-39 | lines that are not header lines are copied into the content, each followed by CRLF |
| RequestParser.HeadersOfHeaderLines | src/main/java/ru/netology/server/RequestParser.java:33-35 | reading back the header lines `toString` writes gives the header map restricted to the names written |
| RequestParser.ReparseRendered | src/main/java/ru/netology/server/RequestParser.java:19-42 | for a request `parse` could have produced (non-empty type and version; no space, CR or LF in type, path or version; type not starting and version not ending with whitespace; header names `[A-Za-z-]+`; header values free of line terminators incl. U+0085, U+2028, U+2029; content non-header lines free of CR and LF, each ended by CRLF), the lines `readLine` yields from `toString()` join back to the rendered text, and `parse` gives back type, path, version and the whole header map, with the blank line's CRLF in front of the content |
| RequestParser.ReparsedLines | src/main/java/ru/netology/server/RequestParser.java:19-42 | the request line, the header lines, the blank line and the body lines parse to the request with CRLF in front of its content |
| RequestParser.ReparsedHeaders | src/main/java/ru/netology/server/RequestParser.java:31-40 | after the header lines, a blank line and body lines, the map is exactly the headers written |
| Requests.KeyOrderCoversMap | src/main/java/ru/netology/server/Request.java:59-62 | the headers written in a key order are the whole map |
| RequestParser.ReparsedContent | src/main/java/ru/netology/server/RequestParser.java:36-39 | after the header lines, the content is CRLF followed by the body lines |
| RequestParser.BlankLineThenBody | src/main/java/ru/netology/server/RequestParser.java:36-39 | the blank line and the body lines after it give CRLF followed by each body line with its CRLF |
| RequestParser.BlankLineIsNoHeader | src/main/java/ru/netology/server/RequestParser.java:33 | the blank line matches no header pattern, so it and the body lines are all content |
| HttpServer.Server.constructor | src/main/java/ru/netology/server/Server.java:32-36 | a new server has an empty registry |
| HttpServer.Server.AddHandler | src/main/java/ru/netology/server/Server.java:120-124 | puts the handler under the one-entry key {type -> path}, replacing an equal key; every key stays a one-entry map |
| HttpServer.Server.FindHandler | src/main/java/ru/netology/server/Server.java:62-67 | the loop over the entries, in any order, ends with the handler registered for exactly (type, path), or none |
| HttpServer.Server.HandleNewConnection | src/main/java/ru/netology/server/Server.java:61-70 | parse, then lookup, then invoke: the outcome is `Dispatch(handlers, lines)` |
| HttpServer.MatchesIffRoute | src/main/java/ru/netology/server/Server.java:64 | on a one-entry key, `containsKey(type) && containsValue(path)` holds exactly when the key is {type -> path} |
| HttpServer.RouteInjective | src/main/java/ru/netology/server/Server.java:121-123 | two keys are equal exactly when both type and path are equal |
| HttpServer.AtMostOneMatch | src/main/java/ru/netology/server/Server.java:63-66 | at most one registry key passes the lookup test |
| HttpServer.LookupIsMatch | src/main/java/ru/netology/server/Server.java:63-66 | lookup finds h exactly when some key passes `containsKey`/`containsValue` and maps to h |
| HttpServer.RegisterKeepsSingletonKeys | src/main/java/ru/netology/server/Server.java:120-124 | registering keeps every key a one-entry map |
| HttpServer.LookupAfterRegister | src/main/java/ru/netology/server/Server.java:120-124 | after `addHandler(t, p, h)`, (t, p) selects h |
| HttpServer.RegisterLeavesOthers | src/main/java/ru/netology/server/Server.java:123 | registering (t, p) leaves the lookup for every other pair unchanged |
| HttpServer.ReRegisterReplaces | src/main/java/ru/netology/server/Server.java:121-123 | registering (t, p) again replaces the handler and adds no entry |
| HttpServer.LookupIsLastRegistration | src/main/java/ru/netology/server/Server.java:120-124 | after any sequence of registrations, (t, p) selects the handler registered last for (t, p) |
| HttpServer.RegisterAllSingletonKeys | src/main/java/ru/netology/server/Server.java:120-124 | a registry built by `addHandler` calls has one-entry keys only |
| HttpServer.RegisteredKeys | src/main/java/ru/netology/server/Server.java:123 | the key {t -> p} is present exactly when (t, p) was registered |
| HttpServer.PairsAppend | src/main/java/ru/netology/server/Server.java:123 | one more registration adds its (type, path) pair to the registered pairs |
| HttpServer.EntryCount | src/main/java/ru/netology/server/Server.java:123 | the registry has one entry per distinct (type, path) pair registered |
| HttpServer.NullRequestNeverHandled | src/main/java/ru/netology/server/Server.java:61-70 | a missing or malformed request line never reaches a handler: a malformed one gives no response with an empty registry and a NullPointerException otherwise |
| HttpServer.HandledIffRegistered | src/main/java/ru/netology/server/Server.java:61-70 | handler h gets request r exactly when the lines parse to r and h was registered last for r's type and path |
| HttpServer.UnmatchedGetsNoResponse | src/main/java/ru/netology/server/Server.java:62-70 | a parsed request with no matching handler gets nothing written |
| App.Configure | src/main/java/ru/netology/Main.java:17-44 | a new server with exactly the two registrations of `main`, in order |
| App.RoutesRegistry | src/main/java/ru/netology/Main.java:21-44 | the registry is the GET registration followed by the POST registration |
| App.TwoRoutes | src/main/java/ru/netology/Main.java:21-44 | two entries: GET /messages to the static page, POST /messages to the echo handler, and no other pair is served |
| App.EchoResponse | src/main/java/ru/netology/Main.java:48-57 | the text the POST handler writes starts with the status line "HTTP/1.1 200 OK" + CRLF and ends with the request content verbatim (its full layout and framing: `EchoLayout`, `EchoFraming`) |
| App.EchoLayout | src/main/java/ru/netology/Main.java:50-56 | the response is the status line and the three headers, each ended by CRLF, then CRLF, then the content |
| App.EchoHeadLines | src/main/java/ru/netology/Main.java:51-55 | the four head lines are non-empty and hold no CR |
| App.EchoFraming | src/main/java/ru/netology/Main.java:49-56 | the first blank line ends the status line and the Content-Type, Content-Length and Connection headers, in that order; after it comes the content verbatim; Content-Length reads back as that text's byte length |
| App.FramedByBlankLine | src/main/java/ru/netology/Main.java:50-56 | after CR-free lines, the first blank line splits the text into exactly the head and the body |
| App.EchoStartsWithStatusLine | src/main/java/ru/netology/Main.java:51 | the response starts with "HTTP/1.1 200 OK" + CRLF |
| App.EchoDependsOnlyOnContent | src/main/java/ru/netology/Main.java:47-57 | requests with equal content get identical responses |
| RequestParser.HeaderBlankLineBody | src/main/java/ru/netology/server/RequestParser.java:31-40 | a request line, one header, the blank line and one body line parse to that header and content CRLF + body line + CRLF |
| RequestParser.HeaderThenBody | src/main/java/ru/netology/server/RequestParser.java:31-40 | a header line, the blank line and a body line give a one-entry map and the content CRLF + body line + CRLF |
| App.PostParsed | src/main/java/ru/netology/server/RequestParser.java:19-42 | the example POST parses with its one header and content "\r\nhello world\r\n" |
| App.PostReachesEcho | src/main/java/ru/netology/server/Server.java:61-70 | on the configured server, that POST reaches the echo handler with the parsed request |
| App.PostEchoed | src/main/java/ru/netology/Main.java:49-56 | the echo answers it with Content-Length 15, the byte count of its all-ASCII content |

## Left out

- `Server.listen`: the accept loop, the `ServerSocket` and the 64-thread executor. These are socket I/O and concurrency.
- The `ConcurrentHashMap`'s thread safety. The registry is a plain map updated by one caller at a time.
- `getValidPaths`, the `validPaths` field and `log`. These are resource-file reading, console output and the clock.
- Opening and closing the socket streams, and catching and logging `IOException` in `handleNewConnection`. The NullPointerException a malformed or missing request line causes is modelled as the `Aborted` outcome; where that exception goes after it leaves the method is not.
- The blocking behaviour of `readLine()` and `in.ready()`: the request arrives as the finite list of lines read before `ready()` turns false.
- The GET `/messages` handler. It probes a MIME type and copies a file, which is filesystem I/O, so it appears only as the handler number `StaticPage`.
- `Handler.java`: handlers are numbers, and running one (writing its response bytes to the stream) is not modelled. For the echo handler, the response text is modelled (`EchoResponse`); the `write` and `flush` are not.
- `HashMap` iteration order: it is a parameter of `toString` (`order`). The lookup loop is shown to pick the same handler in every order.
- The platform charset of `getBytes()`: the model takes it to be UTF-8.
- UTF-16 detail: Java measures strings in UTF-16 code units, and the model in Unicode scalar values. The UTF-8 byte count is the same either way. Unpaired surrogates cannot be represented.
- Utf8Length: the model does not cap Content-Length at the Java `int` range, because a content of more than 2^31 - 1 bytes is out of reach for this server.
- `Request` keeps a reference to the caller's header map, which the caller could later change; in the model the headers are a value.

