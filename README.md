# http-demo2 in Dafny

http-demo2 holds two small HTTP/1.1 servers written in Java:

- **classtask** (`org.itstep.classtask.Application`) accepts connections forever and
  hands each one to a thread pool. It parses the request and routes its target: `/`
  gets the "Home" page and `/about` the "About" page, both with status 200. Every
  other target gets a "Not found" page with status 404.
- **webserver** (`org.itstep.webserver.Application`) accepts exactly one connection.
  It parses the request, ignores it, and answers with a fixed "Hello World!" page.

Both servers share the same request parser. It reads lines until the first empty line
or the end of the stream, then joins them with LF and splits them again on an
optional CR followed by LF. The request line is split on single whitespace
characters into method, target and protocol. Every further line is split at its
first colon, and the trimmed value is stored in a hash map under the name; a later
line with the same name wins. Both servers also share the same response shape: an
HTML document with a title, a fragment and a "Now: <timestamp>" line. That document
is framed by a status line, three header lines (Content-type, Content-length,
Connection: close) and a blank line.

The model has seven modules:

- `Wrappers`: `Option` and `Result`.
- `JavaText`: the Java string operations the code relies on.
  - `String.split` with and without a limit, including its removal of trailing
    empty strings and its special case for input with no match.
  - `trim()`, which strips every character up to U+0020.
  - `%d` formatting of a natural number.
- `Lines`: the `readLine` loop as a function on the stream of lines, and the
  StringBuilder join of those lines.
- `Request`: the shared parser.
  - `Parse` specifies it as a function.
  - `ReadHead` and `CollectHeaders` are the two loops of the Java method. `ReadHead`
    is proved to build the joined lines before the first empty line, and
    `CollectHeaders` the header map.
  - `ParseRequest` is the whole Java method, proved equal to `Parse`.
- `Response`: the HTML document and the response framing. It also holds a
  client-side reader of responses, which is the partner the framing is proved
  against.
- `ClassTask`: the router, the reason phrases, the response and the per-connection
  handler.
- `WebServer`: the fixed response and the single-connection handler.

The Java code indexes past the end of an array in two places: a header line without
a colon, and a request line with fewer than three whitespace tokens. It then ends the
connection with an exception and writes no response. The model returns those two
cases as errors (`ParseError`). The header loop runs before the request line is
indexed, so when both faults are present the header error is the one reported.

Where the code departs from HTTP/1.1, the model follows the code:

- Response lines end in LF, where section 2.1 of RFC 9112 uses CRLF, because the Java
  text blocks are written with plain newlines.
- `Content-length` is the number of characters of the HTML (`String.length()`), where
  section 8.6 of RFC 9110 counts octets.
- A malformed request ends the connection with no response instead of a 400 (Bad
  Request) status.

The request is the `HttpRequest` datatype. Its fields are the method (`httpMethod`,
since `method` is a Dafny keyword), the target, the protocol and the header map. The
router reads the target where the Java code calls `getRequestUri()`. The two known
targets are `ClassTask.HomeUri` (`/`) and `ClassTask.AboutUri` (`/about`), the
`REQUEST_URI_HOME` and `REQUEST_URI_ABOUT` constants of the Java class.

## Model

Paths are relative to the repository root. C is `src/main/java/org/itstep/classtask/Application.java`;
members shared by both servers cite C, and the same code is at
`src/main/java/org/itstep/webserver/Application.java:69-84`.

| member | source | states |
|---|---|---|
| JavaText.Split | src/main/java/org/itstep/classtask/Application.java:119 | `split("\\s")`: a line with no whitespace character is its own single token; otherwise the tokens are the pieces between single whitespace characters, with trailing empty tokens removed and the last token non-empty; no token holds whitespace |
| JavaText.Pieces | src/main/java/org/itstep/classtask/Application.java:119 | the pieces between separator characters: at least one; none holds a separator; exactly one, equal to the input, when the input holds no separator |
| JavaText.PiecesCons | src/main/java/org/itstep/classtask/Application.java:119 | a separator-free word followed by a separator contributes exactly that word as the next piece |
| JavaText.DropTrailingEmpty | src/main/java/org/itstep/classtask/Application.java:119 | dropping trailing empty strings leaves a prefix that is empty or ends in a non-empty string, and only empty strings are dropped |
| JavaText.DropTrailingEmptyAppend | src/main/java/org/itstep/classtask/Application.java:119 | trailing empty strings after a non-empty element never reach back past it |
| JavaText.SplitLines | src/main/java/org/itstep/classtask/Application.java:118 | `split("(\\r)?\\n")`: text without LF is one line; otherwise a prefix of the line-break pieces ending in a non-empty line, with only empty pieces dropped; no line holds LF |
| JavaText.LinePieces | src/main/java/org/itstep/classtask/Application.java:118 | the pieces between line breaks: at least one; none holds LF; exactly one, equal to the input, when the input holds no LF |
| JavaText.LinePiecesCons | src/main/java/org/itstep/classtask/Application.java:118 | a line free of CR and LF followed by LF contributes exactly that line as the next piece |
| JavaText.LinePiecesCrLf | src/main/java/org/itstep/classtask/Application.java:118 | a line free of CR and LF followed by CR LF contributes exactly that line as the next piece: a CR before LF belongs to the separator |
| JavaText.SplitFirst | src/main/java/org/itstep/classtask/Application.java:122 | `split(":", 2)` gives one or two parts, and one part exactly when the line holds no colon |
| JavaText.SplitFirstParts | src/main/java/org/itstep/classtask/Application.java:122 | with two parts, the first is the text before the first colon (which holds no colon) and the second is everything after it, further colons included |
| JavaText.SplitFirstAt | src/main/java/org/itstep/classtask/Application.java:122 | a colon-free name, a colon and any value split back into exactly that name and that value |
| JavaText.Trim | src/main/java/org/itstep/classtask/Application.java:123 | no contract of its own; `trim()` is specified by `TrimSpec`, from `TrimStartSuffix` and `TrimEndPrefix` |
| JavaText.TrimStartSuffix | src/main/java/org/itstep/classtask/Application.java:123 | stripping the front leaves a suffix that is empty or starts with a character above U+0020, and only such low characters are removed |
| JavaText.TrimEndPrefix | src/main/java/org/itstep/classtask/Application.java:123 | stripping the back leaves a prefix that is empty or ends with a character above U+0020, and only such low characters are removed |
| JavaText.TrimSpec | src/main/java/org/itstep/classtask/Application.java:123 | `trim()` returns a contiguous slice of the value, with every removed character at or below U+0020, that is empty or starts and ends above U+0020 |
| JavaText.DigitChar | src/main/java/org/itstep/classtask/Application.java:97 | the character written for a digit is a decimal digit of that value |
| JavaText.Decimal | src/main/java/org/itstep/classtask/Application.java:97 | `%d` writes at least one character, all of them decimal digits, with no leading zero except for 0 itself |
| JavaText.ParseDecimal | src/main/java/org/itstep/classtask/Application.java:97 | reading a number succeeds exactly on a non-empty string of decimal digits |
| JavaText.DecimalRoundTrip | src/main/java/org/itstep/classtask/Application.java:97 | reading back what `%d` wrote gives the same number |
| Lines.HeadOf | src/main/java/org/itstep/classtask/Application.java:114 | the lines kept are the longest prefix of the stream with no empty line; the stream either ends there or holds an empty line there |
| Lines.HeadStopsAtBlank | src/main/java/org/itstep/classtask/Application.java:114 | with non-empty lines, then an empty line, then anything, the lines kept are exactly those before the empty line |
| Lines.JoinedAppend | src/main/java/org/itstep/classtask/Application.java:115 | appending lines to the builder one batch after another gives the concatenation of the batches |
| Lines.Joined | src/main/java/org/itstep/classtask/Application.java:113-116 | no contract of its own; the StringBuilder text is specified by `ReadHead` (what the loop builds) and `SplitJoinedLines` (splitting it gives the lines back) |
| Lines.LinePiecesOfJoined | src/main/java/org/itstep/classtask/Application.java:115-118 | splitting the joined lines at every line break gives the lines back, plus the empty piece after the last LF |
| Lines.SplitJoinedLines | src/main/java/org/itstep/classtask/Application.java:115-118 | joining non-empty lines with LF and splitting them again gives the same lines; no lines give the single empty string |
| Lines.JoinPieces | src/main/java/org/itstep/classtask/Application.java:94-100 | joining the pieces of a text with the separator between them rebuilds the text (used to read a response body back) |
| Request.PutAll | src/main/java/org/itstep/classtask/Application.java:123 | no contract of its own; the `HashMap` after one `put` per pair is specified by `PutAllKeys` and `PutAllLastWins` |
| Request.PutAllKeys | src/main/java/org/itstep/classtask/Application.java:123 | after one `HashMap.put` per pair, the keys are exactly the keys that were put |
| Request.PutAllLastWins | src/main/java/org/itstep/classtask/Application.java:123 | a key put several times maps to the value of its last `put` |
| Request.FieldName | src/main/java/org/itstep/classtask/Application.java:122-123 | no contract of its own; the key `headerParts[0]` is specified by `HeaderLine` and `SplitFirstParts` (the text before the first colon) |
| Request.FieldValue | src/main/java/org/itstep/classtask/Application.java:122-123 | no contract of its own; the value `headerParts[1].trim()` is specified by `HeaderLine`, `SplitFirstParts` and `TrimSpec` |
| Request.Fields | src/main/java/org/itstep/classtask/Application.java:121-123 | no contract of its own; the pairs put by the loop are specified by `FieldsOk` and `FieldsFirstError` |
| Request.FieldsOk | src/main/java/org/itstep/classtask/Application.java:121-123 | the header lines split without error exactly when every line has a colon; each then gives its name before the first colon and its trimmed value after it, in order |
| Request.FieldsFirstError | src/main/java/org/itstep/classtask/Application.java:121-123 | a failed split names the first header line without a colon |
| Request.FieldsErrorSticks | src/main/java/org/itstep/classtask/Application.java:121-123 | once a prefix of the header lines fails, every longer run fails with the same error: the loop stops at the first bad line |
| Request.Headers | src/main/java/org/itstep/classtask/Application.java:120-124 | no contract of its own; the header map is specified by `HeadersErr`, `HeadersKeys` and `HeadersLastWins` |
| Request.HeadersErr | src/main/java/org/itstep/classtask/Application.java:120-124 | the header map is built exactly when every header line has a colon; otherwise the error names the first colonless line |
| Request.HeadersKeys | src/main/java/org/itstep/classtask/Application.java:120-124 | the header map's keys are exactly the names of the header lines (case-sensitive, untrimmed) |
| Request.HeadersLastWins | src/main/java/org/itstep/classtask/Application.java:120-124 | for a name that occurs on several lines, the map holds the trimmed value of the last one |
| Request.SingleField | src/main/java/org/itstep/classtask/Application.java:120-124 | one header line with a colon gives a map with exactly its entry |
| Request.HeaderLine | src/main/java/org/itstep/classtask/Application.java:122-123 | `Name: value` is filed under `Name` with the trimmed value, even when the value holds further colons |
| Request.Parse | src/main/java/org/itstep/classtask/Application.java:111-126 | a request head parses exactly when it is non-empty, every header line has a colon and the request line has at least three tokens; method, target and protocol are then the first three tokens and the headers are the header map of the lines after the request line; on failure, the first header line without a colon is reported if there is one, and otherwise the short request line with its token count (below three) |
| Request.HeaderErrorFirst | src/main/java/org/itstep/classtask/Application.java:121-125 | a header line without a colon is reported even when the request line is also malformed, because the header loop runs before the request line is indexed |
| Request.RequestLineTokens | src/main/java/org/itstep/classtask/Application.java:119 | `method SP target SP protocol`, optionally followed by whitespace and anything, splits into those three tokens first; method and target may be empty (a doubled separator), the protocol may not |
| Request.RequestLine | src/main/java/org/itstep/classtask/Application.java:118-125 | a well-formed request line with colon-bearing header lines parses to exactly those method, target and protocol, with the header map of those lines |
| Request.ReadHead | src/main/java/org/itstep/classtask/Application.java:112-116 | the reading loop builds the lines up to the first empty line, each followed by LF, and consumes them and the empty line (or the whole stream when it has none) |
| Request.CollectHeaders | src/main/java/org/itstep/classtask/Application.java:120-124 | the header loop returns the header map of every line after the request line, or the first line without a colon |
| Request.ParseRequest | src/main/java/org/itstep/classtask/Application.java:111-126 | parsing from a stream of lines gives `Parse` of the lines up to the first empty line, and consumes only those lines and the empty line |
| Response.Page | src/main/java/org/itstep/classtask/Application.java:81-92 | no contract of its own; the HTML text block with the fragment and timestamp filled in is specified by `PageContents` and, as the body read back, by `FrameRoundTrip` |
| Response.PageContents | src/main/java/org/itstep/classtask/Application.java:81-92 | the page always contains the title, the routed fragment and the "Now" line with the timestamp |
| Response.StatusLineRoundTrip | src/main/java/org/itstep/classtask/Application.java:95 | a client reads back the code and reason phrase the status line was written with |
| Response.ContentLengthOfFields | src/main/java/org/itstep/classtask/Application.java:96-98 | the Content-length a client reads from the header lines is the length that was written |
| Response.FrameLines | src/main/java/org/itstep/classtask/Application.java:94-100 | the response splits into the status line, the three header lines, a blank line and the pieces of the HTML |
| Response.Frame | src/main/java/org/itstep/classtask/Application.java:94-100 | no contract of its own; the `printf` text block is specified by `FrameRoundTrip` |
| Response.FrameRoundTrip | src/main/java/org/itstep/classtask/Application.java:94-100 | a client reading a response gets back the status code and reason phrase, the three header lines and exactly the HTML as body, and the declared Content-length equals the body's length |
| ClassTask.Route | src/main/java/org/itstep/classtask/Application.java:70-79 | the status is 200 exactly for the targets `/` and `/about` and 404 otherwise; the fragment is Home, About or Not found accordingly |
| ClassTask.NearMissesNotFound | src/main/java/org/itstep/classtask/Application.java:135-136 | target matching is exact and case-sensitive: `/about/`, `/About`, `/?q` and the empty target all get 404 |
| ClassTask.StatusText | src/main/java/org/itstep/classtask/Application.java:103-109 | the reason phrase is "OK" exactly for 200, "Not Found" exactly for 404 and "Unknown" exactly for every other code; it never holds LF |
| ClassTask.MakeResponse | src/main/java/org/itstep/classtask/Application.java:67-101 | no contract of its own; the routed response is specified by `ResponseReadsBack` and `ResponseBodyShowsFragment` |
| ClassTask.ResponseReadsBack | src/main/java/org/itstep/classtask/Application.java:67-101 | a client reading the response finds the routed code, its reason phrase (never "Unknown"), the three header lines, a Content-length equal to the body's length, and the page around the routed fragment as body |
| ClassTask.ResponseBodyShowsFragment | src/main/java/org/itstep/classtask/Application.java:81-100 | the body a client reads shows the routed fragment and the timestamp |
| ClassTask.HandleClient | src/main/java/org/itstep/classtask/Application.java:50-65 | a connection is answered exactly when its request parses, and then with the response for that request; a malformed request yields its parse error and no response |
| ClassTask.HostLine | src/main/java/org/itstep/classtask/Application.java:122-123 | the line `Host: x` has name `Host` and value `x` |
| ClassTask.HostHeader | src/main/java/org/itstep/classtask/Application.java:120-124 | the line `Host: x` alone gives the single header entry Host -> x |
| ClassTask.HomeRequest | src/main/java/org/itstep/classtask/Application.java:111-126 | `GET / HTTP/1.1`, `Host: x` and a blank line parse to that method, target, protocol and header, whatever follows the blank line |
| ClassTask.HomeScenario | src/main/java/org/itstep/classtask/Application.java:55-100 | that request is answered with 200 "OK" and a body that shows the Home fragment |
| WebServer.HelloPage | src/main/java/org/itstep/webserver/Application.java:48-59 | no contract of its own; the greeting page is specified by `HelloPageContents` |
| WebServer.MakeResponse | src/main/java/org/itstep/webserver/Application.java:60-66 | no contract of its own; the fixed response is specified by `ResponseIsFrame` and `ResponseReadsBack` |
| WebServer.ResponseIsFrame | src/main/java/org/itstep/webserver/Application.java:60-66 | the literal `HTTP/1.1 200 OK` response is the general framing for code 200 and reason "OK" |
| WebServer.ResponseReadsBack | src/main/java/org/itstep/webserver/Application.java:47-67 | a client reading the response finds 200 "OK", the three header lines, a Content-length equal to the body's length, and the greeting page as body |
| WebServer.HelloPageContents | src/main/java/org/itstep/webserver/Application.java:48-59 | the page contains the title, the "Hello World!" heading and the "Now" line with the timestamp |
| WebServer.Start | src/main/java/org/itstep/webserver/Application.java:28-45 | the one connection is answered exactly when its request parses, and then with the fixed response whatever the request was; a malformed request yields its parse error and no response |

## Left out

- Sockets, the server socket, the endless accept loop of classtask and the thread
  pool that runs each connection: the model handles one connection as a call. Each
  call takes the lines read from it and returns the text to write.
- Opening and closing of the reader and writer, and the wrapping of `IOException`
  in `RuntimeException`. An I/O failure while reading is not modelled.
- `LocalDateTime.now()`: the timestamp is a parameter, already rendered as text.
- Logging through SLF4J.
- A general regular-expression engine. Only the two patterns the code uses are
  modelled: `(\r)?\n` and `\s`.
- `readLine` itself: the stream is given as the lines it returns. Those lines never
  hold CR or LF, which is why `ParseRequest`, `HandleClient` and `Start` require
  `IsLines`.
- Request.ParseRequest: the `ArrayIndexOutOfBoundsException` for a short request line
  or a colonless header line is returned as a `ParseError` value instead of being
  thrown.
- Request.Parse: an empty head gives an error for its empty request line. The Java
  code reaches the same exception through `"".split(...)`, which returns `[""]`.
- String lengths count characters. The Java code counts UTF-16 code units, which is
  the same thing outside the supplementary planes.
- JavaText.Decimal: `%d` is written as ASCII digits, assuming a default locale whose
  zero digit is `'0'`. `java.util.Formatter` localises the digits of `%d`, so under a
  locale with other digits (Arabic or Persian, for example) the status line and
  Content-length hold non-ASCII digits, which the model does not capture.
- Response.Frame: the status code is a natural number. Only 200 and 404 ever reach
  it, so negative `%d` output is not modelled.
- The request's default `Object.toString`, used only in a log line.
