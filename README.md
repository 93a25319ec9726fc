# HTTP/1.1 message layer of a minimal Rust web server, in Dafny

This project models the message layer of a small HTTP/1.1 server written in
Rust. The layer turns the text of one request into a structured request, and
turns a structured response into wire text. It follows the message framing of
RFC 9112:

- section 2.1: start line, field lines, an empty line, then the body;
- section 3: the request line;
- section 4: the status line;
- section 6.2: Content-Length.

The server departs from that standard in several places, and the model keeps
each of them:

- The request line is split on every single space, so a doubled space gives
  an empty token, and tokens after the third are ignored rather than
  rejected (section 3).
- Header names are matched exactly as written, with case.
- A field line is cut at the exact text ": ", with no handling of the
  optional whitespace of section 5. A line without a space after the colon
  (`Content-Length:5`) is ignored (`Request.FieldWithoutSeparatorIgnored`),
  and trailing whitespace stays in the value, so `Content-Length: 5 ` is not
  a number and the parse panics (`Request.TrailingSpaceNotNumber`).

The model has six modules:

- `Wrappers`: the `Option` type.
- `Text`: the parts of Rust's string library the layer uses. These are
  `str::trim` (Unicode White_Space), `str::split` on one character,
  `str::split_once`, `slice::join`, `usize::from_str` on a 64-bit target, and
  `String::from_utf8_lossy`. Each comes with the lemmas that pin it down:
  joining inverts splitting, `split_once` cuts at the first occurrence, and
  parsing a rendered number gives it back.
- `Message`: the framing that requests and responses share: field lines
  `name: value` each ended by CRLF, the empty line, the body. It also holds a
  reader of that framing, used to prove that a serialisation can be decoded
  unambiguously (`MessageRoundTrip`).
- `Request` (`src/http/request.rs`) has four parts:
  - the `Method` enum and its names;
  - the parsed `HttpRequest` and its `to_string`;
  - the parser `from_stream`: the imperative method `FromStream`, proved equal
    to the specification function `Parse`;
  - the request builder.
- `Response` (`src/http/response.rs`) has five parts:
  - `ResStatus` and its status line;
  - `HttpResponse`;
  - its loop-built wire text (`ToString`, proved equal to `Serialize`);
  - the proof that the `Message` reader decodes that text back into the
    response (`WireRoundTrip`);
  - the fluent `HttpResponseBuilder`.
- `HtmlRes` (`src/htmlres.rs`) is the legacy response with a raw status line.
  It has its own serialising loop, proved to give the same text as
  `HttpResponse::to_string`, and its own builder with different defaults.

The Rust `from_stream` returns `Option<HttpRequest>` and can also panic.
The model gives the parse three outcomes:

- `Parsed(request)`;
- `Rejected`: the Rust code's `None`, from a short request line or an unknown
  method token;
- `Panicked(cause)`, where the cause is either:
  - `ContentLengthNotNumber`: `unwrap` on a Content-Length that is not a
    number;
  - `BodyTruncated`: `unwrap` on `read_exact` when the stream holds fewer
    bytes than Content-Length.

The socket is replaced by an explicit `Stream` value with three parts:

- the request line as `read_line` returns it, terminator included;
- the following lines as `lines()` yields them, terminators stripped;
- the raw bytes after the header section.

The builders are Rust structs whose setters take `mut self`, overwrite one
field and return the struct. Each one is a class with those fields, and each
setter is a method whose `modifies this` contract states the whole new state.
`build` is a function that reads the object. The `expect` panics in `build`
become `requires` clauses, because there the Rust code demands something of its
caller.

Four behaviours of the Rust code shape the model:

- Parse order. The method token is resolved last, after the headers and
  the body have been read. So a bad Content-Length panics even when the
  method is unknown (`Request.ParseFailures`).
- Extra tokens. The request line needs at least three tokens, and any
  further tokens are ignored (`Request.ParseOfParts`,
  `Request.ExtraTokenIgnored`).
- Bad Content-Length. A Content-Length that is not a number, or a body
  shorter than it, panics through `unwrap` instead of giving `None`.
- Status line. `HttpResponseBuilder::build` always writes the literal
  prefix `"HTTP/1.1 "` before the status text.

## Model

| member | source | states |
|---|---|---|
| `Request.Method.FromString` | src/http/request.rs:23-31 | a method is found exactly for the four upper-case names "GET", "POST", "PUT", "DELETE"; any other token, "get" included, gives None |
| `Request.MethodNames` | src/http/request.rs:14-31 | the name of every method reads back as that method, and a token reads as method m exactly when it is m's name |
| `Text.TrimStart` | src/http/request.rs:58 | the result is the suffix left after removing every leading White_Space character, and starts with a non-whitespace character or is empty |
| `Text.TrimEnd` | src/http/request.rs:58 | the result is the prefix left after removing every trailing White_Space character, and ends with a non-whitespace character or is empty |
| `Text.TrimClean` | src/http/request.rs:58 | trimming a line that is clean at both ends and followed only by whitespace, such as its CRLF, gives back exactly that line |
| `Text.Split` | src/http/request.rs:58 | splitting on a character gives at least one piece; no piece contains the separator; the pieces joined with the separator are the original text |
| `Text.SplitCons` | src/http/request.rs:58 | a separator-free piece followed by the separator splits into that piece followed by the split of the rest |
| `Text.SplitJoin` | src/http/request.rs:58 | splitting inverts joining: separator-free pieces, joined, split back into exactly those pieces |
| `Text.SplitOnce` | src/http/request.rs:68 | when the pattern occurs, the text is the part before it, the pattern, then the part after it |
| `Text.SplitOnceFirst` | src/http/request.rs:68 | the split is at the first occurrence of the pattern, and the result is None exactly when the pattern does not occur |
| `Text.SplitOnceField` | src/http/request.rs:68 | a line `name: value` whose name has no ": " splits back into that name and value, even if the value contains ": " |
| `Text.ParseUsize` | src/http/request.rs:76 | a parsed Content-Length always fits in a 64-bit usize |
| `Text.ParseUsizeDecimal` | src/http/request.rs:76 | every number below 2^64, rendered in decimal with or without a leading "+", parses back to that number |
| `Text.DecodeLossy` | src/http/request.rs:79 | the decoded body has one character per byte: the byte's own character if it is ASCII, U+FFFD otherwise |
| `Text.DecodeAscii` | src/http/request.rs:79 | the bytes of an ASCII text decode back to that text |
| `Request.HeaderSection` | src/http/request.rs:64-66 | the header lines read are the longest prefix of the lines with no empty line; when it stops before the end, it stops at an empty line |
| `Request.HeaderSectionStopsAtEmptyLine` | src/http/request.rs:64-66 | lines after the first empty line are never read as headers |
| `Request.CollectHeadersNames` | src/http/request.rs:67-71 | a name is in the header map exactly when some line, split at its first ": ", has that name; lines without ": " add nothing |
| `Request.CollectHeadersLastWins` | src/http/request.rs:67-71 | a name's value is the value on the last line that defines it, so a later duplicate overwrites an earlier one |
| `Request.ReadHeaderLines` | src/http/request.rs:63-71 | the header loop's map equals the map built from the header section, line by line |
| `Request.ReadBodyBytes` | src/http/request.rs:73-83 | the body step, with its loop filling a zeroed buffer, equals the body specification: no body without Content-Length, a panic on a non-number or a short stream, else exactly n bytes decoded |
| `Request.FromStream` | src/http/request.rs:54-91 | the step-by-step parser computes exactly the specification `Parse` for every stream, with its three outcomes |
| `Request.ParseRequestLine` | src/http/request.rs:56-61 | fewer than three tokens in the trimmed, single-space-split request line is None; otherwise method, address and version are tokens 0, 1 and 2, and any further tokens are ignored |
| `Request.ThreeTokens` | src/http/request.rs:58-61 | three space-free tokens written with single spaces and a CRLF split back into those tokens; a doubled space (an empty middle token) stays an empty token |
| `Request.RequestLineTokens` | src/http/request.rs:58-61 | a request line written from a method, an address and a version splits back into the method's name, the address and the version |
| `Request.RequestLineRoundTrip` | src/http/request.rs:54-91 | such a request line with no header lines parses to exactly that method, address and version, with no headers and no body |
| `Request.ParseOfParts` | src/http/request.rs:54-91 | a request line of at least three tokens whose first is a known method parses, once the body read succeeds, to that method, tokens 1 and 2 as address and version, the header-section map and the body; tokens after the third are ignored |
| `Request.ParseOfThreeTokens` | src/http/request.rs:54-91 | a request line of exactly method, address and version parses to those three fields once the body read succeeds |
| `Request.ParseWithoutHeaders` | src/http/request.rs:54-91 | with no header lines, a request line of at least three tokens led by a known method parses to tokens 1 and 2, no headers and no body |
| `Request.FourTokens` | src/http/request.rs:57-61 | four space-free tokens written with single spaces and a CRLF split back into those four tokens |
| `Request.ExtraTokenIgnored` | src/http/request.rs:57-61 | a request line with a fourth token parses to the same method, address and version as without it |
| `Request.ParsedHeaders` | src/http/request.rs:63-71 | a parsed request carries exactly the header map built from the header section |
| `Request.ParsedBody` | src/http/request.rs:73-83 | in a parsed request the body is absent exactly when no header is named exactly "Content-Length"; when present it is the decoding of exactly the next n bytes, where n is the parsed value |
| `Request.BodyIgnoredWithoutContentLength` | src/http/request.rs:73-83 | without a Content-Length header the bytes after the header section do not affect the result, and a parsed request has no body |
| `Request.ParseFailures` | src/http/request.rs:73-90 | with at least three tokens, a non-numeric Content-Length panics and a short stream panics whatever the method token; an unknown method token that does not panic gives None |
| `Request.FieldWithoutSeparatorIgnored` | src/http/request.rs:63-71 | a header line without the exact text ": " adds nothing to the header map |
| `Request.TrailingSpaceNotNumber` | src/http/request.rs:73-76 | a value with trailing whitespace is not a number, so a Content-Length of "5 " makes the parse panic |
| `Request.OneFieldSection` | src/http/request.rs:63-71 | a header section of one well-formed line maps that one name to its value |
| `Request.ContentLengthSection` | src/http/request.rs:63-71 | the section `Content-Length: v` maps "Content-Length" to v |
| `Request.ReadDeclaredBody` | src/http/request.rs:73-83 | a Content-Length equal to an ASCII body's length takes exactly that body off the stream, whatever follows it |
| `Request.ContentLengthBody` | src/http/request.rs:54-91 | a request with `Content-Length: n` followed by n ASCII bytes and anything else has exactly those n bytes, decoded, as its body |
| `Request.OtherHeaderReadsNoBody` | src/http/request.rs:73-83 | a header named anything other than exactly "Content-Length" ("content-length", say) reads no body, even when bytes follow |
| `Request.FieldTexts` | src/http/request.rs:45-48 | one `name: value` text per listed header name, in the order given |
| `Request.HttpRequest.ToString` | src/http/request.rs:43-50 | the text starts with `method SP address SP version CRLF` |
| `Request.RequestTextFields` | src/http/request.rs:45-48 | whatever the hash map's iteration order, the field lines written are exactly one `name: value` per header |
| `Request.RequestTextWithoutHeaders` | src/http/request.rs:43-50 | a request without headers is its request line, then "\r\n\r\n\r\n", then the body or nothing |
| `Request.Fields` | src/http/request.rs:45-46 | one (name, value) pair per listed header name, in the order given, with the map's value |
| `Request.JoinedFieldBlock` | src/http/request.rs:45-49 | for at least one header, the CRLF-joined field texts followed by one CRLF are exactly the RFC 9112 field block of the same pairs |
| `Request.SameTextWithHeaders` | src/http/request.rs:43-50 | with at least one header, the text as written equals the corrected RFC 9112 framing, for every iteration order |
| `Request.ExtraBlankLineWithoutHeaders` | src/http/request.rs:43-50 | as written, a request without headers reads back with no fields and a body that starts with an extra CRLF, not with its own body |
| `Request.RequestWireRoundTrip` | src/http/request.rs:43-50 | the corrected text reads back as the request line, each header once in the order written, and the body |
| `Request.PresentHeaders` | src/http/request.rs:150-157 | a name is kept exactly when its recorded value is Some, and it keeps that value |
| `Request.HttpRequestBuilder.Default` | src/http/request.rs:103-113 | `default()` is GET of "/" over "HTTP/1.1" with no headers and no body |
| `Request.HttpRequestBuilder.New` | src/http/request.rs:116-124 | `new()` sets only the version, to "HTTP/1.1" |
| `Request.HttpRequestBuilder.SetMethod` | src/http/request.rs:125-128 | sets the method and changes nothing else |
| `Request.HttpRequestBuilder.SetAddress` | src/http/request.rs:129-132 | sets the address and changes nothing else |
| `Request.HttpRequestBuilder.SetHttpVersion` | src/http/request.rs:133-136 | sets the version and changes nothing else |
| `Request.HttpRequestBuilder.SetHeader` | src/http/request.rs:137-140 | records the value, or its absence, for the name, replacing any earlier entry, and changes nothing else |
| `Request.HttpRequestBuilder.SetBody` | src/http/request.rs:141-144 | sets the body and changes nothing else |
| `Request.HttpRequestBuilder.Build` | src/http/request.rs:145-160 | needs a method and an address; the version falls back to "HTTP/1.1"; the headers are exactly those recorded with a value; the body is carried over |
| `Request.DefaultRequest` | src/http/request.rs:103-160 | `default().build()` is GET, "/", "HTTP/1.1", no headers, no body |
| `Request.HeaderNoneRemoves` | src/http/request.rs:137-158 | `header(k, Some v)` puts k in the built request; a later `header(k, None)` removes it |
| `Response.StatusLinesDistinct` | src/http/response.rs:30-35 | two statuses get the same status text exactly when they are the same status |
| `Response.BuiltStatusLines` | src/http/response.rs:30-35 | the full status lines are "HTTP/1.1 200 OK" for Ok and "HTTP/1.1 404 Not Found" for NotFound |
| `Message.FieldBlockAppend` | src/http/response.rs:12-17 | the field lines of two header lists in sequence are the field lines of each list in turn: nothing is reordered, merged or dropped |
| `Message.FieldBlockCons` | src/http/response.rs:12-17 | the first header's line comes first in the text |
| `Response.HttpResponse.ToString` | src/http/response.rs:8-20 | the loop-built text is the status line, CRLF, `name: value` CRLF for each header in list order, CRLF, then the body, with nothing added |
| `Message.ReadFieldBlock` | src/http/response.rs:12-18 | reading the field lines of a header list, then the empty line, recovers that list and the body that follows |
| `Message.MessageRoundTrip` | src/http/response.rs:8-20 | a message written as start line, CRLF, field lines, CRLF and body reads back as exactly that start line, field list and body, provided no field or start line holds a CR and no name holds ": " |
| `Response.WireRoundTrip` | src/http/response.rs:8-20 | a reader that splits the text into lines recovers the exact status line, headers (order and duplicates included) and body, provided neither the status line nor any field holds a CR and no name holds ": " |
| `Response.HttpResponseBuilder.Default` | src/http/response.rs:46-52 | `default()` has status Ok, no headers and no body yet |
| `Response.HttpResponseBuilder.New` | src/http/response.rs:56-62 | `new()` has no status, no headers and no body yet |
| `Response.HttpResponseBuilder.SetStatus` | src/http/response.rs:63-66 | replaces the status and changes nothing else |
| `Response.HttpResponseBuilder.AddHeader` | src/http/response.rs:67-70 | appends the pair at the end of the list, keeping earlier pairs and duplicates |
| `Response.HttpResponseBuilder.SetHtml` | src/http/response.rs:71-74 | replaces the body and changes nothing else |
| `Response.HttpResponseBuilder.Build` | src/http/response.rs:75-83 | needs a status; the status line is "HTTP/1.1 " then the status text; the headers are exactly those added (no automatic Content-Length); the body defaults to "" |
| `Response.ContentLengthExample` | src/http/response.rs:45-83 | `default().header("Content-Length","5").html("hello").build().to_string()` is exactly "HTTP/1.1 200 OK\r\nContent-Length: 5\r\n\r\nhello" |
| `Response.LastCallWins` | src/http/response.rs:63-83 | after repeated `status` and `html` calls the last ones win, and a header added twice is written twice, in order |
| `HtmlRes.HtmlResponse.Build` | src/htmlres.rs:8-20 | the loop-built text is the status line, CRLF, `name: value` CRLF for each header in order, CRLF, then the body |
| `HtmlRes.SameTextAsHttpResponse` | src/htmlres.rs:8-20 | for the same fields, the legacy serialiser and `HttpResponse::to_string` write the same text |
| `HtmlRes.HtmlResponseBuilder.Default` | src/htmlres.rs:31-38 | `default()` has status line "HTTP/1.1 200 OK", no headers and body "Hello World!" |
| `HtmlRes.HtmlResponseBuilder.New` | src/htmlres.rs:41-47 | `new()` has nothing set |
| `HtmlRes.HtmlResponseBuilder.SetStatusLine` | src/htmlres.rs:48-51 | replaces the status line and changes nothing else |
| `HtmlRes.HtmlResponseBuilder.AddHeader` | src/htmlres.rs:52-55 | appends the pair at the end, keeping earlier pairs and duplicates |
| `HtmlRes.HtmlResponseBuilder.SetHtml` | src/htmlres.rs:56-59 | replaces the body and changes nothing else |
| `HtmlRes.HtmlResponseBuilder.Build` | src/htmlres.rs:60-66 | needs a status line and uses it verbatim, with no "HTTP/1.1 " prefix; the headers are those added; the body defaults to "" |
| `HtmlRes.DefaultPage` | src/htmlres.rs:30-66 | `default().build().build()` is exactly "HTTP/1.1 200 OK\r\n\r\nHello World!" |
| `HtmlRes.VerbatimStatusLine` | src/htmlres.rs:41-66 | on a `new()` builder the last status line set is used verbatim, duplicate headers are kept in order, and the body defaults to "" |

## Findings

| source | as written | input that shows it | evidently intended | confidence | as-written member | corrected member |
|---|---|---|---|---|---|---|
| src/http/request.rs:45-49 | the field texts are joined with CRLF and followed by CRLF CRLF, so with no headers an empty field list still gets a terminator | `GET / HTTP/1.1` with no headers and body "hi": the text is "GET / HTTP/1.1\r\n\r\n\r\nhi", which the model's reader `Message.ReadMessage` takes as no fields and body "\r\nhi". Under sections 6.3 and 2.2 of RFC 9112 a request without Content-Length has no body, so a conforming server sees a stray empty line, which it may ignore, followed by "hi" | each field line ended by its own CRLF, then one empty line, as `HttpResponse::to_string` does (`Request.HttpRequest.ToWire`) | medium, not executed | `Request.ExtraBlankLineWithoutHeaders` | `Request.RequestWireRoundTrip` |

The text as written is kept as `Request.HttpRequest.ToString`; with at least
one header it already equals the corrected framing
(`Request.SameTextWithHeaders`).

## Left out

- Socket I/O and buffering are not modelled. The `BufReader` over the `TcpStream`, and the way `read_line` and `lines()` cut the byte stream into lines, are replaced by the three parts of `Stream`. In that value, lines after the first empty one stand for text that the real reader would have left as bytes; the parser never reads them.
- Read and decoding errors are not modelled. These are the `Err` that `read_line` can return (wrapped in `Some` by `Option::from`, so it never stops the parse) and the `unwrap` panic in `lines()` on an I/O error or invalid UTF-8. Every line is assumed readable.
- Text.DecodeLossy: handles each byte on its own. An ASCII byte is its character and every other byte becomes U+FFFD. Real `from_utf8_lossy` decodes valid multi-byte UTF-8 sequences into one character each, so the model is exact only for ASCII bodies.
- Request.ReadBodyBytes: allocating the `vec![0; len]` buffer is assumed to succeed. A huge Content-Length can make the real process fail while allocating, before `read_exact` runs. The process then fails, by a panic or an abort; the model reports `BodyTruncated`.
- Text.ParseUsize: assumes a 64-bit `usize`. On a 32-bit target the bound would be 2^32.
- Request.HttpRequest.ToString: the hash map's iteration order is a parameter, any listing of the header names without repetition. The contracts state only what holds for every order: the request-line prefix, the set of field lines, and the exact text when there are no headers.
- The builders' move semantics are not modelled. In Rust, `build(self)` consumes the builder and each setter takes and returns it by value. The model uses one mutable object whose `Build` only reads it. The field values each call leaves behind are the same.
- `Request.HttpRequestBuilder.Build`: the `"HTTP/1.1"` fallback for a missing version is modelled, but no constructor or setter can leave the version unset.
- The worker pool (`src/workerpool.rs`) is not modelled: it is about threads and channels.
- The accept loop (`src/main.rs`) is not modelled: it is socket I/O and logging.
- The request handlers (`src/rhandler.rs`, `src/reqhandler.rs`, `src/req_handler.rs`) are not modelled: they are thin socket and printing glue around the builders.
- The page template (`src/html.rs`) is not modelled: it belongs to a templating library.
