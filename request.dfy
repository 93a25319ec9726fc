/** The request side of the HTTP/1.1 message layer: the four methods, the
    parsed request, the parser that reads one request off a connection and
    the request builder.

    The departures from sections 3 and 5 of RFC 9112 are kept as the server
    has them: the request line is split on every single space (a doubled
    space gives an empty token) and tokens after the third are ignored;
    header names are matched exactly as written, with case; and a field
    line is cut at the exact text ": ", with no optional whitespace, so a
    line without a space after the colon is ignored and trailing
    whitespace stays in the value. */
module Request {
  import opened Wrappers
  import opened Text
  import opened Message

  datatype Method = GET | POST | PUT | DELETE {

    function ToString(): string {
      match this
      case GET => "GET"
      case POST => "POST"
      case PUT => "PUT"
      case DELETE => "DELETE"
    }

    /** The method whose upper-case name is exactly `s`. */
    static function FromString(s: string): (r: Option<Method>)
      ensures r.Some? <==> s == "GET" || s == "POST" || s == "PUT" || s == "DELETE"
    {
      if s == "GET" then Some(GET)
      else if s == "POST" then Some(POST)
      else if s == "PUT" then Some(PUT)
      else if s == "DELETE" then Some(DELETE)
      else None
    }
  }

  /** The two conversions are inverse: every name read back is the name of
      the method found, and every method's name reads back as that method. */
  lemma MethodNames(m: Method, s: string)
    ensures Method.FromString(m.ToString()) == Some(m)
    ensures Method.FromString(s) == Some(m) <==> s == m.ToString()
  {
  }

  /** An HTTP request as parsed: a header name maps to one value. */
  datatype HttpRequest = HttpRequest(
    httpMethod: Method,
    address: string,
    httpVersion: string,
    headers: map<string, string>,
    body: Option<string>)
  {
    function RequestLine(): string {
      httpMethod.ToString() + " " + address + " " + httpVersion
    }

    /** `HttpRequest::to_string`. The Rust code walks a hash map whose order is
        unspecified; that order is the parameter `order`, any enumeration of
        the header names without repetition. */
    function ToString(order: seq<string>): (text: string)
      requires Enumerates(order, headers)
      ensures RequestLine() + CRLF <= text
    {
      RequestLine() + CRLF + Join(FieldTexts(headers, order), CRLF) + CRLF + CRLF + body.UnwrapOr("")
    }

    /** The request as RFC 9112 frames it: every field line ends in its own
        CRLF and one empty line ends the headers, so a request without
        headers has no extra blank line. */
    function ToWire(order: seq<string>): (text: string)
      requires Enumerates(order, headers)
      ensures RequestLine() + CRLF <= text
    {
      RequestLine() + CRLF + FieldBlock(Fields(headers, order)) + CRLF + body.UnwrapOr("")
    }
  }

  /** `order` lists each name of `headers` exactly once. */
  predicate Enumerates(order: seq<string>, headers: map<string, string>) {
    (forall i :: 0 <= i < |order| ==> order[i] in headers) &&
    (forall k :: k in headers ==> k in order) &&
    (forall i, j :: 0 <= i < j < |order| ==> order[i] != order[j])
  }

  /** `name: value` for each name of `order`, in that order. */
  function FieldTexts(headers: map<string, string>, order: seq<string>): (lines: seq<string>)
    requires forall i :: 0 <= i < |order| ==> order[i] in headers
    ensures |lines| == |order|
    ensures forall i :: 0 <= i < |order| ==> lines[i] == order[i] + ": " + headers[order[i]]
  {
    if order == [] then []
    else [order[0] + ": " + headers[order[0]]] + FieldTexts(headers, order[1..])
  }

  /** The header map as (name, value) pairs, in the order `order` lists
      the names. */
  function Fields(headers: map<string, string>, order: seq<string>): (fields: seq<(string, string)>)
    requires forall i :: 0 <= i < |order| ==> order[i] in headers
    ensures |fields| == |order|
    ensures forall i :: 0 <= i < |order| ==> fields[i] == (order[i], headers[order[i]])
  {
    if order == [] then []
    else [(order[0], headers[order[0]])] + Fields(headers, order[1..])
  }

  /** Joining at least one `name: value` text with CRLF and ending the last
      one with CRLF gives the field block of the same pairs. */
  lemma {:induction false} JoinedFieldBlock(headers: map<string, string>, order: seq<string>)
    requires |order| >= 1
    requires forall i :: 0 <= i < |order| ==> order[i] in headers
    ensures Join(FieldTexts(headers, order), CRLF) + CRLF == FieldBlock(Fields(headers, order))
    decreases |order|
  {
    var first := (order[0], headers[order[0]]);
    var rest := order[1..];
    assert Fields(headers, order) == [first] + Fields(headers, rest);
    FieldBlockCons(first, Fields(headers, rest));
    if |order| == 1 {
      assert Fields(headers, rest) == [];
    } else {
      assert FieldTexts(headers, order) == [first.0 + ": " + first.1] + FieldTexts(headers, rest);
      JoinedFieldBlock(headers, rest);
    }
  }

  /** An enumeration of a non-empty map is not empty. */
  lemma NamesListed(order: seq<string>, headers: map<string, string>)
    requires Enumerates(order, headers) && headers != map[]
    ensures |order| >= 1
  {
    var k :| k in headers;
    assert k in order;
  }

  /** With at least one header the written text is exactly the RFC 9112
      framing: the extra CRLF only shows when there are no headers. */
  lemma SameTextWithHeaders(r: HttpRequest, order: seq<string>)
    requires Enumerates(order, r.headers) && r.headers != map[]
    ensures r.ToString(order) == r.ToWire(order)
  {
    NamesListed(order, r.headers);
    JoinedFieldBlock(r.headers, order);
    Reframe(r.RequestLine(), Join(FieldTexts(r.headers, order), CRLF),
            FieldBlock(Fields(r.headers, order)), r.body.UnwrapOr(""));
  }

  /** Replacing the joined lines and their terminator by an equal block
      leaves the rest of the text in place. */
  lemma Reframe(line: string, joined: string, block: string, body: string)
    requires joined + CRLF == block
    ensures line + CRLF + joined + CRLF + CRLF + body == line + CRLF + block + CRLF + body
  {
    assert line + CRLF + joined + CRLF + CRLF + body == (line + CRLF) + (joined + CRLF) + (CRLF + body);
    assert line + CRLF + block + CRLF + body == (line + CRLF) + block + (CRLF + body);
  }

  /** As written, a request without headers reads back with a body that
      starts with an extra CRLF: the empty list of field lines still gets a
      terminator, which a reader takes for the end of the headers. */
  lemma ExtraBlankLineWithoutHeaders(r: HttpRequest, order: seq<string>)
    requires r.headers == map[] && Enumerates(order, r.headers)
    requires '\r' !in r.RequestLine()
    ensures ReadMessage(r.ToString(order)) == Some((r.RequestLine(), [], CRLF + r.body.UnwrapOr("")))
    ensures ReadMessage(r.ToString(order)) != Some((r.RequestLine(), [], r.body.UnwrapOr("")))
  {
    var after := CRLF + CRLF + r.body.UnwrapOr("");
    RequestTextWithoutHeaders(r, order);
    assert r.ToString(order) == r.RequestLine() + CRLF + after;
    SplitOnceLine(r.RequestLine(), after);
    assert after[..2] == CRLF && after[2..] == CRLF + r.body.UnwrapOr("");
  }

  /** The corrected text reads back as the request line, every header once
      (in the order written) and the body, when the request line and the
      fields hold no carriage return and no name holds ": ". */
  lemma RequestWireRoundTrip(r: HttpRequest, order: seq<string>)
    requires Enumerates(order, r.headers)
    requires '\r' !in r.RequestLine()
    requires forall k :: k in r.headers ==> RecoverableField((k, r.headers[k]))
    ensures ReadMessage(r.ToWire(order)) == Some((r.RequestLine(), Fields(r.headers, order), r.body.UnwrapOr("")))
  {
    var fields := Fields(r.headers, order);
    assert AllRecoverable(fields) by {
      forall i | 0 <= i < |fields| ensures RecoverableField(fields[i]) {
        assert fields[i] == (order[i], r.headers[order[i]]);
      }
    }
    MessageRoundTrip(r.RequestLine(), fields, r.body.UnwrapOr(""));
  }

  /** Whatever the hash map's order, the written field lines are exactly one
      `name: value` per header: the order changes nothing else. */
  lemma RequestTextFields(r: HttpRequest, order: seq<string>, line: string)
    requires Enumerates(order, r.headers)
    ensures line in FieldTexts(r.headers, order) <==>
            exists k :: k in r.headers && line == k + ": " + r.headers[k]
  {
    var lines := FieldTexts(r.headers, order);
    if exists k :: k in r.headers && line == k + ": " + r.headers[k] {
      var k :| k in r.headers && line == k + ": " + r.headers[k];
      var i :| 0 <= i < |order| && order[i] == k;
      assert lines[i] == line;
    }
  }

  /** A request without headers is the request line, then three CRLFs (the
      empty list of field lines still gets its own terminator), then the
      body or nothing. */
  lemma RequestTextWithoutHeaders(r: HttpRequest, order: seq<string>)
    requires r.headers == map[] && Enumerates(order, r.headers)
    ensures r.ToString(order) == r.RequestLine() + "\r\n\r\n\r\n" + r.body.UnwrapOr("")
  {
  }

  // ---------------------------------------------------------------------------
  // Parsing (`HttpRequest::from_stream`)

  /** What one connection delivers, already cut the way the reader cuts it:
      the first line as read (terminator included), the following lines
      with their terminators stripped, and the raw bytes after the empty
      line that ends the header section. */
  datatype Stream = Stream(requestLine: string, lines: seq<string>, rest: seq<byte>)

  /** Why the server panics (`unwrap`) part-way through a parse. */
  datatype Panic = ContentLengthNotNumber | BodyTruncated

  /** The three ways `from_stream` ends: a request, `None`, or a panic. */
  datatype Outcome = Parsed(request: HttpRequest) | Rejected | Panicked(cause: Panic)

  /** The header lines up to, and not including, the first empty line (or
      all of them if none is empty). */
  function HeaderSection(lines: seq<string>): (section: seq<string>)
    ensures |section| <= |lines| && section == lines[..|section|]
    ensures forall i :: 0 <= i < |section| ==> section[i] != ""
    ensures |section| < |lines| ==> lines[|section|] == ""
  {
    if lines == [] || lines[0] == "" then []
    else [lines[0]] + HeaderSection(lines[1..])
  }

  /** The header section is the one prefix free of empty lines that ends at
      an empty line or at the end of the input. */
  lemma HeaderSectionUnique(lines: seq<string>, n: nat)
    requires n <= |lines|
    requires forall i :: 0 <= i < n ==> lines[i] != ""
    requires n == |lines| || lines[n] == ""
    ensures HeaderSection(lines) == lines[..n]
  {
    var section := HeaderSection(lines);
  }

  /** Lines after the first empty one are never read as headers. */
  lemma HeaderSectionStopsAtEmptyLine(fields: seq<string>, later: seq<string>)
    requires forall i :: 0 <= i < |fields| ==> fields[i] != ""
    ensures HeaderSection(fields + [""] + later) == fields
  {
    var lines := fields + [""] + later;
    HeaderSectionUnique(lines, |fields|);
    assert lines[..|fields|] == fields;
  }

  /** One header line into the map: the text before the first ": " names the
      header and the rest is its value, replacing any earlier value; a line
      without ": " changes nothing. */
  function InsertField(headers: map<string, string>, line: string): map<string, string> {
    match SplitOnce(line, ": ")
    case Some(field) => headers[field.0 := field.1]
    case None => headers
  }

  /** A header line without the exact text ": " (`Content-Length:5`, say)
      adds nothing to the map. */
  lemma FieldWithoutSeparatorIgnored(headers: map<string, string>, line: string)
    requires !Contains(line, ": ")
    ensures InsertField(headers, line) == headers
  {
    SplitOnceFirst(line, ": ");
  }

  /** Whitespace after the colon's space stays in the value, so a
      Content-Length value with a trailing space is not a number. */
  lemma TrailingSpaceNotNumber(value: string)
    ensures ParseUsize(value + " ").None?
  {
    var s := value + " ";
    var digits := if |s| >= 1 && s[0] == '+' then s[1..] else s;
    assert digits[|digits| - 1] == ' ';
  }

  /** The header map built from `lines`, first to last. */
  function CollectHeaders(lines: seq<string>): map<string, string> {
    if lines == [] then map[]
    else InsertField(CollectHeaders(lines[..|lines| - 1]), lines[|lines| - 1])
  }

  /** `line` is a header line naming `key`. */
  predicate Defines(line: string, key: string) {
    SplitOnce(line, ": ").Some? && SplitOnce(line, ": ").value.0 == key
  }

  /** A name is in the map exactly when some line defines it: lines without
      ": " add nothing. */
  lemma {:induction false} CollectHeadersNames(lines: seq<string>, key: string)
    ensures key in CollectHeaders(lines) <==> exists j :: 0 <= j < |lines| && Defines(lines[j], key)
    decreases |lines|
  {
    if lines != [] {
      var init := lines[..|lines| - 1];
      CollectHeadersNames(init, key);
      if exists j :: 0 <= j < |init| && Defines(init[j], key) {
        var j :| 0 <= j < |init| && Defines(init[j], key);
        assert lines[j] == init[j];
      }
      if exists j :: 0 <= j < |lines| && Defines(lines[j], key) {
        var j :| 0 <= j < |lines| && Defines(lines[j], key);
        if j < |init| {
          assert init[j] == lines[j];
        }
      }
    }
  }

  /** A name's value is the one on the last line that defines it: later
      duplicates overwrite earlier ones. */
  lemma {:induction false} CollectHeadersLastWins(lines: seq<string>, key: string, j: nat)
    requires j < |lines| && Defines(lines[j], key)
    requires forall k :: j < k < |lines| ==> !Defines(lines[k], key)
    ensures key in CollectHeaders(lines)
    ensures CollectHeaders(lines)[key] == SplitOnce(lines[j], ": ").value.1
    decreases |lines|
  {
    var init := lines[..|lines| - 1];
    if j < |lines| - 1 {
      assert !Defines(lines[|lines| - 1], key);
      forall k | j < k < |init| ensures !Defines(init[k], key) {
        assert init[k] == lines[k];
      }
      CollectHeadersLastWins(init, key, j);
    }
  }

  /** The request once the request line, headers and body have been read:
      `None` when the method token is not one of the four names. */
  function Finish(tokens: seq<string>, headers: map<string, string>, body: Option<string>): Outcome
    requires |tokens| >= 3
  {
    match Method.FromString(tokens[0])
    case None => Rejected
    case Some(m) => Parsed(HttpRequest(m, tokens[1], tokens[2], headers, body))
  }

  /** The result of reading the body: the body (absent without a
      Content-Length header), or the panic that stops the parse. */
  datatype BodyRead = Read(body: Option<string>) | Failed(cause: Panic)

  /** The body that the headers call for: none without a header named
      exactly "Content-Length"; otherwise its value must be a number n and
      the stream must hold at least n more bytes, of which exactly n are
      taken and decoded. */
  function ReadBody(headers: map<string, string>, rest: seq<byte>): BodyRead {
    if "Content-Length" !in headers then Read(None)
    else
      match ParseUsize(headers["Content-Length"])
      case None => Failed(ContentLengthNotNumber)
      case Some(n) =>
        if |rest| < n then Failed(BodyTruncated)
        else Read(Some(DecodeLossy(rest[..n])))
  }

  /** What `from_stream` computes, as a function of the stream. The steps
      run in the Rust code's order: a request line of fewer than three tokens
      is `None` before anything else is read; the headers and the body are
      read next, so a bad Content-Length panics even when the method token
      is unknown; the method token is resolved last. */
  function Parse(s: Stream): Outcome {
    var tokens := Split(Trim(s.requestLine), ' ');
    if |tokens| < 3 then Rejected
    else
      var headers := CollectHeaders(HeaderSection(s.lines));
      match ReadBody(headers, s.rest)
      case Failed(cause) => Panicked(cause)
      case Read(body) => Finish(tokens, headers, body)
  }

  /** The header loop of `from_stream`: lines are taken until the first
      empty one (or the end of the input), and each goes into the map. */
  method ReadHeaderLines(lines: seq<string>) returns (headers: map<string, string>)
    ensures headers == CollectHeaders(HeaderSection(lines))
  {
    headers := map[];
    var i := 0;
    while i < |lines| && lines[i] != ""
      invariant 0 <= i <= |lines|
      invariant forall j :: 0 <= j < i ==> lines[j] != ""
      invariant headers == CollectHeaders(lines[..i])
    {
      match SplitOnce(lines[i], ": ") {
        case Some(field) => headers := headers[field.0 := field.1];
        case None =>
      }
      assert lines[..i + 1][..i] == lines[..i];
      i := i + 1;
    }
    HeaderSectionUnique(lines, i);
  }

  /** The body step of `from_stream`: parse Content-Length, fill a zeroed
      buffer of that length from the stream (`read_exact`), then decode it. */
  method ReadBodyBytes(headers: map<string, string>, rest: seq<byte>) returns (b: BodyRead)
    ensures b == ReadBody(headers, rest)
  {
    if "Content-Length" !in headers {
      return Read(None);
    }
    var len := ParseUsize(headers["Content-Length"]);
    if len.None? {
      return Failed(ContentLengthNotNumber);
    }
    var buf := new byte[len.value];
    var k := 0;
    while k < buf.Length && k < |rest|
      invariant 0 <= k <= buf.Length && k <= |rest|
      invariant buf[..k] == rest[..k]
    {
      buf[k] := rest[k];
      k := k + 1;
    }
    if k < buf.Length {
      return Failed(BodyTruncated);
    }
    assert buf[..] == buf[..k];
    b := Read(Some(DecodeLossy(buf[..])));
  }

  /** `HttpRequest::from_stream`, reading the stream step by step: the
      request line, the header lines, the body, and last the method. */
  method FromStream(s: Stream) returns (r: Outcome)
    ensures r == Parse(s)
  {
    var tokens := Split(Trim(s.requestLine), ' ');
    if |tokens| < 3 {
      return Rejected;
    }
    var methodToken, address, httpVersion := tokens[0], tokens[1], tokens[2];
    var headers := ReadHeaderLines(s.lines);
    var body := ReadBodyBytes(headers, s.rest);
    if body.Failed? {
      return Panicked(body.cause);
    }
    var m := Method.FromString(methodToken);
    if m.None? {
      return Rejected;
    }
    r := Parsed(HttpRequest(m.value, address, httpVersion, headers, body.body));
  }

  // ---------------------------------------------------------------------------
  // Properties of the parser

  /** The request line: fewer than three space-separated tokens is `None`;
      otherwise method, address and version are tokens 0, 1 and 2 of the
      trimmed line, and any further tokens are ignored. */
  lemma ParseRequestLine(s: Stream)
    ensures var tokens := Split(Trim(s.requestLine), ' ');
      && (|tokens| < 3 ==> Parse(s) == Rejected)
      && (Parse(s).Parsed? ==>
            |tokens| >= 3 &&
            Parse(s).request.httpMethod.ToString() == tokens[0] &&
            Parse(s).request.address == tokens[1] &&
            Parse(s).request.httpVersion == tokens[2])
  {
    var tokens := Split(Trim(s.requestLine), ' ');
    if Parse(s).Parsed? {
      MethodNames(Parse(s).request.httpMethod, tokens[0]);
    }
  }

  /** Three space-free tokens written with single spaces, followed by a
      CRLF, split back into those tokens; an empty middle token (a doubled
      space) stays an empty token. */
  lemma ThreeTokens(a: string, b: string, c: string)
    requires ' ' !in a && ' ' !in b && ' ' !in c
    requires a != [] && !IsWhitespace(a[0])
    requires c != [] && !IsWhitespace(c[|c| - 1])
    ensures Split(Trim(a + " " + b + " " + c + CRLF), ' ') == [a, b, c]
  {
    var bc := b + [' '] + c;
    var text := a + [' '] + bc;
    assert text == a + " " + b + " " + c;
    assert text[0] == a[0];
    assert text[|text| - 1] == c[|c| - 1];
    TrimClean(text, CRLF);
    SplitCons(a, ' ', bc);
    SplitCons(b, ' ', c);
  }

  /** A request line written with single spaces, followed by its CRLF,
      splits back into method, address and version. */
  lemma RequestLineTokens(m: Method, address: string, version: string)
    requires ' ' !in address && ' ' !in version
    requires version != [] && !IsWhitespace(version[|version| - 1])
    ensures Split(Trim(m.ToString() + " " + address + " " + version + CRLF), ' ')
         == [m.ToString(), address, version]
  {
    ThreeTokens(m.ToString(), address, version);
  }

  /** Four space-free tokens joined by single spaces split back into them. */
  lemma FourSplit(a: string, b: string, c: string, d: string)
    requires ' ' !in a && ' ' !in b && ' ' !in c && ' ' !in d
    ensures Split(a + [' '] + (b + [' '] + (c + [' '] + d)), ' ') == [a, b, c, d]
  {
    var parts := [a, b, c, d];
    assert parts[1..] == [b, c, d] && parts[1..][1..] == [c, d] && parts[1..][1..][1..] == [d];
    assert Join([c, d], [' ']) == c + [' '] + d;
    assert Join([b, c, d], [' ']) == b + [' '] + (c + [' '] + d);
    assert Join(parts, [' ']) == a + [' '] + (b + [' '] + (c + [' '] + d));
    SplitJoin(parts, ' ');
  }

  /** Four space-free tokens written with single spaces, followed by a CRLF,
      split back into those four tokens. */
  lemma FourTokens(a: string, b: string, c: string, d: string)
    requires ' ' !in a && ' ' !in b && ' ' !in c && ' ' !in d
    requires a != [] && !IsWhitespace(a[0])
    requires d != [] && !IsWhitespace(d[|d| - 1])
    ensures Split(Trim(a + " " + b + " " + c + " " + d + CRLF), ' ') == [a, b, c, d]
  {
    var text := a + [' '] + (b + [' '] + (c + [' '] + d));
    assert a + " " + b + " " + c + " " + d + CRLF == text + CRLF;
    assert text[0] == a[0];
    assert text[|text| - 1] == d[|d| - 1];
    TrimClean(text, CRLF);
    FourSplit(a, b, c, d);
  }

  /** A request line with a fourth token parses as if the token were not
      there: only tokens 0, 1 and 2 are used. */
  lemma ExtraTokenIgnored(m: Method, address: string, version: string, extra: string, rest: seq<byte>)
    requires ' ' !in address && ' ' !in version && ' ' !in extra
    requires extra != [] && !IsWhitespace(extra[|extra| - 1])
    ensures Parse(Stream(m.ToString() + " " + address + " " + version + " " + extra + CRLF, [], rest))
         == Parsed(HttpRequest(m, address, version, map[], None))
  {
    var line := m.ToString() + " " + address + " " + version + " " + extra + CRLF;
    FourTokens(m.ToString(), address, version, extra);
    ParseWithoutHeaders(line, m, rest);
  }

  /** A request line of at least three tokens, the first a known method,
      with no header lines: tokens 1 and 2 are the address and version. */
  lemma ParseWithoutHeaders(line: string, m: Method, rest: seq<byte>)
    requires var t := Split(Trim(line), ' '); |t| >= 3 && t[0] == m.ToString()
    ensures var t := Split(Trim(line), ' ');
      Parse(Stream(line, [], rest)) == Parsed(HttpRequest(m, t[1], t[2], map[], None))
  {
    assert HeaderSection([]) == [];
    ParseOfParts(Stream(line, [], rest), m, map[], None);
  }

  /** Such a request line with no header lines parses to exactly those
      tokens, no headers and no body. */
  lemma RequestLineRoundTrip(m: Method, address: string, version: string, rest: seq<byte>)
    requires ' ' !in address && ' ' !in version
    requires version != [] && !IsWhitespace(version[|version| - 1])
    ensures Parse(Stream(m.ToString() + " " + address + " " + version + CRLF, [], rest))
         == Parsed(HttpRequest(m, address, version, map[], None))
  {
    RequestLineTokens(m, address, version);
    ParseWithoutHeaders(m.ToString() + " " + address + " " + version + CRLF, m, rest);
  }

  /** The headers of a parsed request are those of the header section. */
  lemma ParsedHeaders(s: Stream)
    requires Parse(s).Parsed?
    ensures Parse(s).request.headers == CollectHeaders(HeaderSection(s.lines))
  {
  }

  /** The body is absent exactly when no header is named, with that exact
      case, "Content-Length"; when present it is the decoding of exactly the
      next Content-Length bytes. */
  lemma ParsedBody(s: Stream)
    requires Parse(s).Parsed?
    ensures var headers := CollectHeaders(HeaderSection(s.lines));
      && (Parse(s).request.body.None? <==> "Content-Length" !in headers)
      && (Parse(s).request.body.Some? ==>
            ParseUsize(headers["Content-Length"]).Some? &&
            var n := ParseUsize(headers["Content-Length"]).value;
            n <= |s.rest| && Parse(s).request.body.value == DecodeLossy(s.rest[..n]))
  {
  }

  /** Without a Content-Length header nothing after the header section is
      read, whatever it holds. */
  lemma BodyIgnoredWithoutContentLength(s: Stream, other: seq<byte>)
    requires "Content-Length" !in CollectHeaders(HeaderSection(s.lines))
    ensures Parse(s) == Parse(s.(rest := other))
    ensures Parse(s).Parsed? ==> Parse(s).request.body == None
  {
  }

  /** A request line of at least three tokens with a Content-Length header
      panics when the value is not a number or the stream holds fewer bytes,
      whatever the method token is; an unrecognised method token is `None`
      only once headers and body have been read. */
  lemma ParseFailures(s: Stream)
    requires |Split(Trim(s.requestLine), ' ')| >= 3
    ensures var headers := CollectHeaders(HeaderSection(s.lines));
      && ("Content-Length" in headers && ParseUsize(headers["Content-Length"]).None? ==>
            Parse(s) == Panicked(ContentLengthNotNumber))
      && ("Content-Length" in headers && ParseUsize(headers["Content-Length"]).Some? &&
          |s.rest| < ParseUsize(headers["Content-Length"]).value ==>
            Parse(s) == Panicked(BodyTruncated))
      && (Method.FromString(Split(Trim(s.requestLine), ' ')[0]).None? && !Parse(s).Panicked? ==>
            Parse(s) == Rejected)
  {
    var headers := CollectHeaders(HeaderSection(s.lines));
    var read := ReadBody(headers, s.rest);
    assert read.Failed? ==> Parse(s) == Panicked(read.cause);
    assert read.Read? ==> Parse(s) == Finish(Split(Trim(s.requestLine), ' '), headers, read.body);
  }

  /** Parsing succeeds once each step does: the request line splits into at
      least three tokens, the first a known method name, and the body read
      does not fail. Tokens 1 and 2 are the address and the version, and any
      further tokens are ignored. */
  lemma ParseOfParts(s: Stream, m: Method, headers: map<string, string>, body: Option<string>)
    requires var t := Split(Trim(s.requestLine), ' '); |t| >= 3 && t[0] == m.ToString()
    requires CollectHeaders(HeaderSection(s.lines)) == headers
    requires ReadBody(headers, s.rest) == Read(body)
    ensures var t := Split(Trim(s.requestLine), ' ');
      Parse(s) == Parsed(HttpRequest(m, t[1], t[2], headers, body))
  {
    MethodNames(m, m.ToString());
  }

  /** The same for a request line of exactly three tokens. */
  lemma ParseOfThreeTokens(s: Stream, m: Method, address: string, version: string,
                           headers: map<string, string>, body: Option<string>)
    requires Split(Trim(s.requestLine), ' ') == [m.ToString(), address, version]
    requires CollectHeaders(HeaderSection(s.lines)) == headers
    requires ReadBody(headers, s.rest) == Read(body)
    ensures Parse(s) == Parsed(HttpRequest(m, address, version, headers, body))
  {
    ParseOfParts(s, m, headers, body);
  }

  /** The header map of a section holding one well-formed line before the
      empty line. */
  lemma OneFieldSection(key: string, value: string, later: seq<string>)
    requires ':' !in key
    ensures CollectHeaders(HeaderSection([key + ": " + value, ""] + later)) == map[key := value]
  {
    var line := key + ": " + value;
    HeaderSectionStopsAtEmptyLine([line], later);
    assert [line] + [""] + later == [line, ""] + later;
    NoColonNoSeparator(key);
    SplitOnceField(key, value);
    assert [line][..0] == [];
  }

  lemma ContentLengthSection(value: string, later: seq<string>)
    ensures CollectHeaders(HeaderSection(["Content-Length: " + value, ""] + later))
         == map["Content-Length" := value]
  {
    assert "Content-Length: " + value == "Content-Length" + ": " + value by {
      assert "Content-Length: " == "Content-Length" + ": ";
    }
    OneFieldSection("Content-Length", value, later);
  }

  /** A Content-Length that is the rendered length of an ASCII body takes
      exactly that body off the stream. */
  lemma ReadDeclaredBody(body: string, extra: seq<byte>)
    requires IsAscii(body) && |body| < USIZE_BOUND
    ensures ReadBody(map["Content-Length" := Decimal(|body|)], EncodeAscii(body) + extra)
         == Read(Some(body))
  {
    ParseUsizeDecimal(|body|);
    DecodeAscii(body);
    assert (EncodeAscii(body) + extra)[..|body|] == EncodeAscii(body);
  }

  /** A request whose one header is `Content-Length: n`, followed by an
      n-byte ASCII body and anything else: the body is exactly those n bytes,
      decoded, and what follows them is left unread. */
  lemma ContentLengthBody(m: Method, address: string, version: string,
                          later: seq<string>, body: string, extra: seq<byte>)
    requires ' ' !in address && ' ' !in version
    requires version != [] && !IsWhitespace(version[|version| - 1])
    requires IsAscii(body) && |body| < USIZE_BOUND
    ensures Parse(Stream(m.ToString() + " " + address + " " + version + CRLF,
                         ["Content-Length: " + Decimal(|body|), ""] + later,
                         EncodeAscii(body) + extra))
         == Parsed(HttpRequest(m, address, version,
                               map["Content-Length" := Decimal(|body|)], Some(body)))
  {
    var value := Decimal(|body|);
    var s := Stream(m.ToString() + " " + address + " " + version + CRLF,
                    ["Content-Length: " + value, ""] + later,
                    EncodeAscii(body) + extra);
    var headers := map["Content-Length" := value];
    RequestLineTokens(m, address, version);
    ContentLengthSection(value, later);
    ReadDeclaredBody(body, extra);
    ParseOfThreeTokens(s, m, address, version, headers, Some(body));
  }

  /** Header names are compared with case: a header named anything but
      exactly "Content-Length" ("content-length", say) reads no body, even
      when it carries a number and bytes follow. */
  lemma OtherHeaderReadsNoBody(m: Method, address: string, version: string,
                               key: string, value: string, rest: seq<byte>)
    requires ' ' !in address && ' ' !in version
    requires version != [] && !IsWhitespace(version[|version| - 1])
    requires ':' !in key && key != "Content-Length"
    ensures Parse(Stream(m.ToString() + " " + address + " " + version + CRLF,
                         [key + ": " + value, ""], rest))
         == Parsed(HttpRequest(m, address, version, map[key := value], None))
  {
    var s := Stream(m.ToString() + " " + address + " " + version + CRLF,
                    [key + ": " + value, ""], rest);
    RequestLineTokens(m, address, version);
    OneFieldSection(key, value, []);
    assert [key + ": " + value, ""] + [] == s.lines;
    ParseOfThreeTokens(s, m, address, version, map[key := value], None);
  }

  // ---------------------------------------------------------------------------
  // The builder (request.rs `HttpRequestBuilder`)

  /** The headers whose value is set, with those values. */
  function PresentHeaders(headers: map<string, Option<string>>): (r: map<string, string>)
    ensures forall k :: k in r <==> k in headers && headers[k].Some?
    ensures forall k :: k in r ==> headers[k] == Some(r[k])
  {
    map k | k in headers && headers[k].Some? :: headers[k].value
  }

  class HttpRequestBuilder {
    var httpMethod: Option<Method>
    var address: Option<string>
    var httpVersion: Option<string>
    var headers: map<string, Option<string>>
    var body: Option<string>

    /** `HttpRequestBuilder::default()`: GET of "/" over HTTP/1.1. */
    constructor Default()
      ensures httpMethod == Some(GET) && address == Some("/") && httpVersion == Some("HTTP/1.1")
      ensures headers == map[] && body == None
    {
      httpMethod := Some(GET);
      address := Some("/");
      httpVersion := Some("HTTP/1.1");
      headers := map[];
      body := None;
    }

    /** `HttpRequestBuilder::new()`: only the version is set. */
    constructor New()
      ensures httpMethod == None && address == None && httpVersion == Some("HTTP/1.1")
      ensures headers == map[] && body == None
    {
      httpMethod := None;
      address := None;
      httpVersion := Some("HTTP/1.1");
      headers := map[];
      body := None;
    }

    method SetMethod(m: Method)
      modifies this
      ensures httpMethod == Some(m)
      ensures address == old(address) && httpVersion == old(httpVersion)
      ensures headers == old(headers) && body == old(body)
    {
      httpMethod := Some(m);
    }

    method SetAddress(a: string)
      modifies this
      ensures address == Some(a)
      ensures httpMethod == old(httpMethod) && httpVersion == old(httpVersion)
      ensures headers == old(headers) && body == old(body)
    {
      address := Some(a);
    }

    method SetHttpVersion(v: string)
      modifies this
      ensures httpVersion == Some(v)
      ensures httpMethod == old(httpMethod) && address == old(address)
      ensures headers == old(headers) && body == old(body)
    {
      httpVersion := Some(v);
    }

    /** `header`: records `value` for `key`, replacing any earlier entry;
        `None` marks the header as absent. */
    method SetHeader(key: string, value: Option<string>)
      modifies this
      ensures headers == old(headers)[key := value]
      ensures httpMethod == old(httpMethod) && address == old(address)
      ensures httpVersion == old(httpVersion) && body == old(body)
    {
      headers := headers[key := value];
    }

    method SetBody(b: string)
      modifies this
      ensures body == Some(b)
      ensures httpMethod == old(httpMethod) && address == old(address)
      ensures httpVersion == old(httpVersion) && headers == old(headers)
    {
      body := Some(b);
    }

    /** `build`: method and address must be set (the Rust code panics
        otherwise); the version falls back to "HTTP/1.1"; headers recorded
        as `None` are dropped. */
    function Build(): (r: HttpRequest)
      reads this
      requires httpMethod.Some? && address.Some?
      ensures r.httpMethod == httpMethod.value && r.address == address.value
      ensures httpVersion.None? ==> r.httpVersion == "HTTP/1.1"
      ensures httpVersion.Some? ==> r.httpVersion == httpVersion.value
      ensures forall k :: k in r.headers <==> k in headers && headers[k].Some?
      ensures forall k :: k in r.headers ==> headers[k] == Some(r.headers[k])
      ensures r.body == body
    {
      HttpRequest(httpMethod.value, address.value, httpVersion.UnwrapOr("HTTP/1.1"), PresentHeaders(headers), body)
    }
  }

  /** `HttpRequestBuilder::default().build()`. */
  method DefaultRequest() returns (r: HttpRequest)
    ensures r == HttpRequest(GET, "/", "HTTP/1.1", map[], None)
  {
    var b := new HttpRequestBuilder.Default();
    r := b.Build();
  }

  /** `header(k, Some(v))` then `header(k, None)`: built before the second
      call the request carries k, built after it k is gone. */
  method HeaderNoneRemoves(key: string, value: string) returns (before: HttpRequest, after: HttpRequest)
    ensures before.headers == map[key := value]
    ensures after.headers == map[]
  {
    var b := new HttpRequestBuilder.New();
    b.SetMethod(POST);
    b.SetAddress("/");
    b.SetHeader(key, Some(value));
    before := b.Build();
    b.SetHeader(key, None);
    after := b.Build();
  }
}
