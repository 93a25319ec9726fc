/** The response side of the HTTP/1.1 message layer: the closed set of
    statuses, the response value, its fluent builder and its exact wire
    text (status line, header field lines in registration order, an empty
    line, then the body, as in sections 2.1 and 4 of RFC 9112). */
module Response {
  import opened Wrappers
  import opened Text
  import opened Message

  datatype ResStatus = Ok | NotFound {

    /** The status code and reason phrase that follow the protocol version. */
    function ToStatusLine(): string {
      match this
      case Ok => "200 OK"
      case NotFound => "404 Not Found"
    }
  }

  /** Distinct statuses are told apart on the wire. */
  lemma StatusLinesDistinct(a: ResStatus, b: ResStatus)
    ensures a.ToStatusLine() == b.ToStatusLine() <==> a == b
  {
    if a != b {
      assert a.ToStatusLine()[0] != b.ToStatusLine()[0];
    }
  }

  // ---------------------------------------------------------------------------
  // Wire text

  /** The wire text of a response: status line, CRLF, the field lines, CRLF,
      then the body verbatim with nothing after it. */
  function Serialize(statusLine: string, headers: seq<(string, string)>, body: string): string {
    statusLine + CRLF + FieldBlock(headers) + CRLF + body
  }

  // ---------------------------------------------------------------------------
  // The response value (response.rs `HttpResponse`)

  datatype HttpResponse = HttpResponse(statusLine: string, headers: seq<(string, string)>, html: string) {

    predicate Recoverable() {
      '\r' !in statusLine && forall i :: 0 <= i < |headers| ==> RecoverableField(headers[i])
    }

    /** `HttpResponse::to_string`: grows the text piece by piece, one header
        at a time in list order. */
    method ToString() returns (text: string)
      ensures text == Serialize(statusLine, headers, html)
    {
      text := statusLine;
      text := text + CRLF;
      for i := 0 to |headers|
        invariant text == statusLine + CRLF + FieldBlock(headers[..i])
      {
        var (key, value) := headers[i];
        text := text + key;
        text := text + ": ";
        text := text + value;
        text := text + CRLF;
        assert headers[..i + 1][..i] == headers[..i];
      }
      assert headers[..|headers|] == headers;
      text := text + CRLF;
      text := text + html;
    }
  }

  /** The wire text determines the response it was made from: a reader that
      takes the first line as the status line, splits each following line at
      its first ": " and stops at the empty line recovers every field, in
      order and with duplicates, and the body. */
  lemma WireRoundTrip(r: HttpResponse)
    requires r.Recoverable()
    ensures ReadMessage(Serialize(r.statusLine, r.headers, r.html)) == Some((r.statusLine, r.headers, r.html))
  {
    MessageRoundTrip(r.statusLine, r.headers, r.html);
  }

  // ---------------------------------------------------------------------------
  // The builder (response.rs `HttpResponseBuilder`)

  class HttpResponseBuilder {
    var status: Option<ResStatus>
    var headers: seq<(string, string)>
    var html: Option<string>

    /** `HttpResponseBuilder::default()`: status Ok, no headers, no body yet. */
    constructor Default()
      ensures status == Some(Ok) && headers == [] && html == None
    {
      status := Some(Ok);
      headers := [];
      html := None;
    }

    /** `HttpResponseBuilder::new()`: no status, no headers, no body yet. */
    constructor New()
      ensures status == None && headers == [] && html == None
    {
      status := None;
      headers := [];
      html := None;
    }

    /** `status`: replaces any earlier status. */
    method SetStatus(s: ResStatus)
      modifies this
      ensures status == Some(s) && headers == old(headers) && html == old(html)
    {
      status := Some(s);
    }

    /** `header`: appends one field at the end; duplicates are kept. */
    method AddHeader(key: string, value: string)
      modifies this
      ensures headers == old(headers) + [(key, value)]
      ensures status == old(status) && html == old(html)
    {
      headers := headers + [(key, value)];
    }

    /** `html`: replaces any earlier body. */
    method SetHtml(body: string)
      modifies this
      ensures html == Some(body) && status == old(status) && headers == old(headers)
    {
      html := Some(body);
    }

    /** `build`: the status must have been set (the Rust code panics otherwise);
        the status line is the protocol version, a space, then code and reason;
        the headers are exactly those added, with no Content-Length of its
        own; the body is empty when never set. */
    function Build(): (r: HttpResponse)
      reads this
      requires status.Some?
      ensures r.statusLine == "HTTP/1.1 " + status.value.ToStatusLine()
      ensures r.headers == headers
      ensures html.None? ==> r.html == ""
      ensures html.Some? ==> r.html == html.value
    {
      HttpResponse("HTTP/1.1 " + status.value.ToStatusLine(), headers, html.UnwrapOr(""))
    }
  }

  /** The status line that `build` writes for each status. */
  lemma BuiltStatusLines()
    ensures "HTTP/1.1 " + Ok.ToStatusLine() == "HTTP/1.1 200 OK"
    ensures "HTTP/1.1 " + NotFound.ToStatusLine() == "HTTP/1.1 404 Not Found"
  {
  }

  /** `default().header("Content-Length", "5").html("hello").build().to_string()`. */
  method ContentLengthExample() returns (text: string)
    ensures text == "HTTP/1.1 200 OK\r\nContent-Length: 5\r\n\r\nhello"
  {
    var b := new HttpResponseBuilder.Default();
    b.AddHeader("Content-Length", "5");
    b.SetHtml("hello");
    var r := b.Build();
    assert r == HttpResponse("HTTP/1.1 200 OK", [("Content-Length", "5")], "hello");
    text := r.ToString();
    ContentLengthText();
  }

  /** The wire text of that response, written out. */
  lemma ContentLengthText()
    ensures Serialize("HTTP/1.1 200 OK", [("Content-Length", "5")], "hello")
         == "HTTP/1.1 200 OK\r\nContent-Length: 5\r\n\r\nhello"
  {
    FieldBlockCons(("Content-Length", "5"), []);
    assert [("Content-Length", "5")] + [] == [("Content-Length", "5")];
  }

  /** Repeated `status` and `html` calls: the last one wins, and headers
      added twice are both written, in the order they were added. */
  method LastCallWins() returns (r: HttpResponse)
    ensures r.statusLine == "HTTP/1.1 404 Not Found"
    ensures r.headers == [("X", "1"), ("X", "2")]
    ensures r.html == "second"
  {
    var b := new HttpResponseBuilder.New();
    b.SetStatus(Ok);
    b.AddHeader("X", "1");
    b.SetHtml("first");
    b.SetStatus(NotFound);
    b.AddHeader("X", "2");
    b.SetHtml("second");
    r := b.Build();
  }
}
