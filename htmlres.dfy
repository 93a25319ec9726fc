/** The legacy response variant: the same wire text as `Response`, but the
    status line is a raw string used verbatim, and the builder's defaults
    differ (a ready-made "HTTP/1.1 200 OK" page saying "Hello World!"). */
module HtmlRes {
  import opened Wrappers
  import opened Text
  import opened Message
  import Response

  datatype HtmlResponse = HtmlResponse(statusLine: string, headers: seq<(string, string)>, html: string) {

    /** `HtmlResponse::build`: grows the text piece by piece, one header at
        a time in list order. */
    method Build() returns (text: string)
      ensures text == Response.Serialize(statusLine, headers, html)
    {
      text := statusLine;
      text := text + CRLF;
      for i := 0 to |headers|
        invariant text == statusLine + CRLF + FieldBlock(headers[..i])
      {
        var (key, value) := headers[i];
        text := text + key;
        text := text + ": ";
        text := text + value;
        text := text + CRLF;
        assert headers[..i + 1][..i] == headers[..i];
      }
      assert headers[..|headers|] == headers;
      text := text + CRLF;
      text := text + html;
    }
  }

  /** For the same status line, headers and body, the legacy serialiser and
      `HttpResponse::to_string` write the same text. */
  method SameTextAsHttpResponse(statusLine: string, headers: seq<(string, string)>, html: string)
    returns (legacy: string, current: string)
    ensures legacy == current
  {
    legacy := HtmlResponse(statusLine, headers, html).Build();
    current := Response.HttpResponse(statusLine, headers, html).ToString();
  }

  class HtmlResponseBuilder {
    var statusLine: Option<string>
    var headers: seq<(string, string)>
    var html: Option<string>

    /** `HtmlResponseBuilder::default()`: a 200 page saying "Hello World!". */
    constructor Default()
      ensures statusLine == Some("HTTP/1.1 200 OK") && headers == [] && html == Some("Hello World!")
    {
      statusLine := Some("HTTP/1.1 200 OK");
      headers := [];
      html := Some("Hello World!");
    }

    /** `HtmlResponseBuilder::new()`: nothing set. */
    constructor New()
      ensures statusLine == None && headers == [] && html == None
    {
      statusLine := None;
      headers := [];
      html := None;
    }

    /** `status_line`: replaces any earlier status line. */
    method SetStatusLine(line: string)
      modifies this
      ensures statusLine == Some(line) && headers == old(headers) && html == old(html)
    {
      statusLine := Some(line);
    }

    /** `header`: appends the pair at the end; duplicates are kept. */
    method AddHeader(field: (string, string))
      modifies this
      ensures headers == old(headers) + [field]
      ensures statusLine == old(statusLine) && html == old(html)
    {
      headers := headers + [field];
    }

    /** `html`: replaces any earlier body. */
    method SetHtml(body: string)
      modifies this
      ensures html == Some(body) && statusLine == old(statusLine) && headers == old(headers)
    {
      html := Some(body);
    }

    /** `build`: the status line must have been set (the Rust code panics
        otherwise) and is taken verbatim, with no protocol prefix added; the
        headers are those added; the body is empty when never set. */
    function Build(): (r: HtmlResponse)
      reads this
      requires statusLine.Some?
      ensures r.statusLine == statusLine.value
      ensures r.headers == headers
      ensures html.None? ==> r.html == ""
      ensures html.Some? ==> r.html == html.value
    {
      HtmlResponse(statusLine.value, headers, html.UnwrapOr(""))
    }
  }

  /** `HtmlResponseBuilder::default().build().build()`, the page every
      connection of the running server receives. */
  method DefaultPage() returns (text: string)
    ensures text == "HTTP/1.1 200 OK\r\n\r\nHello World!"
  {
    var b := new HtmlResponseBuilder.Default();
    var r := b.Build();
    assert r == HtmlResponse("HTTP/1.1 200 OK", [], "Hello World!");
    text := r.Build();
  }

  /** On a `new()` builder the body defaults to empty, the status line is the
      one given verbatim, and the setters overwrite: the last call wins. */
  method VerbatimStatusLine(line: string) returns (r: HtmlResponse)
    ensures r.statusLine == line
    ensures r.headers == [("A", "1"), ("A", "1")]
    ensures r.html == ""
  {
    var b := new HtmlResponseBuilder.New();
    b.SetStatusLine("HTTP/1.1 404 Not Found");
    b.AddHeader(("A", "1"));
    b.AddHeader(("A", "1"));
    b.SetStatusLine(line);
    r := b.Build();
  }
}
