/** `handle_connection`: parse what was received, answer a malformed
    request with 400 Bad Request and any other with the router's response,
    and write that response back. */
module Connection {
  import opened Text
  import opened Http
  import opened RequestParser
  import opened ResponseWriter
  import opened Routing

  /** The response sent back for the bytes `incoming` a read delivered. */
  function Respond(router: Router, incoming: seq<byte>): (response: Response)
    reads router
    ensures Parse(incoming).Failed? ==> response == BadRequest()
    ensures Parse(incoming).Parsed? ==> response == router.HandleRequest(Parse(incoming).request)
  {
    match Parse(incoming)
    case Failed(_) => BadRequest()
    case Parsed(request) => router.HandleRequest(request)
  }

  /** One connection: the parse, the dispatch and the bytes written back,
      with the header order the write happened to use. */
  method HandleConnection(router: Router, incoming: seq<byte>) returns (wire: seq<byte>, ghost order: seq<string>)
    ensures IsEnumeration(order, Respond(router, incoming).headers.Keys)
    ensures wire == Serialize(Respond(router, incoming), order)
    ensures var body := Respond(router, incoming).body;
      |wire| > |body| && wire[|wire| - |body|..] == body
  {
    var result := ParseRequest(incoming);
    var response: Response;
    match result {
      case Parsed(request) =>
        response := router.HandleRequest(request);
      case Failed(_) =>
        response := BadRequest();
    }
    wire, order := WriteResponse(response);
  }

  // ------------------------------------------------------------------
  // What a client sending a request line gets back
  // ------------------------------------------------------------------

  /** A request whose first line, sent as ASCII and ended by CR LF, fits in
      the buffer: the parser's request line is exactly that line. */
  lemma FirstLineReceived(incoming: seq<byte>, line: string, rest: seq<byte>)
    requires IsAscii(line) && '\n' !in line
    requires |line| + 2 <= BufferSize
    requires incoming == Encode(line + "\r\n") + rest
    ensures RequestLine(Lines(Decode(Buffer(incoming)))) == line
  {
    var head := line + "\r\n";
    assert IsAscii(head) by {
      forall j | 0 <= j < |head| ensures head[j] as int < 0x80 {
        if j < |line| {
          assert head[j] == line[j];
        }
      }
    }
    var sent := Encode(head);
    DecodeEncodeAscii(head);
    var buffer := Buffer(incoming);
    assert buffer[..|sent|] == sent;
    var tail := Decode(buffer[|sent|..]);
    assert Decode(buffer) == head + tail by {
      assert buffer == sent + buffer[|sent|..];
    }
    assert head + tail == (line + "\r") + "\n" + tail;
    LinesCons(line + "\r", tail);
    assert StripCr(line + "\r") == line;
  }

  /** The three words joined by single spaces contain no line feed. */
  lemma RequestLineOneLine(verb: string, path: string, version: string)
    requires IsToken(verb) && IsToken(path) && IsToken(version)
    ensures '\n' !in Join([verb, path, version])
  {
    var line := Join([verb, path, version]);
    assert [verb, path, version][1..] == [path, version];
    assert [path, version][1..] == [version];
    assert Join([version]) == version;
    assert Join([path, version]) == path + " " + version;
    assert line == verb + " " + path + " " + version;
    forall j | 0 <= j < |line| ensures line[j] != '\n' {
      if j < |verb| {
        assert line[j] == verb[j];
      } else if |verb| < j < |verb| + 1 + |path| {
        assert line[j] == path[j - |verb| - 1];
      } else if |verb| + 1 + |path| < j {
        assert line[j] == version[j - |verb| - |path| - 2];
      }
    }
  }

  /** Dispatch is decided by the request line: a client that sends
      "METHOD PATH VERSION" CR LF (in ASCII, within the buffer) gets the
      handler registered under exactly (METHOD, PATH) applied to its
      request, or 404 Not Found when there is none -- whatever follows. */
  lemma DispatchByRequestLine(router: Router, incoming: seq<byte>, verb: string, path: string, version: string, rest: seq<byte>)
    requires IsToken(verb) && IsToken(path) && IsToken(version)
    requires IsAscii(Join([verb, path, version]))
    requires |Join([verb, path, version])| + 2 <= BufferSize
    requires incoming == Encode(Join([verb, path, version]) + "\r\n") + rest
    ensures Parse(incoming).Parsed?
    ensures Parse(incoming).request.verb == verb && Parse(incoming).request.path == path
    ensures (verb, path) in router.routes ==>
      Respond(router, incoming) == router.routes[(verb, path)](Parse(incoming).request)
    ensures (verb, path) !in router.routes ==> Respond(router, incoming) == NotFound()
  {
    var line := Join([verb, path, version]);
    RequestLineOneLine(verb, path, version);
    FirstLineReceived(incoming, line, rest);
    TokensOfJoin([verb, path, version]);
  }

  /** A client whose first line has fewer than three words gets 400 Bad
      Request, whatever the router holds and whatever follows. */
  lemma MalformedRequestLine(router: Router, incoming: seq<byte>, line: string, rest: seq<byte>)
    requires IsAscii(line) && '\n' !in line && |Tokens(line)| < 3
    requires |line| + 2 <= BufferSize
    requires incoming == Encode(line + "\r\n") + rest
    ensures Respond(router, incoming) == BadRequest()
  {
    FirstLineReceived(incoming, line, rest);
  }

  // ------------------------------------------------------------------
  // The bytes of the fixed responses
  // ------------------------------------------------------------------

  /** A response without headers has a head of two lines. */
  lemma NoHeaders(response: Response, order: seq<string>)
    requires response.headers == map[]
    requires IsEnumeration(order, response.headers.Keys)
    ensures Head(response, order) == StatusLine(response) + "\r\n" + "\r\n"
  {
    EnumerationLength(order, {});
    assert HeaderFields(response.headers, order) == [];
    HeadLayout(response, order);
  }

  /** The head written for a 404: a status line and the empty line. */
  lemma NotFoundHead(order: seq<string>)
    requires IsEnumeration(order, NotFound().headers.Keys)
    ensures Head(NotFound(), order) == "HTTP/1.1 404 Not Found\r\n" + "\r\n"
  {
    NoHeaders(NotFound(), order);
    ThreeDigits(404);
    assert StatusLine(NotFound()) + "\r\n" == "HTTP/1.1 404 Not Found\r\n";
  }

  /** The head written for a 400: a status line and the empty line. */
  lemma BadRequestHead(order: seq<string>)
    requires IsEnumeration(order, BadRequest().headers.Keys)
    ensures Head(BadRequest(), order) == "HTTP/1.1 400 Bad Request\r\n" + "\r\n"
  {
    NoHeaders(BadRequest(), order);
    ThreeDigits(400);
    assert StatusLine(BadRequest()) + "\r\n" == "HTTP/1.1 400 Bad Request\r\n";
  }

  /** A response with only a Content-Type header has a head of three lines. */
  lemma ContentTypeOnly(response: Response, order: seq<string>)
    requires response.headers.Keys == {ContentType}
    requires IsEnumeration(order, response.headers.Keys)
    ensures Head(response, order)
      == StatusLine(response) + "\r\n" + (ContentType + ": " + response.headers[ContentType] + "\r\n") + "\r\n"
  {
    var field := ContentType + ": " + response.headers[ContentType];
    EnumerationLength(order, response.headers.Keys);
    assert order[0] in order;
    assert HeaderFields(response.headers, order) == [field];
    assert Terminated([field]) == field + "\r\n" by {
      assert [field][1..] == [];
    }
    HeadLayout(response, order);
    assert Version + " " == "HTTP/1.1 ";
  }

  /** The status line of a 200 OK. */
  lemma OkStatusLine(response: Response)
    requires response.statusCode == 200 && response.statusMessage == "OK"
    ensures StatusLine(response) + "\r\n" == "HTTP/1.1 200 OK\r\n"
  {
    ThreeDigits(200);
  }

  /** The head written for an HTML page: one Content-Type line. */
  lemma OkHtmlHead(body: string, order: seq<string>)
    requires IsEnumeration(order, OkHtml(body).headers.Keys)
    ensures Head(OkHtml(body), order) == "HTTP/1.1 200 OK\r\n" + "Content-Type: text/html\r\n" + "\r\n"
  {
    ContentTypeOnly(OkHtml(body), order);
    OkStatusLine(OkHtml(body));
    assert ContentType + ": " + "text/html" + "\r\n" == "Content-Type: text/html\r\n";
  }

  /** The head written for a JSON document: one Content-Type line. */
  lemma OkJsonHead(body: string, order: seq<string>)
    requires IsEnumeration(order, OkJson(body).headers.Keys)
    ensures Head(OkJson(body), order) == "HTTP/1.1 200 OK\r\n" + "Content-Type: application/json\r\n" + "\r\n"
  {
    ContentTypeOnly(OkJson(body), order);
    OkStatusLine(OkJson(body));
    assert ContentType + ": " + "application/json" + "\r\n" == "Content-Type: application/json\r\n";
  }
}
