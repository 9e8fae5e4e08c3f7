/** The HTTP message model: a parsed request, an outgoing response and the
    constructors for the response shapes the server emits. */
module Http {
  import opened Wrappers
  import opened Text

  /** Rust's `u16`, the type of a status code. */
  type StatusCode = x: int | 0 <= x < 0x1_0000

  /** A header mapping; names are compared exactly, as written. */
  type Headers = map<string, string>

  /** A request as the parser produces it; the body is text.  The request
      method is called `verb` because `method` is a Dafny keyword. */
  datatype Request = Request(verb: string, path: string, headers: Headers, body: string)

  /** A response as a handler produces it; the body is raw bytes. */
  datatype Response = Response(
    statusCode: StatusCode,
    statusMessage: string,
    headers: Headers,
    body: seq<byte>)

  const ContentType := "Content-Type"
  /** The fixed bodies of the error responses, byte literals in ASCII. */
  const NotFoundBody: seq<byte> := [0x34, 0x30, 0x34, 0x20, 0x2D, 0x20, 0x52, 0x6F, 0x75, 0x74, 0x65, 0x20, 0x4E, 0x6F, 0x74, 0x20, 0x46, 0x6F, 0x75, 0x6E, 0x64]
  const BadRequestBody: seq<byte> := [0x34, 0x30, 0x30, 0x20, 0x2D, 0x20, 0x42, 0x61, 0x64, 0x20, 0x52, 0x65, 0x71, 0x75, 0x65, 0x73, 0x74]

  /** The general constructor: a missing header mapping becomes the empty one. */
  function New(statusCode: StatusCode, statusMessage: string, headers: Option<Headers>, body: seq<byte>): (r: Response)
    ensures r.statusCode == statusCode && r.statusMessage == statusMessage && r.body == body
    ensures headers.None? ==> r.headers == map[]
    ensures headers.Some? ==> r.headers == headers.value
  {
    Response(statusCode, statusMessage, if headers.Some? then headers.value else map[], body)
  }

  /** 200 OK with an HTML content type; the body is the UTF-8 bytes of the text. */
  function OkHtml(body: string): (r: Response)
    ensures r.statusCode == 200 && r.statusMessage == "OK"
    ensures r.headers.Keys == {ContentType} && r.headers[ContentType] == "text/html"
    ensures r.body == Encode(body)
  {
    New(200, "OK", Some(map[ContentType := "text/html"]), Encode(body))
  }

  /** 200 OK with a JSON content type; the body is the UTF-8 bytes of the text. */
  function OkJson(body: string): (r: Response)
    ensures r.statusCode == 200 && r.statusMessage == "OK"
    ensures r.headers.Keys == {ContentType} && r.headers[ContentType] == "application/json"
    ensures r.body == Encode(body)
  {
    New(200, "OK", Some(map[ContentType := "application/json"]), Encode(body))
  }

  /** 404 Not Found, no headers, a fixed ASCII body. */
  function NotFound(): (r: Response)
    ensures r.statusCode == 404 && r.statusMessage == "Not Found" && r.headers == map[]
    ensures r.body == Encode("404 - Route Not Found")
  {
    EncodeAsciiBytes("404 - Route Not Found", NotFoundBody);
    New(404, "Not Found", None, NotFoundBody)
  }

  /** 400 Bad Request, no headers, a fixed ASCII body. */
  function BadRequest(): (r: Response)
    ensures r.statusCode == 400 && r.statusMessage == "Bad Request" && r.headers == map[]
    ensures r.body == Encode("400 - Bad Request")
  {
    EncodeAsciiBytes("400 - Bad Request", BadRequestBody);
    New(400, "Bad Request", None, BadRequestBody)
  }
}
