# A verified model of a minimal HTTP/1.1 server core

This project models the request/response core of `rust-http-server`, a small
threaded HTTP/1.1 server. It covers four parts:

- **Reading a request** (`parse_request`). The bytes a single read delivered
  go into a zeroed 1024-byte buffer. The whole buffer is decoded as text and
  split into lines as `str::lines` does. The first line must have at least
  three whitespace-separated words, the method and the path being the first
  two. Until the first empty line, every line containing `": "` sets a
  header. After it, the non-empty lines are concatenated into the body.
- **Writing a response** (`write_response`). The output is a status line, one
  `name: value` CR LF line per header in the map's iteration order, an empty
  line, and then the raw body bytes.
- **Message constructors** (`HttpResponse::new`, `ok_html`, `ok_json`,
  `not_found`, `bad_request`).
- **Routing.** The `Router` is an exact-match table from (method, path) to a
  handler. A request with no registered key gets `not_found()`. The
  connection handler (`handle_connection`) answers a request it cannot parse
  with `bad_request()` and any other request with the router's response.

Modules, one per source unit:

- `Text` (`text.dfy`): the standard-library text primitives the core relies
  on:
  - the lossy decoding of the buffer;
  - `as_bytes` (UTF-8 encoding);
  - `lines`;
  - `split_whitespace`;
  - the decimal formatting of a `u16`.
- `Http` (`http.dfy`): `HttpRequest`, `HttpResponse` and the constructors.
  The request's method field is called `verb`, since `method` is a Dafny
  keyword.
- `RequestParser` (`parser.dfy`): `parse_request`. The methods
  `ReadIntoBuffer`, `ParseFields` and `ParseRequest` follow the source's
  buffer and line loop. Each is proved against the specification function
  `Parse` (or a section of it), and the lemmas are stated about `Parse`.
- `ResponseWriter` (`serializer.dfy`): `write_response`. The method
  `WriteResponse` builds the head by appending to a string while it walks
  the header names in an arbitrary order. It is proved to produce
  `Serialize(response, order)` for the order it took.
- `Routing` (`router.dfy`): the `Router` class with its `routes` map field.
- `Routes` (`routes.dfy`): the server's own three registrations, used as a
  concrete router.
- `Connection` (`connection.dfy`): `handle_connection` without the socket.

Two modelling choices shape the whole project:

- **Header order.** `HashMap` iteration order is unspecified. Every property
  of the serializer therefore holds for any `order` that lists each header
  name exactly once (`IsEnumeration`).
- **Handlers** are plain Dafny functions `Request -> Response`.

`str::lines` strips a carriage return only when a line feed follows it, so a
last line without a line feed keeps a trailing carriage return. The model
does the same.

## Model

| member | source | states |
|---|---|---|
| `Http.New` | src/server/http.rs:20-32 | code, message and body are passed through unchanged; an absent header map becomes the empty map, a present one is kept as given |
| `Http.OkHtml` | src/server/http.rs:34-41 | status 200, message "OK", headers exactly {Content-Type: text/html}, body the UTF-8 bytes of the text |
| `Http.OkJson` | src/server/http.rs:43-50 | status 200, message "OK", headers exactly {Content-Type: application/json}, body the UTF-8 bytes of the text |
| `Http.NotFound` | src/server/http.rs:52-59 | status 404, message "Not Found", no headers, body the bytes of "404 - Route Not Found" |
| `Http.BadRequest` | src/server/http.rs:61-68 | status 400, message "Bad Request", no headers, body the bytes of "400 - Bad Request" |
| `Text.IsWhitespace` | src/server/handler.rs:19 | the characters `split_whitespace` splits at: the Unicode White_Space set of `char::is_whitespace` (tab to carriage return, space, U+0085, U+00A0, U+1680, U+2000-U+200A, U+2028, U+2029, U+202F, U+205F, U+3000) |
| `Text.DecodeByte` | src/server/handler.rs:14 | an ASCII byte decodes to the character with that code and any other byte to U+FFFD; `DecodeEncodeAscii` shows it inverts encoding on ASCII |
| `Text.Decode` | src/server/handler.rs:14 | one character per byte of the buffer, as `DecodeByte` gives it; `DecodeBuffer` and `DecodeEncodeAscii` state what it yields for the buffer and for encoded ASCII |
| `Text.EncodeChar` | src/server/handler.rs:76 | one byte below U+0080, two below U+0800, three below U+10000 and four above; a lead byte followed by continuation bytes that together carry the character's scalar value |
| `Text.Encode` | src/server/handler.rs:76 | at least one byte per character; ASCII text is encoded byte for byte |
| `Text.EncodeAppend` | src/server/handler.rs:70-76 | encoding a concatenation is concatenating the encodings, so building the head with `push_str` and encoding it once equals encoding each piece |
| `Text.DecodeEncodeAscii` | src/server/handler.rs:14 | the lossy decode gives back every ASCII text that was encoded |
| `Text.Lines` | src/server/handler.rs:15 | no line produced contains a line feed |
| `Text.LinesCons` | src/server/handler.rs:15-18 | the first line is the text before the first line feed, without one carriage return before it; the rest of the lines come from the text after it |
| `Text.LinesOfTerminated` | src/server/handler.rs:64-74 | splitting CR LF terminated lines back into lines gives exactly those lines |
| `Text.LinesOfPadded` | src/server/handler.rs:11-15 | a run free of line feeds at the end of the text ends the last line, which is therefore non-empty |
| `Text.LinesAfterNewline` | src/server/handler.rs:15 | after a line feed, the lines of the rest are split independently |
| `Text.Tokens` | src/server/handler.rs:19 | every word is non-empty and free of whitespace |
| `Text.TokensAppend` | src/server/handler.rs:19 | a whitespace character separates the words before it from the words after it |
| `Text.TokensOfJoin` | src/server/handler.rs:19 | splitting words joined by single spaces gives back the words |
| `Text.TokensNonEmpty` | src/server/handler.rs:19 | a text containing a non-whitespace character has at least one word |
| `Text.ConcatNonEmpty` | src/server/handler.rs:36-43 | dropping the empty lines does not change the concatenated body |
| `Text.ConcatEndsWithLast` | src/server/handler.rs:42-43 | the concatenated body ends with the last line pushed |
| `Text.Decimal` | src/server/handler.rs:64-67 | the status code is written as a non-empty run of digits, without leading zero, denoting the code |
| `RequestParser.Buffer` | src/server/handler.rs:11-12 | the buffer is exactly 1024 bytes whatever was received: the bytes received at their positions, zeros after them |
| `RequestParser.RequestLine` | src/server/handler.rs:18 | the first line, or the empty text when there is no line, as `unwrap_or("")`; `ParseFailsExactly` states the failure in terms of it |
| `RequestParser.FirstEmpty` | src/server/handler.rs:35-40 | the index of the first empty line: every earlier line is non-empty |
| `RequestParser.HeaderEntry` | src/server/handler.rs:45-46 | no entry exactly when the line has no ": "; otherwise the name is the text before the first ": " and the value all the rest |
| `RequestParser.AddEntry` | src/server/handler.rs:45-50 | a line with a separator inserts its name and value, overwriting any earlier value, and a line without one leaves the map as it was; `HeaderPresent`, `HeaderLastWins` and `HeadersSkip` state its effect over many lines |
| `RequestParser.HeadersOf` | src/server/handler.rs:45-50 | the map the header lines build one insert at a time, in order; characterised by `HeaderPresent` (which names are present) and `HeaderLastWins` (which value wins) |
| `RequestParser.ReadIntoBuffer` | src/server/handler.rs:11-12 | a fresh zeroed 1024-byte array receives at most 1024 of the bytes read |
| `RequestParser.ParseFields` | src/server/handler.rs:32-53 | the `is_body` loop leaves the headers of the lines before the first empty line and the concatenation of the lines after it |
| `RequestParser.ParseRequest` | src/server/handler.rs:10-61 | the parse of the received bytes is `Parse`, about which the lemmas below are stated |
| `RequestParser.ParseLines` | src/server/handler.rs:18-60 | the outcome from the lines: failure on fewer than three words in the first line, otherwise the first two words, the headers of the lines before the first empty line and the concatenation of the non-empty lines after it; the lemmas below (`BlankLineStartsBody`, `NoBlankLineNoBody`, `SeparatorFreeLineSkipped`) state it |
| `RequestParser.Parse` | src/server/handler.rs:10-61 | the outcome of `parse_request` for the bytes one read delivered: `ParseLines` of the decoded 1024-byte buffer; `ParseRequest` is proved to compute it and `ParseFailsExactly`, `PaddingEndsBody` and `PaddingLineSkipped` state what it gives |
| `RequestParser.FirstEmptyUnique` | src/server/handler.rs:35-40 | any index with only non-empty lines before it and an empty line at it is the first empty line |
| `RequestParser.FirstEmptyAfter` | src/server/handler.rs:35-40 | non-empty lines in front shift the first empty line by their number |
| `RequestParser.SectionsAfter` | src/server/handler.rs:35-51 | non-empty lines in front of others become header lines, and the lines after the first empty line are unchanged |
| `RequestParser.ParseFailsExactly` | src/server/handler.rs:18-26 | parsing fails exactly when the first line of the decoded buffer has fewer than three words, and the error is then "invalid request line" |
| `RequestParser.RequestLineWords` | src/server/handler.rs:28-29 | on success, method and path are the first and second words, both non-empty and free of whitespace |
| `RequestParser.ExtraWordsIgnored` | src/server/handler.rs:19-29 | words after the third change nothing |
| `RequestParser.HeaderPresent` | src/server/handler.rs:45-51 | a header name is present exactly when some header line has it before its first ": " |
| `RequestParser.HeaderLastWins` | src/server/handler.rs:47-50 | for a name set more than once, the last line setting it gives the value |
| `RequestParser.HeadersSkip` | src/server/handler.rs:45-51 | a line without ": " adds nothing to the headers |
| `RequestParser.SeparatorFreeLineSkipped` | src/server/handler.rs:45-51 | a non-empty line without ": " before the empty line changes neither the headers nor the body |
| `RequestParser.SkippedFieldLine` | src/server/handler.rs:36-51 | the same for the header and body sections of the field lines |
| `RequestParser.BlankLineStartsBody` | src/server/handler.rs:35-43 | after the first empty line, lines with ": " go to the body; the body is the concatenation of the non-empty lines after it, and the headers are those of the lines before it |
| `RequestParser.NoBlankLineNoBody` | src/server/handler.rs:35-53 | without an empty line every line is a header line and the body is empty |
| `RequestParser.DecodeBuffer` | src/server/handler.rs:11-14 | the decoded buffer is the decoded bytes received followed by one NUL per zero byte of padding |
| `RequestParser.PaddingEndsBody` | src/server/handler.rs:11-43 | when an empty line was received, the body ends with all the NUL padding |
| `RequestParser.PaddingLineSkipped` | src/server/handler.rs:11-51 | when the bytes received end with a line feed and hold no empty line, the NUL run is a header line without ": " and is skipped, so the result is that of the received text alone |
| `ResponseWriter.StatusLine` | src/server/handler.rs:64-68 | "HTTP/1.1", the decimal code and the message, separated by single spaces; `StatusLineWords` states its words and `HeadLayout` its place in the head |
| `ResponseWriter.HeaderField` | src/server/handler.rs:72 | "name: value"; `HeaderEntryOfField` shows the parser's rule splits it back into name and value |
| `ResponseWriter.Head` | src/server/handler.rs:64-74 | the status line, one line per header in the given order and the empty line, each ended by CR LF; `HeadLayout` and `HeadLines` state its layout and `HeadRoundTrip` that the parser reads it back |
| `ResponseWriter.Serialize` | src/server/handler.rs:63-77 | the encoded head followed by the body bytes; `SerializeShape` states that it ends with exactly the body |
| `ResponseWriter.WriteResponse` | src/server/handler.rs:63-81 | the loop visits every header name exactly once, in some order, and the bytes written are `Serialize` for that order; whatever the order, they are longer than the body and end with exactly the body |
| `ResponseWriter.AppendField` | src/server/handler.rs:71-73 | pushing one more header line extends the head by exactly "name: value" CR LF |
| `ResponseWriter.HeadLayout` | src/server/handler.rs:64-74 | the head is "HTTP/1.1 ", the decimal code, a space, the message and CR LF, then the header lines, then CR LF |
| `ResponseWriter.SerializeShape` | src/server/handler.rs:64-77 | the bytes are the encoded status line, header lines and empty line followed by the body, and they end with exactly the body |
| `ResponseWriter.EnumerationLength` | src/server/handler.rs:71 | visiting every name once takes as many steps as there are headers |
| `ResponseWriter.HeaderFieldsExactlyOnce` | src/server/handler.rs:71-73 | there are as many header lines as headers, and each header appears at exactly one position as "name: value" |
| `ResponseWriter.HeaderEntryOfField` | src/server/handler.rs:45-50 | the parser's rule splits a written header line back into its name and value when the name has no ": " |
| `ResponseWriter.HeadersOfFields` | src/server/handler.rs:45-51 | parsing the written header lines gives back the map's entries |
| `ResponseWriter.HeadersOfEnumeration` | src/server/handler.rs:45-51 | header lines written in any order that lists each name once are parsed back into exactly the map they came from |
| `ResponseWriter.HeadLines` | src/server/handler.rs:64-74 | splitting the head into lines gives the status line, the header lines and the empty line |
| `ResponseWriter.StatusLineWords` | src/server/handler.rs:64-68 | the words of the status line are "HTTP/1.1", the code, then the words of the message |
| `ResponseWriter.FieldsThenBlank` | src/server/handler.rs:35-53 | non-empty field lines followed by an empty line give those lines' headers and an empty body |
| `ResponseWriter.HeadRoundTrip` | src/server/handler.rs:63-74 | read back by the parser, the head gives every header of the response exactly, whatever the order it was written in, provided names hold no ": " or line feed, values no line feed, and the status message no line feed and at least one non-whitespace character (without one the status line has only two words and the parse fails) |
| `Routing.Router.constructor` | src/server/router.rs:10-14 | a new router has an empty table |
| `Routing.Router.HandleRequest` | src/server/router.rs:23-30 | the handler registered under exactly (method, path) applied to the request, or `not_found()` when there is none; it only reads the table |
| `Routing.Router.AddRoute` | src/server/router.rs:16-21 | the key maps to the new handler, replacing an earlier one, and every other key and the answer to every other request stay unchanged |
| `Routing.FreshRouterNotFound` | src/server/router.rs:10-29 | a new router answers every request with `not_found()` |
| `Routing.LastRegistrationWins` | src/server/router.rs:16-29 | after two registrations under the same key only the second handler answers it |
| `Routes.Home` | src/routes/mod.rs:9 | every request, whatever it holds, gets the 200 HTML welcome page; `Serve` shows GET "/" reaches it |
| `Routes.Users` | src/routes/mod.rs:16 | every request, whatever it holds, gets the 200 JSON list of the two users; `Serve` shows GET "/users" reaches it |
| `Routes.RegisterRoutes` | src/routes/mod.rs:4-38 | the table gains "/" and "/users" and "/static/" under GET, in this order |
| `Routes.Serve` | src/routes/mod.rs:4-38 | the registered keys reach their handlers, and any other method or path, including one below "/static/", gets `not_found()` |
| `Routes.StaticFileNotRouted` | src/server/router.rs:24-29 | GET "/static/foo.txt" does not match the route registered at "/static/": it gets `not_found()` |
| `Connection.Respond` | src/server/handler.rs:84-99 | a failed parse gives exactly `bad_request()`; a successful one gives exactly the router's response to the parsed request |
| `Connection.HandleConnection` | src/server/handler.rs:83-101 | the bytes written back are the serialization of `Respond` in the order the headers were visited, and they end with exactly that response's body |
| `Connection.FirstLineReceived` | src/server/handler.rs:11-18 | a first line sent in ASCII and ended by CR LF within the buffer is exactly the parser's request line |
| `Connection.DispatchByRequestLine` | src/server/handler.rs:84-86 | a request line "M P V" is parsed with method M and path P and dispatched to the handler under exactly (M, P), or answered with `not_found()`, whatever follows it |
| `Connection.MalformedRequestLine` | src/server/handler.rs:91-94 | a first line with fewer than three words is answered with `bad_request()` whatever the router holds |
| `Connection.NoHeaders` | src/server/handler.rs:63-74 | a response without headers gets a head of just the status line and the empty line |
| `Connection.NotFoundHead` | src/server/handler.rs:64-74 | the head written for `not_found()` is "HTTP/1.1 404 Not Found" CR LF CR LF |
| `Connection.BadRequestHead` | src/server/handler.rs:63-74 | the head written for `bad_request()` is "HTTP/1.1 400 Bad Request" CR LF CR LF |
| `Connection.ContentTypeOnly` | src/server/handler.rs:63-74 | a response whose only header is Content-Type gets a head of the status line, one "Content-Type: value" line and the empty line |
| `Connection.OkHtmlHead` | src/server/http.rs:34-41 | the head written for an HTML page is the 200 status line, one "Content-Type: text/html" line and the empty line |
| `Connection.OkJsonHead` | src/server/http.rs:43-50 | the head written for a JSON document is the 200 status line, one "Content-Type: application/json" line and the empty line |

## Left out

- Sockets and threads. Binding, the accept loop, `thread::spawn` and the
  `Arc` sharing in `src/main.rs` are not modelled: they are I/O and
  concurrency.
- The read itself. The model takes the bytes one `stream.read` delivered as
  a parameter (`incoming`). A read error is not modelled.
- `write_all`, `flush` and `eprintln!`. The writer's output is the byte
  sequence it would write. Write errors and the error logging in
  `handle_connection` are left out.
- `Text.Decode`: `String::from_utf8_lossy` is modelled per byte. ASCII bytes
  decode to the same character and every other byte to U+FFFD. Real UTF-8
  sequences of two to four bytes, which Rust decodes to one character, are
  not captured. Encoding (`as_bytes`) is full UTF-8.
- `ResponseWriter.WriteResponse`: the `HashMap` iteration order is not
  modelled. It is a ghost parameter, and every property holds for every
  order.
- `Routes.Serve`: the static-file handler reads the file system
  (`fs::read`), so it is a parameter. Its path rewriting and file lookup in
  `src/routes/mod.rs` are not modelled.
- The `Send`, `Sync` and `'static` bounds and the `Box<dyn Fn>` boxing are
  type-system plumbing without runtime behaviour. Handlers are plain Dafny
  functions.
- The 16-bit width of the status code is a subset type (`StatusCode`). No
  arithmetic is done on it.
