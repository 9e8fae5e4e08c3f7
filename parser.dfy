/** `parse_request`: from the bytes a single read delivers to a request, or
    to the one failure, an invalid request line.  `Parse` specifies the
    outcome line by line; `ParseRequest` is the buffer-and-loop
    implementation, proved equal to it. */
module RequestParser {
  import opened Wrappers
  import opened Text
  import opened Http

  /** The capacity of the one read the server performs. */
  const BufferSize := 1024

  datatype ParseError = InvalidRequestLine

  datatype ParseResult = Parsed(request: Request) | Failed(error: ParseError)

  /** The receive buffer after the read: the first `BufferSize` bytes
      received, then zeros up to the capacity. */
  function Buffer(incoming: seq<byte>): (buffer: seq<byte>)
    ensures |buffer| == BufferSize
    ensures forall i :: 0 <= i < BufferSize ==> buffer[i] == if i < |incoming| then incoming[i] else 0
  {
    if |incoming| >= BufferSize then incoming[..BufferSize]
    else incoming + seq(BufferSize - |incoming|, _ => 0)
  }

  /** The zeros that fill the buffer behind a short read, as decoded text. */
  function Padding(incoming: seq<byte>): string {
    if |incoming| >= BufferSize then [] else seq(BufferSize - |incoming|, _ => NUL)
  }

  /** The first line, or the empty text when there is none. */
  function RequestLine(lines: seq<string>): string {
    if lines == [] then "" else lines[0]
  }

  /** The lines after the request line. */
  function FieldLines(lines: seq<string>): seq<string> {
    if lines == [] then [] else lines[1..]
  }

  /** The index of the first empty line, or the number of lines. */
  function FirstEmpty(lines: seq<string>): (k: nat)
    ensures k <= |lines|
    ensures forall i :: 0 <= i < k ==> lines[i] != []
    ensures k < |lines| ==> lines[k] == []
    decreases |lines|
  {
    if lines == [] || lines[0] == [] then 0 else 1 + FirstEmpty(lines[1..])
  }

  /** The lines before the first empty line: the header lines. */
  function HeaderSection(lines: seq<string>): seq<string> {
    lines[..FirstEmpty(lines)]
  }

  /** The lines after the first empty line, none if there is none. */
  function BodySection(lines: seq<string>): seq<string> {
    var k := FirstEmpty(lines);
    if k < |lines| then lines[k + 1..] else []
  }

  /** The separator ": " starts at index `i` of `line`. */
  predicate SeparatorAt(line: string, i: int) {
    0 <= i && i + 1 < |line| && line[i] == ':' && line[i + 1] == ' '
  }

  /** `line.splitn(2, ": ")` when it yields two parts: the text before the
      first separator and everything after it. */
  function HeaderEntry(line: string): (entry: Option<(string, string)>)
    ensures entry.None? <==> forall i :: !SeparatorAt(line, i)
    ensures entry.Some? ==>
      && line == entry.value.0 + ": " + entry.value.1
      && forall i :: 0 <= i < |entry.value.0| ==> !SeparatorAt(line, i)
    decreases |line|
  {
    if |line| < 2 then None
    else if line[0] == ':' && line[1] == ' ' then
      assert SeparatorAt(line, 0);
      assert line == [] + ": " + line[2..];
      Some(([], line[2..]))
    else
      SeparatorShift(line);
      match HeaderEntry(line[1..])
      case None => None
      case Some((name, value)) =>
        assert line == [line[0]] + line[1..];
        Some(([line[0]] + name, value))
  }

  /** A separator in the tail of a line is one place further in the line. */
  lemma SeparatorShift(line: string)
    requires line != []
    ensures !SeparatorAt(line, 0) ==> forall i :: SeparatorAt(line, i) ==> SeparatorAt(line[1..], i - 1)
    ensures forall i :: SeparatorAt(line[1..], i) ==> SeparatorAt(line, i + 1)
  {
  }

  /** `headers.insert(name, value)` for a line with a separator; nothing
      for a line without one. */
  function AddEntry(headers: Headers, line: string): Headers {
    match HeaderEntry(line)
    case None => headers
    case Some((name, value)) => headers[name := value]
  }

  /** The header mapping the header lines build: each line with a
      separator inserts its name and value, overwriting earlier values. */
  function HeadersOf(lines: seq<string>): Headers
    decreases |lines|
  {
    if lines == [] then map[] else AddEntry(HeadersOf(lines[..|lines| - 1]), lines[|lines| - 1])
  }

  lemma HeadersOfPrefix(lines: seq<string>, j: nat)
    requires j < |lines|
    ensures HeadersOf(lines[..j + 1]) == AddEntry(HeadersOf(lines[..j]), lines[j])
  {
    assert lines[..j + 1][..j] == lines[..j];
  }

  lemma BodyOfPrefix(lines: seq<string>, start: nat, j: nat)
    requires start <= j < |lines|
    ensures Concat(lines[start..j + 1]) == Concat(lines[start..j]) + lines[j]
  {
    assert lines[start..j + 1][..j - start] == lines[start..j];
  }

  /** The outcome of parsing text already split into lines. */
  function ParseLines(lines: seq<string>): ParseResult {
    var words := Tokens(RequestLine(lines));
    if |words| < 3 then Failed(InvalidRequestLine)
    else
      var rest := FieldLines(lines);
      Parsed(Request(words[0], words[1], HeadersOf(HeaderSection(rest)), Concat(BodySection(rest))))
  }

  function ParseText(text: string): ParseResult {
    ParseLines(Lines(text))
  }

  /** The outcome of `parse_request` once the read delivered `incoming`. */
  function Parse(incoming: seq<byte>): ParseResult {
    ParseText(Decode(Buffer(incoming)))
  }

  /** The read: a zeroed buffer of `BufferSize` bytes receives at most
      that many of the incoming bytes at its front. */
  method ReadIntoBuffer(incoming: seq<byte>) returns (buffer: array<byte>)
    ensures fresh(buffer)
    ensures buffer[..] == Buffer(incoming)
  {
    buffer := new byte[BufferSize](_ => 0);
    var n := if |incoming| < BufferSize then |incoming| else BufferSize;
    var i := 0;
    while i < n
      invariant 0 <= i <= n
      invariant forall j :: 0 <= j < i ==> buffer[j] == incoming[j]
      invariant forall j :: i <= j < BufferSize ==> buffer[j] == 0
    {
      buffer[i] := incoming[i];
      i := i + 1;
    }
  }

  /** The loop over the lines after the request line: until the first
      empty line each line with a separator is inserted into the header
      map; after it every non-empty line is appended to the body. */
  method ParseFields(rest: seq<string>) returns (headers: Headers, body: string)
    ensures headers == HeadersOf(HeaderSection(rest))
    ensures body == Concat(BodySection(rest))
  {
    headers := map[];
    body := "";
    var isBody := false;
    ghost var blank := FirstEmpty(rest);
    ghost var headerEnd, bodyStart := 0, 0;
    var j := 0;
    while j < |rest|
      invariant 0 <= j <= |rest|
      invariant !isBody ==> j <= blank && headerEnd == bodyStart == j
      invariant isBody ==> blank < j && headerEnd == blank && bodyStart == blank + 1
      invariant headers == HeadersOf(rest[..headerEnd])
      invariant body == Concat(rest[bodyStart..j])
    {
      var line := rest[j];
      if line == [] {
        if !isBody {
          assert blank == j;
          bodyStart := j + 1;
        } else {
          BodyOfPrefix(rest, bodyStart, j);
          assert body + line == body;
        }
        isBody := true;
      } else if isBody {
        BodyOfPrefix(rest, bodyStart, j);
        body := body + line;
      } else {
        HeadersOfPrefix(rest, j);
        headerEnd, bodyStart := j + 1, j + 1;
        match HeaderEntry(line)
        case Some((name, value)) =>
          headers := headers[name := value];
        case None =>
      }
      j := j + 1;
    }
    if !isBody {
      assert rest[..|rest|] == rest;
    } else {
      assert rest[bodyStart..|rest|] == BodySection(rest);
    }
  }

  /** `parse_request` after the socket read: decode the whole buffer, split
      the request line into words, fail when there are fewer than three,
      otherwise collect the headers and the body from the other lines. */
  method ParseRequest(incoming: seq<byte>) returns (result: ParseResult)
    ensures result == Parse(incoming)
  {
    var buffer := ReadIntoBuffer(incoming);
    var lines := Lines(Decode(buffer[..]));
    var requestLine := if |lines| > 0 then lines[0] else "";
    var parts := Tokens(requestLine);
    if |parts| < 3 {
      return Failed(InvalidRequestLine);
    }
    var headers, body := ParseFields(if |lines| > 0 then lines[1..] else []);
    result := Parsed(Request(parts[0], parts[1], headers, body));
  }

  // ------------------------------------------------------------------
  // Properties of the parser
  // ------------------------------------------------------------------

  /** The properties that define `FirstEmpty` determine it. */
  lemma FirstEmptyUnique(lines: seq<string>, k: nat)
    requires k <= |lines|
    requires forall i :: 0 <= i < k ==> lines[i] != []
    requires k < |lines| ==> lines[k] == []
    ensures FirstEmpty(lines) == k
  {
  }

  /** Non-empty lines in front shift the first empty line by their number. */
  lemma FirstEmptyAfter(a: seq<string>, b: seq<string>)
    requires forall i :: 0 <= i < |a| ==> a[i] != []
    ensures FirstEmpty(a + b) == |a| + FirstEmpty(b)
  {
    var m := FirstEmpty(b);
    var s := a + b;
    forall i | 0 <= i < |a| + m ensures s[i] != [] {
      if i >= |a| {
        assert s[i] == b[i - |a|];
      }
    }
    if |a| + m < |s| {
      assert s[|a| + m] == b[m];
    }
    FirstEmptyUnique(s, |a| + m);
  }

  /** Non-empty lines in front of others join the header lines and leave
      the body lines as they were. */
  lemma SectionsAfter(a: seq<string>, b: seq<string>)
    requires forall i :: 0 <= i < |a| ==> a[i] != []
    ensures HeaderSection(a + b) == a + HeaderSection(b)
    ensures BodySection(a + b) == BodySection(b)
  {
    FirstEmptyAfter(a, b);
    var k := FirstEmpty(b);
    assert (a + b)[..|a| + k] == a + b[..k];
    if k < |b| {
      assert (a + b)[|a| + k + 1..] == b[k + 1..];
    }
  }

  /** Parsing fails exactly when the request line -- the decoded buffer up
      to its first line feed, without the carriage return before it -- has
      fewer than three words; that is the only failure. */
  lemma ParseFailsExactly(incoming: seq<byte>)
    ensures
      var text := Decode(Buffer(incoming));
      var k := IndexOf(text, '\n');
      var line := if k == |text| then text else StripCr(text[..k]);
      && (Parse(incoming).Failed? <==> |Tokens(line)| < 3)
      && (Parse(incoming).Failed? ==> Parse(incoming).error == InvalidRequestLine)
  {
    var text := Decode(Buffer(incoming));
    assert |text| == BufferSize;
  }

  /** On success the method is the first word and the path the second word
      of the request line; both are non-empty and free of whitespace. */
  lemma RequestLineWords(lines: seq<string>)
    requires ParseLines(lines).Parsed?
    ensures
      var words := Tokens(RequestLine(lines));
      var request := ParseLines(lines).request;
      && |words| >= 3
      && request.verb == words[0] && request.path == words[1]
      && IsToken(request.verb) && IsToken(request.path)
  {
  }

  /** Words after the third (separated by any whitespace) change nothing. */
  lemma ExtraWordsIgnored(line: string, w: char, extra: string, rest: seq<string>)
    requires |Tokens(line)| >= 3 && IsWhitespace(w)
    ensures ParseLines([line + [w] + extra] + rest) == ParseLines([line] + rest)
  {
    TokensAppend(line, w, extra);
    assert FieldLines([line + [w] + extra] + rest) == rest;
    assert FieldLines([line] + rest) == rest;
  }

  /** The line `line` defines header `name`. */
  predicate Defines(line: string, name: string) {
    HeaderEntry(line).Some? && HeaderEntry(line).value.0 == name
  }

  /** A header is present exactly when some header line defines it. */
  lemma {:induction false} HeaderPresent(lines: seq<string>, name: string)
    ensures name in HeadersOf(lines) <==> exists i :: 0 <= i < |lines| && Defines(lines[i], name)
    decreases |lines|
  {
    if lines != [] {
      var init, last := lines[..|lines| - 1], lines[|lines| - 1];
      HeaderPresent(init, name);
      assert name in HeadersOf(lines) <==> name in HeadersOf(init) || Defines(last, name);
      if exists i :: 0 <= i < |init| && Defines(init[i], name) {
        var i :| 0 <= i < |init| && Defines(init[i], name);
        assert lines[i] == init[i];
      }
      if exists i :: 0 <= i < |lines| && Defines(lines[i], name) {
        var i :| 0 <= i < |lines| && Defines(lines[i], name);
        if i < |init| {
          assert init[i] == lines[i];
        }
      }
    }
  }

  /** Duplicate names: the value is that of the last line defining the name. */
  lemma {:induction false} HeaderLastWins(lines: seq<string>, name: string, j: nat)
    requires j < |lines| && Defines(lines[j], name)
    requires forall i :: j < i < |lines| ==> !Defines(lines[i], name)
    ensures name in HeadersOf(lines)
    ensures HeadersOf(lines)[name] == HeaderEntry(lines[j]).value.1
    decreases |lines|
  {
    if j < |lines| - 1 {
      var init := lines[..|lines| - 1];
      assert init[j] == lines[j];
      forall i | j < i < |init| ensures !Defines(init[i], name) {
        assert init[i] == lines[i];
      }
      HeaderLastWins(init, name, j);
    }
  }

  /** A line without a separator adds nothing to the headers. */
  lemma {:induction false} HeadersSkip(a: seq<string>, x: string, b: seq<string>)
    requires HeaderEntry(x).None?
    ensures HeadersOf(a + [x] + b) == HeadersOf(a + b)
    decreases |b|
  {
    if b == [] {
      assert (a + [x] + b)[..|a|] == a;
      assert a + b == a;
    } else {
      var b' := b[..|b| - 1];
      assert (a + [x] + b)[..|a + [x] + b| - 1] == a + [x] + b';
      assert (a + b)[..|a + b| - 1] == a + b';
      HeadersSkip(a, x, b');
    }
  }

  /** A non-empty header line without ": " is dropped without affecting
      the headers or the body that the other lines give. */
  lemma SeparatorFreeLineSkipped(pre: seq<string>, x: string, post: seq<string>)
    requires |pre| >= 1 && x != [] && HeaderEntry(x).None?
    requires forall i :: 1 <= i < |pre| ==> pre[i] != []
    ensures ParseLines(pre + [x] + post) == ParseLines(pre + post)
  {
    var front := pre[1..];
    assert (pre + [x] + post)[0] == pre[0] == (pre + post)[0];
    assert FieldLines(pre + [x] + post) == front + [x] + post;
    assert FieldLines(pre + post) == front + post;
    SkippedFieldLine(front, x, post);
  }

  /** The field-line part of `SeparatorFreeLineSkipped`. */
  lemma SkippedFieldLine(front: seq<string>, x: string, post: seq<string>)
    requires x != [] && HeaderEntry(x).None?
    requires forall i :: 0 <= i < |front| ==> front[i] != []
    ensures HeadersOf(HeaderSection(front + [x] + post)) == HeadersOf(HeaderSection(front + post))
    ensures BodySection(front + [x] + post) == BodySection(front + post)
  {
    var longer := front + [x];
    forall i | 0 <= i < |longer| ensures longer[i] != [] {
      if i < |front| {
        assert longer[i] == front[i];
      }
    }
    SectionsAfter(longer, post);
    SectionsAfter(front, post);
    HeadersSkip(front, x, HeaderSection(post));
  }

  /** The first empty line ends the headers: later lines, with or without
      ": ", never become headers, and the body is the concatenation,
      without separators, of the non-empty lines after it. */
  lemma BlankLineStartsBody(pre: seq<string>, post: seq<string>)
    requires |pre| >= 1 && |Tokens(pre[0])| >= 3
    requires forall i :: 1 <= i < |pre| ==> pre[i] != []
    ensures
      var r := ParseLines(pre + [""] + post);
      && r.Parsed?
      && r.request.headers == HeadersOf(pre[1..])
      && r.request.body == Concat(NonEmpty(post))
  {
    var front := pre[1..];
    var rest := FieldLines(pre + [""] + post);
    assert rest == front + ([""] + post);
    FirstEmptyAfter(front, [""] + post);
    assert FirstEmpty([""] + post) == 0;
    assert HeaderSection(rest) == front;
    assert BodySection(rest) == post;
    ConcatNonEmpty(post);
  }

  /** Without an empty line every line after the request line is a header
      line and the body is empty. */
  lemma NoBlankLineNoBody(lines: seq<string>)
    requires ParseLines(lines).Parsed?
    requires forall i :: 1 <= i < |lines| ==> lines[i] != []
    ensures ParseLines(lines).request.headers == HeadersOf(lines[1..])
    ensures ParseLines(lines).request.body == ""
  {
    var rest := FieldLines(lines);
    FirstEmptyUnique(rest, |rest|);
    assert rest[..|rest|] == rest;
  }

  /** The decoded buffer is the decoded bytes received followed by the
      decoded zero padding. */
  lemma DecodeBuffer(incoming: seq<byte>)
    requires |incoming| < BufferSize
    ensures Decode(Buffer(incoming)) == Decode(incoming) + Padding(incoming)
  {
  }

  /** When an empty line comes before a non-empty last line, the body ends
      with that last line. */
  lemma LastLineEndsBody(lines: seq<string>)
    requires |lines| > 0 && lines[|lines| - 1] != []
    requires var rest := FieldLines(lines); FirstEmpty(rest) < |rest|
    ensures EndsWith(Concat(BodySection(FieldLines(lines))), lines[|lines| - 1])
  {
    var rest := FieldLines(lines);
    var section := BodySection(rest);
    assert rest[|rest| - 1] == lines[|lines| - 1];
    assert section[|section| - 1] == rest[|rest| - 1];
    ConcatEndsWithLast(section);
  }

  /** Text followed by a run without line feeds, parsed: when an empty
      line precedes the run, the body ends with the run. */
  lemma BodyEndsWithPad(received: string, pad: string)
    requires pad != [] && '\n' !in pad
    requires var rest := FieldLines(Lines(received + pad)); FirstEmpty(rest) < |rest|
    ensures EndsWith(Concat(BodySection(FieldLines(Lines(received + pad)))), pad)
  {
    var lines := Lines(received + pad);
    LinesOfPadded(received, pad);
    LastLineEndsBody(lines);
    EndsWithTrans(Concat(BodySection(FieldLines(lines))), lines[|lines| - 1], pad);
  }

  /** The NUL padding is neither whitespace nor a line feed, so it ends the
      last line; when an empty line was received the body ends with all of
      the padding. */
  lemma PaddingEndsBody(incoming: seq<byte>)
    requires |incoming| < BufferSize
    requires Parse(incoming).Parsed?
    requires var rest := FieldLines(Lines(Decode(Buffer(incoming)))); FirstEmpty(rest) < |rest|
    ensures EndsWith(Parse(incoming).request.body, Padding(incoming))
  {
    var pad := Padding(incoming);
    var received := Decode(incoming);
    assert Decode(Buffer(incoming)) == received + pad by {
      DecodeBuffer(incoming);
    }
    assert pad != [] && '\n' !in pad by {
      assert pad[0] == NUL;
    }
    BodyEndsWithPad(received, pad);
  }

  /** When the bytes received end with a line feed and hold no empty line,
      the padding forms a last line of NULs, which has no separator and is
      skipped: the outcome is that of the received text alone. */
  lemma PaddingLineSkipped(incoming: seq<byte>)
    requires 0 < |incoming| < BufferSize && incoming[|incoming| - 1] == 0x0A
    requires var rest := FieldLines(Lines(Decode(incoming))); forall i :: 0 <= i < |rest| ==> rest[i] != []
    ensures Parse(incoming) == ParseText(Decode(incoming))
  {
    var text := Decode(incoming);
    var pad := Padding(incoming);
    DecodeBuffer(incoming);
    LinesAfterNewline(text, pad);
    var lines := Lines(text);
    assert Lines(pad) == [pad];
    assert HeaderEntry(pad).None? by {
      forall i | 0 <= i < |pad| ensures pad[i] != ':' {
      }
    }
    assert lines != [];
    forall i | 1 <= i < |lines| ensures lines[i] != [] {
      assert FieldLines(lines)[i - 1] == lines[i];
    }
    SeparatorFreeLineSkipped(lines, pad, []);
    assert lines + [pad] + [] == lines + [pad];
    assert lines + [] == lines;
  }

  /** Text that ends with a line feed: its first line, and what follows it,
      are unchanged by appending more text. */
  lemma SplitFirstLine(s: string, t: string) returns (a: string, r: string)
    requires s != [] && s[|s| - 1] == '\n'
    ensures |r| < |s| && (r == [] || r[|r| - 1] == '\n')
    ensures Lines(s) == [StripCr(a)] + Lines(r)
    ensures Lines(s + t) == [StripCr(a)] + Lines(r + t)
  {
    a, r := FirstLine(s);
    AppendAssoc(a + "\n", r, t);
    LinesCons(a, r + t);
    if r != [] {
      assert r[|r| - 1] == s[|s| - 1];
    }
  }

  /** Text that ends with a line feed: the lines of what follows are appended. */
  lemma {:induction false} LinesAfterNewline(s: string, t: string)
    requires s != [] && s[|s| - 1] == '\n'
    ensures Lines(s + t) == Lines(s) + Lines(t)
    decreases |s|
  {
    var a, r := SplitFirstLine(s, t);
    if r == [] {
      assert r + t == t;
    } else {
      LinesAfterNewline(r, t);
      AppendAssoc([StripCr(a)], Lines(r), Lines(t));
    }
  }
}
