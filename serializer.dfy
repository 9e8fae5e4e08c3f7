/** `write_response`: the bytes written for a response.  The header map is
    iterated in an unspecified order, so the specification `Serialize`
    takes that order as a parameter and every property below holds for
    every order. */
module ResponseWriter {
  import opened Wrappers
  import opened Text
  import opened Http
  import opened RequestParser

  /** The protocol version every response is written with. */
  const Version := "HTTP/1.1"

  /** The status line, without its terminator. */
  function StatusLine(response: Response): string {
    Version + " " + Decimal(response.statusCode) + " " + response.statusMessage
  }

  /** One header line, without its terminator. */
  function HeaderField(name: string, value: string): string {
    name + ": " + value
  }

  /** `order` lists each name of `keys` exactly once: one way of iterating
      a map with those keys. */
  ghost predicate IsEnumeration(order: seq<string>, keys: set<string>) {
    && (forall i, j :: 0 <= i < j < |order| ==> order[i] != order[j])
    && (forall name :: name in keys <==> name in order)
  }

  /** The header lines in the order `order` visits the names. */
  function HeaderFields(headers: Headers, order: seq<string>): (fields: seq<string>)
    requires forall i :: 0 <= i < |order| ==> order[i] in headers
  {
    seq(|order|, i requires 0 <= i < |order| => HeaderField(order[i], headers[order[i]]))
  }

  /** The response head: the status line, one line per header and an empty
      line, each terminated by CR LF. */
  function Head(response: Response, order: seq<string>): string
    requires IsEnumeration(order, response.headers.Keys)
  {
    Terminated([StatusLine(response)] + HeaderFields(response.headers, order) + [""])
  }

  /** The bytes `write_response` writes: the encoded head, then the body. */
  function Serialize(response: Response, order: seq<string>): seq<byte>
    requires IsEnumeration(order, response.headers.Keys)
  {
    Encode(Head(response, order)) + response.body
  }

  /** `write_response` without the stream: build the head by pushing the
      status line, one line per header in whatever order the map yields
      its names, and the empty line; then the body follows.  `order` is
      the order the names were taken in. */
  method WriteResponse(response: Response) returns (wire: seq<byte>, ghost order: seq<string>)
    ensures IsEnumeration(order, response.headers.Keys)
    ensures wire == Serialize(response, order)
    ensures |wire| > |response.body| && wire[|wire| - |response.body|..] == response.body
  {
    var headers := response.headers;
    var text := StatusLine(response) + "\r\n";
    var remaining := headers.Keys;
    order := [];
    assert text == Terminated([StatusLine(response)] + HeaderFields(headers, order));
    while remaining != {}
      invariant remaining <= headers.Keys
      invariant forall i, j :: 0 <= i < j < |order| ==> order[i] != order[j]
      invariant forall i :: 0 <= i < |order| ==> order[i] in headers && order[i] !in remaining
      invariant forall name :: name in headers && name !in remaining ==> name in order
      invariant text == Terminated([StatusLine(response)] + HeaderFields(headers, order))
      decreases |remaining|
    {
      var name :| name in remaining;
      var line := name + ": " + headers[name] + "\r\n";
      AppendField(StatusLine(response), headers, order, name);
      text := text + line;
      order := order + [name];
      remaining := remaining - {name};
    }
    assert IsEnumeration(order, headers.Keys);
    ghost var lines := [StatusLine(response)] + HeaderFields(headers, order);
    TerminatedSnoc(lines, "");
    text := text + "\r\n";
    assert text == Head(response, order);
    wire := Encode(text) + response.body;
    assert Encode(text) != [] by {
      assert |text| >= 2;
    }
    assert wire[|wire| - |response.body|..] == response.body;
  }

  /** One more header line written after the others. */
  lemma AppendField(status: string, headers: Headers, order: seq<string>, name: string)
    requires forall i :: 0 <= i < |order| ==> order[i] in headers
    requires name in headers
    ensures Terminated([status] + HeaderFields(headers, order + [name]))
      == Terminated([status] + HeaderFields(headers, order)) + (name + ": " + headers[name] + "\r\n")
  {
    var field := HeaderField(name, headers[name]);
    assert HeaderFields(headers, order + [name]) == HeaderFields(headers, order) + [field];
    assert [status] + (HeaderFields(headers, order) + [field]) == [status] + HeaderFields(headers, order) + [field];
    TerminatedSnoc([status] + HeaderFields(headers, order), field);
  }

  // ------------------------------------------------------------------
  // Properties of the serializer
  // ------------------------------------------------------------------

  /** The head has a fixed layout: "HTTP/1.1 ", the decimal status code, a
      space, the status message and CR LF; a "name: value" CR LF line per
      header; then CR LF. */
  lemma HeadLayout(response: Response, order: seq<string>)
    requires IsEnumeration(order, response.headers.Keys)
    ensures Head(response, order)
      == "HTTP/1.1 " + Decimal(response.statusCode) + " " + response.statusMessage + "\r\n"
         + Terminated(HeaderFields(response.headers, order)) + "\r\n"
  {
    var fields := HeaderFields(response.headers, order);
    var status := StatusLine(response);
    var rest := fields + [""];
    AppendAssoc([status], fields, [""]);
    assert Terminated([status] + rest) == status + "\r\n" + Terminated(rest) by {
      assert ([status] + rest)[1..] == rest;
    }
    TerminatedSnoc(fields, "");
    assert Terminated(fields) + "" == Terminated(fields);
    AppendAssoc(status + "\r\n", Terminated(fields), "\r\n");
    assert Version + " " == "HTTP/1.1 ";
  }

  /** The wire bytes are the encoded status line, header lines and empty
      line, followed by exactly the body bytes and nothing after them. */
  lemma SerializeShape(response: Response, order: seq<string>)
    requires IsEnumeration(order, response.headers.Keys)
    ensures
      var wire := Serialize(response, order);
      var crlf := Encode("\r\n");
      && wire == Encode(StatusLine(response)) + crlf
                 + Encode(Terminated(HeaderFields(response.headers, order))) + crlf + response.body
      && |wire| >= |response.body|
      && wire[|wire| - |response.body|..] == response.body
  {
    var status := StatusLine(response);
    var fields := Terminated(HeaderFields(response.headers, order));
    HeadLayout(response, order);
    assert Head(response, order) == status + "\r\n" + fields + "\r\n";
    EncodeAppend(status + "\r\n" + fields, "\r\n");
    EncodeAppend(status + "\r\n", fields);
    EncodeAppend(status, "\r\n");
  }

  /** A duplicate-free sequence is as long as the set of its elements. */
  lemma {:induction false} EnumerationLength(order: seq<string>, keys: set<string>)
    requires IsEnumeration(order, keys)
    ensures |order| == |keys|
    decreases |order|
  {
    if order != [] {
      var last := order[|order| - 1];
      var init := order[..|order| - 1];
      assert last in keys;
      forall name ensures name in keys - {last} <==> name in init {
        if name in init {
          var i :| 0 <= i < |init| && init[i] == name;
          assert order[i] == name;
        }
        if name in keys - {last} {
          assert name in order;
          var i :| 0 <= i < |order| && order[i] == name;
          assert i < |init|;
          assert init[i] == name;
        }
      }
      EnumerationLength(init, keys - {last});
    }
  }

  /** There are as many header lines as headers, and each header appears
      as exactly one "name: value" line. */
  lemma HeaderFieldsExactlyOnce(headers: Headers, order: seq<string>)
    requires IsEnumeration(order, headers.Keys)
    ensures |HeaderFields(headers, order)| == |headers|
    ensures forall name :: name in headers ==>
      exists i :: (0 <= i < |order| && order[i] == name
        && HeaderFields(headers, order)[i] == name + ": " + headers[name]
        && forall j :: 0 <= j < |order| && j != i ==> order[j] != name)
  {
    EnumerationLength(order, headers.Keys);
    forall name | name in headers
      ensures exists i :: (0 <= i < |order| && order[i] == name
        && HeaderFields(headers, order)[i] == name + ": " + headers[name]
        && forall j :: 0 <= j < |order| && j != i ==> order[j] != name)
    {
      assert name in order;
      var i :| 0 <= i < |order| && order[i] == name;
      assert HeaderFields(headers, order)[i] == name + ": " + headers[name];
    }
  }

  /** A header that survives the round trip: the name has no separator and
      no line feed, the value no line feed. */
  ghost predicate RoundTrips(name: string, value: string) {
    && '\n' !in name
    && '\n' !in value
    && forall i :: !SeparatorAt(name, i)
  }

  /** The parser's header-line rule takes a written header line apart into
      the name and value it was written from. */
  lemma HeaderEntryOfField(name: string, value: string)
    requires forall i :: !SeparatorAt(name, i)
    ensures HeaderEntry(HeaderField(name, value)) == Some((name, value))
  {
    var line := HeaderField(name, value);
    assert SeparatorAt(line, |name|);
    var entry := HeaderEntry(line);
    var n := entry.value.0;
    assert line == n + ": " + entry.value.1;
    assert SeparatorAt(line, |n|);
    if |n| + 1 < |name| {
      assert SeparatorAt(name, |n|);
    }
    assert |n| == |name|;
    assert n == line[..|n|] == name;
    assert entry.value.1 == line[|n| + 2..] == value;
  }

  /** The header lines written for a map, parsed with the parser's header
      rule, give back the entries of the names they were written for. */
  lemma {:induction false} HeadersOfFields(headers: Headers, order: seq<string>)
    requires forall i :: 0 <= i < |order| ==> order[i] in headers
    requires forall i :: 0 <= i < |order| ==> RoundTrips(order[i], headers[order[i]])
    ensures HeadersOf(HeaderFields(headers, order)) == map name | name in headers && name in order :: headers[name]
    decreases |order|
  {
    var fields := HeaderFields(headers, order);
    if order != [] {
      var init := order[..|order| - 1];
      var last := order[|order| - 1];
      assert fields[..|fields| - 1] == HeaderFields(headers, init);
      HeadersOfFields(headers, init);
      HeaderEntryOfField(last, headers[last]);
      var expected := map name | name in headers && name in order :: headers[name];
      var earlier := map name | name in headers && name in init :: headers[name];
      forall name ensures name in expected <==> name in earlier[last := headers[last]] {
        if name in order && name != last {
          var i :| 0 <= i < |order| && order[i] == name;
          assert init[i] == name;
        }
      }
      assert expected == earlier[last := headers[last]];
    } else {
      assert fields == [];
    }
  }

  /** Written in any enumeration of its names, a header map whose entries
      survive the line format is read back as exactly that map. */
  lemma HeadersOfEnumeration(headers: Headers, order: seq<string>)
    requires IsEnumeration(order, headers.Keys)
    requires forall name :: name in headers ==> RoundTrips(name, headers[name])
    ensures HeadersOf(HeaderFields(headers, order)) == headers
  {
    HeadersOfFields(headers, order);
    assert (map name | name in headers && name in order :: headers[name]) == headers;
  }

  /** Splitting the head into lines gives the status line, the header
      lines and the empty line. */
  lemma HeadLines(response: Response, order: seq<string>)
    requires IsEnumeration(order, response.headers.Keys)
    requires forall name :: name in response.headers ==> RoundTrips(name, response.headers[name])
    requires '\n' !in response.statusMessage
    ensures Lines(Head(response, order))
      == [StatusLine(response)] + HeaderFields(response.headers, order) + [""]
  {
    var headers := response.headers;
    var code := Decimal(response.statusCode);
    var status := StatusLine(response);
    var fields := HeaderFields(headers, order);
    var lines := [status] + fields + [""];
    assert '\n' !in status by {
      assert status == "HTTP/1.1 " + code + " " + response.statusMessage;
      forall j | 0 <= j < |code| ensures code[j] != '\n' {
        assert IsDigit(code[j]);
      }
    }
    forall j | 0 <= j < |lines| ensures '\n' !in lines[j] {
      if 1 <= j <= |fields| {
        assert lines[j] == fields[j - 1];
        assert RoundTrips(order[j - 1], headers[order[j - 1]]);
      }
    }
    LinesOfTerminated(lines);
  }

  /** The words of a status line: "HTTP/1.1", the code, then the message's. */
  lemma StatusLineWords(response: Response)
    ensures Tokens(StatusLine(response))
      == ["HTTP/1.1", Decimal(response.statusCode)] + Tokens(response.statusMessage)
  {
    var code := Decimal(response.statusCode);
    var message := response.statusMessage;
    var tail := code + " " + message;
    AppendAssoc(Version + " " + code, " ", message);
    AppendAssoc(Version + " ", code, " " + message);
    AppendAssoc(code, " ", message);
    VersionIsToken();
    TokensOfWordThen(Version, tail);
    DecimalIsToken(response.statusCode);
    TokensOfWordThen(code, message);
    AppendAssoc([Version], [code], Tokens(message));
  }

  lemma VersionIsToken()
    ensures IsToken(Version)
  {
    forall j | 0 <= j < |Version| ensures !IsWhitespace(Version[j]) {
      assert Version[j] in "HTTP/1.";
    }
  }

  /** Non-empty field lines followed by the empty line, after a request
      line of three or more words: the headers are those of the field lines
      and the body is empty. */
  lemma FieldsThenBlank(line: string, fields: seq<string>)
    requires |Tokens(line)| >= 3
    requires forall j :: 0 <= j < |fields| ==> fields[j] != []
    ensures
      var words := Tokens(line);
      ParseLines([line] + fields + [""]) == Parsed(Request(words[0], words[1], HeadersOf(fields), ""))
  {
    var lines := [line] + fields + [""];
    var rest := fields + [""];
    AppendAssoc([line], fields, [""]);
    assert FieldLines(lines) == rest;
    SectionsAfter(fields, [""]);
    assert HeaderSection([""]) == [] && BodySection([""]) == [];
    assert fields + [] == fields;
  }

  /** Header round trip: the head a response is written with, read back by
      the parser as if it were a request, gives the status line's first two
      words as method and path, exactly the response's headers, and an
      empty body -- whatever order the headers were written in. */
  lemma HeadRoundTrip(response: Response, order: seq<string>, i: nat)
    requires IsEnumeration(order, response.headers.Keys)
    requires forall name :: name in response.headers ==> RoundTrips(name, response.headers[name])
    requires '\n' !in response.statusMessage
    requires i < |response.statusMessage| && !IsWhitespace(response.statusMessage[i])
    ensures ParseText(Head(response, order))
      == Parsed(Request("HTTP/1.1", Decimal(response.statusCode), response.headers, ""))
  {
    var headers := response.headers;
    HeadLines(response, order);
    StatusLineWords(response);
    TokensNonEmpty(response.statusMessage, i);
    var fields := HeaderFields(headers, order);
    forall j | 0 <= j < |fields| ensures fields[j] != [] {
      assert |fields[j]| >= 2;
    }
    FieldsThenBlank(StatusLine(response), fields);
    HeadersOfEnumeration(headers, order);
  }
}
