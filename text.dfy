/** The text primitives of the Rust standard library that the server core
    relies on: the lossy decoding of the request buffer, `str::as_bytes`,
    `str::lines`, `str::split_whitespace` and the decimal formatting of a
    status code.  Each is modelled by a function and tied to a partner
    (an inverse or a characterisation) by its contract or a lemma. */
module Text {

  /** An octet: the unit of the socket buffer and of response bodies. */
  type byte = x: int | 0 <= x < 0x100

  const NUL: char := '\0'

  /** U+FFFD, what a lossy UTF-8 decode puts in place of bytes it cannot decode. */
  const REPLACEMENT: char := '\U{FFFD}'

  /** Rust's `char::is_whitespace`: the Unicode White_Space property. */
  predicate IsWhitespace(c: char) {
    || ('\t' <= c <= '\r')
    || c == ' '
    || c == '\U{85}'
    || c == '\U{A0}'
    || c == '\U{1680}'
    || ('\U{2000}' <= c <= '\U{200A}')
    || c == '\U{2028}'
    || c == '\U{2029}'
    || c == '\U{202F}'
    || c == '\U{205F}'
    || c == '\U{3000}'
  }

  predicate IsAscii(s: string) {
    forall i :: 0 <= i < |s| ==> s[i] as int < 0x80
  }

  predicate EndsWith(s: string, suffix: string) {
    |suffix| <= |s| && s[|s| - |suffix|..] == suffix
  }

  /** A suffix of a suffix is a suffix. */
  lemma EndsWithTrans(s: string, middle: string, suffix: string)
    requires EndsWith(s, middle) && EndsWith(middle, suffix)
    ensures EndsWith(s, suffix)
  {
    var k := |s| - |middle|;
    assert s[|s| - |suffix|..] == s[k..][|middle| - |suffix|..];
  }

  // ------------------------------------------------------------------
  // Decoding the request buffer (String::from_utf8_lossy)
  // ------------------------------------------------------------------

  /** An ASCII byte decodes to the character with that code; every other
      byte is replaced by U+FFFD. */
  function DecodeByte(b: byte): char {
    if b < 0x80 then b as char else REPLACEMENT
  }

  function Decode(bytes: seq<byte>): string {
    seq(|bytes|, i requires 0 <= i < |bytes| => DecodeByte(bytes[i]))
  }

  // ------------------------------------------------------------------
  // Encoding text as bytes (str::as_bytes, UTF-8)
  // ------------------------------------------------------------------

  /** The scalar value carried by a well-formed UTF-8 sequence of one to
      four bytes: the payload bits of the lead byte followed by six bits
      from each continuation byte. */
  function ScalarOf(bytes: seq<byte>): int
    requires 1 <= |bytes| <= 4
  {
    var b := seq(|bytes|, i requires 0 <= i < |bytes| => bytes[i] as int);
    if |b| == 1 then b[0]
    else if |b| == 2 then (b[0] - 0xC0) * 0x40 + (b[1] - 0x80)
    else if |b| == 3 then ((b[0] - 0xE0) * 0x40 + (b[1] - 0x80)) * 0x40 + (b[2] - 0x80)
    else (((b[0] - 0xF0) * 0x40 + (b[1] - 0x80)) * 0x40 + (b[2] - 0x80)) * 0x40 + (b[3] - 0x80)
  }

  predicate IsContinuation(b: byte) { 0x80 <= b < 0xC0 }

  /** The UTF-8 encoding of one character. */
  function EncodeChar(c: char): (bytes: seq<byte>)
    ensures |bytes| == if c as int < 0x80 then 1 else if c as int < 0x800 then 2 else if c as int < 0x1_0000 then 3 else 4
    ensures !IsContinuation(bytes[0])
    ensures forall i :: 1 <= i < |bytes| ==> IsContinuation(bytes[i])
    ensures ScalarOf(bytes) == c as int
  {
    var n := c as int;
    // the low six bits, then the next six, then the next six
    var b0, q0 := n % 0x40, n / 0x40;
    var b1, q1 := q0 % 0x40, q0 / 0x40;
    var b2, q2 := q1 % 0x40, q1 / 0x40;
    assert n == q0 * 0x40 + b0 && q0 == q1 * 0x40 + b1 && q1 == q2 * 0x40 + b2;
    if n < 0x80 then [n]
    else if n < 0x800 then [0xC0 + q0, 0x80 + b0]
    else if n < 0x1_0000 then [0xE0 + q1, 0x80 + b1, 0x80 + b0]
    else [0xF0 + q2, 0x80 + b2, 0x80 + b1, 0x80 + b0]
  }

  function Encode(s: string): (bytes: seq<byte>)
    ensures |bytes| >= |s|
    ensures IsAscii(s) ==> |bytes| == |s| && forall i :: 0 <= i < |s| ==> bytes[i] == s[i] as int
  {
    var parts := seq(|s|, i requires 0 <= i < |s| => EncodeChar(s[i]));
    ConcatLengthAtLeast(parts);
    assert IsAscii(s) ==> |Concat(parts)| == |s| && forall i :: 0 <= i < |s| ==> Concat(parts)[i] == s[i] as int by {
      if IsAscii(s) {
        ConcatSingletons(parts);
      }
    }
    Concat(parts)
  }

  /** Encoding distributes over concatenation. */
  lemma EncodeAppend(a: string, b: string)
    ensures Encode(a + b) == Encode(a) + Encode(b)
  {
    var pa := seq(|a|, i requires 0 <= i < |a| => EncodeChar(a[i]));
    var pb := seq(|b|, i requires 0 <= i < |b| => EncodeChar(b[i]));
    var ab := a + b;
    assert seq(|ab|, i requires 0 <= i < |ab| => EncodeChar(ab[i])) == pa + pb;
    ConcatAppend(pa, pb);
  }

  /** The encoding of an ASCII text is its character codes, byte for byte. */
  lemma EncodeAsciiBytes(s: string, bytes: seq<byte>)
    requires IsAscii(s) && |bytes| == |s|
    requires forall i :: 0 <= i < |s| ==> bytes[i] == s[i] as int
    ensures Encode(s) == bytes
  {
  }

  /** Decoding gives back every ASCII text that was encoded. */
  lemma DecodeEncodeAscii(s: string)
    requires IsAscii(s)
    ensures Decode(Encode(s)) == s
  {
    var d := Decode(Encode(s));
    forall i | 0 <= i < |s| ensures d[i] == s[i] {
      assert Encode(s)[i] == s[i] as int;
    }
  }

  // ------------------------------------------------------------------
  // Splitting text into lines (str::lines)
  // ------------------------------------------------------------------

  function IndexOf(s: string, c: char): (k: nat)
    ensures k <= |s|
    ensures forall i :: 0 <= i < k ==> s[i] != c
    ensures k < |s| ==> s[k] == c
    decreases |s|
  {
    if s == [] || s[0] == c then 0 else 1 + IndexOf(s[1..], c)
  }

  /** Drops one carriage return at the end of a line that a line feed ended. */
  function StripCr(line: string): string {
    if line != [] && line[|line| - 1] == '\r' then line[..|line| - 1] else line
  }

  /** Rust's `str::lines`: split at each `\n`, drop one `\r` before each
      `\n`; a final `\n` does not start another line and the empty text
      has no lines. */
  function Lines(s: string): (lines: seq<string>)
    ensures forall i :: 0 <= i < |lines| ==> '\n' !in lines[i]
    decreases |s|
  {
    if s == [] then []
    else
      var k := IndexOf(s, '\n');
      if k == |s| then [s] else [StripCr(s[..k])] + Lines(s[k + 1..])
  }

  /** Every line followed by CR LF: how the response head is laid out. */
  function Terminated(lines: seq<string>): string
    decreases |lines|
  {
    if lines == [] then "" else lines[0] + "\r\n" + Terminated(lines[1..])
  }

  /** Concatenation is associative. */
  lemma AppendAssoc<T>(x: seq<T>, y: seq<T>, z: seq<T>)
    ensures x + y + z == x + (y + z)
  {
  }

  /** The first line of a text is everything before its first line feed. */
  lemma LinesCons(a: string, b: string)
    requires '\n' !in a
    ensures Lines(a + "\n" + b) == [StripCr(a)] + Lines(b)
  {
    var s := a + "\n" + b;
    var k := IndexOf(s, '\n');
    assert s[|a|] == '\n';
    assert k == |a|;
    assert s[..k] == a;
    assert s[k + 1..] == b;
  }

  /** A text holding a line feed splits at its first one. */
  lemma FirstLine(s: string) returns (a: string, r: string)
    requires '\n' in s
    ensures '\n' !in a && s == a + "\n" + r
    ensures Lines(s) == [StripCr(a)] + Lines(r)
  {
    var k := IndexOf(s, '\n');
    a, r := s[..k], s[k + 1..];
    assert s == a + "\n" + r;
    LinesCons(a, r);
  }

  lemma {:induction false} TerminatedSnoc(lines: seq<string>, last: string)
    ensures Terminated(lines + [last]) == Terminated(lines) + last + "\r\n"
    decreases |lines|
  {
    if lines == [] {
      assert lines + [last] == [last];
    } else {
      assert (lines + [last])[1..] == lines[1..] + [last];
      TerminatedSnoc(lines[1..], last);
    }
  }

  /** Splitting CR LF terminated lines into lines gives them back. */
  lemma {:induction false} LinesOfTerminated(lines: seq<string>)
    requires forall i :: 0 <= i < |lines| ==> '\n' !in lines[i]
    ensures Lines(Terminated(lines)) == lines
    decreases |lines|
  {
    if lines != [] {
      var head := lines[0] + "\r";
      assert '\n' !in head by {
        assert '\n' !in lines[0];
      }
      assert Terminated(lines) == head + "\n" + Terminated(lines[1..]);
      LinesCons(head, Terminated(lines[1..]));
      assert StripCr(head) == lines[0];
      LinesOfTerminated(lines[1..]);
      assert [lines[0]] + lines[1..] == lines;
    }
  }

  /** Text followed by a non-empty run without line feeds: that run ends
      the last line, which is therefore not empty. */
  lemma {:induction false} LinesOfPadded(s: string, pad: string)
    requires pad != [] && '\n' !in pad
    ensures var lines := Lines(s + pad);
      |lines| > 0 && lines[|lines| - 1] != [] && EndsWith(lines[|lines| - 1], pad)
    decreases |s|
  {
    var t := s + pad;
    var k := IndexOf(t, '\n');
    if k == |t| {
      assert Lines(t) == [t];
      assert t[|t| - |pad|..] == pad;
    } else {
      var rest := t[k + 1..];
      assert rest == s[k + 1..] + pad;
      LinesOfPadded(s[k + 1..], pad);
      var tail := Lines(rest);
      assert Lines(t) == [StripCr(t[..k])] + tail;
      assert Lines(t)[|Lines(t)| - 1] == tail[|tail| - 1];
    }
  }

  // ------------------------------------------------------------------
  // Splitting a line into words (str::split_whitespace)
  // ------------------------------------------------------------------

  /** A word of `split_whitespace`: non-empty and free of whitespace. */
  predicate IsToken(t: string) {
    t != [] && forall i :: 0 <= i < |t| ==> !IsWhitespace(t[i])
  }

  /** The length of the longest whitespace-free prefix. */
  function WordLength(s: string): (k: nat)
    ensures k <= |s|
    ensures forall i :: 0 <= i < k ==> !IsWhitespace(s[i])
    ensures k < |s| ==> IsWhitespace(s[k])
    decreases |s|
  {
    if s == [] || IsWhitespace(s[0]) then 0 else 1 + WordLength(s[1..])
  }

  /** Rust's `str::split_whitespace`: the maximal runs of non-whitespace
      characters, in order. */
  function Tokens(s: string): (tokens: seq<string>)
    ensures forall i :: 0 <= i < |tokens| ==> IsToken(tokens[i])
    decreases |s|
  {
    if s == [] then []
    else if IsWhitespace(s[0]) then Tokens(s[1..])
    else
      var k := WordLength(s);
      [s[..k]] + Tokens(s[k..])
  }

  /** Words joined by single spaces: the partner of `Tokens`. */
  function Join(words: seq<string>): string
    decreases |words|
  {
    if words == [] then ""
    else if |words| == 1 then words[0]
    else words[0] + " " + Join(words[1..])
  }

  lemma TokensOfToken(t: string)
    requires IsToken(t)
    ensures Tokens(t) == [t]
  {
    assert WordLength(t) == |t|;
    assert t[..|t|] == t;
    assert t[|t|..] == [];
  }

  /** A word followed by a space and more text: the word comes first. */
  lemma TokensOfWordThen(t: string, rest: string)
    requires IsToken(t)
    ensures Tokens(t + " " + rest) == [t] + Tokens(rest)
  {
    assert t + " " + rest == t + [' '] + rest;
    TokensAppend(t, ' ', rest);
    TokensOfToken(t);
  }

  /** A whitespace character separates the words before it from those after it. */
  lemma {:induction false} TokensAppend(a: string, w: char, b: string)
    requires IsWhitespace(w)
    ensures Tokens(a + [w] + b) == Tokens(a) + Tokens(b)
    decreases |a|
  {
    var s := a + [w] + b;
    if a == [] {
      assert s[1..] == b;
    } else if IsWhitespace(a[0]) {
      assert s[1..] == a[1..] + [w] + b;
      TokensAppend(a[1..], w, b);
    } else {
      var k := WordLength(a);
      assert s[k] == if k < |a| then a[k] else w;
      assert WordLength(s) == k;
      assert s[..k] == a[..k];
      assert s[k..] == a[k..] + [w] + b;
      TokensAppend(a[k..], w, b);
      AppendAssoc([a[..k]], Tokens(a[k..]), Tokens(b));
    }
  }

  /** Splitting words joined by spaces gives back the words. */
  lemma {:induction false} TokensOfJoin(words: seq<string>)
    requires forall i :: 0 <= i < |words| ==> IsToken(words[i])
    ensures Tokens(Join(words)) == words
    decreases |words|
  {
    if words == [] {
    } else if |words| == 1 {
      TokensOfToken(words[0]);
    } else {
      var rest := words[1..];
      assert Tokens(Join(words)) == Tokens(words[0]) + Tokens(Join(rest)) by {
        assert Join(words) == words[0] + [' '] + Join(rest);
        TokensAppend(words[0], ' ', Join(rest));
      }
      TokensOfToken(words[0]);
      assert forall i :: 0 <= i < |rest| ==> IsToken(rest[i]) by {
        forall i | 0 <= i < |rest| ensures IsToken(rest[i]) {
          assert rest[i] == words[i + 1];
        }
      }
      TokensOfJoin(rest);
      assert [words[0]] + rest == words;
    }
  }

  /** A text with a non-whitespace character has at least one word. */
  lemma {:induction false} TokensNonEmpty(s: string, i: nat)
    requires i < |s| && !IsWhitespace(s[i])
    ensures |Tokens(s)| >= 1
    decreases |s|
  {
    if IsWhitespace(s[0]) {
      assert s[1..][i - 1] == s[i];
      TokensNonEmpty(s[1..], i - 1);
    }
  }

  // ------------------------------------------------------------------
  // Concatenating strings (String::push_str in a loop)
  // ------------------------------------------------------------------

  /** The parts joined end to end. */
  function Concat<T>(parts: seq<seq<T>>): seq<T>
    decreases |parts|
  {
    if parts == [] then [] else Concat(parts[..|parts| - 1]) + parts[|parts| - 1]
  }

  lemma {:induction false} ConcatAppend<T>(p: seq<seq<T>>, q: seq<seq<T>>)
    ensures Concat(p + q) == Concat(p) + Concat(q)
    decreases |q|
  {
    if q == [] {
      assert p + q == p;
    } else {
      var init, last := q[..|q| - 1], q[|q| - 1];
      assert (p + q)[..|p + q| - 1] == p + init;
      assert (p + q)[|p + q| - 1] == last;
      ConcatAppend(p, init);
      AppendAssoc(Concat(p), Concat(init), last);
    }
  }

  /** Joining non-empty parts gives at least one element per part. */
  lemma {:induction false} ConcatLengthAtLeast<T>(parts: seq<seq<T>>)
    requires forall i :: 0 <= i < |parts| ==> parts[i] != []
    ensures |Concat(parts)| >= |parts|
    decreases |parts|
  {
    if parts != [] {
      ConcatLengthAtLeast(parts[..|parts| - 1]);
    }
  }

  /** Joining one-element parts gives their elements, one per part. */
  lemma {:induction false} ConcatSingletons<T>(parts: seq<seq<T>>)
    requires forall i :: 0 <= i < |parts| ==> |parts[i]| == 1
    ensures |Concat(parts)| == |parts|
    ensures forall i :: 0 <= i < |parts| ==> Concat(parts)[i] == parts[i][0]
    decreases |parts|
  {
    if parts != [] {
      var init := parts[..|parts| - 1];
      ConcatSingletons(init);
      assert forall i :: 0 <= i < |init| ==> Concat(parts)[i] == Concat(init)[i];
    }
  }

  /** The non-empty strings of a sequence, in order. */
  function NonEmpty(parts: seq<string>): (kept: seq<string>)
    ensures forall i :: 0 <= i < |kept| ==> kept[i] != []
    decreases |parts|
  {
    if parts == [] then []
    else
      var init := NonEmpty(parts[..|parts| - 1]);
      if parts[|parts| - 1] == [] then init else init + [parts[|parts| - 1]]
  }

  /** Empty strings contribute nothing to a concatenation. */
  lemma {:induction false} ConcatNonEmpty(parts: seq<string>)
    ensures Concat(NonEmpty(parts)) == Concat(parts)
    decreases |parts|
  {
    if parts != [] {
      var init := parts[..|parts| - 1];
      ConcatNonEmpty(init);
      var kept := NonEmpty(init);
      if parts[|parts| - 1] != [] {
        assert (kept + [parts[|parts| - 1]])[..|kept|] == kept;
      }
    }
  }

  /** A concatenation ends with its last part. */
  lemma ConcatEndsWithLast(parts: seq<string>)
    requires parts != []
    ensures EndsWith(Concat(parts), parts[|parts| - 1])
  {
    var last := parts[|parts| - 1];
    var c := Concat(parts);
    assert c == Concat(parts[..|parts| - 1]) + last;
    assert c[|c| - |last|..] == last;
  }

  // ------------------------------------------------------------------
  // Decimal formatting of an unsigned integer (`{}` in format!)
  // ------------------------------------------------------------------

  predicate IsDigit(c: char) { '0' <= c <= '9' }

  function DigitChar(d: nat): char
    requires d < 10
  {
    ('0' as int + d) as char
  }

  /** The number a string of decimal digits denotes. */
  function DecimalValue(s: string): int
    decreases |s|
  {
    if s == [] then 0 else DecimalValue(s[..|s| - 1]) * 10 + (s[|s| - 1] as int - '0' as int)
  }

  /** The shortest decimal numeral of `n`. */
  function Decimal(n: nat): (s: string)
    ensures s != [] && forall i :: 0 <= i < |s| ==> IsDigit(s[i])
    ensures |s| > 1 ==> s[0] != '0'
    ensures DecimalValue(s) == n
    decreases n
  {
    if n < 10 then [DigitChar(n)]
    else
      var init := Decimal(n / 10);
      var s := init + [DigitChar(n % 10)];
      assert s[..|s| - 1] == init;
      assert |init| == 1 ==> init[0] != '0';
      s
  }

  /** A numeral is a single word. */
  lemma DecimalIsToken(n: nat)
    ensures IsToken(Decimal(n))
  {
    var s := Decimal(n);
    forall j | 0 <= j < |s| ensures !IsWhitespace(s[j]) {
      assert IsDigit(s[j]);
    }
  }

  /** The numeral of a three-digit number: its hundreds, tens and units. */
  lemma ThreeDigits(n: nat)
    requires 100 <= n < 1000
    ensures Decimal(n) == [DigitChar(n / 100), DigitChar(n / 10 % 10), DigitChar(n % 10)]
  {
    assert Decimal(n / 10) == Decimal(n / 10 / 10) + [DigitChar(n / 10 % 10)];
    assert n / 10 / 10 == n / 100;
  }
}
