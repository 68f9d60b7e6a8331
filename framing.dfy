/**
 * `Content-Length` framing of JSON-RPC messages (the Header Part of the LSP
 * 3.17 Base Protocol): the frame encoder, the header parser and the resumable
 * byte-buffer decoder.
 */
module Framing {
  import opened Wrappers
  import opened JsText
  import opened Json

  /** The `\r\n\r\n` sequence that ends a header block. */
  const HeaderDelim: Bytes := [13, 10, 13, 10]
  const InitialCapacity: nat := 8192
  const CompactThreshold: nat := 4096

  predicate IsAscii(s: string) {
    forall i :: 0 <= i < |s| ==> s[i] as int < 128
  }

  /** UTF-8 encoding of an ASCII string: one byte per character. */
  function AsciiBytes(s: string): (b: Bytes)
    requires IsAscii(s)
    ensures |b| == |s| && forall i :: 0 <= i < |s| ==> b[i] as int == s[i] as int
  {
    seq(|s|, i requires 0 <= i < |s| => var c := s[i] as int; c as byte)
  }

  const Replacement: char := '\U{FFFD}'

  /** Byte `i` of `b` exists and lies in `lo..hi`: the continuation bytes the UTF-8 decoder accepts next. */
  predicate ContinuesIn(b: Bytes, i: nat, lo: int, hi: int) {
    i < |b| && lo <= b[i] as int <= hi
  }

  /**
   * One step of the UTF-8 decoder of the Encoding Standard (section 9.1.1): the
   * character at the head of `b` and the number of bytes it takes. A byte that cannot
   * start a sequence, or a sequence cut short by a byte out of range or by the end of
   * the input, gives U+FFFD for the bytes read so far; the offending byte is read again.
   */
  function Utf8Step(b: Bytes): (r: (char, nat))
    requires b != []
    ensures 1 <= r.1 <= |b| && r.1 <= 4
    ensures b[0] < 0x80 <==> r == ((b[0] as int) as char, 1)
    ensures r.0 != Replacement ==> forall i :: 1 <= i < r.1 ==> 0x80 <= b[i] < 0xC0
  {
    var b0 := b[0] as int;
    if b0 < 0x80 then (b0 as char, 1)
    else if 0xC2 <= b0 <= 0xDF then
      if ContinuesIn(b, 1, 0x80, 0xBF) then (((b0 - 0xC0) * 0x40 + (b[1] as int - 0x80)) as char, 2)
      else (Replacement, 1)
    else if 0xE0 <= b0 <= 0xEF then
      var lo := if b0 == 0xE0 then 0xA0 else 0x80;
      var hi := if b0 == 0xED then 0x9F else 0xBF;
      if !ContinuesIn(b, 1, lo, hi) then (Replacement, 1)
      else if !ContinuesIn(b, 2, 0x80, 0xBF) then (Replacement, 2)
      else (((b0 - 0xE0) * 0x1000 + (b[1] as int - 0x80) * 0x40 + (b[2] as int - 0x80)) as char, 3)
    else if 0xF0 <= b0 <= 0xF4 then
      var lo := if b0 == 0xF0 then 0x90 else 0x80;
      var hi := if b0 == 0xF4 then 0x8F else 0xBF;
      if !ContinuesIn(b, 1, lo, hi) then (Replacement, 1)
      else if !ContinuesIn(b, 2, 0x80, 0xBF) then (Replacement, 2)
      else if !ContinuesIn(b, 3, 0x80, 0xBF) then (Replacement, 3)
      else (((b0 - 0xF0) * 0x40000 + (b[1] as int - 0x80) * 0x1000 + (b[2] as int - 0x80) * 0x40 + (b[3] as int - 0x80)) as char, 4)
    else (Replacement, 1)
  }

  /** UTF-8 decoding, step by step; never more characters than bytes. */
  function Utf8Decode(b: Bytes): (s: string)
    decreases |b|
    ensures |s| <= |b|
  {
    if b == [] then [] else
      var step := Utf8Step(b);
      [step.0] + Utf8Decode(b[step.1..])
  }

  const ByteOrderMark: Bytes := [0xEF, 0xBB, 0xBF]

  /**
   * `decoder.decode(bytes)` of a `TextDecoder` for UTF-8 with its default options: a
   * leading byte order mark is dropped, the rest decoded as UTF-8.
   */
  function DecodeHeader(b: Bytes): (s: string)
    ensures |b| >= 3 && b[..3] == ByteOrderMark ==> s == Utf8Decode(b[3..])
    ensures !(|b| >= 3 && b[..3] == ByteOrderMark) ==> s == Utf8Decode(b)
  {
    if |b| >= 3 && b[..3] == ByteOrderMark then Utf8Decode(b[3..]) else Utf8Decode(b)
  }

  /** ASCII bytes decode to themselves, whatever follows them. */
  lemma {:induction false} Utf8DecodeAscii(s: string, rest: Bytes)
    requires IsAscii(s)
    decreases |s|
    ensures Utf8Decode(AsciiBytes(s) + rest) == s + Utf8Decode(rest)
  {
    if s != [] {
      var b := AsciiBytes(s) + rest;
      AsciiBytesTail(s, rest);
      DecodeAsciiHead(b, s[0]);
      Utf8DecodeAscii(s[1..], rest);
      assert s + Utf8Decode(rest) == [s[0]] + (s[1..] + Utf8Decode(rest));
    } else {
      assert AsciiBytes(s) + rest == rest;
    }
  }

  lemma AsciiBytesTail(s: string, rest: Bytes)
    requires IsAscii(s) && s != []
    ensures (AsciiBytes(s) + rest)[0] as int == s[0] as int
    ensures (AsciiBytes(s) + rest)[1..] == AsciiBytes(s[1..]) + rest
  {
    assert AsciiBytes(s)[1..] == AsciiBytes(s[1..]);
  }

  lemma DecodeAsciiHead(b: Bytes, c: char)
    requires b != [] && b[0] as int == c as int && c as int < 0x80
    ensures Utf8Decode(b) == [c] + Utf8Decode(b[1..])
  {
    assert Utf8Step(b) == (c, 1);
  }

  lemma DecodeAscii(s: string)
    requires IsAscii(s)
    ensures DecodeHeader(AsciiBytes(s)) == s
  {
    Utf8DecodeAscii(s, []);
    assert AsciiBytes(s) + [] == AsciiBytes(s);
    if |s| >= 3 {
      assert AsciiBytes(s)[0] as int == s[0] as int < 128;
    }
  }

  /** A two-byte sequence decodes to the character it encodes: `C2 A0` is U+00A0, the no-break space. */
  lemma NoBreakSpaceDecoded(rest: Bytes)
    ensures Utf8Decode([0xC2, 0xA0] + rest) == ['\U{A0}'] + Utf8Decode(rest)
  {
    var b: Bytes := [0xC2, 0xA0] + rest;
    assert Utf8Step(b) == ('\U{A0}', 2);
    assert b[2..] == rest;
  }

  /** A byte that cannot start a sequence decodes to U+FFFD on its own. */
  lemma InvalidByteReplaced(x: byte, rest: Bytes)
    requires 0x80 <= x < 0xC2 || 0xF5 <= x
    ensures Utf8Decode([x] + rest) == [Replacement] + Utf8Decode(rest)
  {
    assert ([x] + rest)[1..] == rest;
  }

  const ContentLengthPrefix: string := "Content-Length: "

  /** The header line of a frame whose body has `n` bytes, without its terminator. */
  function HeaderLine(n: nat): (s: string)
    ensures IsAscii(s) && '\r' !in s
  {
    var s := ContentLengthPrefix + NatToString(n);
    assert forall i :: |ContentLengthPrefix| <= i < |s| ==> IsDigit(s[i]);
    s
  }

  /** `encodeJsonRpcMessage`: the header `Content-Length: n\r\n\r\n` followed by the `n` body bytes. */
  function EncodeJsonRpcMessage(codec: JsonCodec, message: Json): (frame: Bytes)
    ensures |frame| == |HeaderLine(|codec.serialize(message)|)| + 4 + |codec.serialize(message)|
  {
    var body := codec.serialize(message);
    AsciiBytes(HeaderLine(|body|)) + HeaderDelim + body
  }

  /** The lines of a header block scanned by `tryParseContentLength`, first match wins. */
  function ContentLengthOfLines(lines: seq<string>): Option<int>
  {
    if lines == [] then None
    else
      var line := lines[0];
      var index := IndexOf(line, ":");
      if index < 0 then ContentLengthOfLines(lines[1..])
      else if AsciiLower(Trim(line[..index])) != "content-length" then ContentLengthOfLines(lines[1..])
      else ParseInt(Trim(line[index + 1..]))
  }

  /** `tryParseContentLength`: the declared length of a header block, or None (null). */
  function TryParseContentLength(headersText: string): Option<int>
  {
    ContentLengthOfLines(Split(headersText, "\r\n"))
  }

  /** The first line whose trimmed, lower-cased key is `content-length` decides the result. */
  lemma {:induction false} ContentLengthFirstMatch(lines: seq<string>, k: nat)
    requires k < |lines|
    requires forall j :: 0 <= j < k ==> !IsContentLengthLine(lines[j])
    requires IsContentLengthLine(lines[k])
    ensures ContentLengthOfLines(lines) == ParseInt(Trim(lines[k][IndexOf(lines[k], ":") + 1..]))
  {
    if k > 0 {
      assert !IsContentLengthLine(lines[0]);
      ContentLengthFirstMatch(lines[1..], k - 1);
    }
  }

  /** With no `content-length` key on any line, the result is None. */
  lemma {:induction false} ContentLengthAbsent(lines: seq<string>)
    requires forall j :: 0 <= j < |lines| ==> !IsContentLengthLine(lines[j])
    ensures ContentLengthOfLines(lines) == None
  {
    if lines != [] {
      assert !IsContentLengthLine(lines[0]);
      ContentLengthAbsent(lines[1..]);
    }
  }

  predicate IsContentLengthLine(line: string) {
    var index := IndexOf(line, ":");
    index >= 0 && AsciiLower(Trim(line[..index])) == "content-length"
  }

  /** The header the encoder writes declares exactly the body length. */
  lemma HeaderLineParses(n: nat)
    ensures TryParseContentLength(HeaderLine(n)) == Some(n)
  {
    HeaderLineNoBreak(n);
    HeaderLineColon(n);
    HeaderLineKey(n);
    HeaderLineValue(n);
    SingleContentLengthLine(HeaderLine(n), 14);
  }

  lemma HeaderLineNoBreak(n: nat)
    ensures IndexOf(HeaderLine(n), "\r\n") == -1
  {
    NoOccurrenceOfHead(HeaderLine(n), "\r\n");
  }

  lemma HeaderLineKey(n: nat)
    ensures AsciiLower(Trim(HeaderLine(n)[..14])) == "content-length"
  {
    assert HeaderLine(n)[..14] == "Content-Length";
    ContentLengthKey();
  }

  /** A header block of one line whose key is `content-length` declares that line's value. */
  lemma SingleContentLengthLine(line: string, k: nat)
    requires IndexOf(line, "\r\n") == -1
    requires IndexOf(line, ":") == k
    requires AsciiLower(Trim(line[..k])) == "content-length"
    ensures TryParseContentLength(line) == ParseInt(Trim(line[k + 1..]))
  {
    SplitWithoutSeparator(line, "\r\n");
    OneContentLengthLine(line, k);
  }

  lemma OneContentLengthLine(line: string, k: nat)
    requires IndexOf(line, ":") == k
    requires AsciiLower(Trim(line[..k])) == "content-length"
    ensures ContentLengthOfLines([line]) == ParseInt(Trim(line[k + 1..]))
  {
    var lines := [line];
    assert lines[0] == line;
  }

  lemma ContentLengthKey()
    ensures AsciiLower(Trim("Content-Length")) == "content-length"
  {
    var key := "Content-Length";
    KeyTrimmed();
    assert AsciiLower(key) == "content-length" by {
      KeyLowered();
    }
  }

  lemma KeyTrimmed()
    ensures Trim("Content-Length") == "Content-Length"
  {
    var key := "Content-Length";
    assert key[0] == 'C' && key[13] == 'h';
    TrimIdentity(key);
  }

  lemma KeyLowered()
    ensures AsciiLower("Content-Length") == "content-length"
  {
    var lower := AsciiLower("Content-Length");
    assert lower[0] == 'c' && lower[8] == 'l';
  }

  lemma HeaderLineColon(n: nat)
    ensures IndexOf(HeaderLine(n), ":") == 14
  {
    var line := HeaderLine(n);
    assert line[14..15] == ":";
    forall j | 0 <= j < 14 ensures !OccursAt(line, ":", j) {
      assert line[j..j + 1] == [line[j]];
    }
    IndexOfUnique(line, ":", 14);
  }

  lemma HeaderLineValue(n: nat)
    ensures ParseInt(Trim(HeaderLine(n)[15..])) == Some(n)
  {
    HeaderLineDigits(n);
    ParseIntNatToString(n);
  }

  lemma HeaderLineDigits(n: nat)
    ensures Trim(HeaderLine(n)[15..]) == NatToString(n)
  {
    var digits := NatToString(n);
    assert HeaderLine(n)[15..] == " " + digits;
    assert IsDigit(digits[0]) && IsDigit(digits[|digits| - 1]);
    TrimLeadingSpace(' ', digits);
  }

  /**
   * A value sent after a no-break space (the UTF-8 bytes `C2 A0`) is still read: the
   * space decodes to U+00A0, which `trim` removes.
   */
  lemma NoBreakSpaceBeforeValue(n: nat)
    ensures HeaderLength(AsciiBytes("Content-Length:") + [0xC2, 0xA0] + AsciiBytes(NatToString(n))) == Some(n)
  {
    var digits := NatToString(n);
    NoBreakSpaceLine(digits);
    NoBreakSpaceParses(digits);
    ParseIntNatToString(n);
  }

  lemma NoBreakSpaceParses(digits: string)
    requires digits != [] && IsDigit(digits[0]) && IsDigit(digits[|digits| - 1])
    requires '\r' !in "Content-Length:" + ['\U{A0}'] + digits
    ensures TryParseContentLength("Content-Length:" + ['\U{A0}'] + digits) == ParseInt(digits)
  {
    var line := "Content-Length:" + ['\U{A0}'] + digits;
    NoOccurrenceOfHead(line, "\r\n");
    NoBreakSpaceKey(line);
    NoBreakSpaceValue(digits);
    SingleContentLengthLine(line, 14);
  }

  lemma NoBreakSpaceKey(line: string)
    requires |line| > 15 && line[..15] == "Content-Length:"
    ensures IndexOf(line, ":") == 14
    ensures AsciiLower(Trim(line[..14])) == "content-length"
  {
    NoBreakSpaceColon(line);
    assert line[..14] == "Content-Length";
    ContentLengthKey();
  }

  lemma NoBreakSpaceValue(digits: string)
    requires digits != [] && IsDigit(digits[0]) && IsDigit(digits[|digits| - 1])
    ensures Trim(("Content-Length:" + ['\U{A0}'] + digits)[15..]) == digits
  {
    assert ("Content-Length:" + ['\U{A0}'] + digits)[15..] == ['\U{A0}'] + digits;
    TrimLeadingSpace('\U{A0}', digits);
  }

  lemma NoBreakSpaceLine(digits: string)
    requires digits != [] && forall i :: 0 <= i < |digits| ==> IsDigit(digits[i])
    ensures IsAscii(digits)
    ensures DecodeHeader(AsciiBytes("Content-Length:") + [0xC2, 0xA0] + AsciiBytes(digits)) == "Content-Length:" + ['\U{A0}'] + digits
    ensures '\r' !in "Content-Length:" + ['\U{A0}'] + digits
    ensures IsDigit(digits[0]) && IsDigit(digits[|digits| - 1])
  {
    var key := "Content-Length:";
    assert IsAscii(key) && key[0] == 'C';
    NoBreakSpaceDecoded(AsciiBytes(digits));
    ValueAfterByte(key, [0xC2, 0xA0], '\U{A0}', digits);
    AsciiHeadNoMark(AsciiBytes(key) + [0xC2, 0xA0] + AsciiBytes(digits), key[0]);
    var line := key + ['\U{A0}'] + digits;
    forall i | 0 <= i < |line| ensures line[i] != '\r' {
      if i >= 16 { assert line[i] == digits[i - 16]; }
    }
  }

  /** An ASCII key, one encoded character and an ASCII value decode to the key, the character and the value. */
  lemma ValueAfterByte(key: string, enc: Bytes, c: char, value: string)
    requires IsAscii(key) && IsAscii(value)
    requires Utf8Decode(enc + AsciiBytes(value)) == [c] + Utf8Decode(AsciiBytes(value))
    ensures Utf8Decode(AsciiBytes(key) + enc + AsciiBytes(value)) == key + [c] + value
  {
    assert AsciiBytes(key) + enc + AsciiBytes(value) == AsciiBytes(key) + (enc + AsciiBytes(value));
    Utf8DecodeAscii(key, enc + AsciiBytes(value));
    Utf8DecodeAscii(value, []);
    assert AsciiBytes(value) + [] == AsciiBytes(value);
  }

  /** Bytes starting with an ASCII byte carry no byte order mark. */
  lemma AsciiHeadNoMark(b: Bytes, c: char)
    requires b != [] && b[0] as int == c as int < 0x80
    ensures DecodeHeader(b) == Utf8Decode(b)
  {
    if |b| >= 3 {
      assert b[..3][0] == b[0];
    }
  }

  lemma NoBreakSpaceColon(line: string)
    requires |line| > 15 && line[..15] == "Content-Length:"
    ensures IndexOf(line, ":") == 14
  {
    assert line[14..15] == ":";
    forall j | 0 <= j < 14 ensures !OccursAt(line, ":", j) {
      assert line[j..j + 1] == [line[j]];
    }
    IndexOfUnique(line, ":", 14);
  }

  /** What a decode run leaves: the emitted messages and the unconsumed bytes. */
  datatype Drained = Drained(msgs: seq<Json>, rest: Bytes)

  /** Messages emitted before a later run of the loop, in front of what that run emits. */
  function Prepend(ms: seq<Json>, d: Drained): (r: Drained)
    ensures r.rest == d.rest && |r.msgs| == |ms| + |d.msgs|
  {
    Drained(ms + d.msgs, d.rest)
  }

  lemma PrependPrepend(a: seq<Json>, b: seq<Json>, d: Drained)
    ensures Prepend(a, Prepend(b, d)) == Prepend(a + b, d)
  {
    assert a + (b + d.msgs) == (a + b) + d.msgs;
  }

  /** A body that fails to parse is dropped. */
  function Emit(parsed: Option<Json>): seq<Json> {
    if parsed.Some? then [parsed.value] else []
  }

  /** The length a header block declares: its bytes decoded as UTF-8, then `tryParseContentLength`. */
  function HeaderLength(header: Bytes): Option<int> {
    TryParseContentLength(DecodeHeader(header))
  }

  /** What one pass of the decode loop finds at the head of the window. */
  datatype Frame =
    | NoHeader                              // no complete `\r\n\r\n` yet
    | NoLength(next: nat)                   // header without a usable length: skip to `next`
    | Incomplete                            // header complete, body not yet
    | Complete(bodyStart: nat, bodyEnd: nat) // body is `w[bodyStart..bodyEnd]`

  function Scan(w: Bytes, lengthOf: Bytes -> Option<int>): (f: Frame)
    ensures f.NoLength? ==> 4 <= f.next <= |w|
    ensures f.Complete? ==> 4 <= f.bodyStart <= f.bodyEnd <= |w|
  {
    var h := IndexOf(w, HeaderDelim);
    if h < 0 then NoHeader
    else
      var len := lengthOf(w[..h]);
      if len.None? || len.value < 0 then NoLength(h + 4)
      else if |w| < h + 4 + len.value then Incomplete
      else Complete(h + 4, h + 4 + len.value)
  }

  /** Once the head of the window is decided, more bytes after it do not change the decision. */
  lemma ScanAppend(w: Bytes, x: Bytes, lengthOf: Bytes -> Option<int>)
    requires !Scan(w, lengthOf).NoHeader? && !Scan(w, lengthOf).Incomplete?
    ensures Scan(w + x, lengthOf) == Scan(w, lengthOf)
  {
    var h := IndexOf(w, HeaderDelim);
    IndexOfAppend(w, x, HeaderDelim);
    assert (w + x)[..h] == w[..h];
  }

  /**
   * The decode loop of `push` as a function of the unconsumed window. A header declaring
   * a negative length is skipped like one declaring none (see `NegativeLengthStalls`).
   */
  function Drain(w: Bytes, lengthOf: Bytes -> Option<int>, parse: Bytes -> Option<Json>): (r: Drained)
    decreases |w|
  {
    match Scan(w, lengthOf)
    case NoHeader => Drained([], w)
    case NoLength(next) => Drain(w[next..], lengthOf, parse)
    case Incomplete => Drained([], w)
    case Complete(a, b) => Prepend(Emit(parse(w[a..b])), Drain(w[b..], lengthOf, parse))
  }

  /** Decoding a window and then more bytes equals decoding the longer window at once. */
  lemma {:induction false} DrainAppend(w: Bytes, x: Bytes, lengthOf: Bytes -> Option<int>, parse: Bytes -> Option<Json>)
    decreases |w|
    ensures Drain(w + x, lengthOf, parse) == Prepend(Drain(w, lengthOf, parse).msgs, Drain(Drain(w, lengthOf, parse).rest + x, lengthOf, parse))
  {
    match Scan(w, lengthOf)
    case NoHeader =>
      PrependNothing(Drain(w + x, lengthOf, parse));
    case Incomplete =>
      PrependNothing(Drain(w + x, lengthOf, parse));
    case NoLength(next) =>
      DrainAppendSkip(w, x, next, lengthOf, parse);
      DrainAppend(w[next..], x, lengthOf, parse);
    case Complete(a, b) =>
      DrainAppendBody(w, x, a, b, lengthOf, parse);
      DrainAppend(w[b..], x, lengthOf, parse);
      var d := Drain(w[b..], lengthOf, parse);
      PrependPrepend(Emit(parse(w[a..b])), d.msgs, Drain(d.rest + x, lengthOf, parse));
  }

  lemma PrependNothing(d: Drained)
    ensures Prepend([], d) == d
  {
    assert [] + d.msgs == d.msgs;
  }

  lemma DrainAppendSkip(w: Bytes, x: Bytes, next: nat, lengthOf: Bytes -> Option<int>, parse: Bytes -> Option<Json>)
    requires Scan(w, lengthOf) == NoLength(next)
    ensures Drain(w, lengthOf, parse) == Drain(w[next..], lengthOf, parse)
    ensures Drain(w + x, lengthOf, parse) == Drain(w[next..] + x, lengthOf, parse)
  {
    ScanAppend(w, x, lengthOf);
    assert (w + x)[next..] == w[next..] + x;
  }

  lemma DrainAppendBody(w: Bytes, x: Bytes, a: nat, b: nat, lengthOf: Bytes -> Option<int>, parse: Bytes -> Option<Json>)
    requires Scan(w, lengthOf) == Complete(a, b)
    ensures Drain(w, lengthOf, parse) == Prepend(Emit(parse(w[a..b])), Drain(w[b..], lengthOf, parse))
    ensures Drain(w + x, lengthOf, parse) == Prepend(Emit(parse(w[a..b])), Drain(w[b..] + x, lengthOf, parse))
  {
    var wx := w + x;
    ScanAppend(w, x, lengthOf);
    DrainComplete(wx, a, b, lengthOf, parse);
    assert wx[a..b] == w[a..b];
    assert wx[b..] == w[b..] + x;
  }

  lemma DrainComplete(w: Bytes, a: nat, b: nat, lengthOf: Bytes -> Option<int>, parse: Bytes -> Option<Json>)
    requires Scan(w, lengthOf) == Complete(a, b)
    ensures Drain(w, lengthOf, parse) == Prepend(Emit(parse(w[a..b])), Drain(w[b..], lengthOf, parse))
  {
  }

  /** In an encoded frame the first delimiter ends the header line. */
  lemma FrameDelim(codec: JsonCodec, m: Json)
    ensures IndexOf(EncodeJsonRpcMessage(codec, m), HeaderDelim) == |HeaderLine(|codec.serialize(m)|)|
  {
    var line := HeaderLine(|codec.serialize(m)|);
    NoCarriageReturn(line);
    DelimAfter(AsciiBytes(line), codec.serialize(m));
  }

  lemma NoCarriageReturn(line: string)
    requires IsAscii(line) && '\r' !in line
    ensures 13 !in AsciiBytes(line)
  {
    var b := AsciiBytes(line);
    forall j | 0 <= j < |b| ensures b[j] != 13 {
      assert line[j] in line;
    }
  }

  /** A delimiter placed after bytes that hold no `\r` is the first one. */
  lemma DelimAfter(head: Bytes, rest: Bytes)
    requires 13 !in head
    ensures IndexOf(head + HeaderDelim + rest, HeaderDelim) == |head|
  {
    var w := head + HeaderDelim + rest;
    var h := |head|;
    assert w[h..h + 4] == HeaderDelim;
    forall j | 0 <= j < h ensures !OccursAt(w, HeaderDelim, j) {
      assert w[j] == head[j] && head[j] in head;
      assert w[j..j + 4][0] == w[j];
    }
    IndexOfUnique(w, HeaderDelim, h);
  }

  /** The header of an encoded frame declares the length of its body. */
  lemma FrameLength(codec: JsonCodec, m: Json)
    ensures var n := |codec.serialize(m)|;
            HeaderLength(EncodeJsonRpcMessage(codec, m)[..|HeaderLine(n)|]) == Some(n)
  {
    var n := |codec.serialize(m)|;
    var line := HeaderLine(n);
    assert EncodeJsonRpcMessage(codec, m)[..|line|] == AsciiBytes(line);
    DecodeAscii(line);
    HeaderLineParses(n);
  }

  /** The decode loop sees an encoded frame as one complete frame whose body is the serialized message. */
  lemma ScanFrame(codec: JsonCodec, m: Json)
    ensures var frame := EncodeJsonRpcMessage(codec, m);
            var h := |HeaderLine(|codec.serialize(m)|)|;
            Scan(frame, HeaderLength) == Complete(h + 4, |frame|)
  {
    var line := HeaderLine(|codec.serialize(m)|);
    NoCarriageReturn(line);
    HeaderBytesLength(|codec.serialize(m)|);
    ScanEncoded(AsciiBytes(line), codec.serialize(m), HeaderLength);
  }

  /** The header bytes the encoder writes declare the body length. */
  lemma HeaderBytesLength(n: nat)
    ensures HeaderLength(AsciiBytes(HeaderLine(n))) == Some(n)
  {
    DecodeAscii(HeaderLine(n));
    HeaderLineParses(n);
  }

  /** A header without `\r` that declares the body's length, the delimiter, then the body: one complete frame. */
  lemma ScanEncoded(header: Bytes, body: Bytes, lengthOf: Bytes -> Option<int>)
    requires 13 !in header && lengthOf(header) == Some(|body|)
    ensures Scan(header + HeaderDelim + body, lengthOf) == Complete(|header| + 4, |header| + 4 + |body|)
  {
    var w := header + HeaderDelim + body;
    DelimAfter(header, body);
    assert w[..|header|] == header;
    ScanWhole(w, |header|, |body|, lengthOf);
  }

  /** A window that starts with one whole frame: header of `h` bytes declaring `n`, delimiter, `n` body bytes. */
  predicate OneFrame(w: Bytes, h: nat, n: nat, lengthOf: Bytes -> Option<int>) {
    IndexOf(w, HeaderDelim) == h && lengthOf(w[..h]) == Some(n) && |w| == h + 4 + n
  }

  lemma EncodedShape(codec: JsonCodec, m: Json)
    ensures OneFrame(EncodeJsonRpcMessage(codec, m), |HeaderLine(|codec.serialize(m)|)|, |codec.serialize(m)|, HeaderLength)
  {
    FrameDelim(codec, m);
    FrameLength(codec, m);
  }

  lemma FrameBody(codec: JsonCodec, m: Json)
    ensures var frame := EncodeJsonRpcMessage(codec, m);
            frame[|HeaderLine(|codec.serialize(m)|)| + 4..|frame|] == codec.serialize(m)
  {
  }

  lemma ScanWhole(w: Bytes, h: nat, n: nat, lengthOf: Bytes -> Option<int>)
    requires OneFrame(w, h, n, lengthOf)
    ensures Scan(w, lengthOf) == Complete(h + 4, |w|)
  {
  }

  /** Round trip: the frame of `m` decodes to exactly `[m]` and leaves nothing behind. */
  lemma FrameRoundTrip(codec: JsonCodec, m: Json)
    requires Sound(codec)
    ensures Drain(EncodeJsonRpcMessage(codec, m), HeaderLength, codec.parse) == Drained([m], [])
  {
    var frame := EncodeJsonRpcMessage(codec, m);
    var h := |HeaderLine(|codec.serialize(m)|)|;
    ScanFrame(codec, m);
    FrameBody(codec, m);
    DrainLastFrame(frame, h + 4, HeaderLength, codec.parse);
    assert codec.parse(codec.serialize(m)) == Some(m);
  }

  /** Any strict prefix of a frame is held back whole: nothing is emitted and nothing consumed. */
  lemma FramePrefixWaits(codec: JsonCodec, m: Json, k: nat)
    requires k < |EncodeJsonRpcMessage(codec, m)|
    ensures var p := EncodeJsonRpcMessage(codec, m)[..k];
            Drain(p, HeaderLength, codec.parse) == Drained([], p)
  {
    EncodedShape(codec, m);
    PrefixWaits(EncodeJsonRpcMessage(codec, m), |HeaderLine(|codec.serialize(m)|)|, |codec.serialize(m)|, k, HeaderLength, codec.parse);
  }

  /** A strict prefix of a window holding exactly one frame emits nothing and consumes nothing. */
  lemma PrefixWaits(w: Bytes, h: nat, n: nat, k: nat, lengthOf: Bytes -> Option<int>, parse: Bytes -> Option<Json>)
    requires OneFrame(w, h, n, lengthOf)
    requires k < |w|
    ensures Drain(w[..k], lengthOf, parse) == Drained([], w[..k])
  {
    var p := w[..k];
    if k < h + 4 {
      PrefixBeforeDelim(w, k);
      DrainNoHeader(p, lengthOf, parse);
    } else {
      PrefixKeepsDelim(w, k);
      assert p[..h] == w[..h];
      DrainIncomplete(p, h, n, lengthOf, parse);
    }
  }

  /** One pass of the decode loop over a complete frame keeps the loop invariant. */
  lemma AdvanceFrame(total: Bytes, messages: seq<Json>, w: Bytes, lengthOf: Bytes -> Option<int>, parse: Bytes -> Option<Json>)
    requires Drain(total, lengthOf, parse) == Prepend(messages, Drain(w, lengthOf, parse))
    requires Scan(w, lengthOf).Complete?
    ensures var f := Scan(w, lengthOf);
            Drain(total, lengthOf, parse) == Prepend(messages + Emit(parse(w[f.bodyStart..f.bodyEnd])), Drain(w[f.bodyEnd..], lengthOf, parse))
  {
    var f := Scan(w, lengthOf);
    PrependPrepend(messages, Emit(parse(w[f.bodyStart..f.bodyEnd])), Drain(w[f.bodyEnd..], lengthOf, parse));
  }

  lemma NothingMore(messages: seq<Json>, w: Bytes)
    ensures Prepend(messages, Drained([], w)) == Drained(messages, w)
  {
    assert messages + [] == messages;
  }

  lemma DrainNoHeader(w: Bytes, lengthOf: Bytes -> Option<int>, parse: Bytes -> Option<Json>)
    requires IndexOf(w, HeaderDelim) == -1
    ensures Drain(w, lengthOf, parse) == Drained([], w)
  {
  }

  lemma DrainIncomplete(w: Bytes, h: nat, n: nat, lengthOf: Bytes -> Option<int>, parse: Bytes -> Option<Json>)
    requires IndexOf(w, HeaderDelim) == h && lengthOf(w[..h]) == Some(n) && |w| < h + 4 + n
    ensures Drain(w, lengthOf, parse) == Drained([], w)
  {
  }

  /** A window that is exactly one complete frame yields its body's message, if any, and nothing remains. */
  lemma DrainLastFrame(w: Bytes, a: nat, lengthOf: Bytes -> Option<int>, parse: Bytes -> Option<Json>)
    requires Scan(w, lengthOf) == Complete(a, |w|)
    ensures Drain(w, lengthOf, parse) == Drained(Emit(parse(w[a..|w|])), [])
  {
    DrainComplete(w, a, |w|, lengthOf, parse);
    DrainEmpty(w[|w|..], lengthOf, parse);
    assert Emit(parse(w[a..|w|])) + [] == Emit(parse(w[a..|w|]));
  }

  lemma DrainEmpty(w: Bytes, lengthOf: Bytes -> Option<int>, parse: Bytes -> Option<Json>)
    requires w == []
    ensures Drain(w, lengthOf, parse) == Drained([], [])
  {
    DrainNoHeader(w, lengthOf, parse);
  }

  /** A prefix cut before the first delimiter is complete contains no delimiter. */
  lemma PrefixBeforeDelim(w: Bytes, k: nat)
    requires k <= |w|
    requires IndexOf(w, HeaderDelim) < 0 || k < IndexOf(w, HeaderDelim) + 4
    ensures IndexOf(w[..k], HeaderDelim) == -1
  {
    forall j | 0 <= j ensures !OccursAt(w[..k], HeaderDelim, j) {
      if j + 4 <= k {
        assert !OccursAt(w, HeaderDelim, j);
        assert w[..k][j..j + 4] == w[j..j + 4];
      }
    }
  }

  /** A prefix that contains the first delimiter has it at the same place. */
  lemma PrefixKeepsDelim(w: Bytes, k: nat)
    requires k <= |w|
    requires 0 <= IndexOf(w, HeaderDelim) && IndexOf(w, HeaderDelim) + 4 <= k
    ensures IndexOf(w[..k], HeaderDelim) == IndexOf(w, HeaderDelim)
  {
    var h := IndexOf(w, HeaderDelim);
    assert w == w[..k] + w[k..];
    assert w[..k][h..h + 4] == w[h..h + 4];
    forall j | 0 <= j < h ensures !OccursAt(w[..k], HeaderDelim, j) {
      assert !OccursAt(w, HeaderDelim, j);
      assert w[..k][j..j + 4] == w[j..j + 4];
    }
    IndexOfUnique(w[..k], HeaderDelim, h);
  }

  /** Chunk independence: a frame split at any point yields `[]` for the first part, then `[m]`. */
  lemma SplitFrameDecodes(codec: JsonCodec, m: Json, k: nat)
    requires Sound(codec)
    requires k < |EncodeJsonRpcMessage(codec, m)|
    ensures var frame := EncodeJsonRpcMessage(codec, m);
            && Drain(frame[..k], HeaderLength, codec.parse) == Drained([], frame[..k])
            && Drain(frame[..k] + frame[k..], HeaderLength, codec.parse) == Drained([m], [])
  {
    var frame := EncodeJsonRpcMessage(codec, m);
    FramePrefixWaits(codec, m, k);
    assert frame[..k] + frame[k..] == frame;
    FrameRoundTrip(codec, m);
  }

  /** What a connection writes for a sequence of messages: one frame per message, back to back. */
  function Frames(frame: Json -> Bytes, ms: seq<Json>): (w: Bytes)
    ensures ms == [] ==> w == []
  {
    if ms == [] then [] else Frames(frame, ms[..|ms| - 1]) + frame(ms[|ms| - 1])
  }

  /** A decoded window followed by one frame that decodes alone decodes to one more message. */
  lemma DrainOneMore(w: Bytes, e: Bytes, init: seq<Json>, m: Json, lengthOf: Bytes -> Option<int>, parse: Bytes -> Option<Json>)
    requires Drain(w, lengthOf, parse) == Drained(init, [])
    requires Drain(e, lengthOf, parse) == Drained([m], [])
    ensures Drain(w + e, lengthOf, parse) == Drained(init + [m], [])
  {
    DrainAppend(w, e, lengthOf, parse);
    assert [] + e == e;
  }

  /** One more frame that decodes alone to its message adds that message to what the frames before it decode to. */
  lemma DrainFramesStep(frame: Json -> Bytes, ms: seq<Json>, lengthOf: Bytes -> Option<int>, parse: Bytes -> Option<Json>)
    requires ms != []
    requires Drain(Frames(frame, ms[..|ms| - 1]), lengthOf, parse) == Drained(ms[..|ms| - 1], [])
    requires Drain(frame(ms[|ms| - 1]), lengthOf, parse) == Drained([ms[|ms| - 1]], [])
    ensures Drain(Frames(frame, ms), lengthOf, parse) == Drained(ms, [])
  {
    var init := ms[..|ms| - 1];
    var m := ms[|ms| - 1];
    DrainOneMore(Frames(frame, init), frame(m), init, m, lengthOf, parse);
    ButLastAndLast(ms);
  }

  lemma ButLastAndLast(ms: seq<Json>)
    requires ms != []
    ensures ms[..|ms| - 1] + [ms[|ms| - 1]] == ms
  {
  }

  /** Frames that each decode alone to their message decode, back to back, to all the messages. */
  lemma {:induction false} DrainFrames(frame: Json -> Bytes, ms: seq<Json>, lengthOf: Bytes -> Option<int>, parse: Bytes -> Option<Json>)
    requires forall k :: 0 <= k < |ms| ==> Drain(frame(ms[k]), lengthOf, parse) == Drained([ms[k]], [])
    decreases |ms|
    ensures Drain(Frames(frame, ms), lengthOf, parse) == Drained(ms, [])
  {
    if ms == [] {
      DrainEmpty(Frames(frame, ms), lengthOf, parse);
    } else {
      var init := ms[..|ms| - 1];
      assert forall k :: 0 <= k < |init| ==> init[k] == ms[k];
      DrainFrames(frame, init, lengthOf, parse);
      DrainFramesStep(frame, ms, lengthOf, parse);
    }
  }

  /** The peer's decoder recovers exactly the messages written, in order, with nothing left over. */
  lemma FramesDecode(codec: JsonCodec, ms: seq<Json>)
    requires Sound(codec)
    ensures Drain(Frames(m => EncodeJsonRpcMessage(codec, m), ms), HeaderLength, codec.parse) == Drained(ms, [])
  {
    var frame := m => EncodeJsonRpcMessage(codec, m);
    forall m ensures Drain(frame(m), HeaderLength, codec.parse) == Drained([m], []) {
      FrameRoundTrip(codec, m);
    }
    DrainFrames(frame, ms, HeaderLength, codec.parse);
  }

  /** Malformed-header recovery: a header block with no usable length is skipped entirely. */
  lemma SkipsHeaderWithoutLength(header: Bytes, rest: Bytes, lengthOf: Bytes -> Option<int>, parse: Bytes -> Option<Json>)
    requires IndexOf(header + HeaderDelim, HeaderDelim) == |header|
    requires lengthOf(header) == None
    ensures Drain(header + HeaderDelim + rest, lengthOf, parse) == Drain(rest, lengthOf, parse)
  {
    var w := header + HeaderDelim + rest;
    IndexOfAppend(header + HeaderDelim, rest, HeaderDelim);
    assert w[..|header|] == header;
    assert w[|header| + 4..] == rest;
  }

  /** A frame whose body is incomplete emits nothing and keeps the window at its header. */
  lemma IncompleteBodyWaits(header: Bytes, partial: Bytes, n: nat, lengthOf: Bytes -> Option<int>, parse: Bytes -> Option<Json>)
    requires IndexOf(header + HeaderDelim, HeaderDelim) == |header|
    requires lengthOf(header) == Some(n)
    requires |partial| < n
    ensures Drain(header + HeaderDelim + partial, lengthOf, parse) == Drained([], header + HeaderDelim + partial)
  {
    IndexOfAppend(header + HeaderDelim, partial, HeaderDelim);
    assert (header + HeaderDelim + partial)[..|header|] == header;
  }

  /** A complete body that fails to parse is consumed but not emitted. */
  lemma UnparsableBodyDropped(header: Bytes, body: Bytes, rest: Bytes, lengthOf: Bytes -> Option<int>, parse: Bytes -> Option<Json>)
    requires IndexOf(header + HeaderDelim, HeaderDelim) == |header|
    requires lengthOf(header) == Some(|body|)
    requires parse(body) == None
    ensures Drain(header + HeaderDelim + body + rest, lengthOf, parse) == Drain(rest, lengthOf, parse)
  {
    var w := header + HeaderDelim + body + rest;
    assert w == (header + HeaderDelim) + (body + rest);
    IndexOfAppend(header + HeaderDelim, body + rest, HeaderDelim);
    assert w[..|header|] == header;
    var k := |header| + 4 + |body|;
    assert w[|header| + 4..k] == body;
    assert w[k..] == rest;
    assert Scan(w, lengthOf) == Complete(|header| + 4, k);
    PrependNothing(Drain(rest, lengthOf, parse));
  }

  /**
   * One pass of the `push` loop as written, for the window `w`: the offset in `w` that
   * `start` is set to, or None when the pass breaks. It reads a declared length as it
   * stands, negative values included.
   */
  function AsWrittenNext(w: Bytes, lengthOf: Bytes -> Option<int>): (r: Option<int>)
    ensures r.Some? ==> 4 <= IndexOf(w, HeaderDelim) + 4 <= |w|
    ensures r.Some? ==> r.value <= |w|
  {
    var h := IndexOf(w, HeaderDelim);
    if h < 0 then None
    else
      var len := lengthOf(w[..h]);
      if len.None? then Some(h + 4)
      else if |w| < h + 4 + len.value then None
      else Some(h + 4 + len.value)
  }

  /** For lengths that are not negative the pass as written and `Scan` agree. */
  lemma AsWrittenAgrees(w: Bytes, lengthOf: Bytes -> Option<int>)
    requires var h := IndexOf(w, HeaderDelim); h < 0 || lengthOf(w[..h]).None? || lengthOf(w[..h]).value >= 0
    ensures Scan(w, lengthOf).NoHeader? || Scan(w, lengthOf).Incomplete? <==> AsWrittenNext(w, lengthOf).None?
    ensures Scan(w, lengthOf).NoLength? ==> AsWrittenNext(w, lengthOf) == Some(Scan(w, lengthOf).next)
    ensures Scan(w, lengthOf).Complete? ==> AsWrittenNext(w, lengthOf) == Some(Scan(w, lengthOf).bodyEnd)
  {
  }

  /**
   * A header of `h` bytes declaring the length `-(h + 4)` sends `start` back to where
   * the pass began: the next pass sees the same window, so the loop never ends.
   */
  lemma NegativeLengthStalls(w: Bytes, lengthOf: Bytes -> Option<int>)
    requires IndexOf(w, HeaderDelim) >= 0
    requires lengthOf(w[..IndexOf(w, HeaderDelim)]) == Some(-(IndexOf(w, HeaderDelim) + 4))
    ensures AsWrittenNext(w, lengthOf) == Some(0)
    ensures w[AsWrittenNext(w, lengthOf).value..] == w
  {
  }

  /** A length below `-(h + 4)` moves `start` before the window it was reading. */
  lemma NegativeLengthRewinds(w: Bytes, lengthOf: Bytes -> Option<int>)
    requires IndexOf(w, HeaderDelim) >= 0
    requires lengthOf(w[..IndexOf(w, HeaderDelim)]).Some?
    requires lengthOf(w[..IndexOf(w, HeaderDelim)]).value < -(IndexOf(w, HeaderDelim) + 4)
    ensures AsWrittenNext(w, lengthOf).Some? && AsWrittenNext(w, lengthOf).value < 0
  {
  }

  /** The header line `Content-Length: -n`. */
  function NegativeHeaderLine(n: nat): (s: string)
    ensures IsAscii(s) && '\r' !in s
    ensures |s| == |ContentLengthPrefix| + 1 + |NatToString(n)|
  {
    var s := ContentLengthPrefix + "-" + NatToString(n);
    assert forall i :: |ContentLengthPrefix| < i < |s| ==> IsDigit(s[i]);
    s
  }

  /**
   * The header `Content-Length: -n` followed by the delimiter: the pass as written sets
   * `start` to the window's length minus `n`, so for `n == |w|` (as in
   * `Content-Length: -23\r\n\r\n`) it stays where it was.
   */
  lemma NegativeLengthExample(n: nat)
    ensures var w := AsciiBytes(NegativeHeaderLine(n)) + HeaderDelim;
            AsWrittenNext(w, HeaderLength) == Some(|w| - n)
  {
    var line := NegativeHeaderLine(n);
    var w := AsciiBytes(line) + HeaderDelim;
    NegativeFrame(n, line, w);
    AsWrittenAdvances(w, HeaderLength);
  }

  /** The window `Content-Length: -n\r\n\r\n`: its delimiter ends the line, which declares `-n`. */
  lemma NegativeFrame(n: nat, line: string, w: Bytes)
    requires line == NegativeHeaderLine(n) && w == AsciiBytes(line) + HeaderDelim
    ensures |w| == |line| + 4
    ensures IndexOf(w, HeaderDelim) == |line|
    ensures HeaderLength(w[..|line|]) == Some(-(n as int))
  {
    NegativeHeaderLength(n);
    NoCarriageReturn(line);
    DelimAfter(AsciiBytes(line), []);
    assert AsciiBytes(line) + HeaderDelim + [] == w;
    assert w[..|line|] == AsciiBytes(line);
  }

  lemma AsWrittenAdvances(w: Bytes, lengthOf: Bytes -> Option<int>)
    requires IndexOf(w, HeaderDelim) >= 0
    requires lengthOf(w[..IndexOf(w, HeaderDelim)]).Some?
    requires IndexOf(w, HeaderDelim) + 4 + lengthOf(w[..IndexOf(w, HeaderDelim)]).value <= |w|
    ensures AsWrittenNext(w, lengthOf) == Some(IndexOf(w, HeaderDelim) + 4 + lengthOf(w[..IndexOf(w, HeaderDelim)]).value)
  {
  }

  /** `Content-Length: -23\r\n\r\n` is 23 bytes long: the loop as written never leaves it. */
  lemma NegativeLengthStallsOn23()
    ensures var w := AsciiBytes(NegativeHeaderLine(23)) + HeaderDelim;
            |w| == 23 && AsWrittenNext(w, HeaderLength) == Some(0)
  {
    assert NatToString(23) == "23";
    NegativeLengthExample(23);
  }

  lemma NegativeHeaderLength(n: nat)
    ensures HeaderLength(AsciiBytes(NegativeHeaderLine(n))) == Some(-(n as int))
  {
    var line := NegativeHeaderLine(n);
    DecodeAscii(line);
    NegativeHeaderParses(n);
  }

  lemma NegativeHeaderParses(n: nat)
    ensures TryParseContentLength(NegativeHeaderLine(n)) == Some(-(n as int))
  {
    var line := NegativeHeaderLine(n);
    NoOccurrenceOfHead(line, "\r\n");
    NoBreakSpaceKey(line);
    SingleContentLengthLine(line, 14);
    NegativeHeaderValue(n);
    ParseIntNegative(n);
  }

  lemma NegativeHeaderValue(n: nat)
    ensures Trim(NegativeHeaderLine(n)[15..]) == "-" + NatToString(n)
  {
    var v := "-" + NatToString(n);
    assert NegativeHeaderLine(n)[15..] == " " + v;
    TrimLeadingSpace(' ', v);
  }

  /** Corrected: a header declaring a negative length is skipped like a header declaring none. */
  lemma NegativeLengthSkipped(w: Bytes, lengthOf: Bytes -> Option<int>, parse: Bytes -> Option<Json>)
    requires IndexOf(w, HeaderDelim) >= 0
    requires lengthOf(w[..IndexOf(w, HeaderDelim)]).Some?
    requires lengthOf(w[..IndexOf(w, HeaderDelim)]).value < 0
    ensures Scan(w, lengthOf) == NoLength(IndexOf(w, HeaderDelim) + 4)
    ensures Drain(w, lengthOf, parse) == Drain(w[IndexOf(w, HeaderDelim) + 4..], lengthOf, parse)
  {
  }

  /** On `Content-Length: -n\r\n\r\n` the corrected decoder consumes the header and emits nothing. */
  lemma NegativeLengthExampleSkipped(n: nat, parse: Bytes -> Option<Json>)
    requires n > 0
    ensures Drain(AsciiBytes(NegativeHeaderLine(n)) + HeaderDelim, HeaderLength, parse) == Drained([], [])
  {
    var line := NegativeHeaderLine(n);
    var w := AsciiBytes(line) + HeaderDelim;
    NegativeFrame(n, line, w);
    NegativeLengthSkipped(w, HeaderLength, parse);
    DrainEmpty(w[|line| + 4..], HeaderLength, parse);
  }

  /** Buffer capacities: the initial size doubled zero or more times. */
  ghost predicate IsCapacity(n: nat) {
    n == InitialCapacity || (n > InitialCapacity && n % 2 == 0 && IsCapacity(n / 2))
  }

  lemma DoubleCapacity(n: nat)
    requires IsCapacity(n)
    ensures IsCapacity(2 * n)
  {
    assert (2 * n) / 2 == n;
  }

  /** `FramedMessageDecoder`: a byte buffer with an unconsumed window `buffer[start..end)`. */
  class FramedMessageDecoder {
    /** How a header block is read: UTF-8 decoding followed by `tryParseContentLength` (see the constructor). */
    const lengthOf: Bytes -> Option<int>
    /** How a body is read: UTF-8 decoding followed by `JSON.parse`, None where that throws. */
    const parse: Bytes -> Option<Json>
    var buffer: array<byte>
    var start: nat
    var end: nat

    ghost predicate WindowOk()
      reads this
    {
      start <= end <= buffer.Length && IsCapacity(buffer.Length)
    }

    /** After every public operation the window is at offset 0 or starts below the threshold and is non-empty. */
    ghost predicate Compacted()
      reads this
    {
      start == 0 || (start < CompactThreshold && start < end)
    }

    ghost predicate Valid()
      reads this
    {
      WindowOk() && Compacted()
    }

    /** The bytes received and not yet consumed. */
    ghost function Window(): Bytes
      reads this, buffer
      requires WindowOk()
    {
      buffer[start..end]
    }

    constructor (parse: Bytes -> Option<Json>)
      ensures Valid() && Window() == [] && this.parse == parse && lengthOf == HeaderLength
      ensures fresh(buffer) && buffer.Length == InitialCapacity
    {
      this.lengthOf := HeaderLength;
      this.parse := parse;
      buffer := new byte[InitialCapacity];
      start, end := 0, 0;
    }

    /** `push`: append the chunk, then emit every complete frame; the rest stays buffered. */
    method Push(chunk: Bytes) returns (messages: seq<Json>)
      requires Valid()
      modifies this, buffer
      ensures Valid()
      ensures buffer == old(buffer) || fresh(buffer)
      ensures Drain(old(Window()) + chunk, lengthOf, parse) == Drained(messages, Window())
    {
      Append(chunk);
      messages := [];
      ghost var total := Window();
      PrependNothing(Drain(total, lengthOf, parse));
      while true
        invariant Valid()
        invariant buffer == old(buffer) || fresh(buffer)
        invariant Drain(total, lengthOf, parse) == Prepend(messages, Drain(Window(), lengthOf, parse))
        decreases end - start
      {
        ghost var w := Window();
        var frame, body := NextFrame();
        if frame.NoHeader? || frame.Incomplete? {
          NothingMore(messages, w);
          break;
        }
        if frame.Complete? {
          AdvanceFrame(total, messages, w, lengthOf, parse);
          messages := messages + Emit(parse(body));
        }
      }
    }

    /**
     * One pass of the `push` loop: find the header delimiter, read the length, and
     * consume the skipped header or the complete frame; `body` is the frame's body.
     */
    method NextFrame() returns (frame: Frame, body: Bytes)
      requires Valid()
      modifies this, buffer
      ensures Valid() && buffer == old(buffer)
      ensures frame == Scan(old(Window()), lengthOf)
      ensures frame.NoLength? ==> Window() == old(Window())[frame.next..]
      ensures frame.Complete? ==> body == old(Window())[frame.bodyStart..frame.bodyEnd] && Window() == old(Window())[frame.bodyEnd..]
      ensures frame.NoHeader? || frame.Incomplete? ==> Window() == old(Window())
    {
      frame := ScanBuffer();
      body := [];
      if frame.NoLength? {
        Consume(start + frame.next);
      } else if frame.Complete? {
        body := TakeBody(frame.bodyStart, frame.bodyEnd);
      }
    }

    /** `decoder.decode(this.buffer.subarray(messageStart, messageEnd))` and `this.start = messageEnd`, offsets taken in the window. */
    method TakeBody(a: nat, b: nat) returns (body: Bytes)
      requires Valid() && a <= b <= end - start
      modifies this, buffer
      ensures Valid() && buffer == old(buffer)
      ensures body == old(Window())[a..b] && Window() == old(Window())[b..]
    {
      body := buffer[start + a..start + b];
      Subwindow(buffer[..], start, end, start + a, start + b);
      Consume(start + b);
    }

    /**
     * The decisions of one pass, read off the buffer: `indexOf(HEADER_DELIM)`, the header's
     * length, and whether `end` reaches `messageEnd`.
     */
    method ScanBuffer() returns (frame: Frame)
      requires WindowOk()
      ensures frame == Scan(Window(), lengthOf)
    {
      var headerEnd := IndexOfDelim();
      if headerEnd < 0 {
        return NoHeader;
      }
      var h := headerEnd - start;
      Subwindow(buffer[..], start, end, start, headerEnd);
      var contentLength := lengthOf(buffer[start..headerEnd]);
      if contentLength.None? || contentLength.value < 0 {
        return NoLength(h + 4);
      }
      var messageStart := headerEnd + |HeaderDelim|;
      var messageEnd := messageStart + contentLength.value;
      if end < messageEnd {
        return Incomplete;
      }
      return Complete(h + 4, h + 4 + contentLength.value);
    }

    /** `this.start = next; this.compactIfNeeded()`: the window loses its first `next - start` bytes. */
    method Consume(next: nat)
      requires Valid() && start <= next <= end
      modifies this, buffer
      ensures Valid() && buffer == old(buffer)
      ensures Window() == old(Window())[next - old(start)..]
      ensures end - start == old(end) - next
    {
      ghost var w := Window();
      ghost var s0 := start;
      start := next;
      SubwindowSuffix(buffer[..], s0, end, start);
      CompactIfNeeded();
    }

    method Append(chunk: Bytes)
      requires Valid()
      modifies this, buffer
      ensures Valid()
      ensures buffer == old(buffer) || fresh(buffer)
      ensures Window() == old(Window()) + chunk
    {
      EnsureCapacity(|chunk|);
      CopyIn(chunk);
    }

    /** `chunk.copy(this.buffer, this.end)` followed by `this.end += chunk.length`. */
    method CopyIn(chunk: Bytes)
      requires Valid() && buffer.Length - end >= |chunk|
      modifies this, buffer
      ensures Valid() && buffer == old(buffer) && start == old(start)
      ensures Window() == old(Window()) + chunk
    {
      ghost var before := buffer[..];
      var k := 0;
      while k < |chunk|
        invariant 0 <= k <= |chunk|
        invariant forall j :: 0 <= j < end ==> buffer[j] == before[j]
        invariant forall j :: 0 <= j < k ==> buffer[end + j] == chunk[j]
        modifies buffer
      {
        buffer[end + k] := chunk[k];
        k := k + 1;
      }
      CopiedAfter(before, buffer[..], start, end, chunk);
      end := end + |chunk|;
    }

    /** `ensureCapacity`: afterwards at least `need` bytes are free after the window. */
    method EnsureCapacity(need: nat)
      requires Valid()
      modifies this, buffer
      ensures Valid()
      ensures buffer.Length - end >= need
      ensures Window() == old(Window())
      ensures buffer == old(buffer) || (fresh(buffer) && buffer.Length > old(buffer.Length))
      ensures old(buffer.Length - end) >= need ==> start == old(start) && end == old(end) && buffer == old(buffer)
    {
      var remaining := buffer.Length - end;
      if remaining >= need {
        return;
      }
      CompactIfNeeded();
      if buffer.Length - end >= need {
        return;
      }
      var newSize := GrownSize(buffer.Length, end, need);
      Relocate(newSize);
    }

    /** The doubling loop of `ensureCapacity`: the first doubling of `size` with room for `need` after `used`. */
    static method GrownSize(size: nat, used: nat, need: nat) returns (newSize: nat)
      requires IsCapacity(size) && used <= size && size < used + need
      ensures IsCapacity(newSize) && newSize > size && newSize >= used + need
      ensures newSize / 2 < used + need
    {
      newSize := size;
      while newSize < used + need
        invariant IsCapacity(newSize) && newSize >= size
        invariant newSize == size || newSize / 2 < used + need
        decreases used + need - newSize
      {
        DoubleCapacity(newSize);
        newSize := newSize * 2;
      }
    }

    /** Copy the window to the start of a fresh buffer of `newSize` bytes. */
    method Relocate(newSize: nat)
      requires WindowOk() && IsCapacity(newSize) && newSize >= end - start
      modifies this
      ensures Valid() && fresh(buffer) && buffer.Length == newSize
      ensures start == 0 && end == old(end - start)
      ensures Window() == old(Window())
    {
      var next := new byte[newSize];
      var k := 0;
      while k < end - start
        invariant 0 <= k <= end - start
        invariant forall j :: 0 <= j < k ==> next[j] == buffer[start + j]
        modifies next
      {
        next[k] := buffer[start + k];
        k := k + 1;
      }
      assert next[..end - start] == buffer[start..end];
      end := end - start;
      start := 0;
      buffer := next;
    }

    /** `compactIfNeeded`: move the window to offset 0 when drained or when `start >= 4096`. */
    method CompactIfNeeded()
      requires WindowOk()
      modifies this, buffer
      ensures WindowOk() && Compacted()
      ensures buffer == old(buffer) && end - start == old(end - start)
      ensures Window() == old(Window())
      ensures old(start) == 0 ==> start == 0 && end == old(end)
      ensures old(start) != 0 && old(start) != old(end) && old(start) < CompactThreshold ==> start == old(start)
    {
      if start == 0 {
        return;
      }
      if start == end {
        start, end := 0, 0;
        return;
      }
      if start < CompactThreshold {
        return;
      }
      ShiftDown();
    }

    /** `this.buffer.copy(this.buffer, 0, this.start, this.end)`: the window moves to offset 0. */
    method ShiftDown()
      requires WindowOk() && 0 < start
      modifies this, buffer
      ensures WindowOk() && buffer == old(buffer)
      ensures start == 0 && end == old(end - start)
      ensures Window() == old(Window())
    {
      var n := end - start;
      var k := 0;
      while k < n
        invariant 0 <= k <= n
        invariant forall j :: 0 <= j < k ==> buffer[j] == old(buffer[start + j])
        invariant forall j :: start + k <= j < end ==> buffer[j] == old(buffer[j])
        modifies buffer
      {
        buffer[k] := buffer[start + k];
        k := k + 1;
      }
      start, end := 0, n;
      assert buffer[start..end] == old(buffer[start..end]);
    }

    /** `indexOf(HEADER_DELIM)`: the first delimiter inside the window, as a buffer index, or -1. */
    method IndexOfDelim() returns (idx: int)
      requires WindowOk()
      ensures var h := IndexOf(Window(), HeaderDelim);
              idx == if h < 0 then -1 else start + h
    {
      ghost var w := Window();
      if end - start < |HeaderDelim| {
        return -1;
      }
      // Buffer.indexOf scans the whole buffer from `start`, then the match is checked against `end`.
      var i := start;
      while i + 4 <= buffer.Length && buffer[i..i + 4] != HeaderDelim
        invariant start <= i
        invariant forall j :: 0 <= j < i - start ==> !OccursAt(w, HeaderDelim, j)
        decreases buffer.Length - i
      {
        if i + 4 <= end {
          SliceOfWindow(buffer[..], start, end, i);
        }
        i := i + 1;
      }
      if i + 4 > buffer.Length || i + 4 > end {
        forall j | 0 <= j ensures !OccursAt(w, HeaderDelim, j) {
          if j + start >= i {
            assert j + 4 > |w|;
          }
        }
        return -1;
      }
      SliceOfWindow(buffer[..], start, end, i);
      IndexOfUnique(w, HeaderDelim, i - start);
      return i;
    }
  }

  /** Bytes written after the window extend it. */
  lemma CopiedAfter(before: Bytes, after: Bytes, s: nat, e: nat, chunk: Bytes)
    requires s <= e <= |before| && e + |chunk| <= |after|
    requires forall j :: 0 <= j < e ==> after[j] == before[j]
    requires forall j :: 0 <= j < |chunk| ==> after[e + j] == chunk[j]
    ensures after[s..e + |chunk|] == before[s..e] + chunk
  {
    var w := after[s..e + |chunk|];
    assert forall j :: 0 <= j < e - s ==> w[j] == before[s + j];
    assert forall j :: e - s <= j < |w| ==> w[j] == chunk[j - (e - s)];
  }

  /** A slice of the window `a[s..e]` is the corresponding slice of `a`. */
  lemma Subwindow(a: Bytes, s: nat, e: nat, i: nat, j: nat)
    requires s <= i <= j <= e <= |a|
    ensures a[s..e][i - s..j - s] == a[i..j]
  {
    forall k | 0 <= k < j - i ensures a[s..e][i - s..j - s][k] == a[i..j][k] {
    }
  }

  lemma SubwindowSuffix(a: Bytes, s: nat, e: nat, i: nat)
    requires s <= i <= e <= |a|
    ensures a[s..e][i - s..] == a[i..e]
  {
    forall k | 0 <= k < e - i ensures a[s..e][i - s..][k] == a[i..e][k] {
    }
  }

  lemma SliceOfWindow(a: Bytes, s: nat, e: nat, i: nat)
    requires s <= i && i + 4 <= e <= |a|
    ensures a[s..e][i - s..i - s + 4] == a[i..i + 4]
  {
    Subwindow(a, s, e, i, i + 4);
  }

  /** The framing test: a fresh decoder given a frame split in two emits `[]`, then `[m]`. */
  method DeliverInTwoChunks(codec: JsonCodec, m: Json, k: nat) returns (first: seq<Json>, second: seq<Json>)
    requires Sound(codec)
    requires k < |EncodeJsonRpcMessage(codec, m)|
    ensures first == [] && second == [m]
  {
    var frame := EncodeJsonRpcMessage(codec, m);
    var decoder := new FramedMessageDecoder(codec.parse);
    SplitFrameDecodes(codec, m, k);
    assert decoder.Window() + frame[..k] == frame[..k];
    first := decoder.Push(frame[..k]);
    assert decoder.Window() == frame[..k];
    second := decoder.Push(frame[k..]);
  }
}
