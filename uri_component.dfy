/** `encodeURIComponent` and its inverse `decodeURIComponent`, following the
    Encode and Decode operations of ECMAScript: each character outside the
    unreserved set is written as the `%XX` escapes of its UTF-8 bytes
    (section 2.1 of RFC 3986, upper-case hex digits); decoding reads escapes
    back, checking that they form a well-formed UTF-8 sequence. */
module UriComponent {
  import opened Wrappers

  newtype Byte = b: int | 0 <= b < 256

  /** The characters `encodeURIComponent` leaves as they are: ASCII letters,
      digits and `-_.!~*'()`. */
  predicate Unreserved(c: char) {
    ('A' <= c <= 'Z') || ('a' <= c <= 'z') || ('0' <= c <= '9') ||
    c == '-' || c == '_' || c == '.' || c == '!' || c == '~' || c == '*' ||
    c == '\'' || c == '(' || c == ')'
  }

  const HexDigits: string := "0123456789ABCDEF"

  /** The value of a hexadecimal digit of either case. */
  function HexValue(c: char): Option<int> {
    if '0' <= c <= '9' then Some(c as int - '0' as int)
    else if 'A' <= c <= 'F' then Some(c as int - 'A' as int + 10)
    else if 'a' <= c <= 'f' then Some(c as int - 'a' as int + 10)
    else None
  }

  lemma HexDigitValue(d: int)
    requires 0 <= d < 16
    ensures HexValue(HexDigits[d]) == Some(d)
  {
  }

  /** The UTF-8 encoding of one Unicode scalar value. */
  function Utf8(c: char): (bs: seq<Byte>)
    ensures 1 <= |bs| <= 4
  {
    var n := c as int;
    if n < 0x80 then [n as Byte]
    else if n < 0x800 then [(0xC0 + n / 64) as Byte, (0x80 + n % 64) as Byte]
    else if n < 0x10000 then
      [(0xE0 + n / 4096) as Byte, (0x80 + (n / 64) % 64) as Byte, (0x80 + n % 64) as Byte]
    else
      [(0xF0 + n / 262144) as Byte, (0x80 + (n / 4096) % 64) as Byte,
       (0x80 + (n / 64) % 64) as Byte, (0x80 + n % 64) as Byte]
  }

  /** `%XX` for one byte. */
  function Escape(b: Byte): string {
    ['%', HexDigits[b / 16], HexDigits[b % 16]]
  }

  function EscapeAll(bs: seq<Byte>): (e: string)
    ensures |e| == 3 * |bs|
    ensures forall k :: 0 <= k < |e| ==> Encoded(e[k])
  {
    if bs == [] then [] else Escape(bs[0]) + EscapeAll(bs[1..])
  }

  /** The characters that can appear in an encoded component. */
  predicate Encoded(c: char) {
    Unreserved(c) || c == '%'
  }

  function EncodeChar(c: char): (e: string)
    ensures forall k :: 0 <= k < |e| ==> Encoded(e[k])
  {
    if Unreserved(c) then [c] else EscapeAll(Utf8(c))
  }

  /** `encodeURIComponent(s)`. Its result holds only unreserved characters
      and `%`, so none of the delimiters `&`, `=`, `?` and `#`. */
  function Encode(s: string): (e: string)
    ensures forall k :: 0 <= k < |e| ==> Encoded(e[k])
  {
    if s == [] then [] else EncodeChar(s[0]) + Encode(s[1..])
  }

  // ---- decoding ----

  /** The byte written as `%XX` at index `i` of `e`, if there is one. */
  function ByteAt(e: string, i: nat): Option<Byte> {
    if i + 3 <= |e| && e[i] == '%' && HexValue(e[i + 1]).Some? && HexValue(e[i + 2]).Some? then
      Some((16 * HexValue(e[i + 1]).value + HexValue(e[i + 2]).value) as Byte)
    else None
  }

  /** The `n` bytes escaped at the start of `e`. */
  function ReadEscapes(e: string, n: nat): (r: Option<seq<Byte>>)
    ensures r.Some? ==> |r.value| == n && (n > 0 ==> ByteAt(e, 0) == Some(r.value[0]))
    decreases n
  {
    if n == 0 then Some([])
    else match ByteAt(e, 0)
      case None => None
      case Some(b) =>
        match ReadEscapes(e[3..], n - 1)
        case None => None
        case Some(bs) => Some([b] + bs)
  }

  /** The length of the UTF-8 sequence a leading byte announces, or 0 when it
      cannot start one. */
  function SequenceLength(b: Byte): nat {
    if b < 0x80 then 1
    else if 0xC0 <= b < 0xE0 then 2
    else if 0xE0 <= b < 0xF0 then 3
    else if 0xF0 <= b < 0xF8 then 4
    else 0
  }

  predicate Continuation(b: Byte) {
    0x80 <= b < 0xC0
  }

  /** The scalar value a complete UTF-8 sequence encodes, rejecting overlong
      forms, surrogates and values past U+10FFFF. */
  function DecodeScalar(bs: seq<Byte>): Option<char>
    requires 1 <= |bs| <= 4 && SequenceLength(bs[0]) == |bs|
  {
    if exists k :: 1 <= k < |bs| && !Continuation(bs[k]) then None
    else if |bs| == 1 then Some(bs[0] as int as char)
    else if |bs| == 2 then
      var n := (bs[0] as int - 0xC0) * 64 + (bs[1] as int - 0x80);
      if n < 0x80 then None else Some(n as char)
    else if |bs| == 3 then
      var n := (bs[0] as int - 0xE0) * 4096 + (bs[1] as int - 0x80) * 64 + (bs[2] as int - 0x80);
      if n < 0x800 || (0xD800 <= n < 0xE000) then None else Some(n as char)
    else
      var n := (bs[0] as int - 0xF0) * 262144 + (bs[1] as int - 0x80) * 4096
             + (bs[2] as int - 0x80) * 64 + (bs[3] as int - 0x80);
      if n < 0x10000 || n >= 0x110000 then None else Some(n as char)
  }

  /** The character written by the escapes at the start of `e` (which
      begins with `%`) and how many characters of `e` they take. */
  function DecodeEscaped(e: string): (r: Option<(char, nat)>)
    ensures r.Some? ==> 3 <= r.value.1 <= |e|
  {
    match ByteAt(e, 0)
    case None => None
    case Some(b) =>
      var n := SequenceLength(b);
      if n == 0 || |e| < 3 * n then None
      else match ReadEscapes(e, n)
        case None => None
        case Some(bs) =>
          match DecodeScalar(bs)
          case None => None
          case Some(c) => Some((c, 3 * n))
  }

  /** `decodeURIComponent(e)`: `None` where JavaScript throws a `URIError`.
      Characters other than `%` stand for themselves. */
  function Decode(e: string): Option<string>
    decreases |e|
  {
    if e == [] then Some([])
    else
      var step: Option<(char, nat)> := if e[0] != '%' then Some((e[0], 1)) else DecodeEscaped(e);
      match step
      case None => None
      case Some((c, k)) =>
        match Decode(e[k..])
        case None => None
        case Some(t) => Some([c] + t)
  }

  // ---- round trip ----

  /** A byte escaped by `Escape` reads back as itself. */
  lemma ByteAtEscape(b: Byte, rest: string)
    ensures ByteAt(Escape(b) + rest, 0) == Some(b)
  {
    HexDigitValue(b as int / 16);
    HexDigitValue(b as int % 16);
  }

  /** Escaped bytes read back as themselves. */
  lemma {:induction false} ReadEscapesAll(bs: seq<Byte>, rest: string)
    ensures ReadEscapes(EscapeAll(bs) + rest, |bs|) == Some(bs)
  {
    if bs != [] {
      var e := EscapeAll(bs) + rest;
      assert e == Escape(bs[0]) + (EscapeAll(bs[1..]) + rest);
      ByteAtEscape(bs[0], EscapeAll(bs[1..]) + rest);
      assert e[3..] == EscapeAll(bs[1..]) + rest;
      ReadEscapesAll(bs[1..], rest);
      assert [bs[0]] + bs[1..] == bs;
    }
  }

  lemma Utf8TwoBytes(n: int)
    requires 0x80 <= n < 0x800
    ensures 0xC0 <= 0xC0 + n / 64 < 0xE0
    ensures (0xC0 + n / 64 - 0xC0) * 64 + (0x80 + n % 64 - 0x80) == n
  {
  }

  lemma Utf8ThreeBytes(n: int)
    requires 0x800 <= n < 0x10000
    ensures 0xE0 <= 0xE0 + n / 4096 < 0xF0
    ensures (n / 4096) * 4096 + ((n / 64) % 64) * 64 + n % 64 == n
  {
    assert (n / 64) / 64 == n / 4096;
  }

  lemma Utf8FourBytes(n: int)
    requires 0x10000 <= n < 0x110000
    ensures 0xF0 <= 0xF0 + n / 262144 < 0xF8
    ensures (n / 262144) * 262144 + ((n / 4096) % 64) * 4096 + ((n / 64) % 64) * 64 + n % 64 == n
  {
    assert (n / 64) / 64 == n / 4096;
    assert (n / 4096) / 64 == n / 262144;
  }

  /** The decoder recovers every scalar value from its UTF-8 encoding. */
  lemma DecodeScalarUtf8(c: char)
    ensures SequenceLength(Utf8(c)[0]) == |Utf8(c)|
    ensures DecodeScalar(Utf8(c)) == Some(c)
  {
    var n := c as int;
    var bs := Utf8(c);
    if n < 0x80 {
    } else if n < 0x800 {
      Utf8TwoBytes(n);
    } else if n < 0x10000 {
      Utf8ThreeBytes(n);
    } else {
      Utf8FourBytes(n);
    }
  }

  /** One complete escaped UTF-8 sequence at the front is read back as its
      scalar value. */
  lemma DecodeEscapedSequence(bs: seq<Byte>, c: char, rest: string)
    requires 1 <= |bs| <= 4 && SequenceLength(bs[0]) == |bs|
    requires DecodeScalar(bs) == Some(c)
    ensures DecodeEscaped(EscapeAll(bs) + rest) == Some((c, 3 * |bs|))
  {
    var e := EscapeAll(bs) + rest;
    ReadEscapesAll(bs, rest);
    assert ByteAt(e, 0) == Some(bs[0]) && |e| >= 3 * |bs|;
  }

  /** Decoding an encoded character followed by anything decodable yields the
      character followed by the decoding of the rest. */
  lemma DecodeEncodeChar(c: char, rest: string)
    requires Decode(rest).Some?
    ensures Decode(EncodeChar(c) + rest) == Some([c] + Decode(rest).value)
  {
    if Unreserved(c) {
      var e := EncodeChar(c) + rest;
      assert e[1..] == rest;
    } else {
      var e := EncodeChar(c) + rest;
      DecodeScalarUtf8(c);
      DecodeEscapedSequence(Utf8(c), c, rest);
      assert e[0] == '%';
      assert e[3 * |Utf8(c)|..] == rest;
    }
  }

  /** `decodeURIComponent(encodeURIComponent(s)) === s` for every string of
      scalar values. */
  lemma {:induction false} DecodeEncode(s: string)
    ensures Decode(Encode(s)) == Some(s)
  {
    if s != [] {
      DecodeEncode(s[1..]);
      DecodeEncodeChar(s[0], Encode(s[1..]));
      assert [s[0]] + s[1..] == s;
    }
  }

  /** A string of unreserved characters is its own encoding. */
  lemma {:induction false} EncodeUnreservedIdentity(s: string)
    requires forall k :: 0 <= k < |s| ==> Unreserved(s[k])
    ensures Encode(s) == s
  {
    if s != [] {
      EncodeUnreservedIdentity(s[1..]);
      assert [s[0]] + s[1..] == s;
    }
  }

  /** Encoding distributes over concatenation. */
  lemma {:induction false} EncodeAppend(s: string, t: string)
    ensures Encode(s + t) == Encode(s) + Encode(t)
  {
    if s == [] {
      assert s + t == t;
    } else {
      assert (s + t)[1..] == s[1..] + t;
      EncodeAppend(s[1..], t);
    }
  }

  /** A space is escaped, and the letters around it are kept. */
  lemma EncodeSpaceExample()
    ensures Encode("a b") == "a%20b"
  {
    assert Encode("b") == "b";
    assert Encode(" b") == "%20" + Encode("b");
  }

  /** `&`, the field separator of a `mailto:` URI, is escaped. */
  lemma EncodeAmpersandExample()
    ensures Encode("&") == "%26"
  {
    assert Utf8('&') == [0x26];
    assert EscapeAll([0x26]) == Escape(0x26);
  }

  /** A non-ASCII letter becomes the escapes of its two UTF-8 bytes. */
  lemma EncodeNonAsciiExample()
    ensures Encode("\U{00E9}") == "%C3%A9"
  {
    assert Utf8('\U{00E9}') == [0xC3, 0xA9];
    assert EscapeAll([0xC3, 0xA9]) == Escape(0xC3) + Escape(0xA9);
    assert Encode("\U{00E9}") == EncodeChar('\U{00E9}');
  }
}
