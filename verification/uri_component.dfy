/**
 * ECMAScript `encodeURIComponent`: every character outside a small unreserved
 * set is written as the UTF-8 bytes of its code point (RFC 3629), each byte
 * percent-encoded as `%XX` with upper-case hex digits (section 2.1 of
 * RFC 3986). The decoder is the inverse a mail client applies to a header
 * value of a `mailto:` URI.
 */
module UriComponent {
  import opened Wrappers

  type Byte = b: int | 0 <= b < 256
  type Nibble = n: int | 0 <= n < 16

  /** The characters `encodeURIComponent` leaves as they are. */
  predicate Unreserved(c: char) {
    || ('A' <= c <= 'Z') || ('a' <= c <= 'z') || ('0' <= c <= '9')
    || c == '-' || c == '_' || c == '.' || c == '!' || c == '~'
    || c == '*' || c == '\'' || c == '(' || c == ')'
  }

  /** Code points a Dafny `char` can hold: Unicode scalar values. */
  predicate IsScalar(cp: int) {
    (0 <= cp < 0xD800) || (0xE000 <= cp < 0x11_0000)
  }

  /** UTF-8 encoding of one code point (section 3 of RFC 3629). */
  function Utf8(c: char): (bs: seq<Byte>)
    ensures 1 <= |bs| <= 4
    ensures |bs| == 1 <==> c as int < 0x80
  {
    var cp := c as int;
    if cp < 0x80 then [cp]
    else if cp < 0x800 then [0xC0 + cp / 64, 0x80 + cp % 64]
    else if cp < 0x1_0000 then [0xE0 + cp / 4096, 0x80 + (cp / 64) % 64, 0x80 + cp % 64]
    else [0xF0 + cp / 262144, 0x80 + (cp / 4096) % 64, 0x80 + (cp / 64) % 64, 0x80 + cp % 64]
  }

  /** UTF-8 encoding of a whole string. */
  function Utf8Encode(s: string): seq<Byte> {
    if s == [] then [] else Utf8(s[0]) + Utf8Encode(s[1..])
  }

  const HexDigits: string := "0123456789ABCDEF"

  /** Each byte as `%` and two upper-case hex digits. */
  function PercentEncode(bs: seq<Byte>): (r: string)
    ensures |r| == 3 * |bs|
  {
    if bs == [] then [] else Escape(bs[0]) + PercentEncode(bs[1..])
  }

  /** `%` and the two upper-case hex digits of one byte. */
  function Escape(b: Byte): (r: string)
    ensures |r| == 3
  {
    ['%', HexDigits[b / 16], HexDigits[b % 16]]
  }

  function EncodeChar(c: char): string {
    if Unreserved(c) then [c] else PercentEncode(Utf8(c))
  }

  /** `encodeURIComponent(s)`. */
  function Encode(s: string): string {
    if s == [] then [] else EncodeChar(s[0]) + Encode(s[1..])
  }

  /** A character that may stand in encoded text: unreserved, or the `%` of an escape. */
  predicate Safe(c: char) {
    Unreserved(c) || c == '%'
  }

  lemma {:induction false} PercentEncodeSafe(bs: seq<Byte>)
    ensures forall i :: 0 <= i < |PercentEncode(bs)| ==> Safe(PercentEncode(bs)[i])
  {
    if bs != [] {
      PercentEncodeSafe(bs[1..]);
      var r, t := PercentEncode(bs), PercentEncode(bs[1..]);
      assert forall i :: 3 <= i < |r| ==> r[i] == t[i - 3];
    }
  }

  /**
   * The output of `encodeURIComponent` holds only unreserved characters and
   * `%`, so none of the delimiters `?`, `&`, `=` or `#` of a URI, and no
   * whitespace.
   */
  lemma {:induction false} EncodeSafe(s: string)
    ensures forall i :: 0 <= i < |Encode(s)| ==> Safe(Encode(s)[i])
  {
    if s != [] {
      EncodeSafe(s[1..]);
      var e, t := EncodeChar(s[0]), Encode(s[1..]);
      if !Unreserved(s[0]) {
        PercentEncodeSafe(Utf8(s[0]));
      }
      assert Encode(s) == e + t;
      assert forall i :: |e| <= i < |e| + |t| ==> (e + t)[i] == t[i - |e|];
    }
  }

  /** Value of a hex digit of either case. */
  function HexValue(c: char): Option<Nibble> {
    if '0' <= c <= '9' then Some(c as int - '0' as int)
    else if 'A' <= c <= 'F' then Some(c as int - 'A' as int + 10)
    else if 'a' <= c <= 'f' then Some(c as int - 'a' as int + 10)
    else None
  }

  /**
   * Percent-decoding to bytes (section 2.1 of RFC 3986): `%XX` is the byte
   * 0xXX and an unreserved character is its own ASCII byte; anything else
   * is malformed.
   */
  function PercentDecode(t: string): Option<seq<Byte>>
    decreases |t|
  {
    if t == [] then Some([])
    else if t[0] == '%' then
      if |t| < 3 then None
      else match (HexValue(t[1]), HexValue(t[2]), PercentDecode(t[3..]))
        case (Some(hi), Some(lo), Some(rest)) => Some([hi * 16 + lo] + rest)
        case _ => None
    else if Unreserved(t[0]) then
      match PercentDecode(t[1..])
      case Some(rest) => Some([t[0] as int] + rest)
      case None => None
    else None
  }

  predicate IsContinuation(b: Byte) {
    0x80 <= b < 0xC0
  }

  /**
   * The first code point of a UTF-8 byte sequence with the number of bytes
   * it takes, rejecting overlong forms, surrogates and values past
   * U+10FFFF (section 4 of RFC 3629).
   */
  function DecodeFirst(bs: seq<Byte>): (r: Option<(char, nat)>)
    requires bs != []
    ensures r.Some? ==> 1 <= r.value.1 <= |bs|
  {
    var b0: int := bs[0];
    if b0 < 0x80 then Some((b0 as char, 1))
    else if 0xC0 <= b0 < 0xE0 && |bs| >= 2 && IsContinuation(bs[1]) then
      var cp := (b0 - 0xC0) * 64 + (bs[1] as int - 0x80);
      if 0x80 <= cp then Some((cp as char, 2)) else None
    else if 0xE0 <= b0 < 0xF0 && |bs| >= 3 && IsContinuation(bs[1]) && IsContinuation(bs[2]) then
      var cp := ((b0 - 0xE0) * 64 + (bs[1] as int - 0x80)) * 64 + (bs[2] as int - 0x80);
      if 0x800 <= cp && IsScalar(cp) then Some((cp as char, 3)) else None
    else if 0xF0 <= b0 < 0xF8 && |bs| >= 4
      && IsContinuation(bs[1]) && IsContinuation(bs[2]) && IsContinuation(bs[3]) then
      var cp := (((b0 - 0xF0) * 64 + (bs[1] as int - 0x80)) * 64 + (bs[2] as int - 0x80)) * 64 + (bs[3] as int - 0x80);
      if 0x1_0000 <= cp < 0x11_0000 then Some((cp as char, 4)) else None
    else None
  }

  /** UTF-8 decoding of a whole byte sequence. */
  function Utf8Decode(bs: seq<Byte>): Option<string>
    decreases |bs|
  {
    if bs == [] then Some([])
    else match DecodeFirst(bs)
      case None => None
      case Some((c, n)) =>
        match Utf8Decode(bs[n..])
        case Some(rest) => Some([c] + rest)
        case None => None
  }

  /** `decodeURIComponent` restricted to well-formed input. */
  function Decode(t: string): Option<string> {
    match PercentDecode(t)
    case Some(bs) => Utf8Decode(bs)
    case None => None
  }

  lemma Utf8First(c: char, rest: seq<Byte>)
    ensures DecodeFirst(Utf8(c) + rest) == Some((c, |Utf8(c)|))
  {
    var cp := c as int;
    var bs := Utf8(c) + rest;
    if cp < 0x80 {
    } else if cp < 0x800 {
      assert (cp / 64) * 64 + cp % 64 == cp;
    } else if cp < 0x1_0000 {
      assert cp / 4096 == (cp / 64) / 64;
      assert ((cp / 64) / 64) * 64 + (cp / 64) % 64 == cp / 64;
      assert (cp / 64) * 64 + cp % 64 == cp;
    } else {
      assert cp / 262144 == (cp / 4096) / 64;
      assert cp / 4096 == (cp / 64) / 64;
      assert ((cp / 4096) / 64) * 64 + (cp / 4096) % 64 == cp / 4096;
      assert ((cp / 64) / 64) * 64 + (cp / 64) % 64 == cp / 64;
      assert (cp / 64) * 64 + cp % 64 == cp;
    }
  }

  /** UTF-8 decoding undoes UTF-8 encoding. */
  lemma {:induction false} Utf8RoundTrip(s: string)
    ensures Utf8Decode(Utf8Encode(s)) == Some(s)
  {
    if s != [] {
      var bs := Utf8Encode(s);
      Utf8First(s[0], Utf8Encode(s[1..]));
      assert bs[|Utf8(s[0])|..] == Utf8Encode(s[1..]);
      Utf8RoundTrip(s[1..]);
      assert s == [s[0]] + s[1..];
    }
  }

  lemma HexDigitValue(n: Nibble)
    ensures HexValue(HexDigits[n]) == Some(n)
  {
  }

  /** `bs` in front of a decoded byte sequence, failure staying failure. */
  function Prepend(bs: seq<Byte>, o: Option<seq<Byte>>): Option<seq<Byte>> {
    if o.Some? then Some(bs + o.value) else None
  }

  lemma PrependTwice(a: seq<Byte>, b: seq<Byte>, o: Option<seq<Byte>>)
    ensures Prepend(a, Prepend(b, o)) == Prepend(a + b, o)
  {
    if o.Some? {
      assert a + (b + o.value) == (a + b) + o.value;
    }
  }

  /** One `%XX` triple decodes to its byte in front of what follows. */
  lemma PercentByte(b: Byte, t: string)
    ensures PercentDecode(Escape(b) + t) == Prepend([b], PercentDecode(t))
  {
    var u := Escape(b) + t;
    HexDigitValue(b / 16);
    HexDigitValue(b % 16);
    assert u[0] == '%' && u[1] == HexDigits[b / 16] && u[2] == HexDigits[b % 16] && u[3..] == t;
    assert (b / 16) * 16 + b % 16 == b;
  }

  /** Percent-decoding undoes percent-encoding, whatever follows it. */
  lemma {:induction false} PercentRoundTrip(bs: seq<Byte>, rest: string)
    ensures PercentDecode(PercentEncode(bs) + rest) == Prepend(bs, PercentDecode(rest))
  {
    if bs == [] {
      assert PercentEncode(bs) + rest == rest;
      assert forall tail: seq<Byte> :: bs + tail == tail;
    } else {
      var b := bs[0];
      var tail := PercentEncode(bs[1..]) + rest;
      var o := PercentDecode(rest);
      calc {
        PercentDecode(PercentEncode(bs) + rest);
        { assert PercentEncode(bs) + rest == Escape(b) + tail; }
        PercentDecode(Escape(b) + tail);
        { PercentByte(b, tail); }
        Prepend([b], PercentDecode(tail));
        { PercentRoundTrip(bs[1..], rest); }
        Prepend([b], Prepend(bs[1..], o));
        { PrependTwice([b], bs[1..], o); assert [b] + bs[1..] == bs; }
        Prepend(bs, o);
      }
    }
  }

  /** Percent-decoding the encoded string gives back its UTF-8 bytes. */
  lemma {:induction false} PercentDecodeEncode(s: string)
    ensures PercentDecode(Encode(s)) == Some(Utf8Encode(s))
  {
    if s != [] {
      var c := s[0];
      if Unreserved(c) {
        assert Encode(s)[1..] == Encode(s[1..]);
      } else {
        PercentRoundTrip(Utf8(c), Encode(s[1..]));
      }
      PercentDecodeEncode(s[1..]);
    }
  }

  /** Decoding undoes `encodeURIComponent` for every string. */
  lemma DecodeEncode(s: string)
    ensures Decode(Encode(s)) == Some(s)
  {
    PercentDecodeEncode(s);
    Utf8RoundTrip(s);
  }
}
