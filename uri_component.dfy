/**
 * The per-component escaping used by the contact form's body encoder:
 * `encodeURIComponent` (ECMA-262, section 19.2.6.4, with the Encode
 * abstract operation of section 19.2.6.5) and its inverse as the
 * application/x-www-form-urlencoded parser applies it (WHATWG URL Standard,
 * section 5.1: percent-decode, then UTF-8 decode).
 *
 * Strings are sequences of Unicode scalar values, so every character has a
 * UTF-8 encoding of one to four bytes.
 */
module UriComponent {
  import opened Wrappers

  type Byte = b: int | 0 <= b < 256

  /** The characters encodeURIComponent leaves alone: uriAlpha, DecimalDigit, uriMark. */
  predicate IsUnreserved(c: char) {
    || ('A' <= c <= 'Z')
    || ('a' <= c <= 'z')
    || ('0' <= c <= '9')
    || c == '-' || c == '_' || c == '.' || c == '!' || c == '~'
    || c == '*' || c == '\'' || c == '(' || c == ')'
  }

  predicate IsHex(c: char) {
    ('0' <= c <= '9') || ('A' <= c <= 'F') || ('a' <= c <= 'f')
  }

  /** Every character encodeURIComponent can emit. */
  predicate InEncodedAlphabet(c: char) {
    IsUnreserved(c) || c == '%'
  }

  predicate IsEncoded(s: string) {
    forall i :: 0 <= i < |s| ==> InEncodedAlphabet(s[i])
  }

  /** Upper-case hexadecimal digit, as the Encode operation writes escapes. */
  function HexDigit(n: int): (c: char)
    requires 0 <= n < 16
    ensures IsHex(c) && IsUnreserved(c)
    ensures c < 'a'
  {
    if n < 10 then ('0' as int + n) as char else ('A' as int + n - 10) as char
  }

  function HexValue(c: char): (v: int)
    requires IsHex(c)
    ensures 0 <= v < 16
  {
    if '0' <= c <= '9' then c as int - '0' as int
    else if 'A' <= c <= 'F' then c as int - 'A' as int + 10
    else c as int - 'a' as int + 10
  }

  lemma HexValueOfDigit(n: int)
    requires 0 <= n < 16
    ensures HexValue(HexDigit(n)) == n
  {
  }

  /** The UTF-8 encoding of one scalar value (RFC 3629, section 3). */
  function Utf8Char(c: char): (bs: seq<Byte>)
    ensures 1 <= |bs| <= 4
    ensures (bs[0] < 0x80) <==> (c as int < 0x80)
    ensures c as int < 0x80 ==> bs == [c as int]
  {
    var cp := c as int;
    if cp < 0x80 then [cp]
    else if cp < 0x800 then [0xC0 + cp / 64, 0x80 + cp % 64]
    else if cp < 0x1_0000 then [0xE0 + cp / 4096, 0x80 + cp / 64 % 64, 0x80 + cp % 64]
    else [0xF0 + cp / 0x4_0000, 0x80 + cp / 4096 % 64, 0x80 + cp / 64 % 64, 0x80 + cp % 64]
  }

  function Utf8(s: string): seq<Byte> {
    if s == [] then [] else Utf8Char(s[0]) + Utf8(s[1..])
  }

  predicate IsContinuation(b: Byte) {
    0x80 <= b < 0xC0
  }

  /**
   * Decodes the scalar value at the head of `bs`, with the number of bytes
   * it takes; None for a malformed, overlong, surrogate or out-of-range
   * sequence.
   */
  function DecodeChar(bs: seq<Byte>): (r: Option<(char, nat)>)
    ensures r.Some? ==> 1 <= r.value.1 <= |bs|
  {
    if |bs| == 0 then None
    else
      var b0 := bs[0] as int;
      if b0 < 0x80 then Some((b0 as char, 1))
      else if 0xC0 <= b0 < 0xE0 then
        if |bs| < 2 || !IsContinuation(bs[1]) then None
        else
          var cp := Payload2(b0, bs[1]);
          if cp < 0x80 then None else Some((cp as char, 2))
      else if 0xE0 <= b0 < 0xF0 then
        if |bs| < 3 || !IsContinuation(bs[1]) || !IsContinuation(bs[2]) then None
        else
          var cp := Payload3(b0, bs[1], bs[2]);
          if cp < 0x800 || (0xD800 <= cp < 0xE000) then None else Some((cp as char, 3))
      else if 0xF0 <= b0 < 0xF8 then
        if |bs| < 4 || !IsContinuation(bs[1]) || !IsContinuation(bs[2]) || !IsContinuation(bs[3]) then None
        else
          var cp := Payload4(b0, bs[1], bs[2], bs[3]);
          if cp < 0x1_0000 || cp >= 0x11_0000 then None else Some((cp as char, 4))
      else None
  }

  /** The code point carried by a two-byte sequence. */
  function Payload2(b0: int, b1: int): (cp: int)
    requires 0xC0 <= b0 < 0xE0 && 0x80 <= b1 < 0xC0
    ensures 0 <= cp < 0x800
  {
    (b0 - 0xC0) * 64 + (b1 - 0x80)
  }

  /** The code point carried by a three-byte sequence. */
  function Payload3(b0: int, b1: int, b2: int): (cp: int)
    requires 0xE0 <= b0 < 0xF0 && 0x80 <= b1 < 0xC0 && 0x80 <= b2 < 0xC0
    ensures 0 <= cp < 0x1_0000
  {
    (b0 - 0xE0) * 4096 + (b1 - 0x80) * 64 + (b2 - 0x80)
  }

  /** The code point carried by a four-byte sequence. */
  function Payload4(b0: int, b1: int, b2: int, b3: int): (cp: int)
    requires 0xF0 <= b0 < 0xF8 && 0x80 <= b1 < 0xC0 && 0x80 <= b2 < 0xC0 && 0x80 <= b3 < 0xC0
    ensures 0 <= cp < 0x20_0000
  {
    (b0 - 0xF0) * 0x4_0000 + (b1 - 0x80) * 4096 + (b2 - 0x80) * 64 + (b3 - 0x80)
  }

  /** UTF-8 decode that fails on any malformed sequence. */
  function Utf8Decode(bs: seq<Byte>): Option<string>
    decreases |bs|
  {
    if bs == [] then Some([])
    else
      match DecodeChar(bs)
      case None => None
      case Some((c, n)) =>
        match Utf8Decode(bs[n..])
        case None => None
        case Some(rest) => Some([c] + rest)
  }

  lemma Payload2OfSplit(cp: int)
    requires 0x80 <= cp < 0x800
    ensures 0xC0 <= 0xC0 + cp / 64 < 0xE0 && 0x80 <= 0x80 + cp % 64 < 0xC0
    ensures Payload2(0xC0 + cp / 64, 0x80 + cp % 64) == cp
  {
  }

  lemma Payload3OfSplit(cp: int)
    requires 0x800 <= cp < 0x1_0000
    ensures 0xE0 <= 0xE0 + cp / 4096 < 0xF0
    ensures 0x80 <= 0x80 + cp / 64 % 64 < 0xC0 && 0x80 <= 0x80 + cp % 64 < 0xC0
    ensures Payload3(0xE0 + cp / 4096, 0x80 + cp / 64 % 64, 0x80 + cp % 64) == cp
  {
    var q := cp / 64;
    assert cp == q * 64 + cp % 64;
    assert q == (q / 64) * 64 + q % 64;
    assert q / 64 == cp / 4096;
  }

  lemma Payload4OfSplit(cp: int)
    requires 0x1_0000 <= cp < 0x11_0000
    ensures 0xF0 <= 0xF0 + cp / 0x4_0000 < 0xF8
    ensures 0x80 <= 0x80 + cp / 4096 % 64 < 0xC0
    ensures 0x80 <= 0x80 + cp / 64 % 64 < 0xC0 && 0x80 <= 0x80 + cp % 64 < 0xC0
    ensures Payload4(0xF0 + cp / 0x4_0000, 0x80 + cp / 4096 % 64, 0x80 + cp / 64 % 64, 0x80 + cp % 64) == cp
  {
    var q := cp / 64;
    var q2 := q / 64;
    assert cp == q * 64 + cp % 64;
    assert q == q2 * 64 + q % 64;
    assert q2 == (q2 / 64) * 64 + q2 % 64;
    assert q2 == cp / 4096;
    assert q2 / 64 == cp / 0x4_0000;
  }

  lemma DecodeCharOfUtf8(c: char, rest: seq<Byte>)
    ensures DecodeChar(Utf8Char(c) + rest) == Some((c, |Utf8Char(c)|))
  {
    var cp := c as int;
    var bs := Utf8Char(c) + rest;
    if cp < 0x80 {
      assert bs[0] == cp;
    } else if cp < 0x800 {
      Payload2OfSplit(cp);
      assert bs[0] == 0xC0 + cp / 64 && bs[1] == 0x80 + cp % 64;
    } else if cp < 0x1_0000 {
      Payload3OfSplit(cp);
      assert bs[0] == 0xE0 + cp / 4096 && bs[1] == 0x80 + cp / 64 % 64 && bs[2] == 0x80 + cp % 64;
    } else {
      Payload4OfSplit(cp);
      assert bs[0] == 0xF0 + cp / 0x4_0000 && bs[1] == 0x80 + cp / 4096 % 64;
      assert bs[2] == 0x80 + cp / 64 % 64 && bs[3] == 0x80 + cp % 64;
    }
  }

  /** UTF-8 decoding undoes UTF-8 encoding. */
  lemma {:induction false} Utf8RoundTrip(s: string)
    ensures Utf8Decode(Utf8(s)) == Some(s)
  {
    if s != [] {
      var head := Utf8Char(s[0]);
      DecodeCharOfUtf8(s[0], Utf8(s[1..]));
      assert (head + Utf8(s[1..]))[|head|..] == Utf8(s[1..]);
      Utf8RoundTrip(s[1..]);
      assert [s[0]] + s[1..] == s;
    }
  }

  /** `%XY` for one byte, with upper-case hexadecimal digits. */
  function PercentEscape(b: Byte): (e: string)
    ensures |e| == 3 && e[0] == '%' && IsHex(e[1]) && IsHex(e[2])
    ensures HexValue(e[1]) * 16 + HexValue(e[2]) == b
    ensures InEncodedAlphabet(e[0]) && InEncodedAlphabet(e[1]) && InEncodedAlphabet(e[2])
    ensures e[1] < 'a' && e[2] < 'a'
  {
    HexValueOfDigit(b / 16);
    HexValueOfDigit(b % 16);
    ['%', HexDigit(b / 16), HexDigit(b % 16)]
  }

  function EscapeBytes(bs: seq<Byte>): (e: string)
    ensures |e| == 3 * |bs|
  {
    if bs == [] then [] else PercentEscape(bs[0]) + EscapeBytes(bs[1..])
  }

  /** The j-th three-character group of an escaped byte string is the escape of the j-th byte. */
  lemma {:induction false} EscapeBytesAt(bs: seq<Byte>, j: nat)
    requires j < |bs|
    ensures EscapeBytes(bs)[3 * j..3 * j + 3] == PercentEscape(bs[j])
  {
    var p, r := PercentEscape(bs[0]), EscapeBytes(bs[1..]);
    assert EscapeBytes(bs) == p + r;
    if j == 0 {
      assert (p + r)[0..3] == p;
    } else {
      EscapeBytesAt(bs[1..], j - 1);
      assert (p + r)[3 * j..3 * j + 3] == r[3 * (j - 1)..3 * (j - 1) + 3];
    }
  }

  lemma EscapeBytesShape(bs: seq<Byte>)
    ensures forall j :: 0 <= j < |bs| ==> EscapeBytes(bs)[3 * j..3 * j + 3] == PercentEscape(bs[j])
  {
    forall j | 0 <= j < |bs|
      ensures EscapeBytes(bs)[3 * j..3 * j + 3] == PercentEscape(bs[j])
    {
      EscapeBytesAt(bs, j);
    }
  }

  /** Every UTF-8 byte of a reserved character as a `%XY` escape, in order. */
  function EscapeChar(c: char): (e: string)
    requires !IsUnreserved(c)
    ensures |e| == 3 * |Utf8Char(c)| && e[0] == '%'
    ensures forall j :: 0 <= j < |Utf8Char(c)| ==> e[3 * j..3 * j + 3] == PercentEscape(Utf8Char(c)[j])
  {
    EscapeBytesShape(Utf8Char(c));
    EscapeBytes(Utf8Char(c))
  }

  /**
   * One step of the Encode operation: keep an unreserved character, and
   * write any other as one upper-case `%XY` escape per byte of its UTF-8 form.
   */
  function EncodeChar(c: char): (e: string)
    ensures IsUnreserved(c) ==> e == [c]
    ensures !IsUnreserved(c) ==> |e| == 3 * |Utf8Char(c)| && e[0] == '%'
  {
    if IsUnreserved(c) then [c] else EscapeChar(c)
  }

  /** A character outside the unreserved set is written as one `%XY` escape per byte of its UTF-8 form, in order. */
  lemma EncodeCharEscapes(c: char)
    ensures !IsUnreserved(c) ==> |EncodeChar(c)| == 3 * |Utf8Char(c)|
    ensures !IsUnreserved(c) ==>
      forall j :: 0 <= j < |Utf8Char(c)| ==> EncodeChar(c)[3 * j..3 * j + 3] == PercentEscape(Utf8Char(c)[j])
  {
    if !IsUnreserved(c) {
      assert EncodeChar(c) == EscapeChar(c);
    }
  }

  /**
   * encodeURIComponent. Its output uses only unreserved characters and '%',
   * so it never contains the body separators '&' and '=' nor '+'.
   */
  function EncodeURIComponent(s: string): string
  {
    if s == [] then [] else EncodeChar(s[0]) + EncodeURIComponent(s[1..])
  }

  /** Encoding works character by character: the encoding of a concatenation is the concatenation of the encodings. */
  lemma {:induction false} EncodeAppend(a: string, b: string)
    ensures EncodeURIComponent(a + b) == EncodeURIComponent(a) + EncodeURIComponent(b)
  {
    if a != [] {
      assert (a + b)[0] == a[0] && (a + b)[1..] == a[1..] + b;
      EncodeAppend(a[1..], b);
    } else {
      assert a + b == b;
    }
  }

  lemma EncodedConcat(a: string, b: string)
    requires IsEncoded(a) && IsEncoded(b)
    ensures IsEncoded(a + b)
  {
    forall i | 0 <= i < |a + b|
      ensures InEncodedAlphabet((a + b)[i])
    {
      if i < |a| {
        assert (a + b)[i] == a[i];
      } else {
        assert (a + b)[i] == b[i - |a|];
      }
    }
  }

  lemma {:induction false} EscapeBytesAlphabet(bs: seq<Byte>)
    ensures IsEncoded(EscapeBytes(bs))
  {
    if bs != [] {
      EscapeBytesAlphabet(bs[1..]);
      EncodedConcat(PercentEscape(bs[0]), EscapeBytes(bs[1..]));
    }
  }

  /** The output of encodeURIComponent uses only unreserved characters and '%'. */
  lemma {:induction false} EncodedAlphabet(s: string)
    ensures IsEncoded(EncodeURIComponent(s))
  {
    if s != [] {
      if !IsUnreserved(s[0]) {
        EscapeBytesAlphabet(Utf8Char(s[0]));
      }
      EncodedAlphabet(s[1..]);
      EncodedConcat(EncodeChar(s[0]), EncodeURIComponent(s[1..]));
    }
  }

  /**
   * So encodeURIComponent never emits the body separators '&' and '=', nor
   * '+', which the form parser reads as a space.
   */
  lemma NoSeparators(s: string)
    ensures '&' !in EncodeURIComponent(s) && '=' !in EncodeURIComponent(s) && '+' !in EncodeURIComponent(s)
  {
    EncodedAlphabet(s);
  }

  /**
   * Percent-decoding of WHATWG URL section 1.3 applied to the UTF-8 encoding
   * of `s`: `%XY` with two hexadecimal digits becomes byte XY, any other
   * character (a '%' not followed by two such digits included) its UTF-8 bytes.
   */
  function PercentDecode(s: string): seq<Byte>
    decreases |s|
  {
    if s == [] then []
    else if s[0] == '%' && |s| >= 3 && IsHex(s[1]) && IsHex(s[2]) then
      [HexValue(s[1]) * 16 + HexValue(s[2])] + PercentDecode(s[3..])
    else Utf8Char(s[0]) + PercentDecode(s[1..])
  }

  /** Decodes one name or value of a form body: percent-decode, then UTF-8 decode. */
  function DecodeComponent(s: string): Option<string> {
    Utf8Decode(PercentDecode(s))
  }

  lemma {:induction false} PercentDecodeEscapes(bs: seq<Byte>, rest: string)
    ensures PercentDecode(EscapeBytes(bs) + rest) == bs + PercentDecode(rest)
  {
    if bs == [] {
      assert EscapeBytes(bs) + rest == rest;
    } else {
      var e := PercentEscape(bs[0]);
      var tail := EscapeBytes(bs[1..]) + rest;
      assert EscapeBytes(bs) + rest == e + tail;
      var s := e + tail;
      assert s[0] == '%' && s[1] == e[1] && s[2] == e[2] && |s| >= 3;
      assert s[3..] == tail;
      PercentDecodeEscapes(bs[1..], rest);
      assert PercentDecode(s) == [bs[0]] + PercentDecode(tail);
      assert [bs[0]] + (bs[1..] + PercentDecode(rest)) == bs + PercentDecode(rest);
    }
  }

  lemma PercentDecodeEncodeChar(c: char, rest: string)
    ensures PercentDecode(EncodeChar(c) + rest) == Utf8Char(c) + PercentDecode(rest)
  {
    if IsUnreserved(c) {
      assert ([c] + rest)[1..] == rest;
    } else {
      PercentDecodeEscapes(Utf8Char(c), rest);
    }
  }

  /** Percent-decoding the output of encodeURIComponent yields the UTF-8 bytes of its input. */
  lemma {:induction false} PercentDecodeOfEncode(s: string)
    ensures PercentDecode(EncodeURIComponent(s)) == Utf8(s)
  {
    if s != [] {
      PercentDecodeEncodeChar(s[0], EncodeURIComponent(s[1..]));
      PercentDecodeOfEncode(s[1..]);
    }
  }

  /** Decoding a component undoes encodeURIComponent, for every string. */
  lemma ComponentRoundTrip(s: string)
    ensures DecodeComponent(EncodeURIComponent(s)) == Some(s)
  {
    PercentDecodeOfEncode(s);
    Utf8RoundTrip(s);
  }

  /** encodeURIComponent leaves a string of unreserved characters as it is. */
  lemma {:induction false} EncodeUnreserved(s: string)
    requires forall i :: 0 <= i < |s| ==> IsUnreserved(s[i])
    ensures EncodeURIComponent(s) == s
  {
    if s != [] {
      EncodeUnreserved(s[1..]);
      assert [s[0]] + s[1..] == s;
    }
  }
}
