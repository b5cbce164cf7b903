/**
 * `encodeURIComponent`, which the search widget applies to the query of the search-page URL: code
 * points outside the unreserved set are written as the percent-escaped bytes of their UTF-8
 * encoding. `Decode` is its inverse, stated here so that the encoding is shown to lose nothing.
 */
module UriComponent {
  import opened Wrappers

  /** The characters `encodeURIComponent` leaves as they are. */
  predicate IsUnreserved(c: char) {
    || ('A' <= c <= 'Z') || ('a' <= c <= 'z') || ('0' <= c <= '9')
    || c == '-' || c == '_' || c == '.' || c == '!' || c == '~' || c == '*' || c == '\'' || c == '(' || c == ')'
  }

  predicate IsUpperHex(c: char) {
    ('0' <= c <= '9') || ('A' <= c <= 'F')
  }

  type Byte = b: nat | b < 256

  /**
   * The UTF-8 encoding of one code point, in its shortest form: one byte below U+0080, two below
   * U+0800, three below U+10000 and four above, every byte after the first a continuation byte.
   */
  function Utf8(c: char): (bytes: seq<Byte>)
    ensures 1 <= |bytes| <= 4
    ensures |bytes| == if c as int < 0x80 then 1 else if c as int < 0x800 then 2 else if c as int < 0x10000 then 3 else 4
    ensures forall i :: 1 <= i < |bytes| ==> 0x80 <= bytes[i] < 0xC0
  {
    var n := c as int;
    if n < 0x80 then [n]
    else if n < 0x800 then [0xC0 + n / 64, 0x80 + n % 64]
    else if n < 0x10000 then [0xE0 + n / 4096, 0x80 + (n / 64) % 64, 0x80 + n % 64]
    else [0xF0 + n / 262144, 0x80 + (n / 4096) % 64, 0x80 + (n / 64) % 64, 0x80 + n % 64]
  }

  function HexDigit(d: nat): (c: char)
    requires d < 16
    ensures IsUpperHex(c)
  {
    if d < 10 then ('0' as int + d) as char else ('A' as int + d - 10) as char
  }

  /** Each byte as `%` followed by two upper-case hexadecimal digits. */
  function PercentBytes(bytes: seq<Byte>): (r: string)
    ensures |r| == 3 * |bytes|
    ensures forall i :: 0 <= i < |r| ==> IsUnreserved(r[i]) || r[i] == '%'
  {
    if bytes == [] then [] else ['%', HexDigit(bytes[0] / 16), HexDigit(bytes[0] % 16)] + PercentBytes(bytes[1..])
  }

  /** Byte `i` is written at positions `3i` to `3i + 2`: `%`, then its high and its low hexadecimal digit. */
  lemma {:induction false} PercentBytesLayout(bytes: seq<Byte>)
    ensures forall i :: 0 <= i < |bytes| ==>
      var r := PercentBytes(bytes);
      r[3 * i] == '%' && r[3 * i + 1] == HexDigit(bytes[i] / 16) && r[3 * i + 2] == HexDigit(bytes[i] % 16)
  {
    if bytes != [] {
      var tail := bytes[1..];
      PercentBytesLayout(tail);
      var r, rest := PercentBytes(bytes), PercentBytes(tail);
      forall i | 1 <= i < |bytes|
        ensures r[3 * i] == '%' && r[3 * i + 1] == HexDigit(bytes[i] / 16) && r[3 * i + 2] == HexDigit(bytes[i] % 16)
      {
        var j := i - 1;
        assert 3 * i == 3 * j + 3;
        assert bytes[i] == tail[j];
        assert r[3 * i] == rest[3 * j] && r[3 * i + 1] == rest[3 * j + 1] && r[3 * i + 2] == rest[3 * j + 2];
      }
    }
  }

  function EncodeChar(c: char): string {
    if IsUnreserved(c) then [c] else PercentBytes(Utf8(c))
  }

  /** `encodeURIComponent(s)`. Every character of the result is unreserved, `%` or a hexadecimal digit. */
  function Encode(s: string): (r: string)
    ensures |s| <= |r|
    ensures forall i :: 0 <= i < |r| ==> IsUnreserved(r[i]) || r[i] == '%'
  {
    if s == [] then [] else EncodeChar(s[0]) + Encode(s[1..])
  }

  /** One unit of a percent-decoded string: a character written as it is, or an escaped byte. */
  datatype Unit = Literal(c: char) | Escaped(b: Byte)

  function HexValue(c: char): Option<nat> {
    if '0' <= c <= '9' then Some(c as int - '0' as int)
    else if 'A' <= c <= 'F' then Some(c as int - 'A' as int + 10)
    else if 'a' <= c <= 'f' then Some(c as int - 'a' as int + 10)
    else None
  }

  /** Splits a percent-encoded string into units; a `%` not followed by two hexadecimal digits is an error. */
  function Unescape(s: string): Option<seq<Unit>>
    decreases |s|
  {
    if s == [] then Some([])
    else if s[0] != '%' then
      match Unescape(s[1..])
      case None => None
      case Some(rest) => Some([Literal(s[0])] + rest)
    else if |s| < 3 then None
    else
      match (HexValue(s[1]), HexValue(s[2]))
      case (Some(hi), Some(lo)) =>
        (match Unescape(s[3..])
         case None => None
         case Some(rest) => if hi < 16 && lo < 16 then Some([Escaped(16 * hi + lo)] + rest) else None)
      case _ => None
  }

  /** How many bytes the UTF-8 sequence led by `b` has; 0 when `b` cannot lead one. */
  function SequenceLength(b: Byte): nat {
    if b < 0x80 then 1
    else if 0xC0 <= b < 0xE0 then 2
    else if 0xE0 <= b < 0xF0 then 3
    else if 0xF0 <= b < 0xF8 then 4
    else 0
  }

  predicate AllEscaped(units: seq<Unit>) {
    forall i :: 0 <= i < |units| ==> units[i].Escaped?
  }

  /** The code point a complete UTF-8 sequence of escaped bytes stands for. */
  function CodePoint(units: seq<Unit>): nat
    requires 1 <= |units| <= 4 && AllEscaped(units)
  {
    var b0 := units[0].b;
    if |units| == 1 then b0
    else if |units| == 2 then (b0 % 32) * 64 + units[1].b % 64
    else if |units| == 3 then (b0 % 16) * 4096 + (units[1].b % 64) * 64 + units[2].b % 64
    else (b0 % 8) * 262144 + (units[1].b % 64) * 4096 + (units[2].b % 64) * 64 + units[3].b % 64
  }

  predicate IsScalarValue(n: nat) {
    n < 0xD800 || 0xE000 <= n < 0x11_0000
  }

  /** Reassembles characters from units, decoding each run of escaped bytes as UTF-8. */
  function Utf8Decode(units: seq<Unit>): Option<string>
    decreases |units|
  {
    if units == [] then Some([])
    else match units[0]
      case Literal(c) =>
        (match Utf8Decode(units[1..])
         case None => None
         case Some(rest) => Some([c] + rest))
      case Escaped(b) =>
        var n := SequenceLength(b);
        if n == 0 || |units| < n || !AllEscaped(units[..n]) then None
        else
          var v := CodePoint(units[..n]);
          if !IsScalarValue(v) then None
          else
            match Utf8Decode(units[n..])
            case None => None
            case Some(rest) => Some([v as char] + rest)
  }

  /**
   * `decodeURIComponent`'s reading of a percent-encoded string. It rejects surrogate code points, but,
   * unlike `decodeURIComponent`, it does not reject overlong forms and does not check that the bytes
   * after a lead byte are continuation bytes.
   */
  function Decode(s: string): Option<string> {
    match Unescape(s)
    case None => None
    case Some(units) => Utf8Decode(units)
  }

  /** The units `Encode` writes for one character. */
  function CharUnits(c: char): seq<Unit> {
    if IsUnreserved(c) then [Literal(c)] else EscapedAll(Utf8(c))
  }

  function EscapedAll(bytes: seq<Byte>): (r: seq<Unit>)
    ensures |r| == |bytes| && AllEscaped(r)
    ensures forall i :: 0 <= i < |bytes| ==> r[i].b == bytes[i]
  {
    if bytes == [] then [] else [Escaped(bytes[0])] + EscapedAll(bytes[1..])
  }

  lemma HexDigitValue(d: nat)
    requires d < 16
    ensures HexValue(HexDigit(d)) == Some(d)
  {
  }

  /** One escape `%XY` in front of `t` reads back as its byte in front of whatever `t` reads as. */
  lemma UnescapeOneEscape(b: Byte, t: string)
    ensures Unescape(['%', HexDigit(b / 16), HexDigit(b % 16)] + t) ==
      match Unescape(t)
      case None => None
      case Some(units) => Some([Escaped(b)] + units)
  {
    var s := ['%', HexDigit(b / 16), HexDigit(b % 16)] + t;
    HexDigitValue(b / 16);
    HexDigitValue(b % 16);
    assert s[0] == '%' && s[1] == HexDigit(b / 16) && s[2] == HexDigit(b % 16);
    assert s[3..] == t;
    assert 16 * (b / 16) + b % 16 == b;
  }

  /** Unescaping percent-escaped bytes gives the bytes back. */
  lemma {:induction false} UnescapePercentBytes(bytes: seq<Byte>, rest: string)
    ensures Unescape(PercentBytes(bytes) + rest) ==
      match Unescape(rest)
      case None => None
      case Some(units) => Some(EscapedAll(bytes) + units)
  {
    if bytes != [] {
      var b, tail := bytes[0], bytes[1..];
      var t := PercentBytes(tail) + rest;
      var head := ['%', HexDigit(b / 16), HexDigit(b % 16)];
      assert PercentBytes(bytes) == head + PercentBytes(tail);
      assert PercentBytes(bytes) + rest == head + t;
      UnescapeOneEscape(b, t);
      UnescapePercentBytes(tail, rest);
      assert EscapedAll(bytes) == [Escaped(b)] + EscapedAll(tail);
      match Unescape(rest)
      case None =>
      case Some(units) =>
        assert [Escaped(b)] + (EscapedAll(tail) + units) == EscapedAll(bytes) + units;
    } else {
      assert PercentBytes(bytes) + rest == rest;
      match Unescape(rest)
      case None =>
      case Some(units) => assert EscapedAll(bytes) + units == units;
    }
  }

  lemma TwoByteArithmetic(n: nat)
    requires 0x80 <= n < 0x800
    ensures 0xC0 <= 0xC0 + n / 64 < 0xE0
    ensures ((0xC0 + n / 64) % 32) * 64 + (0x80 + n % 64) % 64 == n
  {
  }

  lemma ThreeByteArithmetic(n: nat)
    requires 0x800 <= n < 0x10000
    ensures 0xE0 <= 0xE0 + n / 4096 < 0xF0
    ensures ((0xE0 + n / 4096) % 16) * 4096 + ((0x80 + (n / 64) % 64) % 64) * 64 + (0x80 + n % 64) % 64 == n
  {
    var q := n / 64;
    assert n == 64 * q + n % 64;
    assert q / 64 == n / 4096;
    assert q == 64 * (q / 64) + q % 64;
  }

  lemma FourByteArithmetic(n: nat)
    requires 0x10000 <= n < 0x11_0000
    ensures 0xF0 <= 0xF0 + n / 262144 < 0xF8
    ensures ((0xF0 + n / 262144) % 8) * 262144 + ((0x80 + (n / 4096) % 64) % 64) * 4096
            + ((0x80 + (n / 64) % 64) % 64) * 64 + (0x80 + n % 64) % 64 == n
  {
    var a, q := n % 64, n / 64;
    var b, r := q % 64, q / 64;
    var c, d := r % 64, r / 64;
    assert n == 64 * q + a && q == 64 * r + b && r == 64 * d + c;
    assert n == 262144 * d + 4096 * c + 64 * b + a;
    assert r == n / 4096 && d == n / 262144;
    assert (0x80 + a) % 64 == a && (0x80 + b) % 64 == b && (0x80 + c) % 64 == c;
    assert (0xF0 + d) % 8 == d;
  }

  /** The UTF-8 bytes of a code point lead a sequence of their own length and decode to it. */
  lemma Utf8Decodes(c: char)
    ensures SequenceLength(Utf8(c)[0]) == |Utf8(c)|
    ensures CodePoint(EscapedAll(Utf8(c))) == c as int
  {
    var n := c as int;
    var u := EscapedAll(Utf8(c));
    if n < 0x80 {
    } else if n < 0x800 {
      TwoByteArithmetic(n);
    } else if n < 0x10000 {
      ThreeByteArithmetic(n);
    } else {
      FourByteArithmetic(n);
    }
  }

  /** The units `Encode` writes for a whole string. */
  function Units(s: string): seq<Unit> {
    if s == [] then [] else CharUnits(s[0]) + Units(s[1..])
  }

  lemma {:induction false} UnescapeEncode(s: string)
    ensures Unescape(Encode(s)) == Some(Units(s))
  {
    if s != [] {
      var c, rest := s[0], Encode(s[1..]);
      UnescapeEncode(s[1..]);
      assert Encode(s) == EncodeChar(c) + rest;
      if IsUnreserved(c) {
        assert (EncodeChar(c) + rest)[1..] == rest;
      } else {
        UnescapePercentBytes(Utf8(c), rest);
      }
    }
  }

  lemma {:induction false} Utf8DecodeUnits(s: string)
    ensures Utf8Decode(Units(s)) == Some(s)
  {
    if s != [] {
      var c := s[0];
      var units := Units(s);
      Utf8DecodeUnits(s[1..]);
      if IsUnreserved(c) {
        assert units[1..] == Units(s[1..]);
      } else {
        var bytes := EscapedAll(Utf8(c));
        Utf8Decodes(c);
        var n := |bytes|;
        assert units[..n] == bytes && units[n..] == Units(s[1..]);
        assert units[0] == Escaped(Utf8(c)[0]);
        assert IsScalarValue(c as int);
        assert (c as int) as char == c;
      }
      assert [c] + s[1..] == s;
    }
  }

  /** Decoding undoes `encodeURIComponent`: the search query survives the trip through the URL. */
  lemma EncodeRoundTrip(s: string)
    ensures Decode(Encode(s)) == Some(s)
  {
    UnescapeEncode(s);
    Utf8DecodeUnits(s);
  }
}
