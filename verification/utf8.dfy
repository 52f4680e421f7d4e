/**
 * UTF-8 encoding of one code point (RFC 3629, section 3) and the lower-case
 * hexadecimal rendering of bytes used by java.util.HexFormat.of(), together
 * with the decoders that undo them.
 */
module Utf8 {
  import opened Wrappers

  /** The code points section 3 of RFC 3629 allows to encode: no surrogates, at most U+10FFFF. */
  predicate IsScalar(cp: int)
  {
    0 <= cp < 0xD800 || 0xE000 <= cp < 0x11_0000
  }

  type Byte = b: int | 0 <= b < 0x100

  /** Length of the sequence a lead byte starts (the table of section 3), 0 when b cannot lead. */
  function SequenceLength(b: Byte): nat
  {
    if b < 0x80 then 1
    else if b < 0xC0 then 0
    else if b < 0xE0 then 2
    else if b < 0xF0 then 3
    else if b < 0xF8 then 4
    else 0
  }

  predicate IsContinuation(b: Byte)
  {
    0x80 <= b < 0xC0
  }

  /** The UTF-8 bytes of one code point. */
  function Encode(cp: int): (bs: seq<Byte>)
    requires IsScalar(cp)
    ensures 1 <= |bs| <= 4 && SequenceLength(bs[0]) == |bs|
    ensures forall i :: 1 <= i < |bs| ==> IsContinuation(bs[i])
    ensures |bs| == 1 <==> cp < 0x80
  {
    if cp < 0x80 then [cp]
    else if cp < 0x800 then [0xC0 + cp / 0x40, 0x80 + cp % 0x40]
    else if cp < 0x1_0000 then [0xE0 + cp / 0x1000, 0x80 + cp / 0x40 % 0x40, 0x80 + cp % 0x40]
    else [0xF0 + cp / 0x4_0000, 0x80 + cp / 0x1000 % 0x40, 0x80 + cp / 0x40 % 0x40, 0x80 + cp % 0x40]
  }

  /** The code point a well-formed sequence of 1 to 4 bytes stands for. */
  function DecodeSequence(bs: seq<Byte>): int
    requires 1 <= |bs| <= 4
  {
    var b: seq<int> := bs;
    if |b| == 1 then b[0]
    else if |b| == 2 then (b[0] - 0xC0) * 0x40 + (b[1] - 0x80)
    else if |b| == 3 then (b[0] - 0xE0) * 0x1000 + (b[1] - 0x80) * 0x40 + (b[2] - 0x80)
    else (b[0] - 0xF0) * 0x4_0000 + (b[1] - 0x80) * 0x1000 + (b[2] - 0x80) * 0x40 + (b[3] - 0x80)
  }

  /** Decoding undoes encoding. */
  lemma DecodeEncode(cp: int)
    requires IsScalar(cp)
    ensures DecodeSequence(Encode(cp)) == cp
  {
    if cp >= 0x1_0000 {
      var a, b, c, d := cp / 0x4_0000, cp / 0x1000 % 0x40, cp / 0x40 % 0x40, cp % 0x40;
      assert cp / 0x1000 == a * 0x40 + b;
      assert cp / 0x40 == (cp / 0x1000) * 0x40 + c;
      assert cp == (cp / 0x40) * 0x40 + d;
    } else if cp >= 0x800 {
      var a, b, c := cp / 0x1000, cp / 0x40 % 0x40, cp % 0x40;
      assert cp / 0x40 == a * 0x40 + b;
      assert cp == (cp / 0x40) * 0x40 + c;
    }
  }

  // ---------------------------------------------------------------------------
  // Lower-case hexadecimal
  // ---------------------------------------------------------------------------

  /** The lower-case hex digit of a value 0..15. */
  function HexDigit(d: int): (c: char)
    requires 0 <= d < 16
    ensures '0' <= c <= '9' || 'a' <= c <= 'f'
  {
    if d < 10 then ('0' as int + d) as char else ('a' as int + d - 10) as char
  }

  /** The value of a lower-case hex digit. */
  function HexValue(c: char): Option<int>
  {
    if '0' <= c <= '9' then Some(c as int - '0' as int)
    else if 'a' <= c <= 'f' then Some(c as int - 'a' as int + 10)
    else None
  }

  /** Two hex digits per byte, high nibble first (HexFormat.of().formatHex). */
  function Hex(bs: seq<Byte>): (r: string)
    ensures |r| == 2 * |bs|
    ensures forall i :: 0 <= i < |r| ==> '0' <= r[i] <= '9' || 'a' <= r[i] <= 'f'
  {
    if |bs| == 0 then "" else [HexDigit(bs[0] / 16), HexDigit(bs[0] % 16)] + Hex(bs[1..])
  }

  /** Reads the byte written as the first two hex digits of s. */
  function ParseHexByte(s: string): Option<Byte>
    requires |s| >= 2
  {
    match (HexValue(s[0]), HexValue(s[1]))
    case (Some(hi), Some(lo)) => if hi * 16 + lo < 0x100 then Some(hi * 16 + lo) else None
    case _ => None
  }

  /** Reads n bytes written as 2n hex digits at the start of s. */
  function ParseHex(s: string, n: nat): (r: Option<seq<Byte>>)
    ensures r.Some? ==> |r.value| == n && 2 * n <= |s|
    decreases n
  {
    if n == 0 then Some([])
    else if |s| < 2 then None
    else match ParseHexByte(s)
      case None => None
      case Some(b) =>
        match ParseHex(s[2..], n - 1)
        case None => None
        case Some(rest) => Some([b] + rest)
  }

  /** Reading back the hex rendering of bytes yields the bytes, whatever follows. */
  lemma {:induction false} ParseHexRoundTrip(bs: seq<Byte>, rest: string)
    ensures ParseHex(Hex(bs) + rest, |bs|) == Some(bs)
  {
    if |bs| > 0 {
      var s := Hex(bs) + rest;
      assert s[2..] == Hex(bs[1..]) + rest;
      ParseHexRoundTrip(bs[1..], rest);
      assert ParseHexByte(s) == Some(bs[0]);
      assert [bs[0]] + bs[1..] == bs;
    }
  }

  // ---------------------------------------------------------------------------
  // Hex of UTF-8, as one unit
  // ---------------------------------------------------------------------------

  /** The hex rendering of the UTF-8 bytes of one code point. */
  function HexUtf8(cp: int): (r: string)
    requires IsScalar(cp)
    ensures |r| == 2 * |Encode(cp)|
    ensures forall i :: 0 <= i < |r| ==> '0' <= r[i] <= '9' || 'a' <= r[i] <= 'f'
  {
    Hex(Encode(cp))
  }

  /**
   * Reads one hex-rendered UTF-8 sequence at the start of s: the code point
   * and the number of chars it occupies. The lead byte fixes the length.
   */
  function ParseHexUtf8(s: string): (r: Option<(int, nat)>)
    ensures r.Some? ==> IsScalar(r.value.0) && 2 <= r.value.1 <= |s|
  {
    if |s| < 2 then None
    else match ParseHexByte(s)
      case None => None
      case Some(lead) =>
        var n := SequenceLength(lead);
        if n == 0 then None
        else match ParseHex(s, n)
          case None => None
          case Some(bs) =>
            if |bs| == n && IsScalar(DecodeSequence(bs)) then Some((DecodeSequence(bs), 2 * n)) else None
  }

  /** ParseHexUtf8 undoes HexUtf8, whatever follows the encoding. */
  lemma ParseHexUtf8RoundTrip(cp: int, rest: string)
    requires IsScalar(cp)
    ensures ParseHexUtf8(HexUtf8(cp) + rest) == Some((cp, |HexUtf8(cp)|))
  {
    var bs := Encode(cp);
    var s := Hex(bs) + rest;
    ParseHexRoundTrip(bs, rest);
    ParseHexRoundTrip([bs[0]], Hex(bs[1..]) + rest);
    assert Hex(bs) == Hex([bs[0]]) + Hex(bs[1..]);
    assert ParseHexByte(s) == Some(bs[0]);
    DecodeEncode(cp);
  }
}
