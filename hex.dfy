/** The hex step of `sha256`: every digest byte becomes `b.toString(16)`
    left-padded with `0` to two characters, and the pieces are joined. The
    decoder is the encoder's partner, used to show that the encoding loses
    nothing. */
module Hex {
  import opened Wrappers

  type Byte = b: int | 0 <= b < 256

  /** A SHA-256 digest: 32 bytes. */
  type Digest = d: seq<Byte> | |d| == 32 witness seq(32, _ => 0)

  predicate IsLowerHexDigit(c: char) {
    '0' <= c <= '9' || 'a' <= c <= 'f'
  }

  /** The digit `Number.prototype.toString(16)` writes for `n < 16`. */
  function HexDigit(n: nat): (c: char)
    requires n < 16
    ensures IsLowerHexDigit(c)
  {
    if n < 10 then ('0' as int + n) as char else ('a' as int + n - 10) as char
  }

  /** The value of a lower-case hex digit. */
  function DigitValue(c: char): (v: Option<nat>)
    ensures v.Some? <==> IsLowerHexDigit(c)
    ensures v.Some? ==> v.value < 16 && HexDigit(v.value) == c
  {
    if '0' <= c <= '9' then Some(c as int - '0' as int)
    else if 'a' <= c <= 'f' then Some(c as int - 'a' as int + 10)
    else None
  }

  lemma DigitValueOfHexDigit(n: nat)
    requires n < 16
    ensures DigitValue(HexDigit(n)) == Some(n)
  {
  }

  /** `n.toString(16)` for a non-negative integer: lower-case digits, no
      leading zeros, a single digit exactly when `n < 16`. */
  function ToHexString(n: nat): (s: string)
    ensures |s| >= 1
    ensures forall i | 0 <= i < |s| :: IsLowerHexDigit(s[i])
    ensures |s| == 1 <==> n < 16
  {
    if n < 16 then [HexDigit(n)] else ToHexString(n / 16) + [HexDigit(n % 16)]
  }

  /** `s.padStart(width, fill)` with a one-character fill. */
  function PadStart(s: string, width: nat, fill: char): (r: string)
    ensures |r| == if |s| >= width then |s| else width
    ensures r[|r| - |s|..] == s
    ensures forall i | 0 <= i < |r| - |s| :: r[i] == fill
  {
    if |s| >= width then s else seq(width - |s|, _ => fill) + s
  }

  /** `b.toString(16).padStart(2, "0")`: always two digits, the high nibble
      first. */
  function ByteToHex(b: Byte): (r: string)
    ensures r == [HexDigit(b / 16), HexDigit(b % 16)]
  {
    var digits := ToHexString(b);
    assert b < 16 ==> digits == [HexDigit(b)] && HexDigit(0) == '0';
    assert b >= 16 ==> ToHexString(b / 16) == [HexDigit(b / 16)];
    PadStart(digits, 2, '0')
  }

  /** `Array.from(bytes).map(ByteToHex).join("")`. */
  function HexEncode(bytes: seq<Byte>): (hex: string)
    ensures |hex| == 2 * |bytes|
    ensures forall i | 0 <= i < |hex| :: IsLowerHexDigit(hex[i])
  {
    if bytes == [] then ""
    else ByteToHex(bytes[0]) + HexEncode(bytes[1..])
  }

  /** The inverse of `HexEncode`: pairs of lower-case hex digits, high
      nibble first; anything else is rejected. */
  function HexDecode(hex: string): (r: Option<seq<Byte>>)
    ensures r.Some? ==> 2 * |r.value| == |hex|
  {
    if |hex| == 0 then Some([])
    else if |hex| == 1 || DigitValue(hex[0]).None? || DigitValue(hex[1]).None? then None
    else
      var rest := HexDecode(hex[2..]);
      if rest.None? then None
      else Some([DigitValue(hex[0]).value * 16 + DigitValue(hex[1]).value] + rest.value)
  }

  /** A byte is its high nibble times 16 plus its low nibble. */
  lemma NibbleSplit(hi: nat, lo: nat)
    requires hi < 16 && lo < 16
    ensures (hi * 16 + lo) / 16 == hi && (hi * 16 + lo) % 16 == lo
  {
  }

  /** Two digits in front of a decodable string decode to one more byte. */
  lemma DecodeCons(hi: nat, lo: nat, tail: string, rest: seq<Byte>)
    requires hi < 16 && lo < 16 && HexDecode(tail) == Some(rest)
    ensures HexDecode([HexDigit(hi), HexDigit(lo)] + tail) == Some([hi * 16 + lo] + rest)
  {
    var hex := [HexDigit(hi), HexDigit(lo)] + tail;
    assert hex[0] == HexDigit(hi) && hex[1] == HexDigit(lo) && hex[2..] == tail;
    DigitValueOfHexDigit(hi);
    DigitValueOfHexDigit(lo);
  }

  /** Decoding an encoding gives back the bytes. */
  lemma {:induction false} DecodeEncode(bytes: seq<Byte>)
    ensures HexDecode(HexEncode(bytes)) == Some(bytes)
  {
    if bytes != [] {
      var b, rest := bytes[0], bytes[1..];
      var hi, lo := b / 16, b % 16;
      assert b == hi * 16 + lo;
      assert bytes == [b] + rest;
      EncodeCons(b, rest);
      DecodeEncode(rest);
      DecodeCons(hi, lo, HexEncode(rest), rest);
    }
  }

  /** The first step of a successful decode: two digits and a decodable
      rest. */
  lemma DecodeFront(hex: string)
    requires |hex| > 0 && HexDecode(hex).Some?
    ensures |hex| >= 2
    ensures DigitValue(hex[0]).Some? && DigitValue(hex[1]).Some? && HexDecode(hex[2..]).Some?
    ensures HexDecode(hex).value ==
      [DigitValue(hex[0]).value * 16 + DigitValue(hex[1]).value] + HexDecode(hex[2..]).value
  {
  }

  lemma EncodeCons(b: Byte, rest: seq<Byte>)
    ensures HexEncode([b] + rest) == ByteToHex(b) + HexEncode(rest)
  {
    assert ([b] + rest)[1..] == rest;
  }

  /** Every string the decoder accepts is the encoding of what it returns:
      the lower-case hex strings of even length are exactly the encodings. */
  lemma {:induction false} EncodeDecode(hex: string, bytes: seq<Byte>)
    requires HexDecode(hex) == Some(bytes)
    ensures HexEncode(bytes) == hex
  {
    if |hex| > 0 {
      DecodeFront(hex);
      var hi := DigitValue(hex[0]).value;
      var lo := DigitValue(hex[1]).value;
      var rest := HexDecode(hex[2..]).value;
      NibbleSplit(hi, lo);
      var b: Byte := hi * 16 + lo;
      assert bytes == [b] + rest;
      EncodeDecode(hex[2..], rest);
      EncodeCons(b, rest);
      assert ByteToHex(b) == hex[..2];
      assert hex == hex[..2] + hex[2..];
    }
  }

  /** Distinct byte strings have distinct encodings. */
  lemma EncodeInjective(a: seq<Byte>, b: seq<Byte>)
    requires HexEncode(a) == HexEncode(b)
    ensures a == b
  {
    DecodeEncode(a);
    DecodeEncode(b);
  }

  /** The stored `email_hash` of a digest: 64 lower-case hex digits. */
  lemma DigestHexShape(d: Digest)
    ensures |HexEncode(d)| == 64
    ensures forall i | 0 <= i < 64 :: IsLowerHexDigit(HexEncode(d)[i])
  {
  }
}
