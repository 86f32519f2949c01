/** Bytes and the hexadecimal text form in which ciphertexts and IVs are stored. */
module Hex {

  type byte = b: int | 0 <= b < 256

  /** A digit Node's hex decoder accepts, in either case. */
  predicate IsHexDigit(c: char) {
    ('0' <= c <= '9') || ('a' <= c <= 'f') || ('A' <= c <= 'F')
  }

  /** A digit Node's `toString('hex')` writes: lower case only. */
  predicate IsLowerHexDigit(c: char) {
    ('0' <= c <= '9') || ('a' <= c <= 'f')
  }

  predicate IsLowerHex(s: string) {
    forall i :: 0 <= i < |s| ==> IsLowerHexDigit(s[i])
  }

  function DigitValue(c: char): (v: nat)
    requires IsHexDigit(c)
    ensures v < 16
  {
    if '0' <= c <= '9' then c as int - '0' as int
    else if 'a' <= c <= 'f' then c as int - 'a' as int + 10
    else c as int - 'A' as int + 10
  }

  /** The lower-case digit of a nibble. */
  function DigitOf(v: nat): (c: char)
    requires v < 16
    ensures IsLowerHexDigit(c) && IsHexDigit(c) && DigitValue(c) == v
  {
    if v < 10 then ('0' as int + v) as char else ('a' as int + v - 10) as char
  }

  /** Two lower-case digits, high nibble first. */
  function EncodeByte(b: byte): (s: string)
    ensures |s| == 2 && IsLowerHex(s)
    ensures IsHexDigit(s[0]) && IsHexDigit(s[1])
    ensures DigitValue(s[0]) * 16 + DigitValue(s[1]) == b as int
  {
    [DigitOf(b as int / 16), DigitOf(b as int % 16)]
  }

  /** `Buffer.toString('hex')`. */
  function Encode(bs: seq<byte>): (s: string)
    ensures |s| == 2 * |bs|
    ensures IsLowerHex(s)
  {
    if bs == [] then "" else EncodeByte(bs[0]) + Encode(bs[1..])
  }

  /**
   * `Buffer.from(s, 'hex')` as Node implements it: digits are read in pairs
   * (either case), decoding stops silently at the first pair holding a
   * character that is not a hex digit, and an odd trailing digit is dropped.
   * It never throws.
   */
  function Decode(s: string): (bs: seq<byte>)
    ensures 2 * |bs| <= |s|
  {
    if |s| < 2 || !IsHexDigit(s[0]) || !IsHexDigit(s[1]) then []
    else [DigitValue(s[0]) * 16 + DigitValue(s[1])] + Decode(s[2..])
  }

  /** Decoding the encoder's output gives back every byte. */
  lemma {:induction false} DecodeEncode(bs: seq<byte>)
    ensures Decode(Encode(bs)) == bs
  {
    if bs != [] {
      var h := EncodeByte(bs[0]);
      var s := Encode(bs);
      assert s == h + Encode(bs[1..]);
      assert s[0] == h[0] && s[1] == h[1];
      assert s[2..] == Encode(bs[1..]);
      DecodeEncode(bs[1..]);
    }
  }

  /** A text of lower-case digits of even length decodes to half as many bytes. */
  lemma {:induction false} DecodeLength(s: string)
    requires IsLowerHex(s) && |s| % 2 == 0
    ensures |Decode(s)| == |s| / 2
  {
    if |s| >= 2 {
      assert IsLowerHexDigit(s[0]) && IsLowerHexDigit(s[1]);
      DecodeLength(s[2..]);
    }
  }
}
