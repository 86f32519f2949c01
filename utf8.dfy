/**
 * UTF-8, the text encoding named by the 'utf8' arguments of the cipher calls:
 * plaintext is encoded before encryption and the recovered bytes are decoded
 * after decryption. Dafny's `char` is a Unicode scalar value.
 */
module Utf8 {
  import opened Hex

  /** U+FFFD, which Node's decoder writes for every ill-formed subsequence. */
  const REPLACEMENT: char := '�'

  predicate IsContinuation(b: byte) {
    0x80 <= b <= 0xBF
  }

  /** The one to four bytes of a scalar value, shortest form. */
  function EncodeChar(c: char): (bs: seq<byte>)
    ensures 1 <= |bs| <= 4
  {
    var n := c as int;
    if n < 0x80 then [n]
    else if n < 0x800 then [(0xC0 + n / 64), (0x80 + n % 64)]
    else if n < 0x1_0000 then
      [(0xE0 + n / 4096), (0x80 + (n / 64) % 64), (0x80 + n % 64)]
    else
      [(0xF0 + n / 262144), (0x80 + (n / 4096) % 64),
       (0x80 + (n / 64) % 64), (0x80 + n % 64)]
  }

  function Encode(s: string): (bs: seq<byte>)
    ensures |s| <= |bs| <= 4 * |s|
  {
    if s == [] then [] else EncodeChar(s[0]) + Encode(s[1..])
  }

  /**
   * Decodes the first character of `bs` the way the WHATWG decoder Node uses
   * does: a well-formed sequence gives its scalar value; otherwise the longest
   * prefix that could still have begun a well-formed sequence (at least one
   * byte) is consumed and replaced by U+FFFD. Returns the character and the
   * number of bytes consumed.
   */
  function DecodeOne(bs: seq<byte>): (r: (char, nat))
    requires |bs| > 0
    ensures 1 <= r.1 <= |bs|
  {
    var b0: int := bs[0];
    if b0 < 0x80 then (b0 as char, 1)
    else if 0xC2 <= b0 <= 0xDF then
      if |bs| < 2 || !IsContinuation(bs[1]) then (REPLACEMENT, 1)
      else (((b0 - 0xC0) * 64 + (bs[1] as int - 0x80)) as char, 2)
    else if 0xE0 <= b0 <= 0xEF then
      var lo := if b0 == 0xE0 then 0xA0 else 0x80;
      var hi := if b0 == 0xED then 0x9F else 0xBF;
      if |bs| < 2 || !(lo <= bs[1] <= hi) then (REPLACEMENT, 1)
      else if |bs| < 3 || !IsContinuation(bs[2]) then (REPLACEMENT, 2)
      else
        var v := (b0 - 0xE0) * 4096 + (bs[1] as int - 0x80) * 64 + (bs[2] as int - 0x80);
        assert 0x800 <= v < 0xD800 || 0xE000 <= v < 0x1_0000;
        (v as char, 3)
    else if 0xF0 <= b0 <= 0xF4 then
      var lo := if b0 == 0xF0 then 0x90 else 0x80;
      var hi := if b0 == 0xF4 then 0x8F else 0xBF;
      if |bs| < 2 || !(lo <= bs[1] <= hi) then (REPLACEMENT, 1)
      else if |bs| < 3 || !IsContinuation(bs[2]) then (REPLACEMENT, 2)
      else if |bs| < 4 || !IsContinuation(bs[3]) then (REPLACEMENT, 3)
      else
        var v := (b0 - 0xF0) * 262144 + (bs[1] as int - 0x80) * 4096
                 + (bs[2] as int - 0x80) * 64 + (bs[3] as int - 0x80);
        assert 0x1_0000 <= v < 0x11_0000;
        (v as char, 4)
    else (REPLACEMENT, 1)
  }

  /** Decoding with replacement: total, so it never throws. */
  function Decode(bs: seq<byte>): (s: string)
    ensures |s| <= |bs|
    decreases |bs|
  {
    if bs == [] then [] else [DecodeOne(bs).0] + Decode(bs[DecodeOne(bs).1..])
  }

  /** The first character's encoding, followed by anything, decodes to that character. */
  lemma DecodeOneEncodeChar(c: char, rest: seq<byte>)
    ensures DecodeOne(EncodeChar(c) + rest) == (c, |EncodeChar(c)|)
  {
    var n := c as int;
    if n < 0x80 {
    } else if n < 0x800 {
      DecodeTwo(c, rest);
    } else if n < 0x1_0000 {
      DecodeThree(c, rest);
    } else {
      DecodeFour(c, rest);
    }
  }

  lemma DecodeTwo(c: char, rest: seq<byte>)
    requires 0x80 <= c as int < 0x800
    ensures DecodeOne(EncodeChar(c) + rest) == (c, 2)
  {
    var n := c as int;
    var bs := EncodeChar(c) + rest;
    var b0: int, b1: int := bs[0], bs[1];
    assert b0 == 0xC0 + n / 64 && b1 == 0x80 + n % 64;
    assert 0xC2 <= b0 <= 0xDF && IsContinuation(bs[1]);
    assert (b0 - 0xC0) * 64 + (b1 - 0x80) == n;
  }

  lemma DecodeThree(c: char, rest: seq<byte>)
    requires 0x800 <= c as int < 0x1_0000
    ensures DecodeOne(EncodeChar(c) + rest) == (c, 3)
  {
    var n := c as int;
    var bs := EncodeChar(c) + rest;
    var q := n / 64;
    assert n / 4096 == q / 64;
    var b0: int, b1: int, b2: int := bs[0], bs[1], bs[2];
    assert b0 == 0xE0 + q / 64 && b1 == 0x80 + q % 64 && b2 == 0x80 + n % 64;
    assert 0xE0 <= b0 <= 0xEF;
    assert b0 == 0xE0 ==> 0xA0 <= b1;
    assert b0 == 0xED ==> b1 <= 0x9F;
    assert (b0 - 0xE0) * 4096 + (b1 - 0x80) * 64 + (b2 - 0x80) == n;
  }

  lemma DecodeFour(c: char, rest: seq<byte>)
    requires 0x1_0000 <= c as int
    ensures DecodeOne(EncodeChar(c) + rest) == (c, 4)
  {
    var n := c as int;
    var bs := EncodeChar(c) + rest;
    var q := n / 64;
    var p := q / 64;
    assert n / 4096 == p;
    assert n / 262144 == p / 64;
    var b0: int, b1: int, b2: int, b3: int := bs[0], bs[1], bs[2], bs[3];
    assert b0 == 0xF0 + p / 64 && b1 == 0x80 + p % 64 && b2 == 0x80 + q % 64 && b3 == 0x80 + n % 64;
    assert 0xF0 <= b0 <= 0xF4;
    assert b0 == 0xF0 ==> 0x90 <= b1;
    assert b0 == 0xF4 ==> b1 <= 0x8F;
    assert (b0 - 0xF0) * 262144 + (b1 - 0x80) * 4096 + (b2 - 0x80) * 64 + (b3 - 0x80) == n;
  }

  /** Round trip: every string survives encoding and decoding unchanged. */
  lemma {:induction false} DecodeEncode(s: string)
    ensures Decode(Encode(s)) == s
  {
    if s != [] {
      var e := EncodeChar(s[0]);
      var bs := Encode(s);
      assert bs == e + Encode(s[1..]);
      DecodeOneEncodeChar(s[0], Encode(s[1..]));
      assert bs[|e|..] == Encode(s[1..]);
      DecodeEncode(s[1..]);
    }
  }
}
