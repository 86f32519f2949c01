/**
 * AES-256 in CBC mode with PKCS#7 padding ('aes-256-cbc' in Node's crypto
 * module), built over an abstract block cipher. The chaining follows
 * section 6.2 of NIST SP 800-38A; the padding follows section 6.3 of RFC 5652.
 */
module Cbc {
  import opened Wrappers
  import opened Hex

  const BLOCK_SIZE: nat := 16
  const KEY_SIZE: nat := 32

  type Block = b: seq<byte> | |b| == 16 witness seq(16, _ => 0)
  type Key = k: seq<byte> | |k| == 32 witness seq(32, _ => 0)

  /** The forward and inverse block functions of a 128-bit block cipher with a 256-bit key. */
  datatype BlockCipher = BlockCipher(encrypt: (Key, Block) -> Block, decrypt: (Key, Block) -> Block)

  ghost predicate Inverts(c: BlockCipher) {
    forall k: Key, b: Block :: c.decrypt(k, c.encrypt(k, b)) == b
  }

  /**
   * AES-256 is not written out: it stands for any block cipher whose inverse
   * undoes it under every key, which is all the mode of operation relies on.
   */
  type Aes256 = c: BlockCipher | Inverts(c)
    witness BlockCipher((k: Key, b: Block) => b, (k: Key, b: Block) => b)

  function Pow2(n: nat): nat
  {
    if n == 0 then 1 else 2 * Pow2(n - 1)
  }

  /** Bitwise exclusive or of two naturals, least significant bit first. */
  function BitXor(a: nat, b: nat): nat
    decreases a + b
  {
    if a == 0 && b == 0 then 0 else 2 * BitXor(a / 2, b / 2) + (a + b) % 2
  }

  lemma {:induction false} BitXorBelow(a: nat, b: nat, n: nat)
    requires a < Pow2(n) && b < Pow2(n)
    ensures BitXor(a, b) < Pow2(n)
    decreases n
  {
    if n > 0 && !(a == 0 && b == 0) {
      BitXorBelow(a / 2, b / 2, n - 1);
    }
  }

  lemma HalfOfBit(q: nat, r: nat)
    requires r < 2
    ensures (2 * q + r) / 2 == q && (2 * q + r) % 2 == r
  {
  }

  lemma ParityCancels(q: nat, a: nat, b: nat)
    ensures (2 * q + (a + b) % 2 + b) % 2 == a % 2
  {
  }

  lemma {:induction false} BitXorCancel(a: nat, b: nat)
    ensures BitXor(BitXor(a, b), b) == a
    decreases a + b
  {
    if !(a == 0 && b == 0) {
      var q := BitXor(a / 2, b / 2);
      var r := (a + b) % 2;
      var x := 2 * q + r;
      assert x == BitXor(a, b);
      HalfOfBit(q, r);
      ParityCancels(q, a, b);
      assert (x + b) % 2 == a % 2;
      BitXorCancel(a / 2, b / 2);
      assert b != 0 || x != 0 by {
        if b == 0 && r == 0 {
          assert BitXor(q, 0) == a / 2 && a / 2 != 0;
          assert q != 0;
        }
      }
      calc {
        BitXor(x, b);
        2 * BitXor(x / 2, b / 2) + (x + b) % 2;
        2 * BitXor(q, b / 2) + a % 2;
        2 * (a / 2) + a % 2;
      }
    }
  }

  function XorByte(a: byte, b: byte): (r: byte)
  {
    BitXorBelow(a, b, 8);
    BitXor(a, b)
  }

  /** The byte-wise exclusive or of two blocks. */
  function Xor(a: Block, b: Block): (r: Block)
    ensures forall i :: 0 <= i < 16 ==> r[i] == XorByte(a[i], b[i])
  {
    seq(16, i requires 0 <= i < 16 => XorByte(a[i], b[i]))
  }

  lemma XorCancel(a: Block, b: Block)
    ensures Xor(Xor(a, b), b) == a
  {
    forall i | 0 <= i < 16 ensures Xor(Xor(a, b), b)[i] == a[i] {
      BitXorCancel(a[i], b[i]);
    }
  }

  /**
   * CBC encryption of whole blocks: each plaintext block is combined with the
   * previous ciphertext block (the IV for the first) before the block cipher.
   */
  function EncryptBlocks(aes: Aes256, key: Key, prev: Block, p: seq<byte>): (c: seq<byte>)
    requires |p| % BLOCK_SIZE == 0
    ensures |c| == |p|
    decreases |p|
  {
    if p == [] then []
    else
      var c0 := aes.encrypt(key, Xor(p[..16], prev));
      c0 + EncryptBlocks(aes, key, c0, p[16..])
  }

  /** CBC decryption of whole blocks. */
  function DecryptBlocks(aes: Aes256, key: Key, prev: Block, c: seq<byte>): (p: seq<byte>)
    requires |c| % BLOCK_SIZE == 0
    ensures |p| == |c|
    decreases |c|
  {
    if c == [] then []
    else
      var c0: Block := c[..16];
      Xor(aes.decrypt(key, c0), prev) + DecryptBlocks(aes, key, c0, c[16..])
  }

  /** CBC decryption undoes CBC encryption under the same key and IV. */
  lemma {:induction false} DecryptEncryptBlocks(aes: Aes256, key: Key, iv: Block, p: seq<byte>)
    requires |p| % BLOCK_SIZE == 0
    ensures DecryptBlocks(aes, key, iv, EncryptBlocks(aes, key, iv, p)) == p
    decreases |p|
  {
    if p != [] {
      var c0 := aes.encrypt(key, Xor(p[..16], iv));
      var c := EncryptBlocks(aes, key, iv, p);
      assert c == c0 + EncryptBlocks(aes, key, c0, p[16..]);
      assert c[..16] == c0 && c[16..] == EncryptBlocks(aes, key, c0, p[16..]);
      assert aes.decrypt(key, c0) == Xor(p[..16], iv);
      XorCancel(p[..16], iv);
      DecryptEncryptBlocks(aes, key, c0, p[16..]);
      assert p == p[..16] + p[16..];
    }
  }

  /** PKCS#7: append k bytes of value k, 1 <= k <= 16, to reach a whole number of blocks. */
  function Pad(m: seq<byte>): (r: seq<byte>)
    ensures |r| % BLOCK_SIZE == 0 && |m| < |r| <= |m| + BLOCK_SIZE
    ensures r[..|m|] == m
  {
    var k := BLOCK_SIZE - |m| % BLOCK_SIZE;
    m + seq(k, _ => k)
  }

  /**
   * The check OpenSSL makes when decryption is finalised: the decrypted data
   * must be a non-empty whole number of blocks ("wrong final block length"),
   * and its last byte k must lie in 1..16 with the last k bytes all equal to k
   * ("bad decrypt"). On success the padding is stripped.
   */
  function Unpad(p: seq<byte>): (r: Option<seq<byte>>)
    ensures r.Some? ==> |p| > 0 && |p| % BLOCK_SIZE == 0 && |p| - BLOCK_SIZE <= |r.value| < |p|
    ensures r.Some? ==> r.value == p[..|r.value|]
  {
    if |p| == 0 || |p| % BLOCK_SIZE != 0 then None
    else
      var k := p[|p| - 1];
      if k == 0 || k > BLOCK_SIZE then None
      else if forall i | |p| - k <= i < |p| :: p[i] == k then Some(p[..|p| - k])
      else None
  }

  /** Unpadding accepts exactly the padded messages, and recovers the message. */
  lemma UnpadIsInverseOfPad(m: seq<byte>, p: seq<byte>)
    ensures Unpad(p) == Some(m) <==> Pad(m) == p
  {
    var k := BLOCK_SIZE - |m| % BLOCK_SIZE;
    if Pad(m) == p {
      assert p[|p| - 1] == k;
      assert forall i | |p| - k <= i < |p| :: p[i] == k;
      assert p[..|p| - k] == m;
    }
    if Unpad(p) == Some(m) {
      var n := p[|p| - 1];
      assert |m| == |p| - n;
      assert k == n;
      assert p == m + seq(n, _ => n);
    }
  }
}
