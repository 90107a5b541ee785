/** SHA-1 as FIPS 180-4 defines it, and HMAC as RFC 2104 defines it over SHA-1:
    the reference the mongoose implementation is compared with. */
module Fips180 {
  type Byte = bv8
  type Word = bv32

  /** Section 2.2.2: rotate left. */
  function Rotl(n: bv6, x: Word): Word
    requires 0 < n < 32
  {
    (x << n) | (x >> (32 - n))
  }

  /** Section 4.1.1. */
  function Ch(x: Word, y: Word, z: Word): Word { (x & y) ^ (!x & z) }
  function Parity(x: Word, y: Word, z: Word): Word { x ^ y ^ z }
  function Maj(x: Word, y: Word, z: Word): Word { (x & y) ^ (x & z) ^ (y & z) }

  function F(t: nat, x: Word, y: Word, z: Word): Word {
    if t < 20 then Ch(x, y, z)
    else if 40 <= t < 60 then Maj(x, y, z)
    else Parity(x, y, z)
  }

  /** Section 4.2.1. */
  function K(t: nat): Word {
    if t < 20 then 0x5a827999
    else if t < 40 then 0x6ed9eba1
    else if t < 60 then 0x8f1bbcdc
    else 0xca62c1d6
  }

  datatype Regs = Regs(a: Word, b: Word, c: Word, d: Word, e: Word)

  /** Section 5.3.1. */
  const H0 := Regs(0x67452301, 0xefcdab89, 0x98badcfe, 0x10325476, 0xc3d2e1f0)

  function BigEndian(b0: Byte, b1: Byte, b2: Byte, b3: Byte): Word {
    ((b0 as Word) << 24) | ((b1 as Word) << 16) | ((b2 as Word) << 8) | (b3 as Word)
  }

  /** How section 6.1.2 combines four schedule words, and the five terms of T. */
  function Schedule(p: Word, q: Word, r: Word, s: Word): Word { Rotl(1, p ^ q ^ r ^ s) }
  function Temp(rot: Word, f: Word, e: Word, k: Word, w: Word): Word { rot + f + e + k + w }

  /** The message schedule of section 6.1.2, step 1. */
  ghost function W(block: seq<Byte>, t: nat): Word
    requires |block| == 64
  {
    if t < 16 then BigEndian(block[4 * t], block[4 * t + 1], block[4 * t + 2], block[4 * t + 3])
    else Schedule(W(block, t - 3), W(block, t - 8), W(block, t - 14), W(block, t - 16))
  }

  /** One pass of step 3. */
  function Round(t: nat, s: Regs, w: Word): Regs {
    Regs(Temp(Rotl(5, s.a), F(t, s.b, s.c, s.d), s.e, K(t), w), s.a, Rotl(30, s.b), s.c, s.d)
  }

  ghost function Rounds(h: Regs, block: seq<Byte>, t: nat): Regs
    requires |block| == 64
  {
    if t == 0 then h else Round(t - 1, Rounds(h, block, t - 1), W(block, t - 1))
  }

  function AddRegs(h: Regs, s: Regs): Regs {
    Regs(h.a + s.a, h.b + s.b, h.c + s.c, h.d + s.d, h.e + s.e)
  }

  /** Steps 2 to 4: the compression of one block. */
  ghost function Compress(h: Regs, block: seq<Byte>): Regs
    requires |block| == 64
  {
    AddRegs(h, Rounds(h, block, 80))
  }

  /** A whole number of 64-byte blocks. */
  ghost predicate Blocks(m: seq<Byte>) {
    m == [] || (|m| >= 64 && Blocks(m[..|m| - 64]))
  }

  lemma {:induction false} BlocksIff(m: seq<Byte>)
    ensures Blocks(m) <==> |m| % 64 == 0
  {
    if |m| >= 64 {
      BlocksIff(m[..|m| - 64]);
      assert (|m| - 64) % 64 == |m| % 64;
    }
  }

  /** The running hash after a whole number of blocks. */
  ghost function Absorb(m: seq<Byte>): Regs
    requires Blocks(m)
  {
    if m == [] then H0
    else
      var n := |m| - 64;
      Compress(Absorb(m[..n]), m[n..])
  }

  /** The `count` low base-256 digits of `n`, most significant first. */
  function Digits(n: nat, count: nat): (s: seq<nat>)
    ensures |s| == count && forall i :: 0 <= i < count ==> s[i] < 256
  {
    if count == 0 then [] else Digits(n / 256, count - 1) + [n % 256]
  }

  function ToBytes(s: seq<nat>): (r: seq<Byte>)
    requires forall i :: 0 <= i < |s| ==> s[i] < 256
    ensures |r| == |s|
  {
    seq(|s|, i requires 0 <= i < |s| => s[i] as Byte)
  }

  function Zeros(n: nat): (s: seq<Byte>)
    ensures |s| == n
  {
    seq(n, _ => 0)
  }

  /** The least number of zero bytes that leaves eight to the end of a block. */
  function ZeroCount(n: nat): (k: nat)
    ensures k < 64 && (n + 1 + k) % 64 == 56
  {
    (119 - n % 64) % 64
  }

  /** Section 5.1.1: a one bit, zeros, and the length. */
  function Padded(m: seq<Byte>): seq<Byte> {
    m + [0x80] + Zeros(ZeroCount(|m|)) + ToBytes(Digits(8 * |m|, 8))
  }

  lemma EightMoreFill(p: seq<Byte>, length: seq<Byte>)
    requires |p| % 64 == 56 && |length| == 8
    ensures Blocks(p + length)
  {
    BlocksIff(p + length);
  }

  lemma PaddedIsBlocks(m: seq<Byte>)
    ensures Blocks(Padded(m))
  {
    EightMoreFill(m + [0x80] + Zeros(ZeroCount(|m|)), ToBytes(Digits(8 * |m|, 8)));
  }

  /** Byte `k` of a word, most significant first. */
  function WordByte(w: Word, k: nat): Byte {
    if k == 0 then ((w >> 24) & 255) as Byte
    else if k == 1 then ((w >> 16) & 255) as Byte
    else if k == 2 then ((w >> 8) & 255) as Byte
    else (w & 255) as Byte
  }

  function Words(h: Regs): (w: seq<Word>)
    ensures |w| == 5
  {
    [h.a, h.b, h.c, h.d, h.e]
  }

  /** The five words, each most significant byte first. */
  function DigestBytes(w: seq<Word>): (s: seq<Byte>)
    requires |w| == 5
    ensures |s| == 20
  {
    seq(20, i requires 0 <= i < 20 => WordByte(w[i / 4], i % 4))
  }

  ghost function Sha1(m: seq<Byte>): (d: seq<Byte>)
    ensures |d| == 20
  {
    PaddedIsBlocks(m);
    DigestBytes(Words(Absorb(Padded(m))))
  }

  // ----- RFC 2104, section 2 -----

  /** The key, hashed when longer than a block, then filled with zeros to 64 bytes. */
  ghost function BlockKey(key: seq<Byte>): (k: seq<Byte>)
    ensures |k| == 64
  {
    var k := if |key| > 64 then Sha1(key) else key;
    k + Zeros(64 - |k|)
  }

  function XorAll(k: seq<Byte>, pad: Byte): (r: seq<Byte>)
    ensures |r| == |k|
  {
    seq(|k|, i requires 0 <= i < |k| => k[i] ^ pad)
  }

  ghost function Hmac(key: seq<Byte>, text: seq<Byte>): (d: seq<Byte>)
    ensures |d| == 20
  {
    Sha1(XorAll(BlockKey(key), 0x5c) + Sha1(XorAll(BlockKey(key), 0x36) + text))
  }

  // ----- Facts about absorbing -----

  lemma AbsorbBlock(m: seq<Byte>, block: seq<Byte>, h: Regs, next: Regs)
    requires Blocks(m) && |block| == 64 && Absorb(m) == h && Compress(h, block) == next
    ensures Blocks(m + block) && Absorb(m + block) == next
  {
    var n := |m|;
    assert (m + block)[..n] == m && (m + block)[n..] == block;
  }
}
