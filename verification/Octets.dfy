/** Bytes on the wire as numbers, with the few operations the framings use. */
module Octets {
  type Octet = n: nat | n < 256
  type Bytes = seq<Octet>

  function Pow2(n: nat): nat {
    if n == 0 then 1 else 2 * Pow2(n - 1)
  }

  /** Exclusive or of the low `n` bits. */
  function XorBits(x: nat, y: nat, n: nat): (r: nat)
    ensures r < Pow2(n)
  {
    if n == 0 then 0
    else (if x % 2 == y % 2 then 0 else 1) + 2 * XorBits(x / 2, y / 2, n - 1)
  }

  lemma {:induction false} XorBitsTwice(x: nat, y: nat, n: nat)
    requires x < Pow2(n)
    ensures XorBits(XorBits(x, y, n), y, n) == x
  {
    if n > 0 {
      var r := XorBits(x, y, n);
      assert r / 2 == XorBits(x / 2, y / 2, n - 1);
      assert r % 2 == if x % 2 == y % 2 then 0 else 1;
      XorBitsTwice(x / 2, y / 2, n - 1);
    }
  }

  lemma EightBits()
    ensures Pow2(8) == 256
  {
  }

  function Xor(x: Octet, y: Octet): Octet {
    EightBits();
    XorBits(x, y, 8)
  }

  lemma XorTwice(x: Octet, y: Octet)
    ensures Xor(Xor(x, y), y) == x
  {
    EightBits();
    XorBitsTwice(x, y, 8);
  }

  function Bit(x: nat, k: nat): nat {
    if k == 0 then x % 2 else Bit(x / 2, k - 1)
  }

  lemma {:induction false} XorBitsBit(x: nat, y: nat, n: nat, k: nat)
    requires k < n
    ensures Bit(XorBits(x, y, n), k) == if Bit(x, k) == Bit(y, k) then 0 else 1
  {
    var r := XorBits(x, y, n);
    assert r / 2 == XorBits(x / 2, y / 2, n - 1);
    if k > 0 { XorBitsBit(x / 2, y / 2, n - 1, k - 1); }
  }

  /** A bit of the result is set exactly when the two bits differ. */
  lemma XorIsBitwise(x: Octet, y: Octet, k: nat)
    requires k < 8
    ensures Bit(Xor(x, y), k) == 1 <==> Bit(x, k) != Bit(y, k)
  {
    XorBitsBit(x, y, 8, k);
  }

  /** Big-endian numbers of two and four bytes. */
  function U16(b: Bytes, at: nat): (n: nat)
    requires at + 2 <= |b|
    ensures n < 0x1_0000
  {
    var high: nat := b[at];
    high * 256 + b[at + 1]
  }

  function U32(b: Bytes, at: nat): (n: nat)
    requires at + 4 <= |b|
    ensures n < 0x1_0000_0000
  {
    U16(b, at) * 0x1_0000 + U16(b, at + 2)
  }

  function Put16(n: nat): (b: Bytes)
    ensures |b| == 2 && U16(b, 0) == n % 0x1_0000
  {
    [n / 256 % 256, n % 256]
  }

  function Put32(n: nat): (b: Bytes)
    ensures |b| == 4 && U32(b, 0) == n % 0x1_0000_0000
  {
    var b := Put16(n / 0x1_0000) + Put16(n);
    assert b[..2] == Put16(n / 0x1_0000) && b[2..] == Put16(n);
    b
  }

  /** The number two or four bytes write, most significant first. */
  function Two(high: nat, low: nat): nat {
    high * 0x100 + low
  }

  function Quad(a: nat, b: nat, c: nat, d: nat): nat {
    a * 0x100_0000 + b * 0x1_0000 + c * 0x100 + d
  }

  lemma PutWrites(n: nat)
    ensures var b := Put16(n); Two(b[0], b[1]) == n % 0x1_0000
    ensures var b := Put32(n); Quad(b[0], b[1], b[2], b[3]) == n % 0x1_0000_0000
  {
    var b := Put32(n);
    assert U16(b, 0) == U16(b[..2], 0) && U16(b, 2) == U16(b[2..], 0);
  }

  lemma Below(n: nat, m: nat)
    requires n < m
    ensures n % m == n
  {
  }

  lemma WholeHalf(n: nat)
    requires n < 0x1_0000
    ensures var b := Put16(n); Two(b[0], b[1]) == n
  {
    PutWrites(n);
    Below(n, 0x1_0000);
  }

  lemma WholeWord(n: nat)
    requires n < 0x1_0000_0000
    ensures var b := Put32(n); Quad(b[0], b[1], b[2], b[3]) == n
  {
    PutWrites(n);
    Below(n, 0x1_0000_0000);
  }
}
