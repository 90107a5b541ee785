/** What SHA-1 and HMAC-SHA-1 of `Fips180` say about numbers and positions. */
module Fips180Laws {
  import opened Fips180

  // ----- Bytes and words -----

  /** The number four bytes write, most significant first. */
  function Number(b0: Byte, b1: Byte, b2: Byte, b3: Byte): nat {
    (b0 as nat) * 0x100_0000 + (b1 as nat) * 0x1_0000 + (b2 as nat) * 0x100 + b3 as nat
  }

  lemma TwoBytes(a: Byte, b: Byte)
    ensures (((a as bv16) << 8) | b as bv16) as nat == (a as nat) * 0x100 + b as nat
  {
  }

  lemma TwoHalves(a: bv16, b: bv16)
    ensures (((a as Word) << 16) | b as Word) as nat == (a as nat) * 0x1_0000 + b as nat
  {
  }

  lemma Halves(b0: Byte, b1: Byte, b2: Byte, b3: Byte)
    ensures BigEndian(b0, b1, b2, b3)
         == (((((b0 as bv16) << 8) | b1 as bv16) as Word) << 16) | ((((b2 as bv16) << 8) | b3 as bv16) as Word)
  {
  }

  lemma BigEndianIsNumber(b0: Byte, b1: Byte, b2: Byte, b3: Byte)
    ensures BigEndian(b0, b1, b2, b3) as nat == Number(b0, b1, b2, b3)
  {
    Halves(b0, b1, b2, b3);
    TwoHalves(((b0 as bv16) << 8) | b1 as bv16, ((b2 as bv16) << 8) | b3 as bv16);
    TwoBytes(b0, b1);
    TwoBytes(b2, b3);
  }

  lemma BytesOfWord(w: Word)
    ensures BigEndian(WordByte(w, 0), WordByte(w, 1), WordByte(w, 2), WordByte(w, 3)) == w
  {
  }

  lemma DigestByte(w: seq<Word>, i: nat, k: nat)
    requires |w| == 5 && i < 5 && k < 4
    ensures DigestBytes(w)[4 * i + k] == WordByte(w[i], k)
  {
  }

  /** Each word of a digest goes out as the four bytes that write it, in order. */
  lemma DigestWritesWords(w: seq<Word>, i: nat)
    requires |w| == 5 && i < 5
    ensures var d := DigestBytes(w); Number(d[4 * i], d[4 * i + 1], d[4 * i + 2], d[4 * i + 3]) == w[i] as nat
  {
    var x := w[i];
    DigestByte(w, i, 0);
    DigestByte(w, i, 1);
    DigestByte(w, i, 2);
    DigestByte(w, i, 3);
    BytesOfWord(x);
    BigEndianIsNumber(WordByte(x, 0), WordByte(x, 1), WordByte(x, 2), WordByte(x, 3));
  }

  /** So does every SHA-1. */
  lemma HashWritesWords(m: seq<Byte>, i: nat)
    requires i < 5
    ensures Blocks(Padded(m))
    ensures var d := Sha1(m);
      Number(d[4 * i], d[4 * i + 1], d[4 * i + 2], d[4 * i + 3]) == Words(Absorb(Padded(m)))[i] as nat
  {
    PaddedIsBlocks(m);
    DigestWritesWords(Words(Absorb(Padded(m))), i);
  }

  /** The first sixteen schedule words are the numbers the block writes. */
  lemma BlockWritesWords(block: seq<Byte>, t: nat)
    requires |block| == 64 && t < 16
    ensures W(block, t) as nat == Number(block[4 * t], block[4 * t + 1], block[4 * t + 2], block[4 * t + 3])
  {
    BigEndianIsNumber(block[4 * t], block[4 * t + 1], block[4 * t + 2], block[4 * t + 3]);
  }

  // ----- Padding -----

  /** The number these base-256 digits write, most significant first. */
  function Written(s: seq<nat>): nat {
    if s == [] then 0 else Written(s[..|s| - 1]) * 256 + s[|s| - 1]
  }

  function Power(n: nat): (p: nat)
    ensures p > 0
  {
    if n == 0 then 1 else 256 * Power(n - 1)
  }

  lemma {:induction false} DigitsWrite(n: nat, count: nat) returns (q: nat)
    ensures n == q * Power(count) + Written(Digits(n, count)) && Written(Digits(n, count)) < Power(count)
  {
    if count == 0 {
      q := n;
    } else {
      q := DigitsWrite(n / 256, count - 1);
      var front := Digits(n / 256, count - 1);
      assert Digits(n, count)[..count - 1] == front;
      OneDigitMore(n, q, Power(count - 1), Written(front));
    }
  }

  lemma OneDigitMore(n: nat, q: nat, p: nat, w: nat)
    requires n / 256 == q * p + w && w < p
    ensures n == q * (256 * p) + (w * 256 + n % 256)
    ensures w * 256 + n % 256 < 256 * p
  {
    assert q * (256 * p) == 256 * (q * p);
  }

  lemma EightDigits()
    ensures Power(8) == 0x1_0000_0000_0000_0000
  {
    assert Power(4) == 0x1_0000_0000;
  }

  lemma RemainderIs(n: nat, q: nat, w: nat)
    requires n == q * 0x1_0000_0000_0000_0000 + w && w < 0x1_0000_0000_0000_0000
    ensures n % 0x1_0000_0000_0000_0000 == w
  {
  }

  /** The message, the byte 0x80, as few zeros as fill the last block, and the length in bits. */
  lemma PaddedLayout(m: seq<Byte>) returns (length: seq<nat>)
    ensures |length| == 8 && (forall k :: 0 <= k < 8 ==> length[k] < 256)
    ensures Written(length) == 8 * |m| % 0x1_0000_0000_0000_0000
    ensures var p, n := Padded(m), |m|;
      && n + 9 <= |p| < n + 73 && |p| % 64 == 0
      && p[..n] == m && p[n] == 0x80 && (forall k :: n < k < |p| - 8 ==> p[k] == 0)
      && forall k :: 0 <= k < 8 ==> p[|p| - 8 + k] == length[k] as Byte
  {
    length := Digits(8 * |m|, 8);
    var q := DigitsWrite(8 * |m|, 8);
    EightDigits();
    RemainderIs(8 * |m|, q, Written(length));
    PaddedIsBlocks(m);
    BlocksIff(Padded(m));
  }

  // ----- HMAC -----

  /** HMAC of a key up to 64 bytes, with its two masked copies written out; a longer key is
      hashed first. */
  lemma HmacLayout(key: seq<Byte>, text: seq<Byte>, inner: seq<Byte>, outer: seq<Byte>)
    requires |inner| == |outer| == 64
    requires forall k :: 0 <= k < 64 ==> inner[k] == (if k < |key| then key[k] else 0) ^ 0x36
    requires forall k :: 0 <= k < 64 ==> outer[k] == (if k < |key| then key[k] else 0) ^ 0x5c
    ensures |key| <= 64 ==> Hmac(key, text) == Sha1(outer + Sha1(inner + text))
    ensures |key| > 64 ==> Hmac(key, text) == Hmac(Sha1(key), text)
  {
    if |key| <= 64 {
      assert XorAll(BlockKey(key), 0x36) == inner && XorAll(BlockKey(key), 0x5c) == outer;
    }
  }
}
