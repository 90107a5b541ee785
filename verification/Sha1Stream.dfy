/** The streaming SHA-1 context of mongoose (`mg_sha1_init`, `_update`, `_final`)
    and HMAC-SHA-1 on top of it. */
module Sha1Stream {
  import opened Fips180
  import opened Fips180Laws
  import opened Prelude
  import Sha1

  const WORD: nat := 0x1_0000_0000
  const LONG: nat := 0x1_0000_0000_0000_0000

  // ----- The two-word bit counter -----

  /** The counter with its carry, as `mg_sha1_update` advances it. */
  function CountUp(lo: nat, hi: nat, len: nat): (nat, nat) {
    var lo' := (lo + len * 8 % WORD) % WORD;
    var carry := if lo' < lo then 1 else 0;
    (lo', (hi + carry + len / 0x2000_0000 % WORD) % WORD)
  }

  lemma LongQuotient(x: nat, y: nat, k: int)
    requires x == y + k * LONG && y < LONG
    ensures x % LONG == y
  {
    assert k >= 0;
  }

  /** The counter is the length in bits modulo 2^64, for every length. */
  lemma CountUpAdds(lo: nat, hi: nat, n: nat, len: nat)
    requires lo < WORD && hi < WORD && hi * WORD + lo == 8 * n % LONG
    ensures var (lo', hi') := CountUp(lo, hi, len);
            lo' < WORD && hi' < WORD && hi' * WORD + lo' == 8 * (n + len) % LONG
  {
    var low, high := len * 8 % WORD, len / 0x2000_0000;
    assert len * 8 == high * WORD + low;
    var (lo', hi') := CountUp(lo, hi, len);
    var carry := if lo' < lo then 1 else 0;
    assert lo + low == carry * WORD + lo';
    var q := (hi + carry + high % WORD) / WORD + high / WORD;
    assert hi + carry + high == hi' + q * WORD;
    LongQuotient(8 * (n + len), hi' * WORD + lo', 8 * n / LONG + q);
  }

  lemma SameSlot(n: nat, r: nat, k: nat)
    requires n == r + 64 * k
    ensures n % 64 == r % 64
  {
  }

  /** The low counter word tells how much of the buffer is in use. */
  lemma CountTellsFill(lo: nat, hi: nat, n: nat)
    requires lo < WORD && hi * WORD + lo == 8 * n % LONG
    ensures lo / 8 % 64 == n % 64
  {
    var q := 8 * n / LONG;
    assert lo == 8 * (n - q * 0x2000_0000_0000_0000 - hi * 0x2000_0000);
    assert lo / 8 == n - q * 0x2000_0000_0000_0000 - hi * 0x2000_0000;
    SameSlot(n, lo / 8, q * 0x80_0000_0000_0000 + hi * 0x80_0000);
  }

  /** One more zero byte is wanted exactly while the buffer is not filled to 56. */
  lemma ZeroWanted(n: nat, k: nat)
    requires k <= ZeroCount(n)
    ensures (n + 1 + k) % 64 == 56 <==> k == ZeroCount(n)
  {
    var z := ZeroCount(n);
    assert (n + 1 + z) % 64 == 56;
  }

  /** `(count >> (3 - k) * 8) & 255`. */
  function CountDigit(count: nat, k: nat): (d: nat)
    ensures d < 256
  {
    if k == 0 then count / 0x100_0000 % 256
    else if k == 1 then count / 0x1_0000 % 256
    else if k == 2 then count / 0x100 % 256
    else count % 256
  }

  /** One counter word supplies four digits. */
  lemma WordDigits(n: nat, lo: nat, q: nat, count: nat)
    requires lo < WORD && n == q * WORD + lo
    ensures Digits(n, count + 4) == Digits(q, count)
      + [CountDigit(lo, 0), CountDigit(lo, 1), CountDigit(lo, 2), CountDigit(lo, 3)]
  {
    var n1, n2, n3 := q * 0x100_0000 + lo / 0x100, q * 0x1_0000 + lo / 0x1_0000, q * 0x100 + lo / 0x100_0000;
    assert n / 256 == n1 && n % 256 == lo % 256;
    assert n1 / 256 == n2 && n1 % 256 == lo / 0x100 % 256;
    assert n2 / 256 == n3 && n2 % 256 == lo / 0x1_0000 % 256;
    assert n3 / 256 == q && n3 % 256 == lo / 0x100_0000 % 256;
    assert Digits(n3, count + 1) == Digits(q, count) + [n3 % 256];
    assert Digits(n2, count + 2) == Digits(n3, count + 1) + [n2 % 256];
    assert Digits(n1, count + 3) == Digits(n2, count + 2) + [n1 % 256];
  }

  /** The eight bytes written by the final call are the 64-bit length. */
  lemma CountIsLength(lo: nat, hi: nat, bits: nat)
    requires lo < WORD && hi < WORD && hi * WORD + lo == bits % LONG
    ensures Digits(bits, 8) == [CountDigit(hi, 0), CountDigit(hi, 1), CountDigit(hi, 2), CountDigit(hi, 3),
                                CountDigit(lo, 0), CountDigit(lo, 1), CountDigit(lo, 2), CountDigit(lo, 3)]
  {
    var q := bits / LONG;
    WordDigits(bits, lo, q * WORD + hi, 4);
    WordDigits(q * WORD + hi, hi, q, 0);
  }

  lemma FillIs(w: nat, t: nat)
    requires w % 64 == 0 && t < 64
    ensures (w + t) % 64 == t
  {
  }

  // ----- The context -----

  lemma GlueSlices(had: seq<Byte>, data: seq<Byte>, start: nat, i: nat, j: nat)
    requires start <= i <= j <= |data|
    ensures had + data[start..i] + data[i..j] == had + data[start..j]
  {
    assert data[start..i] + data[i..j] == data[start..j];
  }

  lemma GlueFilled(w: seq<Byte>, t: seq<Byte>, data: seq<Byte>, k: nat, i: nat)
    requires k <= i <= |data|
    ensures (w + (t + data[..k])) + data[k..i] == w + t + data[..i]
  {
    assert data[..i] == data[..k] + data[k..i];
  }

  lemma GlueRest(w: seq<Byte>, t: seq<Byte>, data: seq<Byte>, i: nat)
    requires i <= |data|
    ensures (w + t + data[..i]) + ([] + data[i..]) == (w + t) + data
    ensures w + (t + data) == (w + t) + data
  {
    assert data == data[..i] + data[i..];
  }

  lemma OneMoreZero(p: seq<Byte>, k: nat)
    ensures p + Zeros(k) + [0] == p + Zeros(k + 1)
  {
    assert Zeros(k) + [0] == Zeros(k + 1);
  }

  /** Word `i` of the digest is written there, most significant byte first. */
  predicate Writes(digest: seq<Byte>, i: nat, w: Word) {
    4 * i + 4 <= |digest| && Number(digest[4 * i], digest[4 * i + 1], digest[4 * i + 2], digest[4 * i + 3]) == w as nat
  }

  /** The five words of the hash of `m`. */
  ghost predicate WritesHash(digest: seq<Byte>, m: seq<Byte>) {
    && Blocks(Padded(m))
    && forall i :: 0 <= i < 5 ==> Writes(digest, i, Words(Absorb(Padded(m)))[i])
  }

  class Context {
    var state: array<Word>
    var count0: nat
    var count1: nat
    var buffer: array<Byte>
    /** What was hashed so far: whole blocks, and the bytes waiting in the buffer. */
    ghost var whole: seq<Byte>
    ghost var tail: seq<Byte>

    ghost function Message(): seq<Byte>
      reads this
    {
      whole + tail
    }

    ghost predicate Counted(n: nat)
      reads this
    {
      count0 < WORD && count1 < WORD && count1 * WORD + count0 == 8 * n % LONG
    }

    ghost predicate Hashed()
      reads this, state, buffer
    {
      && state.Length == 5 && buffer.Length == 64
      && Blocks(whole) && |tail| < 64
      && Sha1.RegsOf(state) == Absorb(whole)
      && buffer[..|tail|] == tail
    }

    ghost predicate Valid()
      reads this, state, buffer
    {
      Hashed() && Counted(|whole| + |tail|)
    }

    constructor ()
      ensures Valid() && Message() == [] && fresh(state) && fresh(buffer)
    {
      state := new Word[5];
      buffer := new Byte[64];
      count0, count1 := 0, 0;
      whole, tail := [], [];
      new;
      Init();
    }

    /** mg_sha1_init. */
    method Init()
      requires Allocated()
      modifies this`count0, this`count1, this`whole, this`tail, state
      ensures Valid() && Message() == []
    {
      state[0] := 0x67452301;
      state[1] := 0xefcdab89;
      state[2] := 0x98badcfe;
      state[3] := 0x10325476;
      state[4] := 0xc3d2e1f0;
      count0, count1 := 0, 0;
      whole, tail := [], [];
    }

    /** memcpy into the block buffer. */
    method CopyIn(at: nat, data: seq<Byte>)
      requires at + |data| <= buffer.Length
      modifies buffer
      ensures buffer[..at + |data|] == old(buffer[..at]) + data
    {
      forall k | 0 <= k < |data| { buffer[at + k] := data[k]; }
    }

    /** Advances the bit counter; returns the old fill of the buffer. */
    method Count(len: nat) returns (j: nat)
      requires Counted(|whole| + |tail|) && Blocks(whole) && |tail| < 64
      modifies this`count0, this`count1
      ensures j == |tail| && Counted(|whole| + |tail| + len)
    {
      ghost var n := |whole| + |tail|;
      BlocksIff(whole);
      CountUpAdds(count0, count1, n, len);
      CountTellsFill(count0, count1, n);
      FillIs(|whole|, |tail|);
      j := count0;
      count0, count1 := CountUp(count0, count1, len).0, CountUp(count0, count1, len).1;
      j := j / 8 % 64;
    }

    /** Transforms one block and adds it to the hashed part. */
    method Eat(block: seq<Byte>)
      requires state.Length == 5 && |block| == 64
      requires Blocks(whole) && Sha1.RegsOf(state) == Absorb(whole)
      modifies this`whole, state
      ensures whole == old(whole) + block
      ensures Blocks(whole) && Sha1.RegsOf(state) == Absorb(whole)
    {
      ghost var next := whole + block;
      Advance(whole, block);
      whole := next;
    }

    /** From the hash of `m` to that of `m` and one more block. */
    method Advance(ghost m: seq<Byte>, block: seq<Byte>)
      requires state.Length == 5 && |block| == 64
      requires Blocks(m) && Sha1.RegsOf(state) == Absorb(m)
      modifies state
      ensures Blocks(m + block) && Sha1.RegsOf(state) == Absorb(m + block)
    {
      ghost var h := Sha1.RegsOf(state);
      Sha1.Transform(state, block);
      AbsorbBlock(m, block, h, Sha1.RegsOf(state));
    }

    /** Hashes the blocks of `data` that are complete from `start` on. */
    method EatBlocks(data: seq<Byte>, start: nat) returns (i: nat)
      requires state.Length == 5 && start <= |data|
      requires Blocks(whole) && Sha1.RegsOf(state) == Absorb(whole)
      modifies this`whole, state
      ensures Blocks(whole) && Sha1.RegsOf(state) == Absorb(whole)
      ensures start <= i <= |data| < i + 64 && whole == old(whole) + data[start..i]
    {
      ghost var had := whole;
      i := start;
      while i + 63 < |data|
        invariant start <= i <= |data| && whole == had + data[start..i]
        invariant Blocks(whole) && Sha1.RegsOf(state) == Absorb(whole)
      {
        var block := data[i..i + 64];
        GlueSlices(had, data, start, i, i + 64);
        Eat(block);
        i := i + 64;
      }
    }

    /** Completes the waiting block and hashes all that follows in whole blocks. */
    method FillAndEat(j: nat, data: seq<Byte>) returns (i: nat)
      requires Hashed() && j == |tail| && j + |data| > 63
      modifies this`whole, state, buffer
      ensures Blocks(whole) && Sha1.RegsOf(state) == Absorb(whole)
      ensures i <= |data| < i + 64 && whole == old(whole) + tail + data[..i]
    {
      i := 64 - j;
      CopyIn(j, data[..i]);
      assert buffer[..] == tail + data[..i];
      ghost var had, k := whole, i;
      Eat(buffer[..]);
      i := EatBlocks(data, i);
      GlueFilled(had, tail, data, k, i);
    }

    /** Hashes `data` behind the `j` bytes that wait in the buffer. */
    method Feed(j: nat, data: seq<Byte>)
      requires Hashed() && j == |tail|
      modifies this`whole, this`tail, state, buffer
      ensures Hashed() && Message() == old(Message()) + data
    {
      var i, at := 0, j;
      ghost var had, waited := whole, tail;
      if j + |data| > 63 {
        i := FillAndEat(j, data);
        at, tail := 0, [];
      }
      GlueRest(had, waited, data, i);
      CopyIn(at, data[i..]);
      assert i == 0 ==> data[i..] == data;
      tail := tail + data[i..];
    }

    /** However a message is cut into calls, the context depends on the whole of it only. */
    method Update(data: seq<Byte>)
      requires Valid()
      modifies this, state, buffer
      ensures Valid() && Message() == old(Message()) + data
      ensures state == old(state) && buffer == old(buffer)
    {
      var j := Count(|data|);
      Feed(j, data);
    }

    /** The length field, digit by digit from the two counter words. */
    method FinalCount() returns (finalcount: seq<Byte>)
      requires Counted(|whole| + |tail|)
      ensures finalcount == ToBytes(Digits(8 * (|whole| + |tail|), 8))
    {
      ghost var all := Digits(8 * (|whole| + |tail|), 8);
      CountIsLength(count0, count1, 8 * (|whole| + |tail|));
      var digits: seq<nat> := [];
      for i := 0 to 8
        invariant digits == all[..i]
      {
        digits := digits + [CountDigit(if i >= 4 then count0 else count1, i % 4)];
      }
      finalcount := ToBytes(digits);
    }

    /** `(count[0] & 504) != 448`. */
    predicate WantsZero()
      reads this
    {
      count0 / 8 % 64 != 56
    }

    lemma WantsZeroUntilFull(n: nat, k: nat)
      requires Counted(n + 1 + k) && k <= ZeroCount(n)
      ensures WantsZero() <==> k < ZeroCount(n)
    {
      CountTellsFill(count0, count1, n + 1 + k);
      ZeroWanted(n, k);
    }

    /** A one bit, then zeros until eight bytes are left in the block. */
    method Pad()
      requires Valid()
      modifies this, state, buffer
      ensures Valid() && state == old(state) && buffer == old(buffer)
      ensures Message() == old(Message()) + [0x80] + Zeros(ZeroCount(|old(Message())|))
    {
      ghost var m, k := Message(), 0;
      Update([0x80]);
      WantsZeroUntilFull(|m|, 0);
      while WantsZero()
        invariant Valid() && state == old(state) && buffer == old(buffer)
        invariant k <= ZeroCount(|m|) && Message() == m + [0x80] + Zeros(k)
        invariant WantsZero() <==> k < ZeroCount(|m|)
        decreases ZeroCount(|m|) - k
      {
        Update([0]);
        OneMoreZero(m + [0x80], k);
        k := k + 1;
        WantsZeroUntilFull(|m|, k);
      }
    }

    /** The state, byte by byte. */
    method Output() returns (digest: seq<Byte>)
      requires state.Length == 5
      ensures digest == DigestBytes(state[..])
      ensures forall i :: 0 <= i < 5 ==> Writes(digest, i, state[i])
    {
      digest := [];
      for i := 0 to 20
        invariant digest == DigestBytes(state[..])[..i]
      {
        digest := digest + [WordByte(state[i / 4], i % 4)];
      }
      forall i | 0 <= i < 5 ensures Writes(digest, i, state[i]) { DigestWritesWords(state[..], i); }
    }

    lemma StateWords()
      requires state.Length == 5
      ensures state[..] == Words(Sha1.RegsOf(state))
    {
    }

    /** The digest, once the state is the hash of the padded message. */
    method HashOf(ghost m: seq<Byte>) returns (digest: seq<Byte>)
      requires state.Length == 5 && Blocks(Padded(m)) && Sha1.RegsOf(state) == Absorb(Padded(m))
      ensures digest == Fips180.Sha1(m) && WritesHash(digest, m)
    {
      StateWords();
      digest := Output();
      forall i | 0 <= i < 5 ensures Writes(digest, i, Words(Absorb(Padded(m)))[i]) {
        assert Writes(digest, i, state[i]) && state[..][i] == state[i];
      }
    }

    ghost predicate Allocated()
      reads this
    {
      state.Length == 5 && buffer.Length == 64
    }

    /** The tail is empty once the message fills whole blocks. */
    lemma NothingWaits()
      requires Hashed() && Blocks(Message())
      ensures tail == [] && whole == Message()
    {
      BlocksIff(Message());
      BlocksIff(whole);
      FillIs(|whole|, |tail|);
    }

    /** mg_sha1_final: the digest of everything hashed; the context is wiped. */
    method Final() returns (digest: seq<Byte>)
      requires Valid()
      modifies this, state, buffer
      ensures digest == Fips180.Sha1(old(Message())) && Wiped()
      ensures WritesHash(digest, old(Message()))
      ensures Allocated() && state == old(state) && buffer == old(buffer)
    {
      ghost var m := Message();
      var finalcount := FinalCount();
      Pad();
      Update(finalcount);
      assert Message() == Padded(m);
      PaddedIsBlocks(m);
      NothingWaits();
      digest := HashOf(m);
      Wipe();
    }

    ghost predicate Wiped()
      reads this, state, buffer
    {
      && count0 == count1 == 0
      && (forall k :: 0 <= k < state.Length ==> state[k] == 0)
      && (forall k :: 0 <= k < buffer.Length ==> buffer[k] == 0)
    }

    method Wipe()
      requires Allocated()
      modifies this`count0, this`count1, state, buffer
      ensures Wiped()
    {
      forall k | 0 <= k < 5 { state[k] := 0; }
      forall k | 0 <= k < 64 { buffer[k] := 0; }
      count0, count1 := 0, 0;
    }

    /** init, update, update, final: the four calls `mg_hmac_sha1` makes twice. */
    method DigestOf(a: seq<Byte>, b: seq<Byte>) returns (digest: seq<Byte>)
      requires Allocated()
      modifies this, state, buffer
      ensures digest == Fips180.Sha1(a + b)
      ensures Allocated() && state == old(state) && buffer == old(buffer)
    {
      Init();
      Update(a);
      Update(b);
      assert Message() == a + b;
      digest := Final();
    }
  }

  /** Init, any number of updates, final: the digest is that of the whole message, however
      it was cut. */
  method DigestOfParts(parts: seq<seq<Byte>>) returns (digest: seq<Byte>)
    ensures digest == Fips180.Sha1(Flat(parts))
  {
    var ctx := new Context();
    for i := 0 to |parts|
      invariant ctx.Valid() && fresh(ctx) && fresh(ctx.state) && fresh(ctx.buffer)
      invariant ctx.Message() == Flat(parts[..i])
    {
      ctx.Update(parts[i]);
      assert parts[..i + 1] == parts[..i] + [parts[i]];
      FlatOneMore(parts[..i], parts[i]);
    }
    assert parts[..|parts|] == parts;
    digest := ctx.Final();
  }

  // ----- HMAC -----

  /** The two padded and masked copies of the key. */
  method Masks(key: seq<Byte>) returns (inner: seq<Byte>, outer: seq<Byte>)
    requires |key| <= 64
    ensures inner == XorAll(key + Zeros(64 - |key|), 0x36)
    ensures outer == XorAll(key + Zeros(64 - |key|), 0x5c)
  {
    ghost var k := key + Zeros(64 - |key|);
    var buf1 := new Byte[64](i => if 0 <= i < |key| then key[i] else 0);
    var buf2 := new Byte[64](i => if 0 <= i < |key| then key[i] else 0);
    for i := 0 to 64
      invariant forall n :: 0 <= n < i ==> buf1[n] == k[n] ^ 0x36 && buf2[n] == k[n] ^ 0x5c
      invariant forall n :: i <= n < 64 ==> buf1[n] == k[n] && buf2[n] == k[n]
    {
      buf1[i] := buf1[i] ^ 0x36;
      buf2[i] := buf2[i] ^ 0x5c;
    }
    inner, outer := buf1[..], buf2[..];
  }

  /** mg_hmac_sha1 is HMAC-SHA-1 for every key and text. */
  method HmacSha1(key: seq<Byte>, data: seq<Byte>) returns (out: seq<Byte>)
    ensures out == Hmac(key, data)
  {
    var ctx := new Context();
    var used := key;
    if |key| > 64 {
      used := ctx.DigestOf(key, []);
      assert key + [] == key;
    }
    var buf1, buf2 := Masks(used);
    out := ctx.DigestOf(buf1, data);
    out := ctx.DigestOf(buf2, out);
  }
}
