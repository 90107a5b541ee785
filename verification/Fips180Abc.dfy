/** The digest of "abc" that FIPS 180-2 publishes (appendix A.1): it fixes every constant,
    rotation and byte order of `Fips180`. */
module Fips180Abc {
  import opened Fips180

  // ----- Eight rounds at a time -----

  function EightRounds(t: nat, s: Regs, v: seq<Word>): Regs
    requires |v| == 16
  {
    Round(t + 7, Round(t + 6, Round(t + 5, Round(t + 4, Round(t + 3, Round(t + 2, Round(t + 1, Round(t, s, v[0]), v[1]),
      v[2]), v[3]), v[4]), v[5]), v[6]), v[7])
  }

  /** Sixteen words, and the sixteen from eight further on, when `f` gives the next. */
  predicate Follows<T(==)>(f: (T, T, T, T) -> T, v: seq<T>, n: seq<T>) {
    && |v| == |n| == 16
    && n[0] == v[8] && n[1] == v[9] && n[2] == v[10] && n[3] == v[11]
    && n[4] == v[12] && n[5] == v[13] && n[6] == v[14] && n[7] == v[15]
    && n[8] == f(v[13], v[8], v[2], v[0]) && n[9] == f(v[14], v[9], v[3], v[1])
    && n[10] == f(v[15], v[10], v[4], v[2]) && n[11] == f(n[8], v[11], v[5], v[3])
    && n[12] == f(n[9], v[12], v[6], v[4]) && n[13] == f(n[10], v[13], v[7], v[5])
    && n[14] == f(n[11], v[14], v[8], v[6]) && n[15] == f(n[12], v[15], v[9], v[7])
  }

  /** `v` are the schedule words from `t` on. */
  ghost predicate Window(block: seq<Byte>, t: nat, v: seq<Word>) {
    && |block| == 64 && |v| == 16
    && W(block, t) == v[0] && W(block, t + 1) == v[1] && W(block, t + 2) == v[2] && W(block, t + 3) == v[3]
    && W(block, t + 4) == v[4] && W(block, t + 5) == v[5] && W(block, t + 6) == v[6] && W(block, t + 7) == v[7]
    && W(block, t + 8) == v[8] && W(block, t + 9) == v[9] && W(block, t + 10) == v[10] && W(block, t + 11) == v[11]
    && W(block, t + 12) == v[12] && W(block, t + 13) == v[13] && W(block, t + 14) == v[14] && W(block, t + 15) == v[15]
  }

  lemma ScheduleAt(block: seq<Byte>, t: nat, p: Word, q: Word, r: Word, s: Word)
    requires |block| == 64 && t >= 16
    requires W(block, t - 3) == p && W(block, t - 8) == q && W(block, t - 14) == r && W(block, t - 16) == s
    ensures W(block, t) == Schedule(p, q, r, s)
  {
  }

  lemma WindowMoves(block: seq<Byte>, t: nat, v: seq<Word>, n: seq<Word>)
    requires Window(block, t, v) && Follows(Schedule, v, n)
    ensures Window(block, t + 8, n)
  {
    ScheduleAt(block, t + 16, v[13], v[8], v[2], v[0]);
    ScheduleAt(block, t + 17, v[14], v[9], v[3], v[1]);
    ScheduleAt(block, t + 18, v[15], v[10], v[4], v[2]);
    ScheduleAt(block, t + 19, n[8], v[11], v[5], v[3]);
    ScheduleAt(block, t + 20, n[9], v[12], v[6], v[4]);
    ScheduleAt(block, t + 21, n[10], v[13], v[7], v[5]);
    ScheduleAt(block, t + 22, n[11], v[14], v[8], v[6]);
    ScheduleAt(block, t + 23, n[12], v[15], v[9], v[7]);
  }

  lemma RoundAt(h: Regs, block: seq<Byte>, t: nat)
    requires |block| == 64
    ensures Rounds(h, block, t + 1) == Round(t, Rounds(h, block, t), W(block, t))
  {
  }

  lemma EightMore(h: Regs, block: seq<Byte>, t: nat, s: Regs, v: seq<Word>)
    requires |block| == 64 && Window(block, t, v) && Rounds(h, block, t) == s
    ensures Rounds(h, block, t + 8) == EightRounds(t, s, v)
  {
    RoundAt(h, block, t);
    RoundAt(h, block, t + 1);
    RoundAt(h, block, t + 2);
    RoundAt(h, block, t + 3);
    RoundAt(h, block, t + 4);
    RoundAt(h, block, t + 5);
    RoundAt(h, block, t + 6);
    RoundAt(h, block, t + 7);
  }

  // ----- A published digest -----

  /** The schedule words of the block of "abc", sixteen from every eighth on. */
  const W0: seq<Word> := [0x61626380, 0x00000000, 0x00000000, 0x00000000, 0x00000000, 0x00000000,
                             0x00000000, 0x00000000, 0x00000000, 0x00000000, 0x00000000, 0x00000000,
                             0x00000000, 0x00000000, 0x00000000, 0x00000018]
  const W8: seq<Word> := [0x00000000, 0x00000000, 0x00000000, 0x00000000, 0x00000000, 0x00000000,
                             0x00000000, 0x00000018, 0xc2c4c700, 0x00000000, 0x00000030, 0x85898e01,
                             0x00000000, 0x00000060, 0x0b131c03, 0x00000030]
  const W16: seq<Word> := [0xc2c4c700, 0x00000000, 0x00000030, 0x85898e01, 0x00000000, 0x00000060,
                              0x0b131c03, 0x00000030, 0x85898ec1, 0x16263806, 0x00000000, 0x00000180,
                              0x2c4c700c, 0x000000f0, 0x93afb507, 0x5898e048]
  const W24: seq<Word> := [0x85898ec1, 0x16263806, 0x00000000, 0x00000180, 0x2c4c700c, 0x000000f0,
                              0x93afb507, 0x5898e048, 0x8e9a9202, 0x00000600, 0xb131c0f0, 0x16263bc6,
                              0x4ebed41e, 0x626380a1, 0x16263806, 0x000018c0]
  const W32: seq<Word> := [0x8e9a9202, 0x00000600, 0xb131c0f0, 0x16263bc6, 0x4ebed41e, 0x626380a1,
                              0x16263806, 0x000018c0, 0xd2e138c4, 0x00000f00, 0x3afb5079, 0x898e04e5,
                              0xe2ba3c2b, 0x000060c0, 0x053a37cd, 0x74458547]
  const W40: seq<Word> := [0xd2e138c4, 0x00000f00, 0x3afb5079, 0x898e04e5, 0xe2ba3c2b, 0x000060c0,
                              0x053a37cd, 0x74458547, 0xda9415ed, 0x26380a16, 0x626383a1, 0x4ebf54de,
                              0x3835b44b, 0x0000f600, 0x1e84c7a3, 0x98e04d98]
  const W48: seq<Word> := [0xda9415ed, 0x26380a16, 0x626383a1, 0x4ebf54de, 0x3835b44b, 0x0000f600,
                              0x1e84c7a3, 0x98e04d98, 0x651d16a0, 0x62658ca1, 0x458544d6, 0x44584cb7,
                              0x7ba06619, 0x6380aea2, 0x0ae55269, 0x627b49a1]
  const W56: seq<Word> := [0x651d16a0, 0x62658ca1, 0x458544d6, 0x44584cb7, 0x7ba06619, 0x6380aea2,
                              0x0ae55269, 0x627b49a1, 0x7cd45c9d, 0x000f0000, 0xfb50753a, 0xec6765e8,
                              0xba3c2be2, 0x0060c000, 0x3a37cd05, 0x458546f4]
  const W64: seq<Word> := [0x7cd45c9d, 0x000f0000, 0xfb50753a, 0xec6765e8, 0xba3c2be2, 0x0060c000,
                              0x3a37cd05, 0x458546f4, 0xb8599dd6, 0x380a1a26, 0x01e02203, 0xe7cc3456,
                              0xe6e60b69, 0x00f60a00, 0x5795ef4f, 0x822e0879]
  const W72: seq<Word> := [0xb8599dd6, 0x380a1a26, 0x01e02203, 0xe7cc3456, 0xe6e60b69, 0x00f60a00,
                              0x5795ef4f, 0x822e0879, 0x7e577ce2, 0x07ef2103, 0x8544e945, 0xeb39dab8,
                              0xc205991a, 0x80aecb63, 0x7d84ca48, 0x7b499b62]

  /** The registers before every eighth round. */
  const S8 := Regs(0x9e8c07d4, 0x993e30c1, 0x0ff1f290, 0xb3f52677, 0xf3763846)
  const S16 := Regs(0x20bdd62f, 0x196bee77, 0x644a3da5, 0x1181ed99, 0x18c623f9)
  const S24 := Regs(0xd541f12d, 0x21283486, 0x0ce88eff, 0x868dec32, 0x7f67875f)
  const S32 := Regs(0x3b845d33, 0x1267b407, 0x717eebd7, 0xa0dc2d4b, 0xd2aa1365)
  const S40 := Regs(0x32de1cba, 0x4c986405, 0xf718e5cf, 0x03d447f6, 0xf72eec32)
  const S48 := Regs(0xbead02ca, 0xa01b846c, 0x8714787c, 0x503ca382, 0xfb86c6ab)
  const S56 := Regs(0x5e6456af, 0x7b71f76d, 0x09fa7c76, 0x792410db, 0x8e11eb59)
  const S64 := Regs(0x6b61c9e1, 0xb66c020b, 0x9523272c, 0xf5d5b051, 0x8fd4b796)
  const S72 := Regs(0x39859de7, 0xc199f8c7, 0x8fc96230, 0x125c24f0, 0xde37534a)
  const S80 := Regs(0x42541b35, 0x5738d5e1, 0x21834873, 0x681e6df6, 0xd8fdf6ad)

  // The number of the first round comes in as a parameter: on a numeral the solver would unfold
  // the rounds from there down to 0.

  lemma Rounds0(block: seq<Byte>, t: nat)
    requires t == 0 && Window(block, t, W0) && Rounds(H0, block, t) == H0
    ensures Rounds(H0, block, t + 8) == S8
  {
    assert EightRounds(0, H0, W0) == S8;
    EightMore(H0, block, t, H0, W0);
  }

  lemma Rounds8(block: seq<Byte>, t: nat)
    requires t == 8 && Window(block, t, W8) && Rounds(H0, block, t) == S8
    ensures Rounds(H0, block, t + 8) == S16
  {
    assert EightRounds(8, S8, W8) == S16;
    EightMore(H0, block, t, S8, W8);
  }

  lemma Rounds16(block: seq<Byte>, t: nat)
    requires t == 16 && Window(block, t, W16) && Rounds(H0, block, t) == S16
    ensures Rounds(H0, block, t + 8) == S24
  {
    assert EightRounds(16, S16, W16) == S24;
    EightMore(H0, block, t, S16, W16);
  }

  lemma Rounds24(block: seq<Byte>, t: nat)
    requires t == 24 && Window(block, t, W24) && Rounds(H0, block, t) == S24
    ensures Rounds(H0, block, t + 8) == S32
  {
    assert EightRounds(24, S24, W24) == S32;
    EightMore(H0, block, t, S24, W24);
  }

  lemma Rounds32(block: seq<Byte>, t: nat)
    requires t == 32 && Window(block, t, W32) && Rounds(H0, block, t) == S32
    ensures Rounds(H0, block, t + 8) == S40
  {
    assert EightRounds(32, S32, W32) == S40;
    EightMore(H0, block, t, S32, W32);
  }

  lemma Rounds40(block: seq<Byte>, t: nat)
    requires t == 40 && Window(block, t, W40) && Rounds(H0, block, t) == S40
    ensures Rounds(H0, block, t + 8) == S48
  {
    assert EightRounds(40, S40, W40) == S48;
    EightMore(H0, block, t, S40, W40);
  }

  lemma Rounds48(block: seq<Byte>, t: nat)
    requires t == 48 && Window(block, t, W48) && Rounds(H0, block, t) == S48
    ensures Rounds(H0, block, t + 8) == S56
  {
    assert EightRounds(48, S48, W48) == S56;
    EightMore(H0, block, t, S48, W48);
  }

  lemma Rounds56(block: seq<Byte>, t: nat)
    requires t == 56 && Window(block, t, W56) && Rounds(H0, block, t) == S56
    ensures Rounds(H0, block, t + 8) == S64
  {
    assert EightRounds(56, S56, W56) == S64;
    EightMore(H0, block, t, S56, W56);
  }

  lemma Rounds64(block: seq<Byte>, t: nat)
    requires t == 64 && Window(block, t, W64) && Rounds(H0, block, t) == S64
    ensures Rounds(H0, block, t + 8) == S72
  {
    assert EightRounds(64, S64, W64) == S72;
    EightMore(H0, block, t, S64, W64);
  }

  lemma Rounds72(block: seq<Byte>, t: nat)
    requires t == 72 && Window(block, t, W72) && Rounds(H0, block, t) == S72
    ensures Rounds(H0, block, t + 8) == S80
  {
    assert EightRounds(72, S72, W72) == S80;
    EightMore(H0, block, t, S72, W72);
  }

  lemma Words0(block: seq<Byte>, t: nat)
    requires Window(block, t, W0)
    ensures Window(block, t + 8, W8)
  {
    WindowMoves(block, t, W0, W8);
  }

  lemma Words8(block: seq<Byte>, t: nat)
    requires Window(block, t, W8)
    ensures Window(block, t + 8, W16)
  {
    WindowMoves(block, t, W8, W16);
  }

  lemma Words16(block: seq<Byte>, t: nat)
    requires Window(block, t, W16)
    ensures Window(block, t + 8, W24)
  {
    WindowMoves(block, t, W16, W24);
  }

  lemma Words24(block: seq<Byte>, t: nat)
    requires Window(block, t, W24)
    ensures Window(block, t + 8, W32)
  {
    WindowMoves(block, t, W24, W32);
  }

  lemma Words32(block: seq<Byte>, t: nat)
    requires Window(block, t, W32)
    ensures Window(block, t + 8, W40)
  {
    WindowMoves(block, t, W32, W40);
  }

  lemma Words40(block: seq<Byte>, t: nat)
    requires Window(block, t, W40)
    ensures Window(block, t + 8, W48)
  {
    WindowMoves(block, t, W40, W48);
  }

  lemma Words48(block: seq<Byte>, t: nat)
    requires Window(block, t, W48)
    ensures Window(block, t + 8, W56)
  {
    WindowMoves(block, t, W48, W56);
  }

  lemma Words56(block: seq<Byte>, t: nat)
    requires Window(block, t, W56)
    ensures Window(block, t + 8, W64)
  {
    WindowMoves(block, t, W56, W64);
  }

  lemma Words64(block: seq<Byte>, t: nat)
    requires Window(block, t, W64)
    ensures Window(block, t + 8, W72)
  {
    WindowMoves(block, t, W64, W72);
  }

  lemma From72(block: seq<Byte>, t: nat)
    requires t == 72 && Window(block, t, W72) && Rounds(H0, block, t) == S72
    ensures Rounds(H0, block, t + 8) == S80
  {
    Rounds72(block, t);
  }

  lemma From64(block: seq<Byte>, t: nat)
    requires t == 64 && Window(block, t, W64) && Rounds(H0, block, t) == S64
    ensures Rounds(H0, block, t + 16) == S80
  {
    Rounds64(block, t);
    Words64(block, t);
    From72(block, t + 8);
  }

  lemma From56(block: seq<Byte>, t: nat)
    requires t == 56 && Window(block, t, W56) && Rounds(H0, block, t) == S56
    ensures Rounds(H0, block, t + 24) == S80
  {
    Rounds56(block, t);
    Words56(block, t);
    From64(block, t + 8);
  }

  lemma From48(block: seq<Byte>, t: nat)
    requires t == 48 && Window(block, t, W48) && Rounds(H0, block, t) == S48
    ensures Rounds(H0, block, t + 32) == S80
  {
    Rounds48(block, t);
    Words48(block, t);
    From56(block, t + 8);
  }

  lemma From40(block: seq<Byte>, t: nat)
    requires t == 40 && Window(block, t, W40) && Rounds(H0, block, t) == S40
    ensures Rounds(H0, block, t + 40) == S80
  {
    Rounds40(block, t);
    Words40(block, t);
    From48(block, t + 8);
  }

  lemma From32(block: seq<Byte>, t: nat)
    requires t == 32 && Window(block, t, W32) && Rounds(H0, block, t) == S32
    ensures Rounds(H0, block, t + 48) == S80
  {
    Rounds32(block, t);
    Words32(block, t);
    From40(block, t + 8);
  }

  lemma From24(block: seq<Byte>, t: nat)
    requires t == 24 && Window(block, t, W24) && Rounds(H0, block, t) == S24
    ensures Rounds(H0, block, t + 56) == S80
  {
    Rounds24(block, t);
    Words24(block, t);
    From32(block, t + 8);
  }

  lemma From16(block: seq<Byte>, t: nat)
    requires t == 16 && Window(block, t, W16) && Rounds(H0, block, t) == S16
    ensures Rounds(H0, block, t + 64) == S80
  {
    Rounds16(block, t);
    Words16(block, t);
    From24(block, t + 8);
  }

  lemma From8(block: seq<Byte>, t: nat)
    requires t == 8 && Window(block, t, W8) && Rounds(H0, block, t) == S8
    ensures Rounds(H0, block, t + 72) == S80
  {
    Rounds8(block, t);
    Words8(block, t);
    From16(block, t + 8);
  }

  lemma From0(block: seq<Byte>, t: nat)
    requires t == 0 && Window(block, t, W0) && Rounds(H0, block, t) == H0
    ensures Rounds(H0, block, t + 80) == S80
  {
    Rounds0(block, t);
    Words0(block, t);
    From8(block, t + 8);
  }

  lemma AbcPadded(m: seq<Byte>)
    requires m == [0x61, 0x62, 0x63]
    ensures Padded(m) == m + [0x80] + Zeros(59) + [24]
  {
    assert Digits(24, 8) == [0, 0, 0, 0, 0, 0, 0, 24];
  }

  lemma AbcBlock(block: seq<Byte>)
    requires |block| == 64 && block[0] == 0x61 && block[1] == 0x62 && block[2] == 0x63 && block[3] == 0x80
    requires block[63] == 24 && forall k :: 4 <= k < 63 ==> block[k] == 0
    ensures Window(block, 0, W0)
  {
  }

  lemma AbsorbOne(block: seq<Byte>)
    requires |block| == 64
    ensures Blocks(block) && Absorb(block) == AddRegs(H0, Rounds(H0, block, 80))
  {
    assert block[..0] == [] && block[0..] == block;
  }

  lemma BytesOfDigest(w: seq<Word>, d: seq<Byte>)
    requires |w| == 5 && |d| == 20
    requires forall i :: 0 <= i < 5 ==> w[i] == BigEndian(d[4 * i], d[4 * i + 1], d[4 * i + 2], d[4 * i + 3])
    ensures DigestBytes(w) == d
  {
  }

  lemma AbcAbsorbed(m: seq<Byte>)
    requires m == [0x61, 0x62, 0x63]
    ensures Blocks(Padded(m)) && Absorb(Padded(m)) == AddRegs(H0, S80)
  {
    AbcPadded(m);
    AbcBlock(Padded(m));
    From0(Padded(m), 0);
    AbsorbOne(Padded(m));
  }

  lemma AbcSum()
    ensures AddRegs(H0, S80) == Regs(0xa9993e36, 0x4706816a, 0xba3e2571, 0x7850c26c, 0x9cd0d89d)
  {
  }

  /** SHA-1 of "abc" (appendix A.1 of FIPS 180-2). */
  lemma AbcDigest(m: seq<Byte>)
    requires m == [0x61, 0x62, 0x63]
    ensures Sha1(m) == [0xa9, 0x99, 0x3e, 0x36, 0x47, 0x06, 0x81, 0x6a, 0xba, 0x3e,
                        0x25, 0x71, 0x78, 0x50, 0xc2, 0x6c, 0x9c, 0xd0, 0xd8, 0x9d]
  {
    AbcAbsorbed(m);
    AbcSum();
    BytesOfDigest([0xa9993e36, 0x4706816a, 0xba3e2571, 0x7850c26c, 0x9cd0d89d],
                  [0xa9, 0x99, 0x3e, 0x36, 0x47, 0x06, 0x81, 0x6a, 0xba, 0x3e,
                   0x25, 0x71, 0x78, 0x50, 0xc2, 0x6c, 0x9c, 0xd0, 0xd8, 0x9d]);
  }
}
