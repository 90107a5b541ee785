/** SHA-1 and HMAC-SHA-1 of mongoose: 80 unrolled rounds with rotated register
    names over a 16-word schedule kept in place, fed by a streaming context. */
module Sha1 {
  import opened Fips180

  // ----- mg_sha1_transform -----

  /** A block word as memcpy leaves it on a little-endian machine. */
  function LittleEndian(b0: Byte, b1: Byte, b2: Byte, b3: Byte): Word {
    (b0 as Word) | ((b1 as Word) << 8) | ((b2 as Word) << 16) | ((b3 as Word) << 24)
  }

  function RawWord(b: seq<Byte>, i: nat): Word
    requires |b| == 64 && i < 16
  {
    LittleEndian(b[4 * i], b[4 * i + 1], b[4 * i + 2], b[4 * i + 3])
  }

  /** The byte swap of `blk0`. */
  function Swap(x: Word): Word {
    (Rotl(24, x) & 0xff00ff00) | (Rotl(8, x) & 0x00ff00ff)
  }

  lemma SwapIsBigEndian(b0: Byte, b1: Byte, b2: Byte, b3: Byte)
    ensures Swap(LittleEndian(b0, b1, b2, b3)) == BigEndian(b0, b1, b2, b3)
  {
  }

  /** The slot of schedule word `t` in the ring: `t & 15`. */
  function Slot(t: nat): (s: nat)
    ensures s < 16
  {
    if t < 16 then t else Slot(t - 16)
  }

  lemma {:induction false} SlotIsMask(t: nat)
    ensures Slot(t) == t % 16
  {
    if t >= 16 { SlotIsMask(t - 16); }
  }

  lemma {:induction false} SlotsDiffer(t: nat, u: nat)
    requires u < t < u + 16
    ensures Slot(t) != Slot(u)
  {
    if u >= 16 { SlotsDiffer(t - 16, u - 16); }
  }

  /** Before round `t` the ring holds the last sixteen schedule words that exist,
      and the words of the block that are still to be swapped. */
  ghost predicate Ring(r: seq<Word>, b: seq<Byte>, t: nat)
    requires |b| == 64
  {
    && |r| == 16
    && (forall u :: 0 <= u < t && t - 16 <= u ==> r[Slot(u)] == W(b, u))
    && (forall u :: t <= u < 16 ==> r[u] == RawWord(b, u))
  }

  lemma RingSet(r: seq<Word>, b: seq<Byte>, t: nat)
    requires |b| == 64 && Ring(r, b, t)
    ensures Ring(r[Slot(t) := W(b, t)], b, t + 1)
  {
    forall u | 0 <= u < t && t - 15 <= u ensures Slot(u) != Slot(t) { SlotsDiffer(t, u); }
  }

  /** The four slots the macro reads hold the schedule words of the recurrence. */
  lemma RingNext(r: seq<Word>, b: seq<Byte>, t: nat)
    requires |b| == 64 && Ring(r, b, t) && t >= 16
    ensures W(b, t) == Schedule(r[Slot(t + 13)], r[Slot(t + 8)], r[Slot(t + 2)], r[Slot(t)])
  {
    assert Slot(t + 13) == Slot(t - 3) && Slot(t + 8) == Slot(t - 8) && Slot(t + 2) == Slot(t - 14);
  }

  method Blk0(block: array<Word>, i: nat, ghost b: seq<Byte>) returns (s: Word)
    requires |b| == 64 && block.Length == 16 && i < 16 && Ring(block[..], b, i)
    modifies block
    ensures Ring(block[..], b, i + 1) && s == W(b, i)
  {
    SwapIsBigEndian(b[4 * i], b[4 * i + 1], b[4 * i + 2], b[4 * i + 3]);
    RingSet(block[..], b, i);
    s := Swap(block[i]);
    ghost var r := block[..];
    block[i] := s;
    assert block[..] == r[Slot(i) := s];
  }

  method Blk(block: array<Word>, i: nat, ghost b: seq<Byte>) returns (s: Word)
    requires |b| == 64 && block.Length == 16 && 16 <= i && Ring(block[..], b, i)
    modifies block
    ensures Ring(block[..], b, i + 1) && s == W(b, i)
  {
    RingNext(block[..], b, i);
    RingSet(block[..], b, i);
    s := Rotl(1, block[Slot(i + 13)] ^ block[Slot(i + 8)] ^ block[Slot(i + 2)] ^ block[Slot(i)]);
    ghost var r := block[..];
    block[Slot(i)] := s;
    assert block[..] == r[Slot(i) := s];
  }

  /** Round `t` starts with these registers, named in the order of FIPS 180-4. */
  ghost predicate InRound(block: array<Word>, h: Regs, b: seq<Byte>, t: nat, regs: Regs)
    reads block
  {
    && |b| == 64 && block.Length == 16
    && Ring(block[..], b, t)
    && Rounds(h, b, t) == regs
  }

  /** `z += f + s + k + rot` of the macros. */
  function Accumulate(z: Word, f: Word, s: Word, k: Word, rot: Word): Word {
    z + (f + s + k + rot)
  }

  lemma AccumulateIsTemp(z: Word, f: Word, s: Word, k: Word, rot: Word)
    ensures Accumulate(z, f, s, k, rot) == Temp(rot, f, z, k, s)
  {
  }

  lemma OneRound(i: nat, v: Word, w: Word, x: Word, y: Word, z: Word, s: Word, f: Word, k: Word)
    requires f == F(i, w, x, y) && k == K(i)
    ensures Round(i, Regs(v, w, x, y, z), s)
         == Regs(Accumulate(z, f, s, k, Rotl(5, v)), v, Rotl(30, w), x, y)
  {
    AccumulateIsTemp(z, f, s, k, Rotl(5, v));
  }

  // The boolean forms and constants of the macros are those of sections 4.1.1 and 4.2.1.

  lemma Macro01(i: nat, w: Word, x: Word, y: Word)
    requires i < 20
    ensures ((w & (x ^ y)) ^ y) == F(i, w, x, y) && K(i) == 0x5a827999
  {
  }

  lemma Macro2(i: nat, w: Word, x: Word, y: Word)
    requires 20 <= i < 40
    ensures (w ^ x ^ y) == F(i, w, x, y) && K(i) == 0x6ed9eba1
  {
  }

  lemma Macro3(i: nat, w: Word, x: Word, y: Word)
    requires 40 <= i < 60
    ensures (((w | x) & y) | (w & x)) == F(i, w, x, y) && K(i) == 0x8f1bbcdc
  {
  }

  lemma Macro4(i: nat, w: Word, x: Word, y: Word)
    requires 60 <= i < 80
    ensures (w ^ x ^ y) == F(i, w, x, y) && K(i) == 0xca62c1d6
  {
  }

  method R0(block: array<Word>, v: Word, w: Word, x: Word, y: Word, z: Word, i: nat,
            ghost h: Regs, ghost b: seq<Byte>)
    returns (w': Word, z': Word)
    requires 0 <= i < 16 && InRound(block, h, b, i, Regs(v, w, x, y, z))
    modifies block
    ensures InRound(block, h, b, i + 1, Regs(z', v, w', x, y))
  {
    var s := Blk0(block, i, b);
    z' := Accumulate(z, ((w & (x ^ y)) ^ y), s, 0x5a827999, Rotl(5, v));
    w' := Rotl(30, w);
    Macro01(i, w, x, y);
    OneRound(i, v, w, x, y, z, s, ((w & (x ^ y)) ^ y), 0x5a827999);
  }

  method R1(block: array<Word>, v: Word, w: Word, x: Word, y: Word, z: Word, i: nat,
            ghost h: Regs, ghost b: seq<Byte>)
    returns (w': Word, z': Word)
    requires 16 <= i < 20 && InRound(block, h, b, i, Regs(v, w, x, y, z))
    modifies block
    ensures InRound(block, h, b, i + 1, Regs(z', v, w', x, y))
  {
    var s := Blk(block, i, b);
    z' := Accumulate(z, ((w & (x ^ y)) ^ y), s, 0x5a827999, Rotl(5, v));
    w' := Rotl(30, w);
    Macro01(i, w, x, y);
    OneRound(i, v, w, x, y, z, s, ((w & (x ^ y)) ^ y), 0x5a827999);
  }

  method R2(block: array<Word>, v: Word, w: Word, x: Word, y: Word, z: Word, i: nat,
            ghost h: Regs, ghost b: seq<Byte>)
    returns (w': Word, z': Word)
    requires 20 <= i < 40 && InRound(block, h, b, i, Regs(v, w, x, y, z))
    modifies block
    ensures InRound(block, h, b, i + 1, Regs(z', v, w', x, y))
  {
    var s := Blk(block, i, b);
    z' := Accumulate(z, (w ^ x ^ y), s, 0x6ed9eba1, Rotl(5, v));
    w' := Rotl(30, w);
    Macro2(i, w, x, y);
    OneRound(i, v, w, x, y, z, s, (w ^ x ^ y), 0x6ed9eba1);
  }

  method R3(block: array<Word>, v: Word, w: Word, x: Word, y: Word, z: Word, i: nat,
            ghost h: Regs, ghost b: seq<Byte>)
    returns (w': Word, z': Word)
    requires 40 <= i < 60 && InRound(block, h, b, i, Regs(v, w, x, y, z))
    modifies block
    ensures InRound(block, h, b, i + 1, Regs(z', v, w', x, y))
  {
    var s := Blk(block, i, b);
    z' := Accumulate(z, (((w | x) & y) | (w & x)), s, 0x8f1bbcdc, Rotl(5, v));
    w' := Rotl(30, w);
    Macro3(i, w, x, y);
    OneRound(i, v, w, x, y, z, s, (((w | x) & y) | (w & x)), 0x8f1bbcdc);
  }

  method R4(block: array<Word>, v: Word, w: Word, x: Word, y: Word, z: Word, i: nat,
            ghost h: Regs, ghost b: seq<Byte>)
    returns (w': Word, z': Word)
    requires 60 <= i < 80 && InRound(block, h, b, i, Regs(v, w, x, y, z))
    modifies block
    ensures InRound(block, h, b, i + 1, Regs(z', v, w', x, y))
  {
    var s := Blk(block, i, b);
    z' := Accumulate(z, (w ^ x ^ y), s, 0xca62c1d6, Rotl(5, v));
    w' := Rotl(30, w);
    Macro4(i, w, x, y);
    OneRound(i, v, w, x, y, z, s, (w ^ x ^ y), 0xca62c1d6);
  }

  ghost function RegsOf(state: array<Word>): Regs
    requires state.Length == 5
    reads state
  {
    Regs(state[0], state[1], state[2], state[3], state[4])
  }

  // The unrolled transform, in pieces of 4 and 10 rounds. The number of the first round comes
  // in as `t`, although each piece has only one: on a numeral Dafny would unfold the recursive
  // definition of the rounds down to 0, and the piece would cost as much as the whole.

  /** Rounds 0 to 3 of the unrolled transform; `t` is the first of them. */
  method From0(block: array<Word>, a0: Word, b0: Word, c0: Word, d0: Word, e0: Word,
                t: nat, ghost h: Regs, ghost buffer: seq<Byte>)
    returns (a: Word, b: Word, c: Word, d: Word, e: Word)
    requires t == 0 && InRound(block, h, buffer, 0, Regs(a0, b0, c0, d0, e0))
    modifies block
    ensures InRound(block, h, buffer, 4, Regs(b, c, d, e, a))
  {
    a, b, c, d, e := a0, b0, c0, d0, e0;
    b, e := R0(block, a, b, c, d, e, t, h, buffer);
    a, d := R0(block, e, a, b, c, d, t + 1, h, buffer);
    e, c := R0(block, d, e, a, b, c, t + 2, h, buffer);
    d, b := R0(block, c, d, e, a, b, t + 3, h, buffer);
  }

  /** Rounds 4 to 7 of the unrolled transform; `t` is the first of them. */
  method From4(block: array<Word>, a0: Word, b0: Word, c0: Word, d0: Word, e0: Word,
                t: nat, ghost h: Regs, ghost buffer: seq<Byte>)
    returns (a: Word, b: Word, c: Word, d: Word, e: Word)
    requires t == 4 && InRound(block, h, buffer, 4, Regs(b0, c0, d0, e0, a0))
    modifies block
    ensures InRound(block, h, buffer, 8, Regs(c, d, e, a, b))
  {
    a, b, c, d, e := a0, b0, c0, d0, e0;
    c, a := R0(block, b, c, d, e, a, t, h, buffer);
    b, e := R0(block, a, b, c, d, e, t + 1, h, buffer);
    a, d := R0(block, e, a, b, c, d, t + 2, h, buffer);
    e, c := R0(block, d, e, a, b, c, t + 3, h, buffer);
  }

  /** Rounds 8 to 11 of the unrolled transform; `t` is the first of them. */
  method From8(block: array<Word>, a0: Word, b0: Word, c0: Word, d0: Word, e0: Word,
                t: nat, ghost h: Regs, ghost buffer: seq<Byte>)
    returns (a: Word, b: Word, c: Word, d: Word, e: Word)
    requires t == 8 && InRound(block, h, buffer, 8, Regs(c0, d0, e0, a0, b0))
    modifies block
    ensures InRound(block, h, buffer, 12, Regs(d, e, a, b, c))
  {
    a, b, c, d, e := a0, b0, c0, d0, e0;
    d, b := R0(block, c, d, e, a, b, t, h, buffer);
    c, a := R0(block, b, c, d, e, a, t + 1, h, buffer);
    b, e := R0(block, a, b, c, d, e, t + 2, h, buffer);
    a, d := R0(block, e, a, b, c, d, t + 3, h, buffer);
  }

  /** Rounds 12 to 15 of the unrolled transform; `t` is the first of them. */
  method From12(block: array<Word>, a0: Word, b0: Word, c0: Word, d0: Word, e0: Word,
                t: nat, ghost h: Regs, ghost buffer: seq<Byte>)
    returns (a: Word, b: Word, c: Word, d: Word, e: Word)
    requires t == 12 && InRound(block, h, buffer, 12, Regs(d0, e0, a0, b0, c0))
    modifies block
    ensures InRound(block, h, buffer, 16, Regs(e, a, b, c, d))
  {
    a, b, c, d, e := a0, b0, c0, d0, e0;
    e, c := R0(block, d, e, a, b, c, t, h, buffer);
    d, b := R0(block, c, d, e, a, b, t + 1, h, buffer);
    c, a := R0(block, b, c, d, e, a, t + 2, h, buffer);
    b, e := R0(block, a, b, c, d, e, t + 3, h, buffer);
  }

  /** Rounds 16 to 19 of the unrolled transform; `t` is the first of them. */
  method From16(block: array<Word>, a0: Word, b0: Word, c0: Word, d0: Word, e0: Word,
                t: nat, ghost h: Regs, ghost buffer: seq<Byte>)
    returns (a: Word, b: Word, c: Word, d: Word, e: Word)
    requires t == 16 && InRound(block, h, buffer, 16, Regs(e0, a0, b0, c0, d0))
    modifies block
    ensures InRound(block, h, buffer, 20, Regs(a, b, c, d, e))
  {
    a, b, c, d, e := a0, b0, c0, d0, e0;
    a, d := R1(block, e, a, b, c, d, t, h, buffer);
    e, c := R1(block, d, e, a, b, c, t + 1, h, buffer);
    d, b := R1(block, c, d, e, a, b, t + 2, h, buffer);
    c, a := R1(block, b, c, d, e, a, t + 3, h, buffer);
  }

  /** Rounds 20 to 29 of the unrolled transform; `t` is the first of them. */
  method From20(block: array<Word>, a0: Word, b0: Word, c0: Word, d0: Word, e0: Word,
                t: nat, ghost h: Regs, ghost buffer: seq<Byte>)
    returns (a: Word, b: Word, c: Word, d: Word, e: Word)
    requires t == 20 && InRound(block, h, buffer, 20, Regs(a0, b0, c0, d0, e0))
    modifies block
    ensures InRound(block, h, buffer, 30, Regs(a, b, c, d, e))
  {
    a, b, c, d, e := a0, b0, c0, d0, e0;
    b, e := R2(block, a, b, c, d, e, t, h, buffer);
    a, d := R2(block, e, a, b, c, d, t + 1, h, buffer);
    e, c := R2(block, d, e, a, b, c, t + 2, h, buffer);
    d, b := R2(block, c, d, e, a, b, t + 3, h, buffer);
    c, a := R2(block, b, c, d, e, a, t + 4, h, buffer);
    b, e := R2(block, a, b, c, d, e, t + 5, h, buffer);
    a, d := R2(block, e, a, b, c, d, t + 6, h, buffer);
    e, c := R2(block, d, e, a, b, c, t + 7, h, buffer);
    d, b := R2(block, c, d, e, a, b, t + 8, h, buffer);
    c, a := R2(block, b, c, d, e, a, t + 9, h, buffer);
  }

  /** Rounds 30 to 39 of the unrolled transform; `t` is the first of them. */
  method From30(block: array<Word>, a0: Word, b0: Word, c0: Word, d0: Word, e0: Word,
                t: nat, ghost h: Regs, ghost buffer: seq<Byte>)
    returns (a: Word, b: Word, c: Word, d: Word, e: Word)
    requires t == 30 && InRound(block, h, buffer, 30, Regs(a0, b0, c0, d0, e0))
    modifies block
    ensures InRound(block, h, buffer, 40, Regs(a, b, c, d, e))
  {
    a, b, c, d, e := a0, b0, c0, d0, e0;
    b, e := R2(block, a, b, c, d, e, t, h, buffer);
    a, d := R2(block, e, a, b, c, d, t + 1, h, buffer);
    e, c := R2(block, d, e, a, b, c, t + 2, h, buffer);
    d, b := R2(block, c, d, e, a, b, t + 3, h, buffer);
    c, a := R2(block, b, c, d, e, a, t + 4, h, buffer);
    b, e := R2(block, a, b, c, d, e, t + 5, h, buffer);
    a, d := R2(block, e, a, b, c, d, t + 6, h, buffer);
    e, c := R2(block, d, e, a, b, c, t + 7, h, buffer);
    d, b := R2(block, c, d, e, a, b, t + 8, h, buffer);
    c, a := R2(block, b, c, d, e, a, t + 9, h, buffer);
  }

  /** Rounds 40 to 49 of the unrolled transform; `t` is the first of them. */
  method From40(block: array<Word>, a0: Word, b0: Word, c0: Word, d0: Word, e0: Word,
                t: nat, ghost h: Regs, ghost buffer: seq<Byte>)
    returns (a: Word, b: Word, c: Word, d: Word, e: Word)
    requires t == 40 && InRound(block, h, buffer, 40, Regs(a0, b0, c0, d0, e0))
    modifies block
    ensures InRound(block, h, buffer, 50, Regs(a, b, c, d, e))
  {
    a, b, c, d, e := a0, b0, c0, d0, e0;
    b, e := R3(block, a, b, c, d, e, t, h, buffer);
    a, d := R3(block, e, a, b, c, d, t + 1, h, buffer);
    e, c := R3(block, d, e, a, b, c, t + 2, h, buffer);
    d, b := R3(block, c, d, e, a, b, t + 3, h, buffer);
    c, a := R3(block, b, c, d, e, a, t + 4, h, buffer);
    b, e := R3(block, a, b, c, d, e, t + 5, h, buffer);
    a, d := R3(block, e, a, b, c, d, t + 6, h, buffer);
    e, c := R3(block, d, e, a, b, c, t + 7, h, buffer);
    d, b := R3(block, c, d, e, a, b, t + 8, h, buffer);
    c, a := R3(block, b, c, d, e, a, t + 9, h, buffer);
  }

  /** Rounds 50 to 59 of the unrolled transform; `t` is the first of them. */
  method From50(block: array<Word>, a0: Word, b0: Word, c0: Word, d0: Word, e0: Word,
                t: nat, ghost h: Regs, ghost buffer: seq<Byte>)
    returns (a: Word, b: Word, c: Word, d: Word, e: Word)
    requires t == 50 && InRound(block, h, buffer, 50, Regs(a0, b0, c0, d0, e0))
    modifies block
    ensures InRound(block, h, buffer, 60, Regs(a, b, c, d, e))
  {
    a, b, c, d, e := a0, b0, c0, d0, e0;
    b, e := R3(block, a, b, c, d, e, t, h, buffer);
    a, d := R3(block, e, a, b, c, d, t + 1, h, buffer);
    e, c := R3(block, d, e, a, b, c, t + 2, h, buffer);
    d, b := R3(block, c, d, e, a, b, t + 3, h, buffer);
    c, a := R3(block, b, c, d, e, a, t + 4, h, buffer);
    b, e := R3(block, a, b, c, d, e, t + 5, h, buffer);
    a, d := R3(block, e, a, b, c, d, t + 6, h, buffer);
    e, c := R3(block, d, e, a, b, c, t + 7, h, buffer);
    d, b := R3(block, c, d, e, a, b, t + 8, h, buffer);
    c, a := R3(block, b, c, d, e, a, t + 9, h, buffer);
  }

  /** Rounds 60 to 69 of the unrolled transform; `t` is the first of them. */
  method From60(block: array<Word>, a0: Word, b0: Word, c0: Word, d0: Word, e0: Word,
                t: nat, ghost h: Regs, ghost buffer: seq<Byte>)
    returns (a: Word, b: Word, c: Word, d: Word, e: Word)
    requires t == 60 && InRound(block, h, buffer, 60, Regs(a0, b0, c0, d0, e0))
    modifies block
    ensures InRound(block, h, buffer, 70, Regs(a, b, c, d, e))
  {
    a, b, c, d, e := a0, b0, c0, d0, e0;
    b, e := R4(block, a, b, c, d, e, t, h, buffer);
    a, d := R4(block, e, a, b, c, d, t + 1, h, buffer);
    e, c := R4(block, d, e, a, b, c, t + 2, h, buffer);
    d, b := R4(block, c, d, e, a, b, t + 3, h, buffer);
    c, a := R4(block, b, c, d, e, a, t + 4, h, buffer);
    b, e := R4(block, a, b, c, d, e, t + 5, h, buffer);
    a, d := R4(block, e, a, b, c, d, t + 6, h, buffer);
    e, c := R4(block, d, e, a, b, c, t + 7, h, buffer);
    d, b := R4(block, c, d, e, a, b, t + 8, h, buffer);
    c, a := R4(block, b, c, d, e, a, t + 9, h, buffer);
  }

  /** Rounds 70 to 79 of the unrolled transform; `t` is the first of them. */
  method From70(block: array<Word>, a0: Word, b0: Word, c0: Word, d0: Word, e0: Word,
                t: nat, ghost h: Regs, ghost buffer: seq<Byte>)
    returns (a: Word, b: Word, c: Word, d: Word, e: Word)
    requires t == 70 && InRound(block, h, buffer, 70, Regs(a0, b0, c0, d0, e0))
    modifies block
    ensures InRound(block, h, buffer, 80, Regs(a, b, c, d, e))
  {
    a, b, c, d, e := a0, b0, c0, d0, e0;
    b, e := R4(block, a, b, c, d, e, t, h, buffer);
    a, d := R4(block, e, a, b, c, d, t + 1, h, buffer);
    e, c := R4(block, d, e, a, b, c, t + 2, h, buffer);
    d, b := R4(block, c, d, e, a, b, t + 3, h, buffer);
    c, a := R4(block, b, c, d, e, a, t + 4, h, buffer);
    b, e := R4(block, a, b, c, d, e, t + 5, h, buffer);
    a, d := R4(block, e, a, b, c, d, t + 6, h, buffer);
    e, c := R4(block, d, e, a, b, c, t + 7, h, buffer);
    d, b := R4(block, c, d, e, a, b, t + 8, h, buffer);
    c, a := R4(block, b, c, d, e, a, t + 9, h, buffer);
  }

  method AllRounds(block: array<Word>, a0: Word, b0: Word, c0: Word, d0: Word, e0: Word,
                   ghost h: Regs, ghost buffer: seq<Byte>)
    returns (a: Word, b: Word, c: Word, d: Word, e: Word)
    requires InRound(block, h, buffer, 0, Regs(a0, b0, c0, d0, e0))
    modifies block
    ensures InRound(block, h, buffer, 80, Regs(a, b, c, d, e))
  {
    a, b, c, d, e := From0(block, a0, b0, c0, d0, e0, 0, h, buffer);
    a, b, c, d, e := From4(block, a, b, c, d, e, 4, h, buffer);
    a, b, c, d, e := From8(block, a, b, c, d, e, 8, h, buffer);
    a, b, c, d, e := From12(block, a, b, c, d, e, 12, h, buffer);
    a, b, c, d, e := From16(block, a, b, c, d, e, 16, h, buffer);
    a, b, c, d, e := From20(block, a, b, c, d, e, 20, h, buffer);
    a, b, c, d, e := From30(block, a, b, c, d, e, 30, h, buffer);
    a, b, c, d, e := From40(block, a, b, c, d, e, 40, h, buffer);
    a, b, c, d, e := From50(block, a, b, c, d, e, 50, h, buffer);
    a, b, c, d, e := From60(block, a, b, c, d, e, 60, h, buffer);
    a, b, c, d, e := From70(block, a, b, c, d, e, 70, h, buffer);
  }

  method AddInto(state: array<Word>, s: Regs)
    requires state.Length == 5
    modifies state
    ensures RegsOf(state) == AddRegs(old(RegsOf(state)), s)
  {
    var r := AddRegs(Regs(state[0], state[1], state[2], state[3], state[4]), s);
    state[0], state[1], state[2], state[3], state[4] := r.a, r.b, r.c, r.d, r.e;
  }

  /** memcpy of the block into the sixteen words. */
  method LoadBlock(ghost h: Regs, buffer: seq<Byte>) returns (block: array<Word>)
    requires |buffer| == 64
    ensures fresh(block) && InRound(block, h, buffer, 0, h)
  {
    block := new Word[16](i requires 0 <= i < 16 => RawWord(buffer, i));
  }

  /** The unrolled transform compresses one block as section 6.1.2 says. */
  method Transform(state: array<Word>, buffer: seq<Byte>)
    requires state.Length == 5 && |buffer| == 64
    modifies state
    ensures RegsOf(state) == Compress(old(RegsOf(state)), buffer)
  {
    ghost var h := RegsOf(state);
    var block := LoadBlock(h, buffer);
    var a, b, c, d, e := AllRounds(block, state[0], state[1], state[2], state[3], state[4], h, buffer);
    AddInto(state, Regs(a, b, c, d, e));
  }
}
