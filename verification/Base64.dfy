/** Base64 in `mongoose.c`: the byte-at-a-time encoder that keeps its spare bits in the
    output buffer, and the decoder, against the 24-bit groups of section 4 of RFC 4648. */
module Base64 {
  import opened Prelude

  const PAD: bv8 := 61

  /** `mg_b64idx`, on values below 64. */
  function Symbol(c: bv8): bv8 {
    if c < 26 then c + 65
    else if c < 52 then c - 26 + 97
    else if c < 62 then c - 52 + 48
    else if c == 62 then 43 else 47
  }

  /** `mg_b64rev`, with 255 for its -1. */
  function Value(c: bv8): bv8 {
    if 65 <= c <= 90 then c - 65
    else if 97 <= c <= 122 then c + 26 - 97
    else if 48 <= c <= 57 then c + 52 - 48
    else if c == 43 then 62
    else if c == 47 then 63
    else if c == PAD then 64
    else 255
  }

  lemma ValueOfSymbol(c: bv8)
    requires c < 64
    ensures Value(Symbol(c)) == c && Symbol(c) != PAD
  {
  }

  // ----- RFC 4648, section 4 -----

  /** Three bytes as one group of 24 bits, and the group as four sextets. */
  function Group(a: bv8, b: bv8, c: bv8): bv32 {
    (a as bv32 << 16) | (b as bv32 << 8) | c as bv32
  }

  function Quantum(a: bv8, b: bv8, c: bv8): (q: seq<bv8>)
    ensures |q| == 4
  {
    var g := Group(a, b, c);
    [Symbol(((g >> 18) & 63) as bv8), Symbol(((g >> 12) & 63) as bv8),
     Symbol(((g >> 6) & 63) as bv8), Symbol((g & 63) as bv8)]
  }

  /** A last group of one or two bytes is filled with zero bits; the sextets with no
      input bit in them become padding. */
  function LastGroup(t: seq<bv8>): seq<bv8>
    requires |t| < 3
  {
    if |t| == 0 then []
    else if |t| == 1 then Quantum(t[0], 0, 0)[..2] + [PAD, PAD]
    else Quantum(t[0], t[1], 0)[..3] + [PAD]
  }

  function Encode(x: seq<bv8>): seq<bv8> {
    if |x| < 3 then LastGroup(x) else Quantum(x[0], x[1], x[2]) + Encode(x[3..])
  }

  lemma {:induction false} EncodedLength(x: seq<bv8>)
    ensures |Encode(x)| == 4 * ((|x| + 2) / 3)
  {
    if |x| > 2 {
      EncodedLength(x[3..]);
    }
  }

  // ----- The same, byte by byte -----

  function Bits1(a: bv8): bv8 {
    (a & 3) << 4
  }

  function Bits2(b: bv8): bv8 {
    (b & 15) << 2
  }

  function Four(a: bv8, b: bv8, c: bv8): (q: seq<bv8>)
    ensures |q| == 4
  {
    [Symbol(a >> 2), Symbol(Bits1(a) | (b >> 4)), Symbol(Bits2(b) | (c >> 6)), Symbol(c & 63)]
  }

  /** Shifting the bytes one by one gives the sextets of the group. */
  lemma FourIsQuantum(a: bv8, b: bv8, c: bv8)
    ensures Four(a, b, c) == Quantum(a, b, c)
  {
  }

  /** The bytes of the last, unfinished group. */
  function Tail(x: seq<bv8>): (t: seq<bv8>)
    ensures |t| < 3
  {
    if |x| < 3 then x else Tail(x[3..])
  }

  /** The symbols of the finished groups. */
  function Whole(x: seq<bv8>): seq<bv8> {
    if |x| < 3 then [] else Four(x[0], x[1], x[2]) + Whole(x[3..])
  }

  /** The symbols of an unfinished group that no further input can change. */
  function Begun(t: seq<bv8>): (s: seq<bv8>)
    requires |t| < 3
    ensures |s| == |t|
  {
    if |t| == 0 then [] else if |t| == 1 then [Symbol(t[0] >> 2)]
    else [Symbol(t[0] >> 2), Symbol(Bits1(t[0]) | (t[1] >> 4))]
  }

  function Settled(x: seq<bv8>): seq<bv8> {
    Whole(x) + Begun(Tail(x))
  }

  /** The input bits not yet in a symbol, at the top of a sextet. */
  function Spare(t: seq<bv8>): bv8
    requires |t| < 3
  {
    if |t| == 0 then 0 else if |t| == 1 then Bits1(t[0]) else Bits2(t[1])
  }

  lemma {:induction false} ByteJoinsTail(x: seq<bv8>, ch: bv8)
    requires |Tail(x)| < 2
    ensures Whole(x + [ch]) == Whole(x) && Tail(x + [ch]) == Tail(x) + [ch]
  {
    if |x| >= 3 {
      assert (x + [ch])[3..] == x[3..] + [ch];
      ByteJoinsTail(x[3..], ch);
    }
  }

  lemma {:induction false} ByteFillsGroup(x: seq<bv8>, ch: bv8)
    requires |Tail(x)| == 2
    ensures Whole(x + [ch]) == Whole(x) + Four(Tail(x)[0], Tail(x)[1], ch) && Tail(x + [ch]) == []
  {
    if |x| == 2 {
      assert (x + [ch])[3..] == [];
    } else {
      assert (x + [ch])[3..] == x[3..] + [ch];
      ByteFillsGroup(x[3..], ch);
      Associates(Four(x[0], x[1], x[2]), Whole(x[3..]), Four(Tail(x)[0], Tail(x)[1], ch));
    }
  }

  lemma Associates(a: seq<bv8>, b: seq<bv8>, c: seq<bv8>)
    ensures a + (b + c) == (a + b) + c
  {
  }

  lemma {:induction false} WholeThenLast(x: seq<bv8>)
    ensures Encode(x) == Whole(x) + LastGroup(Tail(x))
  {
    if |x| >= 3 {
      WholeThenLast(x[3..]);
      FourIsQuantum(x[0], x[1], x[2]);
    }
  }

  lemma LastGroupSymbols(t: seq<bv8>)
    requires |t| < 3
    ensures |t| == 1 ==> LastGroup(t) == [Symbol(t[0] >> 2), Symbol(Bits1(t[0])), PAD, PAD]
    ensures |t| == 2 ==>
      LastGroup(t) == [Symbol(t[0] >> 2), Symbol(Bits1(t[0]) | (t[1] >> 4)), Symbol(Bits2(t[1])), PAD]
  {
    if |t| == 1 {
      FourIsQuantum(t[0], 0, 0);
    } else if |t| == 2 {
      FourIsQuantum(t[0], t[1], 0);
    }
  }

  /** What `to` holds after the bytes `x`: the settled symbols up to `n`, and at `n` the
      bits that are still waiting. */
  ghost predicate Holds(to: seq<bv8>, n: nat, x: seq<bv8>) {
    n <= |to| && to[..n] == Settled(x) && (|Tail(x)| > 0 ==> n < |to| && to[n] == Spare(Tail(x)))
  }

  lemma {:induction false} Phase(x: seq<bv8>)
    ensures |Settled(x)| % 4 == |Tail(x)|
  {
    if |x| >= 3 {
      Phase(x[3..]);
      assert |Settled(x)| == 4 + |Settled(x[3..])|;
    }
  }

  lemma SettledFirst(x: seq<bv8>, ch: bv8)
    requires |Tail(x)| == 0
    ensures Settled(x + [ch]) == Settled(x) + [Symbol(ch >> 2)] && Tail(x + [ch]) == [ch]
  {
    ByteJoinsTail(x, ch);
  }

  lemma SettledSecond(x: seq<bv8>, ch: bv8)
    requires |Tail(x)| == 1
    ensures Settled(x + [ch]) == Settled(x) + [Symbol(Spare(Tail(x)) | (ch >> 4))]
    ensures |Tail(x + [ch])| == 2 && Tail(x + [ch])[1] == ch
  {
    ByteJoinsTail(x, ch);
  }

  lemma SettledThird(x: seq<bv8>, ch: bv8)
    requires |Tail(x)| == 2
    ensures Settled(x + [ch]) == Settled(x) + [Symbol(Spare(Tail(x)) | (ch >> 6)), Symbol(ch & 63)]
    ensures Tail(x + [ch]) == []
  {
    var t := Tail(x);
    ByteFillsGroup(x, ch);
    assert Settled(x + [ch]) == Whole(x + [ch]);
    FourIsBegun(t, ch);
    Associates(Whole(x), Begun(t), [Symbol(Spare(t) | (ch >> 6)), Symbol(ch & 63)]);
  }

  lemma FourIsBegun(t: seq<bv8>, ch: bv8)
    requires |t| == 2
    ensures Four(t[0], t[1], ch) == Begun(t) + [Symbol(Spare(t) | (ch >> 6)), Symbol(ch & 63)]
  {
  }

  lemma FirstHolds(was: seq<bv8>, now: seq<bv8>, n: nat, x: seq<bv8>, ch: bv8)
    requires Holds(was, n, x) && |Tail(x)| == 0 && n + 1 < |now|
    requires now[..n + 1] == was[..n] + [Symbol(ch >> 2)] && now[n + 1] == (ch & 3) << 4
    ensures Holds(now, n + 1, x + [ch])
  {
    SettledFirst(x, ch);
  }

  lemma SecondHolds(was: seq<bv8>, now: seq<bv8>, n: nat, x: seq<bv8>, ch: bv8)
    requires Holds(was, n, x) && |Tail(x)| == 1 && n + 1 < |now|
    requires now[..n + 1] == was[..n] + [Symbol(was[n] | (ch >> 4))] && now[n + 1] == (ch & 15) << 2
    ensures Holds(now, n + 1, x + [ch])
  {
    SettledSecond(x, ch);
  }

  lemma ThirdHolds(was: seq<bv8>, now: seq<bv8>, n: nat, x: seq<bv8>, ch: bv8)
    requires Holds(was, n, x) && |Tail(x)| == 2 && n + 1 < |now|
    requires now[..n + 2] == was[..n] + [Symbol(was[n] | (ch >> 6)), Symbol(ch & 63)]
    ensures Holds(now, n + 2, x + [ch])
  {
    SettledThird(x, ch);
  }

  // ----- The encoder -----

  /** The end of each branch of `mg_base64_update`: one symbol and the byte after it. */
  method Put(to: array<bv8>, n: nat, c: bv8, d: bv8)
    requires n + 1 < to.Length
    modifies to
    ensures to[..n + 1] == old(to[..n]) + [c] && to[n + 1] == d
    ensures to[..n + 2] == old(to[..n]) + [c, d]
  {
    to[n] := c;
    to[n + 1] := d;
  }

  method Remainder(n: nat, ghost x: seq<bv8>) returns (rem: nat)
    requires n == |Settled(x)|
    ensures rem == |Tail(x)|
  {
    Phase(x);
    rem := (n % 4) % 3;
  }

  /** `mg_base64_update`: the buffer holds one byte more. */
  method Update(ch: bv8, to: array<bv8>, at: nat, ghost x: seq<bv8>) returns (n: nat)
    requires at + 1 < to.Length && Holds(to[..], at, x)
    modifies to
    ensures Holds(to[..], n, x + [ch])
  {
    var rem := Remainder(at, x);
    if rem == 0 {
      n := UpdateFirst(ch, to, at, x);
    } else if rem == 1 {
      n := UpdateSecond(ch, to, at, x);
    } else {
      n := UpdateThird(ch, to, at, x);
    }
  }

  method UpdateFirst(ch: bv8, to: array<bv8>, at: nat, ghost x: seq<bv8>) returns (n: nat)
    requires at + 1 < to.Length && Holds(to[..], at, x) && |Tail(x)| == 0
    modifies to
    ensures Holds(to[..], n, x + [ch])
  {
    ghost var was := to[..];
    Put(to, at, Symbol(ch >> 2), (ch & 3) << 4);
    FirstHolds(was, to[..], at, x, ch);
    n := at + 1;
  }

  method UpdateSecond(ch: bv8, to: array<bv8>, at: nat, ghost x: seq<bv8>) returns (n: nat)
    requires at + 1 < to.Length && Holds(to[..], at, x) && |Tail(x)| == 1
    modifies to
    ensures Holds(to[..], n, x + [ch])
  {
    ghost var was := to[..];
    Put(to, at, Symbol(to[at] | (ch >> 4)), (ch & 15) << 2);
    SecondHolds(was, to[..], at, x, ch);
    n := at + 1;
  }

  method UpdateThird(ch: bv8, to: array<bv8>, at: nat, ghost x: seq<bv8>) returns (n: nat)
    requires at + 1 < to.Length && Holds(to[..], at, x) && |Tail(x)| == 2
    modifies to
    ensures Holds(to[..], n, x + [ch])
  {
    ghost var was := to[..];
    Put(to, at, Symbol(to[at] | (ch >> 6)), Symbol(ch & 63));
    ThirdHolds(was, to[..], at, x, ch);
    n := at + 2;
  }

  lemma JoinOne(w: seq<bv8>, a: bv8, b: bv8)
    ensures w + [a, b, PAD, PAD] == ((w + [a]) + [b]) + [PAD, PAD]
  {
  }

  lemma JoinTwo(e: seq<bv8>, s: seq<bv8>, w: seq<bv8>, a: bv8, b: bv8, c: bv8, d: bv8)
    requires e == w + [a, b, c, PAD] && s == (w + [a, b]) + [c, d]
    ensures |e| == |s| == |w| + 4 && e == s[..|e| - 1] + [PAD]
  {
  }

  lemma NothingToOr(b: bv8)
    ensures b | (0 >> 4) == b && b | (0 >> 6) == b
  {
  }

  lemma EncodedFours(x: seq<bv8>)
    ensures |Encode(x)| % 4 == 0
  {
    EncodedLength(x);
  }

  /** With nothing left over the symbols are complete. */
  lemma NoPadding(x: seq<bv8>)
    requires |Tail(x)| == 0
    ensures Encode(x) == Settled(x)
  {
    WholeThenLast(x);
  }

  /** Else a zero byte completes the last of them, and padding does the rest. */
  lemma TwoPads(x: seq<bv8>)
    requires |Tail(x)| == 1
    ensures |Encode(x)| == |Settled(x)| + 3 && Encode(x) == Settled(x + [0]) + [PAD, PAD]
  {
    var t, w := Tail(x), Whole(x);
    WholeThenLast(x);
    LastGroupSymbols(t);
    SettledSecond(x, 0);
    NothingToOr(Bits1(t[0]));
    JoinOne(w, Symbol(t[0] >> 2), Symbol(Bits1(t[0])));
  }

  lemma OnePad(x: seq<bv8>)
    requires |Tail(x)| == 2
    ensures |Encode(x)| == |Settled(x)| + 2 == |Settled(x + [0])|
    ensures Encode(x) == Settled(x + [0])[..|Encode(x)| - 1] + [PAD]
  {
    var t, w := Tail(x), Whole(x);
    var a, b, c := Symbol(t[0] >> 2), Symbol(Bits1(t[0]) | (t[1] >> 4)), Symbol(Bits2(t[1]));
    WholeThenLast(x);
    LastGroupSymbols(t);
    SettledOneZero(x);
    JoinTwo(Encode(x), Settled(x + [0]), w, a, b, c, Symbol(0));
  }

  lemma SettledOneZero(x: seq<bv8>)
    requires |Tail(x)| == 2
    ensures Settled(x + [0]) == Settled(x) + [Symbol(Bits2(Tail(x)[1])), Symbol(0)]
  {
    SettledThird(x, 0);
    NothingToOr(Bits2(Tail(x)[1]));
  }

  /** `mg_base64_final`. */
  method Final(to: array<bv8>, at: nat, ghost x: seq<bv8>) returns (n: nat)
    requires Holds(to[..], at, x) && |Encode(x)| < to.Length
    modifies to
    ensures n == |Encode(x)| && to[..n] == Encode(x) && to[n] == 0
  {
    n := at;
    Phase(x);
    EncodedFours(x);
    if |Tail(x)| == 0 {
      NoPadding(x);
    } else if |Tail(x)| == 1 {
      TwoPads(x);
    } else {
      OnePad(x);
    }
    if n % 4 != 0 {
      n := Update(0, to, n, x);
    }
    if at % 4 == 2 {
      n := n - 1;
    }
    n := Pad(to, n, Encode(x));
    to[n] := 0;
  }

  method Pad(to: array<bv8>, at: nat, ghost want: seq<bv8>) returns (n: nat)
    requires at <= |want| < to.Length && |want| % 4 == 0 && |want| - at < 4
    requires to[..at] == want[..at] && forall i :: at <= i < |want| ==> want[i] == PAD
    modifies to
    ensures n == |want| && to[..n] == want
  {
    n := at;
    while n % 4 != 0
      invariant at <= n <= |want| && to[..n] == want[..n]
      decreases |want| - n
    {
      to[n] := PAD;
      n := n + 1;
    }
  }

  /** `mg_base64_encode`: whatever the buffer held, it ends up holding the encoding, and a
      NUL after it. */
  method EncodeInto(p: seq<bv8>, to: array<bv8>) returns (n: nat)
    requires |Encode(p)| < to.Length
    modifies to
    ensures n == |Encode(p)| && to[..n] == Encode(p) && to[n] == 0
  {
    n := 0;
    for i := 0 to |p|
      invariant Holds(to[..], n, p[..i])
    {
      RoomForOne(p, i);
      n := Update(p[i], to, n, p[..i]);
      assert p[..i] + [p[i]] == p[..i + 1];
    }
    assert p[..|p|] == p;
    n := Final(to, n, p);
  }

  lemma {:induction false} RoomForOne(p: seq<bv8>, i: nat)
    requires i < |p|
    ensures |Settled(p[..i])| + 2 <= |Encode(p)|
  {
    if |p| < 3 {
      assert Tail(p[..i]) == p[..i];
    } else if i < 3 {
      assert Tail(p[..i]) == p[..i];
    } else {
      assert p[..i][3..] == p[3..][..i - 3];
      RoomForOne(p[3..], i - 3);
    }
  }

  // ----- The decoder -----

  /** Whether a group of four is refused: padding in its first half, or no symbol. */
  predicate Refused(g: seq<bv8>)
    requires |g| == 4
  {
    Value(g[0]) >= 64 || Value(g[1]) >= 64 || Value(g[2]) == 255 || Value(g[3]) == 255
  }

  function High(a: bv8, b: bv8): bv8 {
    (a << 2) | (b >> 4)
  }

  function Middle(b: bv8, c: bv8): bv8 {
    (b << 4) | (c >> 2)
  }

  function Low(c: bv8, d: bv8): bv8 {
    (c << 6) | d
  }

  function Triple(g: seq<bv8>): seq<bv8>
    requires |g| == 4
  {
    var a, b, c, d := Value(g[0]), Value(g[1]), Value(g[2]), Value(g[3]);
    if g[2] == PAD then [High(a, b)]
    else if g[3] == PAD then [High(a, b), Middle(b, c)]
    else [High(a, b), Middle(b, c), Low(c, d)]
  }

  function Prepend(a: seq<bv8>, r: Option<seq<bv8>>): Option<seq<bv8>> {
    if r.None? then None else Some(a + r.value)
  }

  /** What decoding gives: nothing at all if some whole group is refused. */
  function Decoded(s: seq<bv8>): Option<seq<bv8>>
    decreases |s|
  {
    if |s| < 4 then Some([])
    else if Refused(s[..4]) then None
    else Prepend(Triple(s[..4]), Decoded(s[4..]))
  }

  lemma PrependTwice(a: seq<bv8>, b: seq<bv8>, r: Option<seq<bv8>>)
    ensures Prepend(a, Prepend(b, r)) == Prepend(a + b, r) && Prepend([], r) == r
  {
    if r.Some? {
      Associates(a, b, r.value);
      assert [] + r.value == r.value;
    }
  }

  lemma DecodedFrom(src: seq<bv8>, i: nat)
    requires i + 4 <= |src|
    ensures Refused(src[i..i + 4]) ==> Decoded(src[i..]) == None
    ensures !Refused(src[i..i + 4]) ==> Decoded(src[i..]) == Prepend(Triple(src[i..i + 4]), Decoded(src[i + 4..]))
  {
    assert src[i..][..4] == src[i..i + 4];
    assert src[i..][4..] == src[i + 4..];
  }

  /** The body of the loop of `mg_base64_decode`, for a group that is not refused. */
  method Store(group: seq<bv8>, dst: array<bv8>, at: nat) returns (len: nat)
    requires |group| == 4 && at + 3 <= dst.Length
    modifies dst
    ensures at <= len <= at + 3 && dst[..len] == old(dst[..at]) + Triple(group)
  {
    var a, b, c, d := Value(group[0]), Value(group[1]), Value(group[2]), Value(group[3]);
    ghost var was := dst[..at];
    len := PutByte(dst, at, High(a, b));
    if group[2] != PAD {
      len := PutByte(dst, len, Middle(b, c));
      Associates(was, [High(a, b)], [Middle(b, c)]);
      if group[3] != PAD {
        len := PutByte(dst, len, Low(c, d));
        Associates(was, [High(a, b), Middle(b, c)], [Low(c, d)]);
      }
    }
  }

  method PutByte(dst: array<bv8>, at: nat, b: bv8) returns (len: nat)
    requires at < dst.Length
    modifies dst
    ensures len == at + 1 && dst[..len] == old(dst[..at]) + [b]
  {
    dst[at] := b;
    len := at + 1;
  }

  /** `mg_base64_decode`. */
  method Decode(src: seq<bv8>, dst: array<bv8>) returns (len: nat)
    requires 3 * |src| + 4 <= 4 * dst.Length
    modifies dst
    ensures Decoded(src).None? ==> len == 0
    ensures Decoded(src).Some? ==> len < dst.Length && Decoded(src) == Some(dst[..len]) && dst[len] == 0
  {
    var i := 0;
    len := 0;
    assert src[0..] == src;
    PrependTwice([], [], Decoded(src));
    while i + 3 < |src|
      invariant i <= |src| && 4 * len <= 3 * i && len < dst.Length
      invariant Decoded(src) == Prepend(dst[..len], Decoded(src[i..]))
    {
      DecodedFrom(src, i);
      var group := src[i..i + 4];
      if Refused(group) {
        return 0;
      }
      PrependTwice(dst[..len], Triple(group), Decoded(src[i + 4..]));
      len := Store(group, dst, len);
      i := i + 4;
    }
    assert Decoded(src[i..]) == Some([]);
    assert dst[..len] + [] == dst[..len];
    dst[len] := 0;
  }

  // ----- There and back -----

  lemma SextetsFit(a: bv8, b: bv8, c: bv8)
    ensures a >> 2 < 64 && Bits1(a) | (b >> 4) < 64 && Bits2(b) | (c >> 6) < 64 && c & 63 < 64
  {
  }

  lemma ShiftsUndone(a: bv8, b: bv8, c: bv8)
    ensures High(a >> 2, Bits1(a) | (b >> 4)) == a
    ensures Middle(Bits1(a) | (b >> 4), Bits2(b) | (c >> 6)) == b
    ensures Low(Bits2(b) | (c >> 6), c & 63) == c
  {
  }

  /** The sextets of three bytes, named. */
  lemma Sextets(a: bv8, b: bv8, c: bv8) returns (p: bv8, q: bv8, r: bv8, s: bv8)
    ensures Four(a, b, c) == [Symbol(p), Symbol(q), Symbol(r), Symbol(s)]
    ensures p < 64 && q < 64 && r < 64 && s < 64
    ensures High(p, q) == a && Middle(q, r) == b && Low(r, s) == c
  {
    p, q, r, s := a >> 2, Bits1(a) | (b >> 4), Bits2(b) | (c >> 6), c & 63;
    SextetsFit(a, b, c);
    ShiftsUndone(a, b, c);
  }

  /** The symbols of sextets are never refused, and decode to the bytes they spell. */
  lemma FourSymbolsDecoded(g: seq<bv8>, p: bv8, q: bv8, r: bv8, s: bv8)
    requires p < 64 && q < 64 && r < 64 && s < 64 && g == [Symbol(p), Symbol(q), Symbol(r), Symbol(s)]
    ensures !Refused(g) && Triple(g) == [High(p, q), Middle(q, r), Low(r, s)]
  {
    ValueOfSymbol(p);
    ValueOfSymbol(q);
    ValueOfSymbol(r);
    ValueOfSymbol(s);
  }

  lemma ThreeSymbolsDecoded(g: seq<bv8>, p: bv8, q: bv8, r: bv8)
    requires p < 64 && q < 64 && r < 64 && g == [Symbol(p), Symbol(q), Symbol(r), PAD]
    ensures !Refused(g) && Triple(g) == [High(p, q), Middle(q, r)]
  {
    ValueOfSymbol(p);
    ValueOfSymbol(q);
    ValueOfSymbol(r);
  }

  lemma TwoSymbolsDecoded(g: seq<bv8>, p: bv8, q: bv8)
    requires p < 64 && q < 64 && g == [Symbol(p), Symbol(q), PAD, PAD]
    ensures !Refused(g) && Triple(g) == [High(p, q)]
  {
    ValueOfSymbol(p);
    ValueOfSymbol(q);
  }

  lemma FourDecoded(a: bv8, b: bv8, c: bv8)
    ensures !Refused(Four(a, b, c)) && Triple(Four(a, b, c)) == [a, b, c]
  {
    var p, q, r, s := Sextets(a, b, c);
    FourSymbolsDecoded(Four(a, b, c), p, q, r, s);
  }

  lemma PaddedDecoded(t: seq<bv8>)
    requires 0 < |t| < 3
    ensures |LastGroup(t)| == 4 && !Refused(LastGroup(t)) && Triple(LastGroup(t)) == t
  {
    var b := if |t| == 2 then t[1] else 0;
    var p, q, r, s := Sextets(t[0], b, 0);
    PaddedIsFour(t, b);
    if |t| == 1 {
      TwoSymbolsDecoded(LastGroup(t), p, q);
    } else {
      ThreeSymbolsDecoded(LastGroup(t), p, q, r);
    }
  }

  lemma PaddedIsFour(t: seq<bv8>, b: bv8)
    requires 0 < |t| < 3 && b == if |t| == 2 then t[1] else 0
    ensures LastGroup(t) == Four(t[0], b, 0)[..|t| + 1] + if |t| == 1 then [PAD, PAD] else [PAD]
  {
    FourIsQuantum(t[0], b, 0);
  }

  lemma FirstGroup(q: seq<bv8>, rest: seq<bv8>)
    requires |q| == 4 && !Refused(q)
    ensures Decoded(q + rest) == Prepend(Triple(q), Decoded(rest))
  {
    assert (q + rest)[..4] == q && (q + rest)[4..] == rest;
  }

  /** Decoding what was encoded gives every input back. */
  lemma {:induction false} RoundTrip(x: seq<bv8>)
    ensures Decoded(Encode(x)) == Some(x)
  {
    if |x| >= 3 {
      var q, rest := Quantum(x[0], x[1], x[2]), Encode(x[3..]);
      FourIsQuantum(x[0], x[1], x[2]);
      FourDecoded(x[0], x[1], x[2]);
      RoundTrip(x[3..]);
      FirstGroup(q, rest);
      assert x == [x[0], x[1], x[2]] + x[3..];
    } else if |x| > 0 {
      PaddedDecoded(x);
      assert Encode(x) == LastGroup(x) + [];
      FirstGroup(LastGroup(x), []);
      assert x + [] == x;
    }
  }

  // ----- The alphabet -----

  /** Table 1 of RFC 4648. */
  lemma Alphabet(c: bv8)
    requires c < 64
    ensures Symbol(c) as int == if c < 26 then 'A' as int + c as int
                                else if c < 52 then 'a' as int + (c as int - 26)
                                else if c < 62 then '0' as int + (c as int - 52)
                                else if c == 62 then '+' as int else '/' as int
  {
  }

  /** A byte is read as the place it has in the alphabet, and the rest is padding or refused. */
  lemma OnlyAlphabetIsRead(b: bv8)
    ensures Value(b) < 64 ==> Symbol(Value(b)) == b
    ensures Value(b) >= 64 ==> forall c: bv8 :: c < 64 ==> Symbol(c) != b
    ensures Value(b) >= 64 ==> Value(b) == if b as int == '=' as int then 64 else 255
  {
    if Value(b) >= 64 {
      forall c: bv8 | c < 64 ensures Symbol(c) != b { ValueOfSymbol(c); }
    }
  }

  lemma Narrow(x: bv32)
    requires x < 64
    ensures (x as bv8) as bv32 == x && x as bv8 < 64
  {
  }

  /** The number four sextets write. */
  function Join(p: bv32, q: bv32, r: bv32, s: bv32): bv32 {
    p * 0x40000 + q * 0x1000 + r * 0x40 + s
  }

  lemma SixBySix(g: bv32, p: bv32, q: bv32, r: bv32, s: bv32)
    requires g < 0x100_0000
    requires p == (g >> 18) & 63 && q == (g >> 12) & 63 && r == (g >> 6) & 63 && s == g & 63
    ensures Join(p, q, r, s) == g
  {
  }

  lemma GroupIsSum(a: bv8, b: bv8, c: bv8)
    ensures Group(a, b, c) == (a as bv32) * 0x10000 + (b as bv32) * 0x100 + c as bv32 < 0x100_0000
  {
  }

  /** The sextet a symbol stands for. */
  function Six(symbol: bv8): bv32 {
    Value(symbol) as bv32
  }

  lemma SixOfSymbol(x: bv32)
    requires x < 64
    ensures Six(Symbol(x as bv8)) == x
  {
    Narrow(x);
    ValueOfSymbol(x as bv8);
  }

  lemma Sixes(g: bv32, q: seq<bv8>)
    requires |q| == 4 && q[0] == Symbol(((g >> 18) & 63) as bv8) && q[1] == Symbol(((g >> 12) & 63) as bv8)
    requires q[2] == Symbol(((g >> 6) & 63) as bv8) && q[3] == Symbol((g & 63) as bv8)
    ensures Six(q[0]) == (g >> 18) & 63 && Six(q[1]) == (g >> 12) & 63
    ensures Six(q[2]) == (g >> 6) & 63 && Six(q[3]) == g & 63
  {
    SixOfSymbol((g >> 18) & 63);
    SixOfSymbol((g >> 12) & 63);
    SixOfSymbol((g >> 6) & 63);
    SixOfSymbol(g & 63);
  }

  /** The four symbols of a group stand for its 24 bits, six by six from the top; `GroupIsSum`
      says what number these are. */
  lemma GroupIsSpelled(a: bv8, b: bv8, c: bv8)
    ensures var q := Quantum(a, b, c);
      Join(Six(q[0]), Six(q[1]), Six(q[2]), Six(q[3])) == Group(a, b, c)
  {
    var g, q := Group(a, b, c), Quantum(a, b, c);
    Sixes(g, q);
    GroupIsSum(a, b, c);
    SixBySix(g, Six(q[0]), Six(q[1]), Six(q[2]), Six(q[3]));
  }

  /** The test vectors of section 10 of RFC 4648, from "f" to "foobar". */
  lemma Vectors()
    ensures Encode([102]) == [90, 103, 61, 61] && Encode([102, 111]) == [90, 109, 56, 61]
    ensures Encode([102, 111, 111]) == [90, 109, 57, 118]
    ensures Encode([102, 111, 111, 98]) == [90, 109, 57, 118, 89, 103, 61, 61]
    ensures Encode([102, 111, 111, 98, 97]) == [90, 109, 57, 118, 89, 109, 69, 61]
    ensures Encode([102, 111, 111, 98, 97, 114]) == [90, 109, 57, 118, 89, 109, 70, 121]
  {
    OneGroup(102, 111, 111, [98]);
    OneGroup(102, 111, 111, [98, 97]);
    OneGroup(102, 111, 111, [98, 97, 114]);
  }

  lemma OneGroup(a: bv8, b: bv8, c: bv8, rest: seq<bv8>)
    ensures Encode([a, b, c] + rest) == Quantum(a, b, c) + Encode(rest)
  {
    assert ([a, b, c] + rest)[3..] == rest;
  }

  // ----- What is refused -----

  predicate IsSymbol(b: bv8) {
    var x := b as int;
    || 'A' as int <= x <= 'Z' as int || 'a' as int <= x <= 'z' as int || '0' as int <= x <= '9' as int
    || x == '+' as int || x == '/' as int
  }

  /** Two symbols, and two more or padding. */
  predicate IsGroup(g: seq<bv8>) {
    && |g| == 4 && IsSymbol(g[0]) && IsSymbol(g[1])
    && (IsSymbol(g[2]) || g[2] as int == '=' as int) && (IsSymbol(g[3]) || g[3] as int == '=' as int)
  }

  lemma SymbolIff(b: bv8)
    ensures IsSymbol(b) <==> Value(b) < 64
    ensures b as int == '=' as int <==> Value(b) == 64
    ensures Value(b) < 64 || Value(b) == 64 || Value(b) == 255
  {
  }

  /** A group is refused unless it has that form; else it gives three bytes, two with padding
      at its end, one with padding in third place. */
  lemma GroupIff(g: seq<bv8>)
    requires |g| == 4
    ensures Refused(g) <==> !IsGroup(g)
    ensures |Triple(g)| == if g[2] as int == '=' as int then 1 else if g[3] as int == '=' as int then 2 else 3
  {
    SymbolIff(g[0]);
    SymbolIff(g[1]);
    SymbolIff(g[2]);
    SymbolIff(g[3]);
  }

  predicate InFours(i: int) {
    i == 0 || (i > 0 && InFours(i - 4))
  }

  /** A whole group that has not that form. */
  predicate BadGroup(s: seq<bv8>, i: int) {
    0 <= i <= |s| - 4 && InFours(i) && !IsGroup(s[i..i + 4])
  }

  lemma BadBehind(s: seq<bv8>, i: nat)
    requires |s| >= 4
    ensures BadGroup(s[4..], i) <==> BadGroup(s, i + 4)
  {
    if i + 8 <= |s| { assert s[4..][i..i + 4] == s[i + 4..i + 4 + 4]; }
  }

  /** Decoding gives nothing exactly when there is such a group. */
  lemma {:induction false} RefusedIff(s: seq<bv8>)
    ensures Decoded(s).None? <==> exists i :: BadGroup(s, i)
    decreases |s|
  {
    if |s| >= 4 {
      GroupIff(s[..4]);
      RefusedIff(s[4..]);
      assert BadGroup(s, 0) <==> !IsGroup(s[..4]);
      if i :| BadGroup(s[4..], i) { BadBehind(s, i); }
      if i :| BadGroup(s, i) && i != 0 {
        BadBehind(s, i - 4);
      }
    }
  }
}
