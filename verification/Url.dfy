/** Percent-encoding in `mongoose.c` and the decoder that undoes it (sections 2.1 and 2.3
    of RFC 3986). */
module Url {
  import opened Prelude

  const PERCENT: bv8 := 37
  const PLUS: bv8 := 43
  const SPACE: bv8 := 32

  /** The unreserved characters of RFC 3986. */
  predicate Safe(c: bv8) {
    48 <= c <= 57 || 97 <= c <= 122 || 65 <= c <= 90 || c == 46 || c == 95 || c == 45 || c == 126
  }

  function HexDigit(d: bv8): bv8 {
    if d < 10 then d + 48 else d + 87
  }

  predicate IsHexDigit(c: bv8) {
    48 <= c <= 57 || 65 <= c <= 70 || 97 <= c <= 102
  }

  function Unhex(c: bv8): bv8 {
    if 48 <= c <= 57 then c - 48 else if 65 <= c <= 70 then c - 55 else c - 87
  }

  function Byte(high: bv8, low: bv8): bv8 {
    (Unhex(high) << 4) | Unhex(low)
  }

  lemma HexUndone(c: bv8)
    ensures IsHexDigit(HexDigit(c >> 4)) && IsHexDigit(HexDigit(c & 15))
    ensures Byte(HexDigit(c >> 4), HexDigit(c & 15)) == c
  {
  }

  lemma SafeIsPlain(c: bv8)
    requires Safe(c)
    ensures c != PERCENT && c != PLUS
  {
  }

  // ----- What the two functions should produce -----

  function One(c: bv8): seq<bv8> {
    if Safe(c) then [c] else [PERCENT, HexDigit(c >> 4), HexDigit(c & 15)]
  }

  function Encoded(s: seq<bv8>): seq<bv8> {
    if s == [] then [] else Encoded(s[..|s| - 1]) + One(s[|s| - 1])
  }

  /** The encoder wants four spare bytes before every character, the last one included. */
  predicate Accepts(s: seq<bv8>, len: nat) {
    s != [] ==> |Encoded(s[..|s| - 1])| + 4 < len
  }

  function Prepend(b: bv8, r: Option<seq<bv8>>): Option<seq<bv8>> {
    if r.None? then None else Some([b] + r.value)
  }

  predicate Escaped(s: seq<bv8>) {
    |s| >= 3 && IsHexDigit(s[1]) && IsHexDigit(s[2])
  }

  function Decoded(s: seq<bv8>, form: bool): Option<seq<bv8>>
    decreases |s|
  {
    if s == [] then Some([])
    else if s[0] == PERCENT then
      if Escaped(s) then Prepend(Byte(s[1], s[2]), Decoded(s[3..], form)) else None
    else Prepend(if form && s[0] == PLUS then SPACE else s[0], Decoded(s[1..], form))
  }

  // ----- There and back -----

  lemma OneDecoded(c: bv8, rest: seq<bv8>, form: bool)
    ensures Decoded(One(c) + rest, form) == Prepend(c, Decoded(rest, form))
  {
    var s := One(c) + rest;
    if Safe(c) {
      SafeIsPlain(c);
      assert s[0] == c && s[1..] == rest;
    } else {
      HexUndone(c);
      assert s[0] == PERCENT && s[1] == HexDigit(c >> 4) && s[2] == HexDigit(c & 15) && s[3..] == rest;
    }
  }

  lemma Grouped(a: seq<bv8>, b: seq<bv8>, c: seq<bv8>)
    ensures (a + b) + c == a + (b + c)
  {
  }

  lemma {:induction false} EncodedFront(c: bv8, s: seq<bv8>)
    ensures Encoded([c] + s) == One(c) + Encoded(s)
    decreases |s|
  {
    var t := [c] + s;
    var front, last := t[..|t| - 1], t[|t| - 1];
    assert Encoded(t) == Encoded(front) + One(last);
    if s == [] {
      assert front == [] && [] + One(c) == One(c) == One(c) + [];
    } else {
      assert front == [c] + s[..|s| - 1] && last == s[|s| - 1];
      EncodedFront(c, s[..|s| - 1]);
      Grouped(One(c), Encoded(s[..|s| - 1]), One(last));
    }
  }

  /** Decoding what was encoded gives every string back, as a form field or not. */
  lemma {:induction false} RoundTrip(s: seq<bv8>, form: bool)
    ensures Decoded(Encoded(s), form) == Some(s)
    decreases |s|
  {
    if s != [] {
      assert s == [s[0]] + s[1..];
      EncodedFront(s[0], s[1..]);
      OneDecoded(s[0], Encoded(s[1..]), form);
      RoundTrip(s[1..], form);
    }
  }

  lemma {:induction false} EncodedIsShort(s: seq<bv8>)
    ensures |s| <= |Encoded(s)| <= 3 * |s|
    decreases |s|
  {
    if s != [] {
      EncodedIsShort(s[..|s| - 1]);
    }
  }

  /** A buffer of three bytes for every input byte and two more is always accepted. */
  lemma RoomyIsAccepted(s: seq<bv8>, len: nat)
    requires len >= 3 * |s| + 2
    ensures Accepts(s, len)
  {
    if s != [] {
      EncodedIsShort(s[..|s| - 1]);
    }
  }

  // ----- The loops -----

  /** Once a prefix leaves too little room, so does the whole. */
  lemma {:induction false} RefusedEarly(s: seq<bv8>, i: nat, len: nat)
    requires i < |s| && |Encoded(s[..i])| + 4 >= len
    ensures !Accepts(s, len)
    decreases |s|
  {
    if i < |s| - 1 {
      var t := s[..|s| - 1];
      assert t[..i] == s[..i];
      RefusedEarly(t, i, len);
      assert |Encoded(t)| >= |Encoded(t[..|t| - 1])|;
    }
  }

  /** `mg_url_encode`: 0 when it runs out of room. */
  method Encode(s: seq<bv8>, buf: array<bv8>) returns (n: nat)
    modifies buf
    ensures Accepts(s, buf.Length) ==> n == |Encoded(s)| && n <= buf.Length && buf[..n] == Encoded(s)
    ensures !Accepts(s, buf.Length) ==> n == 0
  {
    n := 0;
    for i := 0 to |s|
      invariant n <= buf.Length && buf[..n] == Encoded(s[..i])
      invariant i > 0 ==> |Encoded(s[..i - 1])| + 4 < buf.Length
    {
      if n + 4 >= buf.Length {
        RefusedEarly(s, i, buf.Length);
        return 0;
      }
      assert s[..i + 1][..i] == s[..i];
      n := Put(buf, n, s[i]);
    }
    assert s[..|s|] == s;
  }

  /** One character of `mg_url_encode`, with the NUL that `mg_hex` leaves behind. */
  method Put(buf: array<bv8>, at: nat, c: bv8) returns (n: nat)
    requires at + 4 < buf.Length
    modifies buf
    ensures n <= buf.Length && buf[..n] == old(buf[..at]) + One(c)
  {
    n := at;
    if Safe(c) {
      buf[n] := c;
      n := n + 1;
    } else {
      buf[n] := PERCENT;
      n := n + 1;
      buf[n] := HexDigit(c >> 4);
      buf[n + 1] := HexDigit(c & 15);
      buf[n + 2] := 0;
      n := n + 2;
    }
  }

  function Joined(a: seq<bv8>, r: Option<seq<bv8>>): Option<seq<bv8>> {
    if r.None? then None else Some(a + r.value)
  }

  lemma JoinedOneMore(a: seq<bv8>, b: bv8, r: Option<seq<bv8>>)
    ensures Joined(a, Prepend(b, r)) == Joined(a + [b], r)
  {
    if r.Some? {
      assert a + ([b] + r.value) == (a + [b]) + r.value;
    }
  }

  lemma JoinedEmpty(v: Option<seq<bv8>>)
    ensures Joined([], v) == v
  {
    if v.Some? { assert [] + v.value == v.value; }
  }

  /** Where the loop of the decoder ends. */
  lemma DecodedSoFar(src: seq<bv8>, form: bool, done: seq<bv8>, i: nat)
    requires i <= |src| && Decoded(src, form) == Joined(done, Decoded(src[i..], form))
    ensures i == |src| ==> Decoded(src, form) == Some(done)
    ensures i < |src| && Decoded(src, form).Some? ==> |Decoded(src, form).value| > |done|
  {
    if i == |src| { assert src[i..] == [] && done + [] == done; }
  }

  /** `mg_url_decode`: the length, or -1. */
  method Decode(src: seq<bv8>, dst: array<bv8>, form: bool) returns (r: int)
    modifies dst
    ensures var v := Decoded(src, form);
      if v.Some? && |v.value| < dst.Length then
        r == |v.value| && r < dst.Length && dst[..r] == v.value && dst[r] == 0
      else
        r == -1
  {
    var i, j := 0, 0;
    assert src[0..] == src;
    JoinedEmpty(Decoded(src, form));
    while i < |src| && j + 1 < dst.Length
      invariant i <= |src| && j <= dst.Length && (dst.Length > 0 ==> j < dst.Length)
      invariant Decoded(src, form) == Joined(dst[..j], Decoded(src[i..], form))
    {
      var b := src[i];
      if b == PERCENT {
        if !Escaped(src[i..]) {
          return -1;
        }
        b := Byte(src[i + 1], src[i + 2]);
        assert src[i..][3..] == src[i + 3..];
        i := i + 2;
      } else {
        if form && b == PLUS {
          b := SPACE;
        }
        assert src[i..][1..] == src[i + 1..];
      }
      JoinedOneMore(dst[..j], b, Decoded(src[i + 1..], form));
      dst[j] := b;
      i, j := i + 1, j + 1;
      assert dst[..j] == dst[..j - 1] + [b];
    }
    DecodedSoFar(src, form, dst[..j], i);
    if j < dst.Length {
      dst[j] := 0;
    }
    r := if i >= |src| && j < dst.Length then j else -1;
  }

  // ----- Character by character -----

  /** Characters left as they are: letters, digits, and `-`, `.`, `_`, `~` (section 2.3 of RFC 3986). */
  lemma SafeIff(c: bv8)
    ensures Safe(c) <==>
      var x := c as int;
      || 'A' as int <= x <= 'Z' as int || 'a' as int <= x <= 'z' as int || '0' as int <= x <= '9' as int
      || x == '-' as int || x == '.' as int || x == '_' as int || x == '~' as int
  {
  }

  /** The digits, in lower case when they are written. */
  lemma HexDigits(d: bv8)
    requires d < 16
    ensures HexDigit(d) as int == if d < 10 then '0' as int + d as int else 'a' as int + (d as int - 10)
  {
  }

  /** In either case when they are read, and nothing else is. */
  lemma HexRead(c: bv8)
    ensures var x := c as int;
      && ('0' as int <= x <= '9' as int ==> IsHexDigit(c) && Unhex(c) as int == x - '0' as int)
      && ('a' as int <= x <= 'f' as int ==> IsHexDigit(c) && Unhex(c) as int == x - 'a' as int + 10)
      && ('A' as int <= x <= 'F' as int ==> IsHexDigit(c) && Unhex(c) as int == x - 'A' as int + 10)
      && (IsHexDigit(c) ==> '0' as int <= x <= '9' as int || 'a' as int <= x <= 'f' as int ||
                              'A' as int <= x <= 'F' as int)
  {
  }

  /** A character that is not safe goes out as `%` and its two hex digits. */
  lemma OneWritten(c: bv8)
    ensures Safe(c) ==> Encoded([c]) == [c]
    ensures !Safe(c) ==> Encoded([c]) == [37, HexDigit(c / 16), HexDigit(c % 16)]
  {
    assert [c][..0] == [] && Encoded([]) == [];
  }

  /** What the decoder makes of each way a string can begin. */
  lemma OneRead(c: bv8, high: bv8, low: bv8, rest: seq<bv8>, form: bool)
    ensures c as int != '%' as int ==>
      Decoded([c] + rest, form) == Prepend(if form && c as int == '+' as int then 32 else c, Decoded(rest, form))
    ensures IsHexDigit(high) && IsHexDigit(low) ==>
      Decoded([37, high, low] + rest, form) == Prepend(16 * Unhex(high) + Unhex(low), Decoded(rest, form))
    ensures !(IsHexDigit(high) && IsHexDigit(low)) ==> Decoded([37, high, low] + rest, form) == None
    ensures Decoded([37, high], form) == None && Decoded([37], form) == None
  {
    assert ([c] + rest)[1..] == rest && ([37, high, low] + rest)[3..] == rest;
    if IsHexDigit(high) && IsHexDigit(low) {
      assert Byte(high, low) == 16 * Unhex(high) + Unhex(low);
    }
  }
}
