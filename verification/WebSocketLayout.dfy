/** Frames byte by byte, as section 5.2 of RFC 6455 draws them. */
module WebSocketLayout {
  import opened Octets
  import opened WebSocket

  /** Where the length field of a frame ends. */
  function LengthEnd(n: nat): (end: nat)
    ensures 2 <= end <= 10
  {
    if n < 126 then 2 else if n < 65536 then 4 else 10
  }

  /** `first` and the bytes behind it are the length field for `n`, in the shortest form. */
  predicate Announces(first: nat, field: Bytes, n: nat) {
    if n < 126 then first == n && field == []
    else if n < 65536 then first == 126 && |field| == 2 && Two(field[0], field[1]) == n
    else
      && first == 127 && |field| == 8
      && Quad(field[0], field[1], field[2], field[3]) * 0x1_0000_0000
       + Quad(field[4], field[5], field[6], field[7]) == n
  }

  lemma LengthWritten(n: nat)
    requires n < SIZE
    ensures |LengthField(n)| == LengthEnd(n) - 1 && Announces(LengthField(n)[0], LengthField(n)[1..], n)
  {
    if n < 126 {
      Behind(n, []);
      assert LengthField(n) == [n] + [];
    } else if n < 65536 {
      MediumWritten(n, Put16(n));
      Behind(126, Put16(n));
    } else {
      LongField(n);
    }
  }

  lemma LongField(n: nat)
    requires 65536 <= n < SIZE
    ensures |LengthField(n)| == 9 && Announces(LengthField(n)[0], LengthField(n)[1..], n)
  {
    var high, low := n / LOW32, n % LOW32;
    LongWritten(n, high, low);
    Behind(127, Put32(high) + Put32(low));
    assert [127] + Put32(high) + Put32(low) == [127] + (Put32(high) + Put32(low));
  }

  lemma Behind(first: Octet, b: Bytes)
    ensures ([first] + b)[0] == first && ([first] + b)[1..] == b
  {
  }

  lemma MediumWritten(n: nat, b: Bytes)
    requires 126 <= n < 65536 && b == Put16(n)
    ensures Announces(126, b, n)
  {
    WholeHalf(n);
  }

  lemma LongWritten(n: nat, high: nat, low: nat)
    requires n == high * LOW32 + low && high < LOW32 && low < LOW32 && 65536 <= n
    ensures Announces(127, Put32(high) + Put32(low), n)
  {
    WholeWord(high);
    WholeWord(low);
    var a, b := Put32(high), Put32(low);
    var f := a + b;
    assert f[0] == a[0] && f[1] == a[1] && f[2] == a[2] && f[3] == a[3];
    assert f[4] == b[0] && f[5] == b[1] && f[6] == b[2] && f[7] == b[3];
  }

  lemma LeadLayout(op: Octet, role: Role, n: nat)
    requires n < SIZE && GoodRole(role)
    ensures var b, end := Lead(op, role, n), LengthEnd(n);
      && |b| == (if role.Client? then end + 4 else end)
      && b[0] == (if op < 128 then op + 128 else op)
      && (b[1] >= 128 <==> role.Client?)
      && Announces(b[1] % 128, b[2..end], n)
      && (role.Client? ==> b[end..] == role.mask)
  {
    var len, b, end := LengthField(n), Lead(op, role, n), LengthEnd(n);
    LengthWritten(n);
    if role.Client? {
      assert b[1] == 128 + len[0] && b[2..end] == len[1..] && b[end..] == role.mask;
    } else {
      assert b[1] == len[0] && b[2..end] == len[1..];
    }
  }

  /** Bit for bit the payload with the mask over it. */
  predicate MaskedBitwise(body: Bytes, p: Bytes, mask: Bytes) {
    && |body| == |p| && |mask| == 4
    && forall i, k :: 0 <= i < |p| && 0 <= k < 8 ==>
         (Bit(body[i], k) == 1 <==> Bit(p[i], k) != Bit(mask[i % 4], k))
  }

  lemma MaskIsBitwise(p: Bytes, mask: Bytes)
    requires |mask| == 4
    ensures MaskedBitwise(Masked(p, mask), p, mask)
  {
    forall i, k | 0 <= i < |p| && 0 <= k < 8
      ensures Bit(Masked(p, mask)[i], k) == 1 <==> Bit(p[i], k) != Bit(mask[i % 4], k)
    {
      XorIsBitwise(p[i], mask[i % 4], k);
    }
  }

  /** The two header bytes, the length in the shortest of its three forms, a client's mask, and
      the payload, which a client sends with the mask over it, bit by bit. */
  lemma FrameLayout(op: Octet, role: Role, p: Bytes)
    requires |p| < SIZE && GoodRole(role)
    ensures var f, end := Frame(op, role, p), LengthEnd(|p|);
      var start := if role.Client? then end + 4 else end;
      && |f| == start + |p|
      && f[0] == (if op < 128 then op + 128 else op)
      && (f[1] >= 128 <==> role.Client?)
      && Announces(f[1] % 128, f[2..end], |p|)
      && (role.Client? ==> f[end..start] == role.mask)
      && (role.Server? ==> f[start..] == p)
      && (role.Client? ==> MaskedBitwise(f[start..], p, role.mask))
  {
    var lead, body, end := Lead(op, role, |p|), Body(role, p), LengthEnd(|p|);
    LeadLayout(op, role, |p|);
    BehindLead(lead, body, end);
    if role.Client? { MaskIsBitwise(p, role.mask); }
  }

  lemma BehindLead(lead: Bytes, body: Bytes, end: nat)
    requires 2 <= end <= |lead|
    ensures var f := lead + body;
      f[0] == lead[0] && f[1] == lead[1] && f[2..end] == lead[2..end]
      && f[end..|lead|] == lead[end..] && f[|lead|..] == body
  {
  }

  lemma ExampleBytes()
    ensures Xor(0x48, 0x37) == 0x7f && Xor(0x65, 0xfa) == 0x9f && Xor(0x6c, 0x21) == 0x4d
    ensures Xor(0x6c, 0x3d) == 0x51 && Xor(0x6f, 0x37) == 0x58
  {
  }

  lemma MaskOfFive(a: Octet, b: Octet, c: Octet, d: Octet, e: Octet, m: Octet, n: Octet, o: Octet, p: Octet)
    ensures Masked([a, b, c, d, e], [m, n, o, p]) == [Xor(a, m), Xor(b, n), Xor(c, o), Xor(d, p), Xor(e, m)]
  {
  }

  lemma ExampleLeads(mask: Bytes)
    requires |mask| == 4
    ensures Lead(1, Server, 5) == [0x81, 0x05] && Lead(1, Client(mask), 5) == [0x81, 0x85] + mask
  {
    assert LengthField(5) == [5] && [5][1..] == [];
    assert WithFin(1) == 0x81;
  }

  /** The examples of section 5.7 of RFC 6455. */
  lemma Examples()
    ensures Frame(1, Server, [0x48, 0x65, 0x6c, 0x6c, 0x6f]) == [0x81, 0x05, 0x48, 0x65, 0x6c, 0x6c, 0x6f]
    ensures Frame(1, Client([0x37, 0xfa, 0x21, 0x3d]), [0x48, 0x65, 0x6c, 0x6c, 0x6f])
         == [0x81, 0x85, 0x37, 0xfa, 0x21, 0x3d, 0x7f, 0x9f, 0x4d, 0x51, 0x58]
  {
    ExampleBytes();
    ExampleLeads([0x37, 0xfa, 0x21, 0x3d]);
    MaskOfFive(0x48, 0x65, 0x6c, 0x6c, 0x6f, 0x37, 0xfa, 0x21, 0x3d);
  }

  /** What the header in front of a buffer announces; nothing as long as it is not complete. Of
      eight length bytes only the last four count. */
  lemma HeaderLayout(b: Bytes)
    requires |b| >= 2
    ensures var n, mask := b[1] % 128, if b[1] >= 128 then 4 else 0;
      Header(b) ==
        if n < 126 && |b| >= mask then Msg(b[0], 2 + mask, n)
        else if n == 126 && |b| >= 4 + mask then Msg(b[0], 4 + mask, Two(b[2], b[3]))
        else if |b| >= 10 + mask then
          Msg(b[0], 10 + mask, Quad(b[6], b[7], b[8], b[9]))
        else Msg(b[0], 0, 0)
  {
  }

  /** Of a list of messages all those in front of the first with opcode 8 are delivered, and
      that one, each with its payload. */
  lemma {:induction false} DeliveredUpToClose(msgs: seq<Sent>, k: nat)
    requires k <= |msgs| && (forall i :: 0 <= i < k ==> msgs[i].op % 16 != 8)
    requires k < |msgs| ==> msgs[k].op % 16 == 8
    ensures var es := UpToClose(msgs);
      && |es| == (if k < |msgs| then k + 1 else k)
      && forall i :: 0 <= i < |es| ==> es[i].payload == msgs[i].payload && es[i].flags % 128 == msgs[i].op % 128
    decreases |msgs|
  {
    if msgs != [] {
      var more := msgs[1..];
      assert IsClose(Meant(msgs[0].op, msgs[0].payload)) <==> msgs[0].op % 16 == 8;
      if k > 0 { DeliveredUpToClose(more, k - 1); }
    }
  }
}
