/** What happens on the I2C bus: the operations of a master in order, the transfer a
    list of messages calls for, and an observer that reads a trace by the rules of
    sections 3.1.4, 3.1.6 and 3.1.10 of UM10204. */
module I2cBus {
  import opened Octets

  /** `Ack` is the ninth bit as the master drives it (`nack` releases the line) and
      whether the controller finished in time; `Sense` reads the slave's answer. */
  datatype Op =
    | Start
    | Put(b: Octet)
    | Ack(nack: bool, inTime: bool)
    | Sense(acked: bool)
    | Fetch(v: Octet)
    | Stop

  datatype Msg = Msg(addr: nat, read: bool)

  predicate GoodMsg(m: Msg) {
    m.addr < 128
  }

  /** `i2c_8bit_addr_from_msg`. */
  function AddressByte(m: Msg): Octet
    requires GoodMsg(m)
  {
    m.addr * 2 + if m.read then 1 else 0
  }

  // ----- The transfer that messages call for -----

  function Head(m: Msg): seq<Op>
    requires GoodMsg(m)
  {
    [Start, Put(AddressByte(m)), Ack(true, true), Sense(true)]
  }

  /** One data byte. A master that reads acknowledges every byte but the last. */
  function ByteOps(read: bool, last: bool, b: Octet): (ops: seq<Op>)
    ensures |ops| == 3
  {
    if read then [Put(255), Ack(last, true), Fetch(b)] else [Put(b), Ack(true, true), Sense(true)]
  }

  /** The first `n` data bytes of a message over this buffer. */
  function BytesOps(read: bool, buf: Bytes, n: nat): seq<Op>
    requires n <= |buf|
  {
    if n == 0 then [] else BytesOps(read, buf, n - 1) + ByteOps(read, n == |buf|, buf[n - 1])
  }

  function MsgOps(m: Msg, buf: Bytes): seq<Op>
    requires GoodMsg(m)
  {
    Head(m) + BytesOps(m.read, buf, |buf|)
  }

  predicate GoodMsgs(msgs: seq<Msg>, bufs: seq<Bytes>) {
    |msgs| == |bufs| && forall k :: 0 <= k < |msgs| ==> GoodMsg(msgs[k])
  }

  /** The first `n` messages; each begins with a (repeated) START. */
  function Full(msgs: seq<Msg>, bufs: seq<Bytes>, n: nat): seq<Op>
    requires GoodMsgs(msgs, bufs) && n <= |msgs|
  {
    if n == 0 then [] else Full(msgs, bufs, n - 1) + MsgOps(msgs[n - 1], bufs[n - 1])
  }

  /** An operation that can fail, and its failed form. */
  predicate CanFail(op: Op) {
    op == Ack(true, true) || op == Ack(false, true) || op == Sense(true)
  }

  function Failed(op: Op): Op
    requires CanFail(op)
  {
    if op.Sense? then Sense(false) else op.(inTime := false)
  }

  /** `ops` follows `plan` up to one operation, which failed. */
  ghost predicate CutShort(ops: seq<Op>, plan: seq<Op>) {
    && 0 < |ops| <= |plan|
    && var k := |ops| - 1;
       CanFail(plan[k]) && ops == plan[..k] + [Failed(plan[k])]
  }

  /** Cut short, then exactly one STOP. */
  ghost predicate StoppedShort(ops: seq<Op>, plan: seq<Op>) {
    ops != [] && ops[|ops| - 1] == Stop && CutShort(ops[..|ops| - 1], plan)
  }

  lemma CutBehind(done: seq<Op>, ops: seq<Op>, plan: seq<Op>, more: seq<Op>)
    requires CutShort(ops, plan)
    ensures CutShort(done + ops, done + plan + more)
  {
    var k := |ops| - 1;
    assert (done + plan + more)[..|done| + k] == done + plan[..k];
  }

  lemma {:induction false} BytesOpsSame(read: bool, a: Bytes, b: Bytes, n: nat)
    requires |a| == |b| && n <= |a| && a[..n] == b[..n]
    ensures BytesOps(read, a, n) == BytesOps(read, b, n)
    decreases n
  {
    if n > 0 {
      assert a[..n][n - 1] == b[..n][n - 1] && a[..n - 1] == a[..n][..n - 1] && b[..n - 1] == b[..n][..n - 1];
      BytesOpsSame(read, a, b, n - 1);
    }
  }

  /** The operations of fewer bytes lead those of more. */
  lemma {:induction false} BytesOpsLead(read: bool, buf: Bytes, n: nat, m: nat)
    requires n <= m <= |buf|
    ensures BytesOps(read, buf, n) <= BytesOps(read, buf, m)
    decreases m - n
  {
    if n < m { BytesOpsLead(read, buf, n, m - 1); }
  }

  /** A byte cut short cuts the message short. */
  lemma CutInBytes(ops: seq<Op>, read: bool, buf: Bytes, n: nat)
    requires n < |buf| && CutShort(ops, ByteOps(read, n + 1 == |buf|, buf[n]))
    ensures CutShort(BytesOps(read, buf, n) + ops, BytesOps(read, buf, |buf|))
  {
    var done, plan, all := BytesOps(read, buf, n), ByteOps(read, n + 1 == |buf|, buf[n]), BytesOps(read, buf, |buf|);
    assert done + plan == BytesOps(read, buf, n + 1);
    BytesOpsLead(read, buf, n + 1, |buf|);
    var more := all[|done + plan|..];
    assert done + plan + more == all;
    CutBehind(done, ops, plan, more);
  }

  lemma {:induction false} FullLead(msgs: seq<Msg>, bufs: seq<Bytes>, n: nat, m: nat)
    requires GoodMsgs(msgs, bufs) && n <= m <= |msgs|
    ensures Full(msgs, bufs, n) <= Full(msgs, bufs, m)
    decreases m - n
  {
    if n < m { FullLead(msgs, bufs, n, m - 1); }
  }

  /** A full transfer around its message `i`. */
  lemma FullAround(msgs: seq<Msg>, bufs: seq<Bytes>, i: nat) returns (more: seq<Op>)
    requires GoodMsgs(msgs, bufs) && i < |msgs|
    ensures Full(msgs, bufs, i) + MsgOps(msgs[i], bufs[i]) + more == Full(msgs, bufs, |msgs|)
    ensures i == |msgs| - 1 ==> more == []
  {
    FullLead(msgs, bufs, i + 1, |msgs|);
    more := Full(msgs, bufs, |msgs|)[|Full(msgs, bufs, i + 1)|..];
  }

  lemma {:induction false} FullSame(msgs: seq<Msg>, a: seq<Bytes>, b: seq<Bytes>, n: nat)
    requires GoodMsgs(msgs, a) && GoodMsgs(msgs, b) && n <= |msgs|
    requires forall k :: 0 <= k < n ==> a[k] == b[k]
    ensures Full(msgs, a, n) == Full(msgs, b, n)
    decreases n
  {
    if n > 0 { FullSame(msgs, a, b, n - 1); }
  }

  /** Where everything stands in the operations of a message: START, the address and direction
      bit, its answer, and three operations for every byte. */
  lemma {:induction false} BytesLayout(read: bool, buf: Bytes, n: nat, k: nat)
    requires k < n <= |buf|
    ensures var ops := BytesOps(read, buf, n);
      && |ops| == 3 * n
      && ops[3 * k] == Put(if read then 255 else buf[k])
      && ops[3 * k + 1] == Ack(!read || k == |buf| - 1, true)
      && ops[3 * k + 2] == if read then Fetch(buf[k]) else Sense(true)
    decreases n
  {
    if k < n - 1 {
      BytesLayout(read, buf, n - 1, k);
    } else if n > 1 {
      BytesLayout(read, buf, n - 1, 0);
    }
  }

  lemma MsgLayout(m: Msg, buf: Bytes)
    requires GoodMsg(m)
    ensures var ops := MsgOps(m, buf);
      && |ops| == 4 + 3 * |buf|
      && ops[0] == Start && ops[1] == Put(2 * m.addr + if m.read then 1 else 0)
      && ops[2] == Ack(true, true) && ops[3] == Sense(true)
      && forall k :: 0 <= k < |buf| ==>
        && ops[4 + 3 * k] == Put(if m.read then 255 else buf[k])
        && ops[5 + 3 * k] == Ack(!m.read || k == |buf| - 1, true)
        && ops[6 + 3 * k] == if m.read then Fetch(buf[k]) else Sense(true)
  {
    if buf != [] { BytesLayout(m.read, buf, |buf|, 0); }
    forall k | 0 <= k < |buf|
      ensures 4 + 3 * k + 2 < |MsgOps(m, buf)|
      ensures MsgOps(m, buf)[4 + 3 * k] == Put(if m.read then 255 else buf[k])
      ensures MsgOps(m, buf)[5 + 3 * k] == Ack(!m.read || k == |buf| - 1, true)
      ensures MsgOps(m, buf)[6 + 3 * k] == if m.read then Fetch(buf[k]) else Sense(true)
    {
      BytesLayout(m.read, buf, |buf|, k);
    }
  }

  // ----- An observer of the bus -----

  /** What a message looks like on the bus: its address byte and its data. */
  datatype Frame = Frame(address: Octet, data: Bytes)

  datatype Phase =
    | Idle
    | Started
    | AddressSent
    | AddressReleased
    | Writing
    | DataSent(b: Octet)
    | DataReleased(b: Octet)
    | Reading(another: bool)
    | ReadClocked
    | ReadAcked(nack: bool)
    | ReadDone
    | Broken

  /** `Violation` is absorbing: no rule of the bus allows the trace. */
  datatype View = View(frames: seq<Frame>, phase: Phase) | Violation

  function AddByte(fs: seq<Frame>, b: Octet): seq<Frame> {
    if fs == [] then [] else fs[..|fs| - 1] + [fs[|fs| - 1].(data := fs[|fs| - 1].data + [b])]
  }

  predicate IsRead(fs: seq<Frame>) {
    fs != [] && fs[|fs| - 1].address % 2 == 1
  }

  /** START and STOP stand between messages: after a whole byte, and when reading
      only before the first byte or after the one that was not acknowledged. */
  function Turn(fs: seq<Frame>, op: Op): View {
    if op == Start then View(fs, Started) else if op == Stop then View(fs, Idle) else Violation
  }

  /** The bus rules, operation by operation. The line is released for the slave's
      answer; a byte counts once it was acknowledged or, when reading, fetched; an
      acknowledged read byte is followed by another; after a failure only STOP follows. */
  function See(v: View, op: Op): View {
    if v.Violation? then Violation
    else
      var fs := v.frames;
      match v.phase
      case Idle => if op == Start then View(fs, Started) else Violation
      case Started => if op.Put? then View(fs + [Frame(op.b, [])], AddressSent) else Violation
      case AddressSent =>
        if !op.Ack? || !op.nack then Violation
        else View(fs, if op.inTime then AddressReleased else Broken)
      case AddressReleased =>
        if !op.Sense? then Violation
        else View(fs, if !op.acked then Broken else if IsRead(fs) then Reading(false) else Writing)
      case Writing => if op.Put? then View(fs, DataSent(op.b)) else Turn(fs, op)
      case DataSent(b) =>
        if !op.Ack? || !op.nack then Violation
        else View(fs, if op.inTime then DataReleased(b) else Broken)
      case DataReleased(b) =>
        if !op.Sense? then Violation
        else if op.acked then View(AddByte(fs, b), Writing)
        else View(fs, Broken)
      case Reading(another) =>
        if op == Put(255) then View(fs, ReadClocked)
        else if another then Violation
        else Turn(fs, op)
      case ReadClocked =>
        if op.Ack? then View(fs, if op.inTime then ReadAcked(op.nack) else Broken) else Violation
      case ReadAcked(nack) =>
        if op.Fetch? then View(AddByte(fs, op.v), if nack then ReadDone else Reading(true)) else Violation
      case ReadDone => Turn(fs, op)
      case Broken => if op == Stop then View(fs, Idle) else Violation
  }

  function Observe(v: View, ops: seq<Op>): View
    decreases |ops|
  {
    if ops == [] then v else Observe(See(v, ops[0]), ops[1..])
  }

  const QUIET := View([], Idle)

  lemma {:induction false} ObserveMore(v: View, a: seq<Op>, b: seq<Op>)
    ensures Observe(v, a + b) == Observe(Observe(v, a), b)
    decreases |a|
  {
    if a == [] {
      assert a + b == b;
    } else {
      assert (a + b)[1..] == a[1..] + b;
      ObserveMore(See(v, a[0]), a[1..], b);
    }
  }

  lemma {:induction false} ViolationStays(ops: seq<Op>)
    ensures Observe(Violation, ops) == Violation
    decreases |ops|
  {
    if ops != [] { ViolationStays(ops[1..]); }
  }

  lemma Observe3(v: View, a: Op, b: Op, c: Op)
    ensures Observe(v, [a, b, c]) == See(See(See(v, a), b), c)
  {
    assert [a, b, c][1..] == [b, c] && [b, c][1..] == [c] && [c][1..] == [];
    assert Observe(v, [a, b, c]) == Observe(See(v, a), [b, c]);
    assert Observe(See(v, a), [b, c]) == Observe(See(See(v, a), b), [c]);
    assert Observe(See(See(v, a), b), [c]) == Observe(See(See(See(v, a), b), c), []);
  }

  // ----- A full transfer is read back as the messages -----

  /** Where the bus is after `n` of the bytes of a message. */
  function PhaseAfter(read: bool, n: nat, len: nat): Phase {
    if !read then Writing else if n > 0 && n == len then ReadDone else Reading(n > 0)
  }

  predicate AtRest(p: Phase) {
    p.Idle? || p.Writing? || p == Reading(false) || p.ReadDone?
  }

  lemma ByteSeen(fs: seq<Frame>, m: Msg, buf: Bytes, n: nat)
    requires GoodMsg(m) && 0 < n <= |buf|
    ensures Observe(View(fs + [Frame(AddressByte(m), buf[..n - 1])], PhaseAfter(m.read, n - 1, |buf|)),
                    ByteOps(m.read, n == |buf|, buf[n - 1]))
         == View(fs + [Frame(AddressByte(m), buf[..n])], PhaseAfter(m.read, n, |buf|))
  {
    var v := View(fs + [Frame(AddressByte(m), buf[..n - 1])], PhaseAfter(m.read, n - 1, |buf|));
    var ops := ByteOps(m.read, n == |buf|, buf[n - 1]);
    Observe3(v, ops[0], ops[1], ops[2]);
    assert ops == [ops[0], ops[1], ops[2]];
    ByteAdded(fs, AddressByte(m), buf, n);
  }

  lemma {:induction false} BytesSeen(fs: seq<Frame>, m: Msg, buf: Bytes, n: nat)
    requires GoodMsg(m) && n <= |buf|
    ensures Observe(View(fs + [Frame(AddressByte(m), [])], PhaseAfter(m.read, 0, |buf|)), BytesOps(m.read, buf, n))
         == View(fs + [Frame(AddressByte(m), buf[..n])], PhaseAfter(m.read, n, |buf|))
    decreases n
  {
    if n > 0 {
      var v0 := View(fs + [Frame(AddressByte(m), [])], PhaseAfter(m.read, 0, |buf|));
      BytesSeen(fs, m, buf, n - 1);
      ObserveMore(v0, BytesOps(m.read, buf, n - 1), ByteOps(m.read, n == |buf|, buf[n - 1]));
      ByteSeen(fs, m, buf, n);
    }
  }

  lemma ByteAdded(fs: seq<Frame>, a: Octet, buf: Bytes, n: nat)
    requires 0 < n <= |buf|
    ensures AddByte(fs + [Frame(a, buf[..n - 1])], buf[n - 1]) == fs + [Frame(a, buf[..n])]
  {
    assert buf[..n - 1] + [buf[n - 1]] == buf[..n];
    assert (fs + [Frame(a, buf[..n - 1])])[..|fs|] == fs;
  }

  lemma MsgSeen(v: View, m: Msg, buf: Bytes)
    requires GoodMsg(m) && v.View? && AtRest(v.phase)
    ensures Observe(v, MsgOps(m, buf))
         == View(v.frames + [Frame(AddressByte(m), buf)], PhaseAfter(m.read, |buf|, |buf|))
  {
    var h := Head(m);
    ObserveMore(v, h, BytesOps(m.read, buf, |buf|));
    HeadSeen(v, m);
    BytesSeen(v.frames, m, buf, |buf|);
    assert buf[..|buf|] == buf;
  }

  lemma HeadSeen(v: View, m: Msg)
    requires GoodMsg(m) && v.View? && AtRest(v.phase)
    ensures Observe(v, Head(m)) == View(v.frames + [Frame(AddressByte(m), [])], PhaseAfter(m.read, 0, 0))
  {
    var h, v1 := Head(m), View(v.frames, Started);
    assert See(v, Start) == v1;
    assert h[1..] == [h[1], h[2], h[3]];
    Observe3(v1, h[1], h[2], h[3]);
    assert AddressByte(m) % 2 == 1 <==> m.read;
  }

  function Frames(msgs: seq<Msg>, bufs: seq<Bytes>, n: nat): seq<Frame>
    requires GoodMsgs(msgs, bufs) && n <= |msgs|
  {
    if n == 0 then [] else Frames(msgs, bufs, n - 1) + [Frame(AddressByte(msgs[n - 1]), bufs[n - 1])]
  }

  /** A frame is that of a message: seven address bits, the direction bit, the data. */
  predicate Carries(f: Frame, m: Msg, buf: Bytes) {
    f.address / 2 == m.addr && (f.address % 2 == 1 <==> m.read) && f.data == buf
  }

  ghost predicate AllCarried(fs: seq<Frame>, msgs: seq<Msg>, bufs: seq<Bytes>, n: nat) {
    && |fs| == n <= |msgs| && n <= |bufs|
    && forall k :: 0 <= k < n ==> Carries(fs[k], msgs[k], bufs[k])
  }

  lemma {:induction false} FramesCarry(msgs: seq<Msg>, bufs: seq<Bytes>, n: nat)
    requires GoodMsgs(msgs, bufs) && n <= |msgs|
    ensures AllCarried(Frames(msgs, bufs, n), msgs, bufs, n)
    decreases n
  {
    if n > 0 {
      FramesCarry(msgs, bufs, n - 1);
    }
  }

  /** The trace of a full transfer obeys the rules and carries exactly the messages. */
  lemma {:induction false} FullSeen(msgs: seq<Msg>, bufs: seq<Bytes>, n: nat)
    requires GoodMsgs(msgs, bufs) && n <= |msgs|
    ensures var v := Observe(QUIET, Full(msgs, bufs, n));
            v.View? && v.frames == Frames(msgs, bufs, n) && AllCarried(v.frames, msgs, bufs, n)
            && AtRest(v.phase) && (n > 0 ==> !v.phase.Idle?)
    decreases n
  {
    FramesCarry(msgs, bufs, n);
    if n > 0 {
      FullSeen(msgs, bufs, n - 1);
      ObserveMore(QUIET, Full(msgs, bufs, n - 1), MsgOps(msgs[n - 1], bufs[n - 1]));
      MsgSeen(Observe(QUIET, Full(msgs, bufs, n - 1)), msgs[n - 1], bufs[n - 1]);
    }
  }

  /** With STOP behind it the bus is idle again. */
  lemma FullThenStop(msgs: seq<Msg>, bufs: seq<Bytes>)
    requires GoodMsgs(msgs, bufs) && msgs != []
    ensures Observe(QUIET, Full(msgs, bufs, |msgs|) + [Stop]) == View(Frames(msgs, bufs, |msgs|), Idle)
  {
    var n := |msgs|;
    FullSeen(msgs, bufs, n);
    var v := Observe(QUIET, Full(msgs, bufs, n));
    ObserveMore(QUIET, Full(msgs, bufs, n), [Stop]);
    assert [Stop][1..] == [];
    assert Observe(v, [Stop]) == Observe(See(v, Stop), []);
  }

  // ----- A transfer cut short -----

  /** The frames of `fs` again, the last perhaps longer, and perhaps more. */
  predicate Extends(gs: seq<Frame>, fs: seq<Frame>) {
    && |fs| <= |gs|
    && forall k :: 0 <= k < |fs| ==>
         gs[k].address == fs[k].address && if k < |fs| - 1 then gs[k].data == fs[k].data else fs[k].data <= gs[k].data
  }

  lemma {:induction false} ObserveExtends(v: View, ops: seq<Op>)
    requires Observe(v, ops).View?
    ensures v.View? && Extends(Observe(v, ops).frames, v.frames)
    decreases |ops|
  {
    if v.Violation? { ViolationStays(ops); }
    if ops != [] { ObserveExtends(See(v, ops[0]), ops[1..]); }
  }

  /** Whatever operation fails: the trace with its STOP obeys the rules, the bus is
      idle again, and what was carried is the beginning of what the plan carries. */
  lemma CutThenStop(ops: seq<Op>, plan: seq<Op>)
    requires CutShort(ops, plan) && Observe(QUIET, plan).View?
    ensures var v := Observe(QUIET, ops + [Stop]);
            v.View? && v.phase == Idle && Extends(Observe(QUIET, plan).frames, v.frames)
  {
    var k := |ops| - 1;
    var v := Observe(QUIET, plan[..k]);
    assert plan == plan[..k] + plan[k..];
    ObserveMore(QUIET, plan[..k], plan[k..]);
    ObserveExtends(v, plan[k..]);
    ObserveExtends(See(v, plan[k]), plan[k..][1..]);
    ObserveMore(QUIET, plan[..k], [Failed(plan[k]), Stop]);
    assert ops + [Stop] == plan[..k] + [Failed(plan[k]), Stop];
    assert [Failed(plan[k]), Stop][1..] == [Stop] && [Stop][1..] == [];
    assert Observe(v, [Failed(plan[k]), Stop]) == See(See(v, Failed(plan[k])), Stop);
  }
}
