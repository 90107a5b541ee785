/** The master transfer of the Efinix I2C driver: `efx_i2c_xfer` and what it calls.
    The controller answers as it likes; whatever it answers, the bus trace is right. */
module I2cDriver {
  import opened Octets
  import opened I2cBus

  const EIO: int := 5
  const EBUSY: int := 16
  const ETIMEDOUT: int := 110

  /** The error a failed operation is reported as. */
  function ErrorOf(op: Op): int {
    if op.Ack? then -ETIMEDOUT else -EIO
  }

  /** The operations of a step: all of them, or the first ones and a failure. */
  ghost predicate Did(now: seq<Op>, before: seq<Op>, plan: seq<Op>, ret: int) {
    && before <= now
    && if ret == 0 then now == before + plan
       else CutShort(now[|before|..], plan) && ret == ErrorOf(now[|now| - 1])
  }

  /** A step seen from further back. */
  lemma DidFrom(now: seq<Op>, before: seq<Op>, done: seq<Op>, plan: seq<Op>, ret: int)
    requires Did(now, before + done, plan, ret)
    ensures ret == 0 ==> now == before + (done + plan)
    ensures ret != 0 ==> before <= now && now[|before|..] == done + now[|before + done|..]
  {
    if ret != 0 { assert now == before + done + now[|before + done|..]; }
  }

  /** A step that comes behind what is done, in a plan that goes on. */
  lemma DidWithin(now: seq<Op>, before: seq<Op>, done: seq<Op>, plan: seq<Op>, more: seq<Op>, ret: int)
    requires Did(now, before + done, plan, ret)
    ensures ret == 0 ==> now == before + (done + plan)
    ensures ret != 0 ==> Did(now, before, done + plan + more, ret)
  {
    DidFrom(now, before, done, plan, ret);
    if ret != 0 { CutBehind(done, now[|before + done|..], plan, more); }
  }

  /** The operations up to a failure, and exactly one STOP. */
  ghost predicate Broke(now: seq<Op>, before: seq<Op>, plan: seq<Op>, ret: int) {
    && before <= now && StoppedShort(now[|before|..], plan)
    && |before| + 2 <= |now| && ret == ErrorOf(now[|now| - 2])
  }

  /** What a message leaves on the bus: everything it calls for, and STOP when it is
      the last; or a broken transfer; or, when the bus is not busy at the end of the
      last message, everything but no STOP. */
  ghost predicate MsgDone(now: seq<Op>, before: seq<Op>, plan: seq<Op>, isLast: bool, ret: int) {
    if ret == 0 then now == before + plan + if isLast then [Stop] else []
    else
      || Broke(now, before, plan, ret)
      || (isLast && ret == -EIO && now == before + plan)
  }

  /** How a transfer that does not go through ends. */
  ghost predicate Ended(now: seq<Op>, start: seq<Op>, plan: seq<Op>, ret: int) {
    || (ret == -EBUSY && now == start)
    || Broke(now, start, plan, ret)
    || (ret == -EIO && now == start + plan)
  }

  /** The first `n` messages, with STOP behind the last. */
  function Through(msgs: seq<Msg>, bufs: seq<Bytes>, n: nat): seq<Op>
    requires GoodMsgs(msgs, bufs) && n <= |msgs|
  {
    if 0 < n == |msgs| then Full(msgs, bufs, n) + [Stop] else Full(msgs, bufs, n)
  }

  lemma MsgAdded(now: seq<Op>, start: seq<Op>, msgs: seq<Msg>, bufs: seq<Bytes>, i: nat)
    requires GoodMsgs(msgs, bufs) && i < |msgs|
    requires now == start + Full(msgs, bufs, i) + MsgOps(msgs[i], bufs[i]) + if i == |msgs| - 1 then [Stop] else []
    ensures now == start + Through(msgs, bufs, i + 1)
  {
    Grouped(start, Full(msgs, bufs, i), MsgOps(msgs[i], bufs[i]));
  }

  lemma Grouped(start: seq<Op>, done: seq<Op>, ops: seq<Op>)
    ensures start + done + ops + [] == start + (done + ops)
    ensures start + done + ops + [Stop] == start + (done + ops + [Stop])
  {
  }

  lemma BrokeBehind(now: seq<Op>, start: seq<Op>, done: seq<Op>, plan: seq<Op>, more: seq<Op>, ret: int)
    requires Broke(now, start + done, plan, ret)
    ensures Broke(now, start, done + plan + more, ret)
  {
    var ops := now[|start + done|..];
    var cut := ops[..|ops| - 1];
    assert ops == cut + [Stop] && now == start + done + ops;
    assert now == start + (done + cut + [Stop]);
    CutBehind(done, cut, plan, more);
    StopBehind(start, done + cut, now);
  }

  lemma StopBehind(start: seq<Op>, ops: seq<Op>, now: seq<Op>)
    requires now == start + (ops + [Stop])
    ensures start <= now && now[|start|..] == ops + [Stop] && (ops + [Stop])[..|ops|] == ops
  {
  }

  /** A message that did not go through ends the whole transfer in the same way. */
  lemma Conclude(now: seq<Op>, start: seq<Op>, done: seq<Op>, plan: seq<Op>, more: seq<Op>, isLast: bool, ret: int)
    requires ret != 0 && MsgDone(now, start + done, plan, isLast, ret) && (isLast ==> more == [])
    ensures Broke(now, start, done + plan + more, ret) || (isLast && ret == -EIO && now == start + (done + plan + more))
  {
    if Broke(now, start + done, plan, ret) {
      BrokeBehind(now, start, done, plan, more, ret);
    } else {
      assert start + done + plan == start + (done + plan + more);
    }
  }

  /** What broke is not the plan in full, with STOP or without. */
  lemma BrokeIsNotDone(now: seq<Op>, before: seq<Op>, plan: seq<Op>, ret: int)
    requires Broke(now, before, plan, ret) && plan[|plan| - 1] != Stop
    ensures now != before + plan && now != before + plan + [Stop]
    ensures ret == -ETIMEDOUT || ret == -EIO
  {
    var ops := now[|before|..];
    var cut := ops[..|ops| - 1];
    assert now == before + ops && ops == cut + [Stop];
    assert cut != plan by {
      if |cut| == |plan| { assert cut[|cut| - 1] != plan[|cut| - 1]; }
    }
    assert (before + plan)[|before|..] == plan;
    assert (before + plan + [Stop])[|before|..] == plan + [Stop] && (plan + [Stop])[..|plan|] == plan;
    BrokenTells(now, before, plan, ret);
  }

  lemma MsgEndsOpen(m: Msg, buf: Bytes)
    requires GoodMsg(m)
    ensures var plan := MsgOps(m, buf); plan != [] && plan[|plan| - 1] != Stop
  {
    MsgLayout(m, buf);
    if buf != [] { assert MsgOps(m, buf)[6 + 3 * (|buf| - 1)] != Stop; }
  }

  lemma FullEndsOpen(msgs: seq<Msg>, bufs: seq<Bytes>)
    requires GoodMsgs(msgs, bufs) && msgs != []
    ensures var plan := Full(msgs, bufs, |msgs|); plan != [] && plan[|plan| - 1] != Stop
  {
    MsgEndsOpen(msgs[|msgs| - 1], bufs[|msgs| - 1]);
  }

  lemma HeadOf(a: Octet)
    ensures [Start] + [Put(a), Ack(true, true), Sense(true)] == [Start, Put(a), Ack(true, true), Sense(true)]
    ensures [Start] + [Put(a), Ack(true, true), Sense(true)] + [] == [Start, Put(a), Ack(true, true), Sense(true)]
  {
  }

  /** The same with the plan given as one. */
  lemma DidIn(now: seq<Op>, before: seq<Op>, done: seq<Op>, plan: seq<Op>, more: seq<Op>, all: seq<Op>, ret: int)
    requires Did(now, before + done, plan, ret) && all == done + plan + more && (ret == 0 ==> more == [])
    ensures Did(now, before, all, ret)
  {
    DidWithin(now, before, done, plan, more, ret);
    if ret == 0 { assert done + plan + more == done + plan; }
  }

  /** What the status registers say, read by read: any four functions of time. */
  datatype Controller = Controller(busy: nat -> bool, inTime: nat -> bool, acked: nat -> bool, data: nat -> Octet)

  /** How often the controller was asked in the course of these operations. */
  function Asked(ops: seq<Op>): nat {
    if ops == [] then 0
    else
      var op := ops[|ops| - 1];
      Asked(ops[..|ops| - 1]) + if op.Ack? || op.Sense? || op.Fetch? then 1 else 0
  }

  /** Every answer recorded is what the controller said, read by read from time `from` on. */
  ghost predicate Heard(c: Controller, from: nat, ops: seq<Op>) {
    ops == [] ||
    var front, op := ops[..|ops| - 1], ops[|ops| - 1];
    var t := from + Asked(front);
    && Heard(c, from, front)
    && match op
       case Ack(_, inTime) => inTime == c.inTime(t)
       case Sense(acked) => acked == c.acked(t)
       case Fetch(v) => v == c.data(t)
       case _ => true
  }

  /** Once everything up to `full` was done, the controller was asked whether the bus is busy, and
      its answer decided between STOP and an error. */
  ghost predicate Decided(c: Controller, now: seq<Op>, base: seq<Op>, since: nat, full: seq<Op>, ret: int) {
    (now == full || now == full + [Stop]) ==>
      base <= full && ret == if c.busy(since + Asked(full[|base|..])) then 0 else -EIO
  }

  /** A message with the plan `plan` of a transfer with the plan `full` is over: the transfer goes
      on, or it is over too. */
  lemma Turned(c: Controller, now: seq<Op>, base: seq<Op>, since: nat, start: seq<Op>, done: seq<Op>,
               plan: seq<Op>, more: seq<Op>, full: seq<Op>, isLast: bool, ret: int)
    requires MsgDone(now, start + done, plan, isLast, ret)
    requires full == done + plan + more && full != [] && full[|full| - 1] != Stop && (isLast ==> more == [])
    requires isLast ==> Decided(c, now, base, since, start + done + plan, ret)
    ensures ret != 0 ==> Ended(now, start, full, ret)
    ensures ret != 0 || isLast ==> Decided(c, now, base, since, start + full, ret)
  {
    if isLast { assert start + done + plan == start + full; }
    if ret != 0 {
      Conclude(now, start, done, plan, more, isLast, ret);
      if !isLast { BrokeIsNotDone(now, start, full, ret); }
    }
  }

  /** One message more, or the end of the transfer. */
  lemma MsgTurned(c: Controller, now: seq<Op>, base: seq<Op>, since: nat, start: seq<Op>, msgs: seq<Msg>,
                  bufs: seq<Bytes>, i: nat, ret: int)
    requires GoodMsgs(msgs, bufs) && i < |msgs|
    requires MsgDone(now, start + Full(msgs, bufs, i), MsgOps(msgs[i], bufs[i]), i == |msgs| - 1, ret)
    requires i == |msgs| - 1 ==>
      Decided(c, now, base, since, start + Full(msgs, bufs, i) + MsgOps(msgs[i], bufs[i]), ret)
    ensures ret == 0 ==> now == start + Through(msgs, bufs, i + 1)
    ensures ret != 0 ==> Ended(now, start, Full(msgs, bufs, |msgs|), ret)
    ensures ret != 0 || i == |msgs| - 1 ==> Decided(c, now, base, since, start + Full(msgs, bufs, |msgs|), ret)
  {
    if ret == 0 { MsgAdded(now, start, msgs, bufs, i); }
    var more := FullAround(msgs, bufs, i);
    FullEndsOpen(msgs, bufs);
    Turned(c, now, base, since, start, Full(msgs, bufs, i), MsgOps(msgs[i], bufs[i]), more,
           Full(msgs, bufs, |msgs|), i == |msgs| - 1, ret);
  }

  /** What the controller's answers have to do with the outcome: the bus was busy at the beginning
      exactly when nothing was done; every answer on the trace is the controller's; and where
      all messages went through, it decided between STOP and an error. */
  ghost predicate Answered(c: Controller, now: seq<Op>, plan: seq<Op>, begun: nat, n: nat, ret: int) {
    && (ret == -EBUSY <==> c.busy(begun))
    && (ret != -EBUSY ==> Heard(c, begun + 1, now))
    && (ret != -EBUSY && (now == plan || now == plan + [Stop]) ==>
          ret == if c.busy(begun + 1 + Asked(plan)) then n else -EIO)
  }

  class Device {
    const controller: Controller
    var clock: nat
    /** Everything done on the bus. */
    var trace: seq<Op>
    /** The message buffers; a read message fills its own. */
    var bufs: seq<Bytes>
    /** `struct efx_i2c_msg`: address byte, bytes left, position in the buffer. */
    var addr: Octet
    var count: nat
    var at: nat

    /** Where the transfer under way began: what was done on the bus before, and when. */
    ghost var base: seq<Op>
    ghost var since: nat

    constructor (c: Controller, buffers: seq<Bytes>)
      ensures controller == c && trace == [] && bufs == buffers
    {
      controller := c;
      clock, trace, bufs, addr, count, at := 0, [], buffers, 0, 0, 0;
      base, since := [], 0;
    }

    ghost predicate Hears()
      reads this`trace, this`base, this`since
    {
      base <= trace && Heard(controller, since, trace[|base|..])
    }

    /** The controller was asked for what is recorded, and for nothing else. */
    ghost predicate OnTime()
      reads this`trace, this`base, this`since, this`clock
    {
      Hears() && clock == since + Asked(trace[|base|..])
    }

    lemma HearsMore(op: Op, now: seq<Op>)
      requires OnTime() && now == trace + [op]
      requires op.Ack? ==> op.inTime == controller.inTime(clock)
      requires op.Sense? ==> op.acked == controller.acked(clock)
      requires op.Fetch? ==> op.v == controller.data(clock)
      ensures base <= now && Heard(controller, since, now[|base|..])
      ensures since + Asked(now[|base|..]) == if op.Ack? || op.Sense? || op.Fetch? then clock + 1 else clock
    {
      var ops := now[|base|..];
      assert ops == trace[|base|..] + [op] && ops[..|ops| - 1] == trace[|base|..];
    }

    /** An operation that asks nothing. */
    method Do(op: Op)
      requires OnTime() && (op.Start? || op.Put? || op.Stop?)
      modifies this`trace
      ensures OnTime() && trace == old(trace) + [op]
    {
      HearsMore(op, trace + [op]);
      trace := trace + [op];
    }

    method MasterBusy() returns (busy: bool)
      modifies this`clock
      ensures busy == controller.busy(old(clock)) && clock == old(clock) + 1
    {
      busy := controller.busy(clock);
      clock := clock + 1;
    }

    /** efx_i2c_tx_ack_wait. */
    method TxAckWait(nack: bool) returns (ret: int)
      requires OnTime()
      modifies this`clock, this`trace
      ensures OnTime() && trace == old(trace) + [Ack(nack, ret == 0)] && (ret == 0 || ret == -ETIMEDOUT)
    {
      ret := if controller.inTime(clock) then 0 else -ETIMEDOUT;
      HearsMore(Ack(nack, ret == 0), trace + [Ack(nack, ret == 0)]);
      clock, trace := clock + 1, trace + [Ack(nack, ret == 0)];
    }

    /** efx_i2c_rx_ack. */
    method RxAck() returns (ret: int)
      requires OnTime()
      modifies this`clock, this`trace
      ensures OnTime() && trace == old(trace) + [Sense(ret == 0)] && (ret == 0 || ret == -EIO)
    {
      ret := if controller.acked(clock) then 0 else -EIO;
      HearsMore(Sense(ret == 0), trace + [Sense(ret == 0)]);
      clock, trace := clock + 1, trace + [Sense(ret == 0)];
    }

    /** efx_i2c_master_write followed by the slave's answer, as for an address and
        for each byte written. */
    method WriteAndSense(b: Octet) returns (ret: int)
      requires OnTime()
      modifies this`clock, this`trace
      ensures OnTime()
      ensures Did(trace, old(trace), [Put(b), Ack(true, true), Sense(true)], ret)
    {
      ghost var before := trace;
      ghost var plan := [Put(b), Ack(true, true), Sense(true)];
      Do(Put(b));
      ret := TxAckWait(true);
      if ret != 0 {
        assert trace[|before|..] == plan[..1] + [Failed(plan[1])];
        return;
      }
      ret := RxAck();
      if ret != 0 {
        assert trace[|before|..] == plan[..2] + [Failed(plan[2])];
      }
    }

    /** efx_i2c_start: a START, or a repeated one, and the address. */
    method StartMsg() returns (ret: int)
      requires OnTime()
      modifies this`clock, this`trace
      ensures OnTime()
      ensures Did(trace, old(trace), [Start, Put(addr), Ack(true, true), Sense(true)], ret)
    {
      ghost var before := trace;
      Do(Start);
      ret := WriteAndSense(addr);
      DidWithin(trace, before, [Start], [Put(addr), Ack(true, true), Sense(true)], [], ret);
      HeadOf(addr);
    }

    /** efx_i2c_master_read: the byte is stored only when the clocking succeeded. */
    method MasterRead(k: nat) returns (ret: int)
      requires OnTime() && k < |bufs| && at < |bufs[k]| && count == |bufs[k]| - at
      modifies this`clock, this`trace, this`bufs
      ensures OnTime() && |bufs| == |old(bufs)| && |bufs[k]| == |old(bufs)[k]|
      ensures Did(trace, old(trace), ByteOps(true, count == 1, bufs[k][at]), ret)
      ensures bufs == old(bufs)[k := old(bufs)[k][at := bufs[k][at]]]
    {
      ghost var before := trace;
      Do(Put(255));
      ret := TxAckWait(count == 1);
      if ret < 0 {
        ghost var plan := ByteOps(true, count == 1, bufs[k][at]);
        assert trace[|before|..] == plan[..1] + [Failed(plan[1])];
        assert bufs[k][at := bufs[k][at]] == bufs[k];
        return;
      }
      var v := controller.data(clock);
      HearsMore(Fetch(v), trace + [Fetch(v)]);
      clock, trace := clock + 1, trace + [Fetch(v)];
      bufs := bufs[k := bufs[k][at := v]];
    }

    /** The buffer of message `k` is the only one that may have changed, and only
        in a read. */
    ghost predicate OnlyFills(was: seq<Bytes>, k: nat, read: bool)
      reads this`bufs
    {
      && |bufs| == |was| && k < |bufs| && |bufs[k]| == |was[k]|
      && (forall i :: 0 <= i < |bufs| && i != k ==> bufs[i] == was[i])
      && (!read ==> bufs == was)
    }

    /** One byte of message `k`. */
    method XferByte(k: nat, read: bool) returns (ret: int)
      requires OnTime() && k < |bufs| && at < |bufs[k]| && count == |bufs[k]| - at
      modifies this`clock, this`trace, this`bufs
      ensures OnTime() && OnlyFills(old(bufs), k, read) && bufs[k][..at] == old(bufs)[k][..at]
      ensures Did(trace, old(trace), ByteOps(read, at + 1 == |bufs[k]|, bufs[k][at]), ret)
    {
      if read {
        ret := MasterRead(k);
      } else {
        ret := WriteAndSense(bufs[k][at]);
      }
    }

    /** One byte of message `k`, seen from the start of its bytes. */
    method NextByte(k: nat, read: bool, ghost before: seq<Op>) returns (ret: int)
      requires OnTime() && k < |bufs| && at < |bufs[k]| && count == |bufs[k]| - at
      requires trace == before + BytesOps(read, bufs[k], at)
      modifies this`clock, this`trace, this`bufs
      ensures OnTime() && OnlyFills(old(bufs), k, read)
      ensures ret == 0 ==> trace == before + BytesOps(read, bufs[k], at + 1)
      ensures ret != 0 ==> Did(trace, before, BytesOps(read, bufs[k], |bufs[k]|), ret)
    {
      ghost var was, sofar := bufs[k], trace;
      ret := XferByte(k, read);
      BytesOpsSame(read, was, bufs[k], at);
      ghost var done := BytesOps(read, bufs[k], at);
      DidFrom(trace, before, done, ByteOps(read, at + 1 == |bufs[k]|, bufs[k][at]), ret);
      if ret != 0 { CutInBytes(trace[|sofar|..], read, bufs[k], at); }
    }

    /** The loop over the bytes of message `k`. */
    method XferBytes(k: nat, read: bool) returns (ret: int)
      requires OnTime() && k < |bufs| && at == 0 && count == |bufs[k]|
      modifies this`clock, this`trace, this`bufs, this`at, this`count
      ensures OnTime() && OnlyFills(old(bufs), k, read)
      ensures Did(trace, old(trace), BytesOps(read, bufs[k], |bufs[k]|), ret)
    {
      ghost var before := trace;
      ret := 0;
      while count > 0
        invariant OnTime() && OnlyFills(old(bufs), k, read) && at <= |bufs[k]| && count == |bufs[k]| - at
        invariant trace == before + BytesOps(read, bufs[k], at)
      {
        ret := NextByte(k, read, before);
        if ret != 0 { return; }
        at, count := at + 1, count - 1;
      }
    }

    /** efx_i2c_terminate_xfer behind a failure. */
    method Terminate(ghost before: seq<Op>, ghost plan: seq<Op>, ret: int)
      requires OnTime() && ret != 0 && Did(trace, before, plan, ret)
      modifies this`trace
      ensures OnTime() && Broke(trace, before, plan, ret)
    {
      ghost var ops := trace[|before|..];
      Do(Stop);
      assert trace[|before|..] == ops + [Stop];
    }

    /** START and address of message `k`. */
    method BeginMsg(m: Msg, k: nat) returns (ret: int)
      requires OnTime() && k < |bufs| && GoodMsg(m) && addr == AddressByte(m)
      modifies this`clock, this`trace
      ensures OnTime()
      ensures ret == 0 ==> trace == old(trace) + Head(m)
      ensures ret != 0 ==> Broke(trace, old(trace), MsgOps(m, bufs[k]), ret)
    {
      ghost var before := trace;
      ret := StartMsg();
      if ret != 0 {
        assert before + [] == before && [] + Head(m) == Head(m);
        DidIn(trace, before, [], Head(m), BytesOps(m.read, bufs[k], |bufs[k]|), MsgOps(m, bufs[k]), ret);
        Terminate(before, MsgOps(m, bufs[k]), ret);
      }
    }

    /** The data bytes of message `k`. */
    method DataOfMsg(m: Msg, k: nat, ghost before: seq<Op>) returns (ret: int)
      requires OnTime() && k < |bufs| && GoodMsg(m) && at == 0 && count == |bufs[k]| && trace == before + Head(m)
      modifies this`clock, this`trace, this`bufs, this`at, this`count
      ensures OnTime() && OnlyFills(old(bufs), k, m.read)
      ensures ret == 0 ==> trace == before + MsgOps(m, bufs[k])
      ensures ret != 0 ==> Broke(trace, before, MsgOps(m, bufs[k]), ret)
    {
      ret := XferBytes(k, m.read);
      ghost var plan := BytesOps(m.read, bufs[k], |bufs[k]|);
      assert MsgOps(m, bufs[k]) == Head(m) + plan + [];
      DidIn(trace, before, Head(m), plan, [], MsgOps(m, bufs[k]), ret);
      if ret != 0 { Terminate(before, MsgOps(m, bufs[k]), ret); }
    }

    /** The bus is asked for before the first message; the transfer is counted from here. */
    method BusIsFree() returns (ret: int)
      modifies this`clock, this`base, this`since
      ensures OnTime() && base == trace && since == old(clock) + 1
      ensures ret == if controller.busy(old(clock)) then -EBUSY else 0
    {
      var busy := MasterBusy();
      base, since := trace, clock;
      ret := if busy then -EBUSY else 0;
      assert trace[|base|..] == [];
    }

    /** At the end of the last message the controller is asked once more whether the bus is busy,
        and the answer decides between STOP and an error. */
    method Conclusion() returns (ret: int)
      requires OnTime()
      modifies this`clock, this`trace
      ensures Hears() && ret == (if controller.busy(old(clock)) then 0 else -EIO)
      ensures trace == old(trace) + if ret == 0 then [Stop] else []
    {
      var busy := MasterBusy();
      if busy {
        ghost var ops := trace[|base|..];
        trace := trace + [Stop];
        assert trace[|base|..] == ops + [Stop] && (ops + [Stop])[..|ops|] == ops;
        ret := 0;
      } else {
        ret := -EIO;
      }
    }

    /** START, address and data of message `k`. */
    method MsgBody(m: Msg, k: nat) returns (ret: int)
      requires OnTime() && k < |bufs| && GoodMsg(m) && addr == AddressByte(m) && at == 0 && count == |bufs[k]|
      modifies this`clock, this`trace, this`bufs, this`at, this`count
      ensures OnTime() && OnlyFills(old(bufs), k, m.read) && old(trace) <= trace
      ensures ret == 0 ==> trace == old(trace) + MsgOps(m, bufs[k])
      ensures ret != 0 ==> Broke(trace, old(trace), MsgOps(m, bufs[k]), ret)
    {
      ghost var before := trace;
      ret := BeginMsg(m, k);
      if ret != 0 { return; }
      ret := DataOfMsg(m, k, before);
    }

    /** A message, and behind the last one STOP. */
    method MsgToEnd(m: Msg, k: nat, isLast: bool) returns (ret: int)
      requires OnTime() && k < |bufs| && GoodMsg(m) && addr == AddressByte(m) && at == 0 && count == |bufs[k]|
      modifies this`clock, this`trace, this`bufs, this`at, this`count
      ensures OnlyFills(old(bufs), k, m.read) && MsgDone(trace, old(trace), MsgOps(m, bufs[k]), isLast, ret)
      ensures Hears() && (!isLast && ret == 0 ==> OnTime())
      ensures ret != 0 ==> ret == -ETIMEDOUT || ret == -EIO
      ensures isLast ==> Decided(controller, trace, base, since, old(trace) + MsgOps(m, bufs[k]), ret)
    {
      ghost var before := trace;
      ret := MsgBody(m, k);
      if ret != 0 {
        MsgEndsOpen(m, bufs[k]);
        BrokeIsNotDone(trace, before, MsgOps(m, bufs[k]), ret);
      } else if isLast {
        ret := Conclusion();
      }
    }

    /** efx_i2c_xfer_msg. */
    method XferMsg(msgs: seq<Msg>, k: nat, isFirst: bool, isLast: bool) returns (ret: int)
      requires GoodMsgs(msgs, bufs) && k < |msgs| && isFirst == (k == 0) && isLast == (k == |msgs| - 1)
      requires !isFirst ==> OnTime()
      modifies this`clock, this`trace, this`bufs, this`addr, this`at, this`count, this`base, this`since
      ensures base == (if isFirst then old(trace) else old(base))
      ensures since == if isFirst then old(clock) + 1 else old(since)
      ensures ret == -EBUSY <==> isFirst && controller.busy(old(clock))
      ensures Hears() && (!isLast && ret == 0 ==> OnTime())
      ensures OnlyFills(old(bufs), k, msgs[k].read) && GoodMsgs(msgs, bufs)
      ensures ret == -EBUSY ==> isFirst && trace == old(trace) && bufs == old(bufs)
      ensures ret != -EBUSY ==> MsgDone(trace, old(trace), MsgOps(msgs[k], bufs[k]), isLast, ret)
      ensures isLast && ret != -EBUSY ==>
        Decided(controller, trace, base, since, old(trace) + MsgOps(msgs[k], bufs[k]), ret)
    {
      addr, at, count := AddressByte(msgs[k]), 0, |bufs[k]|;
      if isFirst {
        ret := BusIsFree();
        if ret != 0 { return; }
      }
      ret := MsgToEnd(msgs[k], k, isLast);
    }

    // ----- The whole transfer -----

    /** Nothing but read buffers was written. */
    ghost predicate FilledReads(was: seq<Bytes>, msgs: seq<Msg>)
      reads this`bufs
    {
      && |bufs| == |was| == |msgs|
      && forall k :: 0 <= k < |bufs| ==> |bufs[k]| == |was[k]| && (!msgs[k].read ==> bufs[k] == was[k])
    }

    /** `n` messages went through. */
    ghost predicate Going(msgs: seq<Msg>, n: nat, start: seq<Op>, was: seq<Bytes>)
      reads this`trace, this`bufs
    {
      n <= |msgs| && GoodMsgs(msgs, bufs) && FilledReads(was, msgs) && trace == start + Through(msgs, bufs, n)
    }

    /** The transfer began behind `start` at time `begun`; between messages the controller was asked
        for nothing else. */
    ghost predicate Asking(n: nat, len: nat, start: seq<Op>, begun: nat)
      reads this`trace, this`base, this`since, this`clock
    {
      if n == 0 then trace == start && clock == begun
      else base == start && since == begun + 1 && Hears() && (n < len ==> OnTime())
    }

    /** One turn of the loop over the messages. */
    method NextMsg(msgs: seq<Msg>, i: nat, ghost start: seq<Op>, ghost was: seq<Bytes>, ghost begun: nat)
      returns (ret: int)
      requires i < |msgs| && Going(msgs, i, start, was) && Asking(i, |msgs|, start, begun)
      modifies this`clock, this`trace, this`bufs, this`addr, this`at, this`count, this`base, this`since
      ensures GoodMsgs(msgs, bufs) && FilledReads(was, msgs)
      ensures Asking(i + 1, if ret == 0 then |msgs| else 0, start, begun)
      ensures ret == 0 ==> Going(msgs, i + 1, start, was)
      ensures ret == -EBUSY <==> i == 0 && controller.busy(begun)
      ensures ret == -EBUSY ==> trace == old(trace) && bufs == old(bufs)
      ensures ret != 0 ==> ret < 0 && Ended(trace, start, Full(msgs, bufs, |msgs|), ret)
      ensures ret != -EBUSY && (ret != 0 || i == |msgs| - 1) ==>
        Decided(controller, trace, base, since, start + Full(msgs, bufs, |msgs|), ret)
    {
      ghost var bufs0 := bufs;
      ret := XferMsg(msgs, i, i == 0, i == |msgs| - 1);
      FullSame(msgs, bufs0, bufs, i);
      if ret != -EBUSY { MsgTurned(controller, trace, base, since, start, msgs, bufs, i, ret); }
    }

    lemma AnsweredFrom(start: seq<Op>, plan: seq<Op>, begun: nat, n: nat, done: int, ret: int)
      requires start <= trace && n > 0 && ret == (if done == 0 then n else done)
      requires done == -EBUSY <==> controller.busy(begun)
      requires done != -EBUSY ==> base == start && since == begun + 1 && Hears()
      requires done != -EBUSY ==> Decided(controller, trace, base, since, start + plan, done)
      ensures Answered(controller, trace[|start|..], plan, begun, n, ret)
    {
      var now := trace[|start|..];
      assert trace == start + now && (start + plan)[|start|..] == plan;
      assert now == plan + [Stop] ==> trace == start + plan + [Stop];
    }

    /** efx_i2c_xfer. Whatever the controller answers: nothing happened and the bus
        was busy; or the full transfer and one STOP, and only then the number of
        messages is returned; or the transfer up to the operation that failed and one
        STOP; or the full transfer, and the bus was not busy where STOP should come.
        An observer finds nothing against the bus rules in what was added to the trace.
        `unset` is what the variable `ret` holds before it is first assigned. */
    method Xfer(msgs: seq<Msg>, unset: int) returns (ret: int)
      requires GoodMsgs(msgs, bufs)
      modifies this`clock, this`trace, this`bufs, this`addr, this`at, this`count, this`base, this`since
      ensures GoodMsgs(msgs, bufs) && FilledReads(old(bufs), msgs) && old(trace) <= trace
      ensures msgs != [] ==> TransferDone(trace[|old(trace)|..], msgs, bufs, ret)
      ensures msgs != [] ==>
        Answered(controller, trace[|old(trace)|..], Full(msgs, bufs, |msgs|), old(clock), |msgs|, ret)
      ensures msgs != [] ==> Observe(QUIET, trace[|old(trace)|..]).View?
      ensures ret == -EBUSY && msgs != [] ==> trace == old(trace) && bufs == old(bufs)
      ensures msgs == [] ==> trace == old(trace) && ret == if unset < 0 then unset else 0
    {
      ghost var start, was, begun := trace, bufs, clock;
      ret := unset;
      for i := 0 to |msgs|
        invariant Going(msgs, i, start, was) && Asking(i, |msgs|, start, begun)
        invariant i == 0 ==> trace == start && bufs == was && ret == unset
        invariant i > 0 ==> ret == 0 && !controller.busy(begun)
        invariant 0 < i == |msgs| ==> Decided(controller, trace, base, since, start + Full(msgs, bufs, |msgs|), 0)
      {
        ret := NextMsg(msgs, i, start, was, begun);
        if ret != 0 {
          EndedFrom(trace, start, Full(msgs, bufs, |msgs|), ret);
          TransferObserved(trace[|start|..], msgs, bufs, ret);
          AnsweredFrom(start, Full(msgs, bufs, |msgs|), begun, |msgs|, ret, ret);
          return;
        }
      }
      ret := if ret < 0 then ret else |msgs|;
      if msgs != [] {
        assert trace[|start|..] == Full(msgs, bufs, |msgs|) + [Stop];
        TransferObserved(trace[|start|..], msgs, bufs, ret);
        AnsweredFrom(start, Full(msgs, bufs, |msgs|), begun, |msgs|, 0, ret);
      }
    }
  }

  /** A transfer that broke, seen from where it began. */
  lemma EndedFrom(now: seq<Op>, start: seq<Op>, plan: seq<Op>, ret: int)
    requires Ended(now, start, plan, ret)
    ensures start <= now && Ended(now[|start|..], [], plan, ret)
  {
    var added := now[|start|..];
    assert now == start + added && added[0..] == added;
    if now == start + plan {
      assert added == plan && [] + plan == plan;
    }
  }

  /** What the contract of `Xfer` says of the operations it added. */
  ghost predicate TransferDone(now: seq<Op>, msgs: seq<Msg>, bufs: seq<Bytes>, ret: int)
    requires GoodMsgs(msgs, bufs)
  {
    var plan := Full(msgs, bufs, |msgs|);
    if ret == |msgs| then now == plan + [Stop] else ret < 0 && Ended(now, [], plan, ret)
  }

  /** The first of the messages, the last of them perhaps not to its end. */
  ghost predicate Begun(fs: seq<Frame>, msgs: seq<Msg>, bufs: seq<Bytes>) {
    && |fs| <= |msgs| == |bufs|
    && forall k :: 0 <= k < |fs| ==>
         && fs[k].address / 2 == msgs[k].addr && (fs[k].address % 2 == 1 <==> msgs[k].read)
         && if k < |fs| - 1 then fs[k].data == bufs[k] else fs[k].data <= bufs[k]
  }

  /** What the returned error says: the operation before the STOP ran out of time, or the slave
      did not acknowledge. */
  lemma BrokenTells(now: seq<Op>, before: seq<Op>, plan: seq<Op>, ret: int)
    requires Broke(now, before, plan, ret)
    ensures var op := now[|now| - 2];
      || (ret == -110 && op.Ack? && !op.inTime)
      || (ret == -5 && op == Sense(false))
  {
    var ops := now[|before|..];
    var cut := ops[..|ops| - 1];
    assert now[|now| - 2] == cut[|cut| - 1];
  }

  /** Every transfer obeys the bus rules. The number of messages is returned exactly
      on the full transfer with its STOP, which an observer reads back as the messages
      and their bytes; a transfer that broke leaves the bus idle after the beginning
      of what the messages call for. */
  lemma TransferObserved(now: seq<Op>, msgs: seq<Msg>, bufs: seq<Bytes>, ret: int)
    requires GoodMsgs(msgs, bufs) && msgs != [] && TransferDone(now, msgs, bufs, ret)
    ensures Observe(QUIET, now).View?
    ensures ret == |msgs| <==> now == Full(msgs, bufs, |msgs|) + [Stop]
    ensures ret == |msgs| ==> Observe(QUIET, now) == View(Frames(msgs, bufs, |msgs|), Idle)
    ensures ret == |msgs| ==> AllCarried(Observe(QUIET, now).frames, msgs, bufs, |msgs|)
    ensures Broke(now, [], Full(msgs, bufs, |msgs|), ret) ==>
              Observe(QUIET, now).phase == Idle && Begun(Observe(QUIET, now).frames, msgs, bufs)
  {
    var plan := Full(msgs, bufs, |msgs|);
    FramesCarry(msgs, bufs, |msgs|);
    FullSeen(msgs, bufs, |msgs|);
    FullThenStop(msgs, bufs);
    if Broke(now, [], plan, ret) { BrokenObserved(now, plan, ret); }
  }

  lemma BrokenObserved(now: seq<Op>, plan: seq<Op>, ret: int)
    requires Broke(now, [], plan, ret) && Observe(QUIET, plan).View?
    ensures now != plan + [Stop]
    ensures Observe(QUIET, now).View? && Observe(QUIET, now).phase == Idle
    ensures Extends(Observe(QUIET, plan).frames, Observe(QUIET, now).frames)
  {
    var ops := now[..|now| - 1];
    assert now[0..] == now == ops + [Stop];
    CutThenStop(ops, plan);
    assert now[|ops| - 1] != (plan + [Stop])[|ops| - 1];
  }

  lemma {:induction false} NoneFailed(c: Controller, from: nat, ops: seq<Op>, k: nat)
    requires Heard(c, from, ops) && k < |ops|
    requires forall t: nat :: c.inTime(t) && c.acked(t)
    ensures (ops[k].Ack? ==> ops[k].inTime) && (ops[k].Sense? ==> ops[k].acked)
    decreases |ops|
  {
    var front := ops[..|ops| - 1];
    if k < |front| {
      NoneFailed(c, from, front, k);
      assert front[k] == ops[k];
    }
  }

  /** A controller that is in time, a slave that acknowledges, a bus that is free at the beginning
      and held at the end: every message goes through. */
  lemma GoesThrough(c: Controller, now: seq<Op>, msgs: seq<Msg>, bufs: seq<Bytes>, begun: nat, ret: int)
    requires GoodMsgs(msgs, bufs) && msgs != [] && TransferDone(now, msgs, bufs, ret)
    requires Answered(c, now, Full(msgs, bufs, |msgs|), begun, |msgs|, ret)
    requires !c.busy(begun) && forall t: nat :: c.inTime(t) && c.acked(t) && (t > begun ==> c.busy(t))
    ensures ret == |msgs| && Observe(QUIET, now).View? && AllCarried(Observe(QUIET, now).frames, msgs, bufs, |msgs|)
  {
    var plan := Full(msgs, bufs, |msgs|);
    TransferObserved(now, msgs, bufs, ret);
    if ret != |msgs| && Broke(now, [], plan, ret) {
      BrokenTells(now, [], plan, ret);
      NoneFailed(c, begun + 1, now, |now| - 2);
    }
  }
}
