/** The slave side of the Efinix I2C driver: the interrupt handler as a state machine, and
    what the slave backend and the bus see of a whole transfer. */
module I2cSlave {
  import opened Octets

  datatype State = Idle | WriteAddr | ReadData | WriteData

  /** What one interrupt finds: the address filter's flag, whether the address is ours and
      asks for reading, the byte received, and the byte the backend would supply. */
  datatype Irq = Irq(filter: bool, hit: bool, read: bool, rx: Octet, supplied: Octet)

  /** What the backend is told, as `i2c_slave_event` calls. */
  datatype Event = WriteRequested | ReadRequested | WriteReceived(b: Octet) | ReadProcessed

  /** What is put on the bus: the ninth bit and a byte; 255 releases the line. */
  datatype Reply = Reply(ack: bool, b: Octet)

  const RELEASE: Octet := 255

  datatype View = View(state: State, txInterrupt: bool, events: seq<Event>, replies: seq<Reply>)

  const FRESH := View(Idle, false, [], [])

  function Say(v: View, e: Event, r: Reply, s: State): View {
    v.(events := v.events + [e], replies := v.replies + [r], state := s)
  }

  function Step(v: View, i: Irq): View {
    var u := if i.filter then v.(state := Idle, txInterrupt := false) else v;
    match u.state
    case Idle =>
      if !i.hit then u.(txInterrupt := false)
      else if i.read then Say(u, ReadRequested, Reply(true, i.supplied), ReadData).(txInterrupt := true)
      else Say(u, WriteRequested, Reply(true, RELEASE), WriteAddr).(txInterrupt := true)
    case ReadData => Say(u, ReadProcessed, Reply(false, i.supplied), ReadData)
    case WriteAddr => Say(u, WriteReceived(i.rx), Reply(true, RELEASE), WriteData)
    case WriteData => Say(u, WriteReceived(i.rx), Reply(true, RELEASE), WriteData)
  }

  function Steps(v: View, irqs: seq<Irq>): View
    decreases |irqs|
  {
    if irqs == [] then v else Step(Steps(v, irqs[..|irqs| - 1]), irqs[|irqs| - 1])
  }

  /** `struct efx_i2c_dev` as far as the handler touches it. */
  class Device {
    var state: State
    var txInterrupt: bool
    var events: seq<Event>
    var replies: seq<Reply>

    function Abs(): View
      reads this
    {
      View(state, txInterrupt, events, replies)
    }

    constructor ()
      ensures Abs() == FRESH
    {
      state, txInterrupt, events, replies := Idle, false, [], [];
    }

    method SlaveEvent(e: Event)
      modifies this`events
      ensures events == old(events) + [e]
    {
      events := events + [e];
    }

    /** `efx_i2c_tx_ack` or `efx_i2c_tx_nack`, and `efx_i2c_write_byte`. */
    method Answer(ack: bool, b: Octet)
      modifies this`replies
      ensures replies == old(replies) + [Reply(ack, b)]
    {
      replies := replies + [Reply(ack, b)];
    }

    /** `efx_i2c_interrupt_slave`. */
    method Interrupt(i: Irq)
      modifies this
      ensures Abs() == Step(old(Abs()), i)
    {
      if i.filter {
        state := Idle;
        txInterrupt := false;
      }
      match state
      case Idle =>
        if i.hit {
          if !i.read {
            SlaveEvent(WriteRequested);
            Answer(true, RELEASE);
            txInterrupt := true;
            state := WriteAddr;
          } else {
            SlaveEvent(ReadRequested);
            Answer(true, i.supplied);
            txInterrupt := true;
            state := ReadData;
          }
        } else {
          txInterrupt := false;
          state := Idle;
        }
      case WriteAddr =>
        Answer(true, RELEASE);
        SlaveEvent(WriteReceived(i.rx));
        state := WriteData;
      case ReadData =>
        SlaveEvent(ReadProcessed);
        Answer(false, i.supplied);
        state := ReadData;
      case WriteData =>
        Answer(true, RELEASE);
        SlaveEvent(WriteReceived(i.rx));
        state := WriteData;
    }

    /** Every sequence of interrupts. */
    method Run(irqs: seq<Irq>)
      modifies this
      ensures Abs() == Steps(old(Abs()), irqs)
    {
      for k := 0 to |irqs|
        invariant Abs() == Steps(old(Abs()), irqs[..k])
      {
        Interrupt(irqs[k]);
        assert irqs[..k + 1][..k] == irqs[..k];
      }
      assert irqs[..|irqs|] == irqs;
    }
  }

  // ----- A whole transfer -----

  predicate Plain(irqs: seq<Irq>) {
    forall k :: 0 <= k < |irqs| ==> !irqs[k].filter
  }

  function Received(irqs: seq<Irq>): (es: seq<Event>)
    ensures |es| == |irqs|
  {
    seq(|irqs|, k requires 0 <= k < |irqs| => WriteReceived(irqs[k].rx))
  }

  function Supplied(irqs: seq<Irq>): (rs: seq<Reply>)
    ensures |rs| == |irqs|
  {
    seq(|irqs|, k requires 0 <= k < |irqs| => Reply(k == 0, irqs[k].supplied))
  }

  function Times<T>(n: nat, t: T): (s: seq<T>)
    ensures |s| == n
  {
    seq(n, _ => t)
  }

  lemma {:induction false} StepsSplit(v: View, a: seq<Irq>, b: seq<Irq>)
    ensures Steps(v, a + b) == Steps(Steps(v, a), b)
    decreases |b|
  {
    if b == [] {
      assert a + b == a;
    } else {
      assert (a + b)[..|a + b| - 1] == a + b[..|b| - 1];
      StepsSplit(v, a, b[..|b| - 1]);
    }
  }

  /** A master that writes: the backend gets the request and then every byte, in order and
      once; each is acknowledged and the line released. Whatever went before is cut off. */
  lemma {:induction false} WriteTransfer(v: View, first: Irq, rest: seq<Irq>)
    requires first.filter && first.hit && !first.read && Plain(rest)
    ensures var u := Steps(v, [first] + rest);
      u.events == v.events + ([WriteRequested] + Received(rest)) &&
      u.replies == v.replies + Times(|rest| + 1, Reply(true, 255)) &&
      u.state == (if rest == [] then WriteAddr else WriteData) && u.txInterrupt
    decreases |rest|
  {
    var all := [first] + rest;
    if rest == [] {
      assert all == [first] && all[..0] == [];
      assert Steps(v, []) == v;
    } else {
      var n := |rest| - 1;
      assert all[..|all| - 1] == [first] + rest[..n];
      WriteTransfer(v, first, rest[..n]);
      assert Received(rest) == Received(rest[..n]) + [WriteReceived(rest[n].rx)];
      assert Times(n + 2, Reply(true, RELEASE)) == Times(n + 1, Reply(true, RELEASE)) + [Reply(true, RELEASE)];
    }
  }

  /** A master that reads: the backend is asked once and told after every byte, and the bytes
      on the bus are those it supplied, in order; only the address is acknowledged. */
  lemma {:induction false} ReadTransfer(v: View, first: Irq, rest: seq<Irq>)
    requires first.filter && first.hit && first.read && Plain(rest)
    ensures var u := Steps(v, [first] + rest);
      u.events == v.events + ([ReadRequested] + Times(|rest|, ReadProcessed)) &&
      u.replies == v.replies + Supplied([first] + rest) &&
      u.state == ReadData && u.txInterrupt
    decreases |rest|
  {
    var all := [first] + rest;
    if rest == [] {
      assert all == [first] && all[..0] == [];
      assert Steps(v, []) == v;
    } else {
      var n := |rest| - 1;
      assert all[..|all| - 1] == [first] + rest[..n];
      ReadTransfer(v, first, rest[..n]);
      assert Times(n + 1, ReadProcessed) == Times(n, ReadProcessed) + [ReadProcessed];
      assert Supplied(all) == Supplied([first] + rest[..n]) + [Reply(false, rest[n].supplied)];
    }
  }

  /** An address that is not ours: nothing is said or put on the bus until the next address. */
  lemma {:induction false} OthersTransfer(v: View, first: Irq, rest: seq<Irq>)
    requires first.filter && !first.hit && Plain(rest) && forall k :: 0 <= k < |rest| ==> !rest[k].hit
    ensures Steps(v, [first] + rest) == View(Idle, false, v.events, v.replies)
    decreases |rest|
  {
    var all := [first] + rest;
    if rest == [] {
      assert all == [first] && all[..0] == [];
      assert Steps(v, []) == v;
    } else {
      var n := |rest| - 1;
      assert all[..|all| - 1] == [first] + rest[..n];
      OthersTransfer(v, first, rest[..n]);
    }
  }

  // ----- Over every run -----

  /** The backend interface: received bytes only inside a write, processed ones only inside
      a read. */
  predicate Follows(es: seq<Event>, e: Event) {
    match e
    case WriteReceived(_) => es != [] && (es[|es| - 1].WriteRequested? || es[|es| - 1].WriteReceived?)
    case ReadProcessed => es != [] && (es[|es| - 1].ReadRequested? || es[|es| - 1].ReadProcessed?)
    case _ => true
  }

  predicate InOrder(es: seq<Event>)
    decreases |es|
  {
    es == [] || (Follows(es[..|es| - 1], es[|es| - 1]) && InOrder(es[..|es| - 1]))
  }

  lemma InOrderMore(es: seq<Event>, e: Event)
    requires InOrder(es) && Follows(es, e)
    ensures InOrder(es + [e])
  {
    assert (es + [e])[..|es|] == es;
  }

  predicate LastFits(v: View) {
    match v.state
    case Idle => true
    case ReadData =>
      v.events != [] && (v.events[|v.events| - 1].ReadRequested? || v.events[|v.events| - 1].ReadProcessed?)
    case _ => v.events != [] && (v.events[|v.events| - 1].WriteRequested? || v.events[|v.events| - 1].WriteReceived?)
  }

  predicate Inv(v: View) {
    InOrder(v.events) && LastFits(v) && |v.events| == |v.replies| && (v.txInterrupt <==> !v.state.Idle?)
  }

  lemma StepKeepsInv(v: View, i: Irq)
    requires Inv(v)
    ensures Inv(Step(v, i))
  {
    var after := Step(v, i).events;
    if after != v.events {
      InOrderMore(v.events, after[|v.events|]);
    }
  }

  /** However interrupts come, the backend hears a well-formed conversation, every event has
      its reply on the bus, and the transmit interrupt is on exactly during a transfer. */
  lemma {:induction false} RunKeepsInv(irqs: seq<Irq>)
    ensures Inv(Steps(FRESH, irqs))
    decreases |irqs|
  {
    if irqs != [] {
      RunKeepsInv(irqs[..|irqs| - 1]);
      StepKeepsInv(Steps(FRESH, irqs[..|irqs| - 1]), irqs[|irqs| - 1]);
    }
  }
}
