/** Inbound kicks in polling mode: the handlers of `efinix_ti375_remoteproc.c` as steps
    that may interleave, what the kernel side keeps, and the history an observer would
    keep beside it to say which kicks have been answered. */
module Kicks {
  import opened Prelude

  const WORD: nat := 0x1_0000_0000

  /** Each event is one step no other step divides. The timer handler is two, so that the
      remote can kick between its read and its comparison; start and stop are two each. */
  datatype Event =
    | Kick
    | PollRead
    | PollDone
    | WorkStart
    | WorkEnd
    | StartRead
    | StartArm
    | StopTimer
    | StopWork

  datatype Control = Idle | Starting | Stopping

  /** `counter` is the shared word the remote adds to; `seen` is `last_r2l_seen`; `now` is
      the timer handler's local variable, absent when the handler is not running. */
  datatype Machine = Machine(counter: nat, seen: nat, armed: bool, polling: bool, pending: bool, running: bool,
                             now: Option<nat>, control: Control)

  const BOOT: Machine := Machine(0, 0, false, false, false, false, None, Idle)

  predicate Enabled(m: Machine, e: Event) {
    match e
    case Kick => true
    case PollRead => m.armed && m.now.None?
    case PollDone => m.now.Some?
    case WorkStart => m.pending && !m.running
    case WorkEnd => m.running
    case StartRead => m.control == Idle
    case StartArm => m.control == Starting
    case StopTimer => m.control == Idle && m.polling && m.now.None?
    case StopWork => m.control == Stopping && !m.running
  }

  function Step(m: Machine, e: Event): Machine
    requires Enabled(m, e)
  {
    match e
    case Kick => m.(counter := (m.counter + 1) % WORD)
    case PollRead => m.(now := Some(m.counter))
    case PollDone =>
      if m.now.value != m.seen then m.(seen := m.now.value, pending := true, now := None)
      else m.(now := None)
    case WorkStart => m.(pending := false, running := true)
    case WorkEnd => m.(running := false)
    case StartRead => m.(seen := m.counter, control := Starting)
    case StartArm =>
      if m.polling then m.(control := Idle) else m.(armed := true, polling := true, control := Idle)
    case StopTimer => m.(armed := false, control := Stopping)
    case StopWork => m.(pending := false, polling := false, control := Idle)
  }

  /** What an observer counts: all `kicks`; how many there were at the last read by start
      (`base`), at the handler's last read (`read`), at the read that set `last_r2l_seen`
      (`seen`), and when the last notify run began (`served`). */
  datatype History = History(kicks: nat, base: nat, read: nat, seen: nat, served: nat)

  const NOTHING: History := History(0, 0, 0, 0, 0)

  function Record(h: History, m: Machine, e: Event): History
    requires Enabled(m, e)
  {
    match e
    case Kick => h.(kicks := h.kicks + 1)
    case PollRead => h.(read := h.kicks)
    case PollDone => if m.now.value != m.seen then h.(seen := h.read) else h
    case WorkStart => h.(served := h.kicks)
    case StartRead => h.(base := h.kicks, seen := h.kicks)
    case _ => h
  }

  // ----- Runs -----

  predicate Run(m: Machine, es: seq<Event>)
    decreases es
  {
    es == [] || (Enabled(m, es[0]) && Run(Step(m, es[0]), es[1..]))
  }

  function Final(m: Machine, es: seq<Event>): Machine
    requires Run(m, es)
    decreases es
  {
    if es == [] then m else Final(Step(m, es[0]), es[1..])
  }

  function Log(h: History, m: Machine, es: seq<Event>): History
    requires Run(m, es)
    decreases es
  {
    if es == [] then h else Log(Record(h, m, es[0]), Step(m, es[0]), es[1..])
  }

  // ----- What every step keeps -----

  /** The words hold the counts, cut to 32 bits. */
  predicate Counts(m: Machine, h: History) {
    && m.counter == h.kicks % WORD
    && m.seen == h.seen % WORD
    && h.base <= h.kicks && h.read <= h.kicks && h.seen <= h.kicks && h.served <= h.kicks
    && (m.now.Some? ==> m.now.value == h.read % WORD)
  }

  /** No timer and no work outside a start and the end of the matching stop. */
  predicate Quiet(m: Machine) {
    && (m.armed ==> m.polling)
    && (!m.armed ==> m.now.None?)
    && (!m.polling ==> !m.pending && !m.running && m.now.None? && m.control != Stopping)
    && (m.polling && m.control != Stopping ==> m.armed)
    && (m.control == Stopping ==> !m.armed)
  }

  /** Whatever `last_r2l_seen` has taken note of since start is answered, or about to be. */
  predicate NothingLost(m: Machine, h: History) {
    m.polling || m.control == Starting ==> m.control == Stopping || h.seen <= h.base || h.seen <= h.served || m.pending
  }

  predicate Inv(m: Machine, h: History) {
    Counts(m, h) && Quiet(m) && NothingLost(m, h)
  }

  lemma AddOne(n: nat)
    ensures (n % WORD + 1) % WORD == (n + 1) % WORD
  {
  }

  lemma StepKeepsInv(m: Machine, h: History, e: Event)
    requires Inv(m, h) && Enabled(m, e)
    ensures Inv(Step(m, e), Record(h, m, e))
  {
    AddOne(h.kicks);
  }

  lemma {:induction false} RunKeepsInv(m: Machine, h: History, es: seq<Event>)
    requires Inv(m, h) && Run(m, es)
    ensures Inv(Final(m, es), Log(h, m, es))
    decreases es
  {
    if es != [] {
      StepKeepsInv(m, h, es[0]);
      RunKeepsInv(Step(m, es[0]), Record(h, m, es[0]), es[1..]);
    }
  }

  /** Once stop has returned, neither the timer handler nor the notify work has a step to
      take, however kicks, ticks and work runs were interleaved before. */
  lemma StoppedIsQuiet(es: seq<Event>, e: Event)
    requires Run(BOOT, es) && !Final(BOOT, es).polling && Enabled(Final(BOOT, es), e)
    ensures e.Kick? || e.StartRead? || e.StartArm?
  {
    RunKeepsInv(BOOT, NOTHING, es);
  }

  // ----- Ticks -----

  /** The kick counter has gone round: different counts, the same word. */
  predicate Wrapped(a: nat, b: nat) {
    a != b && a % WORD == b % WORD
  }

  lemma WrappedFar(a: nat, b: nat)
    requires a <= b < a + WORD
    ensures !Wrapped(a, b)
  {
  }

  /** Kick number `k`, if it came after start, is answered or has a notify run coming. */
  predicate Answered(m: Machine, h: History, k: nat) {
    h.base < k <= h.kicks ==> k <= h.served || m.pending
  }

  /** A tick takes note of every kick before its read exactly when the counter has not
      gone round since `last_r2l_seen` was set. */
  lemma TickSeesIff(m: Machine, h: History)
    requires Inv(m, h) && Enabled(m, PollDone)
    ensures Record(h, m, PollDone).seen == h.read <==> !Wrapped(h.seen, h.read)
  {
  }

  lemma TickAnswers(m: Machine, h: History, k: nat)
    requires Inv(m, h) && Enabled(m, PollDone) && !Wrapped(h.seen, h.read) && k <= h.read
    ensures Answered(Step(m, PollDone), Record(h, m, PollDone), k)
  {
    StepKeepsInv(m, h, PollDone);
    TickSeesIff(m, h);
  }

  // ----- Whole runs -----

  /** Start is called only when nothing is running, and fewer than 2^32 kicks fall between
      one read of the counter and the next; `n` have fallen since the last. */
  predicate Paced(m: Machine, es: seq<Event>, n: nat)
    requires Run(m, es)
    decreases es
  {
    es == [] ||
    (match es[0]
     case Kick => n + 1 < WORD && Paced(Step(m, es[0]), es[1..], n + 1)
     case PollRead => Paced(Step(m, es[0]), es[1..], 0)
     case StartRead => !m.polling && Paced(Step(m, es[0]), es[1..], 0)
     case _ => Paced(Step(m, es[0]), es[1..], n))
  }

  /** How the pace bounds the counts. */
  predicate Near(m: Machine, h: History, n: nat) {
    if m.polling || m.control == Starting then
      if m.now.Some? then h.seen <= h.read < h.seen + WORD && h.kicks <= h.read + n && n < WORD
      else h.kicks <= h.seen + n && n < WORD
    else true
  }

  function PaceAfter(n: nat, e: Event): nat {
    match e
    case Kick => n + 1
    case PollRead => 0
    case StartRead => 0
    case _ => n
  }

  lemma StepKeepsNear(m: Machine, h: History, e: Event, n: nat)
    requires Inv(m, h) && Near(m, h, n) && Enabled(m, e)
    requires e.Kick? ==> n + 1 < WORD
    requires e.StartRead? ==> !m.polling
    ensures Near(Step(m, e), Record(h, m, e), PaceAfter(n, e))
  {
    if e.PollDone? {
      WrappedFar(h.seen, h.read);
    }
  }

  lemma {:induction false} PacedStaysNear(m: Machine, h: History, es: seq<Event>, n: nat) returns (k: nat)
    requires Inv(m, h) && Near(m, h, n) && Run(m, es) && Paced(m, es, n)
    ensures Near(Final(m, es), Log(h, m, es), k) && Inv(Final(m, es), Log(h, m, es))
    decreases es
  {
    if es == [] {
      k := n;
    } else {
      StepKeepsInv(m, h, es[0]);
      StepKeepsNear(m, h, es[0], n);
      k := PacedStaysNear(Step(m, es[0]), Record(h, m, es[0]), es[1..], PaceAfter(n, es[0]));
    }
  }

  /** No wakeup is lost: in every paced run, when a tick ends, every kick since start that
      came before its read of the counter has been followed by a notify run or has one
      pending. */
  lemma NoLostWakeup(es: seq<Event>, k: nat)
    requires Run(BOOT, es) && Paced(BOOT, es, 0) && Enabled(Final(BOOT, es), PollDone)
    requires k <= Log(NOTHING, BOOT, es).read
    ensures Answered(Step(Final(BOOT, es), PollDone), Record(Log(NOTHING, BOOT, es), Final(BOOT, es), PollDone), k)
  {
    var m, h := Final(BOOT, es), Log(NOTHING, BOOT, es);
    var n := PacedStaysNear(BOOT, NOTHING, es, 0);
    WrappedFar(h.seen, h.read);
    TickAnswers(m, h, k);
  }

  /** And it stays so until the work is cancelled: whenever no run is pending, one has
      begun after kick `k`. */
  lemma {:induction false} AnsweredUntilStop(m: Machine, h: History, es: seq<Event>, k: nat)
    requires Inv(m, h) && Run(m, es) && StopWork !in es && k <= h.kicks && Answered(m, h, k)
    ensures Answered(Final(m, es), Log(h, m, es), k) && k <= Log(h, m, es).kicks
    decreases es
  {
    if es != [] {
      StepKeepsInv(m, h, es[0]);
      AnsweredUntilStop(Step(m, es[0]), Record(h, m, es[0]), es[1..], k);
    }
  }

  // ----- Where the assumptions are needed -----

  function Kicked(n: nat): seq<Event> {
    seq(n, _ => Kick)
  }

  lemma {:induction false} KickedRuns(m: Machine, h: History, n: nat)
    requires m.counter == h.kicks % WORD
    ensures Run(m, Kicked(n))
    ensures Final(m, Kicked(n)) == m.(counter := (h.kicks + n) % WORD)
    ensures Log(h, m, Kicked(n)) == h.(kicks := h.kicks + n)
    decreases n
  {
    if n > 0 {
      AddOne(h.kicks);
      KickedRuns(Step(m, Kick), Record(h, m, Kick), n - 1);
      assert Kicked(n)[1..] == Kicked(n - 1);
    }
  }

  lemma {:induction false} RunsOn(m: Machine, h: History, es: seq<Event>, more: seq<Event>)
    requires Run(m, es) && Run(Final(m, es), more)
    ensures Run(m, es + more)
    ensures Final(m, es + more) == Final(Final(m, es), more)
    ensures Log(h, m, es + more) == Log(Log(h, m, es), Final(m, es), more)
    decreases es
  {
    if es == [] {
      assert es + more == more;
    } else {
      assert (es + more)[0] == es[0] && (es + more)[1..] == es[1..] + more;
      RunsOn(Step(m, es[0]), Record(h, m, es[0]), es[1..], more);
    }
  }

  lemma WrapsToSame(a: nat, n: nat)
    ensures (a + n) % WORD == a % WORD <==> n % WORD == 0
  {
  }

  /** From a state where everything is answered, `n` kicks and then a tick leave a notify
      run pending exactly when `n` is not a multiple of 2^32: with that many kicks the
      tick sees nothing. */
  lemma TickAfterKicksIff(m: Machine, h: History, n: nat)
    requires Inv(m, h) && m.armed && m.now.None? && !m.pending && h.seen == h.kicks
    ensures Run(m, Kicked(n) + [PollRead, PollDone])
    ensures Final(m, Kicked(n) + [PollRead, PollDone]).pending <==> n % WORD != 0
  {
    KickedRuns(m, h, n);
    var m' := Final(m, Kicked(n));
    assert m'.armed && m'.now.None?;
    var a := Step(m', PollRead);
    assert [PollRead, PollDone][1..] == [PollDone] && [PollDone][1..] == [];
    assert Run(a, [PollDone]);
    assert Run(m', [PollRead, PollDone]);
    assert Final(m', [PollRead, PollDone]) == Step(a, PollDone);
    RunsOn(m, h, Kicked(n), [PollRead, PollDone]);
    WrapsToSame(h.kicks, n);
  }

  /** Every kick so far is answered, or a notify run that will answer it is pending. */
  predicate Attended(m: Machine, h: History) {
    h.kicks <= h.served || m.pending
  }

  /** Start called a second time while polling makes the next tick blind: after start, start
      and tick all kicks are attended to if and only if they were before. */
  lemma RestartForgets(m: Machine, h: History)
    requires Inv(m, h) && m.control == Idle && m.polling && m.now.None?
    ensures var es := [StartRead, StartArm, PollRead, PollDone];
      && Run(m, es)
      && Log(h, m, es).kicks == h.kicks && Log(h, m, es).served == h.served
      && (Attended(Final(m, es), Log(h, m, es)) <==> Attended(m, h))
  {
    var a := Step(m, StartRead);
    var b := Step(a, StartArm);
    var c := Step(b, PollRead);
    assert [StartRead, StartArm, PollRead, PollDone][1..] == [StartArm, PollRead, PollDone];
    assert [StartArm, PollRead, PollDone][1..] == [PollRead, PollDone];
    assert [PollRead, PollDone][1..] == [PollDone] && [PollDone][1..] == [];
    assert Run(c, [PollDone]) && Final(c, [PollDone]) == Step(c, PollDone);
    assert Run(b, [PollRead, PollDone]) && Final(b, [PollRead, PollDone]) == Step(c, PollDone);
    assert Run(a, [StartArm, PollRead, PollDone]) && Final(a, [StartArm, PollRead, PollDone]) == Step(c, PollDone);
  }

  // ----- A kick can be answered -----

  lemma RunTwo(m: Machine, h: History, a: Event, b: Event)
    requires Enabled(m, a) && Enabled(Step(m, a), b)
    ensures Run(m, [a, b]) && Final(m, [a, b]) == Step(Step(m, a), b)
    ensures Log(h, m, [a, b]) == Record(Record(h, m, a), Step(m, a), b)
  {
    assert [a, b][1..] == [b] && [b][1..] == [];
    assert Run(Step(m, a), [b]) && Final(Step(m, a), [b]) == Step(Step(m, a), b);
    assert Log(Record(h, m, a), Step(m, a), [b]) == Record(Record(h, m, a), Step(m, a), b);
  }

  lemma RunOne(m: Machine, h: History, a: Event)
    requires Enabled(m, a)
    ensures Run(m, [a]) && Final(m, [a]) == Step(m, a) && Log(h, m, [a]) == Record(h, m, a)
  {
    assert [a][1..] == [];
  }

  /** Start is always possible while nothing polls, and arms the timer: ticks can come. */
  lemma StartStarts(m: Machine, h: History)
    requires Inv(m, h) && m.control == Idle && !m.polling
    ensures var es := [StartRead, StartArm];
      && Run(m, es) && Log(h, m, es).seen == Log(h, m, es).kicks == h.kicks
      && var f := Final(m, es);
         f.armed && f.polling && f.control == Idle && f.now.None? && !f.pending && !f.running && f.seen == f.counter
  {
    RunTwo(m, h, StartRead, StartArm);
  }

  lemma KicksThenTick(m: Machine, h: History, n: nat)
    requires Inv(m, h) && m.armed && m.polling && m.control == Idle && m.now.None? && !m.pending && !m.running
    requires h.seen == h.kicks && 0 < n < WORD
    ensures var es := Kicked(n) + [PollRead, PollDone];
      && Run(m, es) && Enabled(Final(m, es), WorkStart)
      && Final(m, es).seen == Final(m, es).counter && Log(h, m, es).kicks == h.kicks + n
  {
    KickedRuns(m, h, n);
    var m', h' := Final(m, Kicked(n)), Log(h, m, Kicked(n));
    RunTwo(m', h', PollRead, PollDone);
    RunsOn(m, h, Kicked(n), [PollRead, PollDone]);
    WrapsToSame(h.kicks, n);
  }

  /** After a start, any number of kicks below 2^32, a tick and a notify run: every kick is
      answered. */
  lemma KicksAreServed(m: Machine, h: History, n: nat)
    requires Inv(m, h) && m.control == Idle && !m.polling && 0 < n < WORD
    ensures var es := [StartRead, StartArm] + (Kicked(n) + [PollRead, PollDone]) + [WorkStart];
      && Run(m, es) && Final(m, es).running && !Final(m, es).pending
      && Log(h, m, es).served == Log(h, m, es).kicks == h.kicks + n
  {
    var start, tick := [StartRead, StartArm], Kicked(n) + [PollRead, PollDone];
    StartStarts(m, h);
    RunKeepsInv(m, h, start);
    var a, b := Final(m, start), Log(h, m, start);
    KicksThenTick(a, b, n);
    RunOne(Final(a, tick), Log(b, a, tick), WorkStart);
    RunsOn(m, h, start, tick);
    RunsOn(m, h, start + tick, [WorkStart]);
  }

  /** So from the start of the machine the first kicks are answered. */
  lemma FirstKicksAreServed(n: nat)
    requires 0 < n < 0x1_0000_0000
    ensures var es := [StartRead, StartArm] + (Kicked(n) + [PollRead, PollDone]) + [WorkStart];
      Run(BOOT, es) && Log(NOTHING, BOOT, es).served == n
  {
    KicksAreServed(BOOT, NOTHING, n);
  }

  /** Stop is always possible once a handler and a notify run have ended; then nothing is armed
      or pending, and start is possible again. */
  lemma StopStops(m: Machine, h: History)
    requires Inv(m, h) && m.control == Idle && m.polling && m.now.None?
    ensures var es := [StopTimer] + (if m.running then [WorkEnd] else []) + [StopWork];
      && Run(m, es)
      && var f := Final(m, es);
         !f.armed && !f.polling && !f.pending && !f.running && f.control == Idle && f.now.None?
  {
    RunOne(m, h, StopTimer);
    var a, b, mid := Step(m, StopTimer), Record(h, m, StopTimer), if m.running then [WorkEnd] else [];
    if m.running { RunOne(a, b, WorkEnd); }
    RunOne(Final(a, mid), Log(b, a, mid), StopWork);
    RunsOn(m, h, [StopTimer], mid);
    RunsOn(m, h, [StopTimer] + mid, [StopWork]);
  }
}
