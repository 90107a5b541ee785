/** The inbound side of the driver, field by field, each method one undivided piece of a
    handler in `efinix_ti375_remoteproc.c`. */
module KickDriver {
  import opened Kicks
  import opened Prelude

  class Inbound {
    var kickR2l: nat
    var lastR2lSeen: nat
    var timerArmed: bool
    var pollRunning: bool
    var workPending: bool
    var workRunning: bool
    var now: Option<nat>
    var thread: Control
    var interrupts: seq<nat>

    function State(): Machine
      reads this
    {
      Machine(kickR2l, lastR2lSeen, timerArmed, pollRunning, workPending, workRunning, now, thread)
    }

    constructor ()
      ensures State() == BOOT && interrupts == []
    {
      kickR2l, lastR2lSeen := 0, 0;
      timerArmed, pollRunning := false, false;
      workPending, workRunning := false, false;
      now, thread := None, Idle;
      interrupts := [];
    }

    /** The remote adds one to the shared word. */
    method Kicked()
      modifies this
      ensures State() == Step(old(State()), Kick) && interrupts == old(interrupts)
    {
      kickR2l := kickR2l + 1;
      if kickR2l >= WORD {
        kickR2l := kickR2l % WORD;
      }
    }

    method ScheduleWork()
      modifies this
      ensures State() == old(State()).(pending := true) && interrupts == old(interrupts)
    {
      workPending := true;
    }

    /** `efinix_rproc_poll_fn`, up to the read of the counter. */
    method PollBegins()
      requires Enabled(State(), PollRead)
      modifies this
      ensures State() == Step(old(State()), PollRead) && interrupts == old(interrupts)
    {
      now := Some(kickR2l);
    }

    /** `efinix_rproc_poll_fn`, after the read; the timer is set again. */
    method PollEnds()
      requires Enabled(State(), PollDone)
      modifies this
      ensures State() == Step(old(State()), PollDone) && interrupts == old(interrupts)
    {
      if now.value != lastR2lSeen {
        lastR2lSeen := now.value;
        ScheduleWork();
      }
      now := None;
    }

    /** `efinix_rproc_notify_work_fn`: the work is no longer pending when it begins, and
        both virtqueues are told. */
    method NotifyWork()
      requires Enabled(State(), WorkStart)
      modifies this
      ensures State() == Step(old(State()), WorkStart)
      ensures interrupts == old(interrupts) + [0, 1]
    {
      workPending, workRunning := false, true;
      interrupts := interrupts + [0];
      interrupts := interrupts + [1];
    }

    method NotifyWorkReturns()
      requires Enabled(State(), WorkEnd)
      modifies this
      ensures State() == Step(old(State()), WorkEnd) && interrupts == old(interrupts)
    {
      workRunning := false;
    }

    /** `efinix_rproc_inbound_start`, the first statement. */
    method InboundStartReads()
      requires Enabled(State(), StartRead)
      modifies this
      ensures State() == Step(old(State()), StartRead) && interrupts == old(interrupts)
    {
      lastR2lSeen := kickR2l;
      thread := Starting;
    }

    /** `efinix_rproc_inbound_start`, the rest. */
    method InboundStartArms()
      requires Enabled(State(), StartArm)
      modifies this
      ensures State() == Step(old(State()), StartArm) && interrupts == old(interrupts)
      ensures pollRunning && (timerArmed || old(pollRunning))
    {
      thread := Idle;
      if pollRunning {
        return;
      }
      timerArmed := true;
      pollRunning := true;
    }

    /** `efinix_rproc_inbound_stop` up to the return of `hrtimer_cancel`, which waits for a
        handler that is running. Where nothing polls there is nothing to stop. */
    method InboundStopTimer()
      requires pollRunning ==> Enabled(State(), StopTimer)
      modifies this
      ensures State() == (if old(pollRunning) then Step(old(State()), StopTimer) else old(State()))
      ensures interrupts == old(interrupts)
    {
      if !pollRunning {
        return;
      }
      timerArmed := false;
      thread := Stopping;
    }

    /** The rest of `efinix_rproc_inbound_stop`: `cancel_work_sync` drops pending work and
        waits for work that is running. */
    method InboundStopWork()
      requires Enabled(State(), StopWork)
      modifies this
      ensures State() == Step(old(State()), StopWork) && interrupts == old(interrupts)
    {
      workPending := false;
      pollRunning := false;
      thread := Idle;
    }

    /** A tick nothing interrupts leaves `last_r2l_seen` equal to the counter, and notify
        work pending if they differed. */
    method PollFn()
      requires Enabled(State(), PollRead)
      modifies this
      ensures State() == Step(Step(old(State()), PollRead), PollDone)
      ensures lastR2lSeen == kickR2l == old(kickR2l)
      ensures workPending == (old(workPending) || old(lastR2lSeen) != kickR2l)
      ensures interrupts == old(interrupts)
    {
      PollBegins();
      PollEnds();
    }

    /** The piece of the driver, or of its surroundings, that an event stands for. */
    method Handle(e: Event)
      requires Enabled(State(), e)
      modifies this
      ensures State() == Step(old(State()), e)
      ensures interrupts == old(interrupts) + if e.WorkStart? then [0, 1] else []
    {
      match e
      case Kick => Kicked();
      case PollRead => PollBegins();
      case PollDone => PollEnds();
      case WorkStart => NotifyWork();
      case WorkEnd => NotifyWorkReturns();
      case StartRead => InboundStartReads();
      case StartArm => InboundStartArms();
      case StopTimer => InboundStopTimer();
      case StopWork => InboundStopWork();
    }

    /** Every interleaving: the fields go through the states of the run, and both virtqueues
        are told once for every notify run. */
    method Drive(es: seq<Event>)
      requires Run(State(), es)
      modifies this
      ensures State() == Final(old(State()), es)
      ensures interrupts == old(interrupts) + Told(es)
    {
      assert es[0..] == es;
      for k := 0 to |es|
        invariant Run(State(), es[k..]) && Final(State(), es[k..]) == Final(old(State()), es)
        invariant interrupts + Told(es[k..]) == old(interrupts) + Told(es)
      {
        assert es[k..][0] == es[k] && es[k..][1..] == es[k + 1..];
        ghost var had := interrupts;
        Handle(es[k]);
        assert had + ((if es[k].WorkStart? then [0, 1] else []) + Told(es[k + 1..])) == interrupts + Told(es[k + 1..]);
      }
    }
  }

  function Told(es: seq<Event>): seq<nat>
    decreases |es|
  {
    if es == [] then [] else (if es[0].WorkStart? then [0, 1] else []) + Told(es[1..])
  }

  function NotifyRuns(es: seq<Event>): nat
    decreases |es|
  {
    if es == [] then 0 else (if es[0].WorkStart? then 1 else 0) + NotifyRuns(es[1..])
  }

  /** Each of the two virtqueues is told once for every notify run, and no other is. */
  lemma {:induction false} ToldBoth(es: seq<Event>)
    ensures multiset(Told(es))[0] == multiset(Told(es))[1] == NotifyRuns(es)
    ensures |Told(es)| == 2 * NotifyRuns(es)
    decreases |es|
  {
    if es != [] {
      ToldBoth(es[1..]);
    }
  }
}
