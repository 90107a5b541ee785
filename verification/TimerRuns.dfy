/** A timer among others: runs of polls, insertions and removals on a list. */
module TimerRuns {
  import opened TimerRules
  import opened TimerLaws

  // ----- A timer among others -----

  /** What may happen to a list of timers. */
  datatype Act<T> = Poll(now: nat) | Add(slot: Slot<T>, runNow: bool) | Drop(id: T)

  function Dropped<T(==)>(s: seq<Slot<T>>, id: T): seq<Slot<T>> {
    if s == [] then [] else (if s[0].id == id then [] else [s[0]]) + Dropped(s[1..], id)
  }

  /** The list a poll finds: all timers start again when the time has gone back. */
  function Found<T>(s: seq<Slot<T>>, prev: nat, now: nat): seq<Slot<T>> {
    if prev > now then Reset(s) else s
  }

  function Acted<T(==)>(s: seq<Slot<T>>, prev: nat, act: Act<T>, ulong: Width): seq<Slot<T>> {
    match act
    case Poll(now) => PollAll(Found(s, prev, now), now, ulong)
    case Add(slot, _) => [slot] + s
    case Drop(id) => Dropped(s, id)
  }

  function ActCalls<T>(s: seq<Slot<T>>, prev: nat, act: Act<T>, ulong: Width): seq<T> {
    match act
    case Poll(now) => Calls(Found(s, prev, now), now, ulong)
    case Add(slot, runNow) => if runNow then [slot.id] else []
    case Drop(_) => []
  }

  function TimeAfter<T>(prev: nat, act: Act<T>): nat {
    if act.Poll? then act.now else prev
  }

  function RunList<T(==)>(s: seq<Slot<T>>, prev: nat, acts: seq<Act<T>>, ulong: Width): seq<Slot<T>>
    decreases |acts|
  {
    if acts == [] then s else RunList(Acted(s, prev, acts[0], ulong), TimeAfter(prev, acts[0]), acts[1..], ulong)
  }

  function RunCalls<T(==)>(s: seq<Slot<T>>, prev: nat, acts: seq<Act<T>>, ulong: Width): seq<T>
    decreases |acts|
  {
    if acts == [] then []
    else
      ActCalls(s, prev, acts[0], ulong)
      + RunCalls(Acted(s, prev, acts[0], ulong), TimeAfter(prev, acts[0]), acts[1..], ulong)
  }

  function PollTimes<T>(acts: seq<Act<T>>): seq<nat>
    decreases |acts|
  {
    if acts == [] then [] else (if acts[0].Poll? then [acts[0].now] else []) + PollTimes(acts[1..])
  }

  /** Nobody adds a timer of this name, or frees it. */
  predicate Leaves<T(==)>(act: Act<T>, id: T) {
    match act
    case Poll(_) => true
    case Add(slot, _) => slot.id != id
    case Drop(other) => other != id
  }

  function CountOf<T(==)>(calls: seq<T>, x: T): nat {
    if calls == [] then 0 else (if calls[0] == x then 1 else 0) + CountOf(calls[1..], x)
  }

  lemma {:induction false} CountSplit<T>(a: seq<T>, b: seq<T>, x: T)
    ensures CountOf(a + b, x) == CountOf(a, x) + CountOf(b, x)
  {
    if a == [] {
      assert a + b == b;
    } else {
      assert (a + b)[0] == a[0] && (a + b)[1..] == a[1..] + b;
      CountSplit(a[1..], b, x);
    }
  }

  predicate Apart<T(==)>(s: seq<Slot<T>>, id: T) {
    forall k :: 0 <= k < |s| ==> s[k].id != id
  }

  lemma {:induction false} OthersPolled<T>(s: seq<Slot<T>>, now: nat, id: T, ulong: Width)
    requires Apart(s, id)
    ensures Apart(PollAll(s, now, ulong), id) && CountOf(Calls(s, now, ulong), id) == 0
  {
    if s != [] {
      OthersPolled(s[1..], now, id, ulong);
      CountSplit(Called(s[0], now, ulong), Calls(s[1..], now, ulong), id);
    }
  }

  lemma {:induction false} DroppedSplit<T>(a: seq<Slot<T>>, b: seq<Slot<T>>, id: T)
    ensures Dropped(a + b, id) == Dropped(a, id) + Dropped(b, id)
  {
    if a == [] {
      assert a + b == b;
    } else {
      assert (a + b)[0] == a[0] && (a + b)[1..] == a[1..] + b;
      DroppedSplit(a[1..], b, id);
    }
  }

  lemma {:induction false} DroppedNone<T>(s: seq<Slot<T>>, id: T)
    requires Apart(s, id)
    ensures Dropped(s, id) == s
  {
    if s != [] {
      DroppedNone(s[1..], id);
    }
  }

  lemma {:induction false} OthersDropped<T>(s: seq<Slot<T>>, dropped: T, id: T)
    requires Apart(s, id)
    ensures Apart(Dropped(s, dropped), id)
  {
    if s != [] {
      OthersDropped(s[1..], dropped, id);
    }
  }

  /** Among others, a timer is polled as it would be alone. */
  lemma PolledAmong<T>(a: seq<Slot<T>>, t: Slot<T>, b: seq<Slot<T>>, now: nat, ulong: Width)
    requires t.repeating && Apart(a, t.id) && Apart(b, t.id)
    ensures PollAll(a + [t] + b, now, ulong)
         == PollAll(a, now, ulong) + [Polled(t, now, ulong)] + PollAll(b, now, ulong)
    ensures Apart(PollAll(a, now, ulong), t.id) && Apart(PollAll(b, now, ulong), t.id)
    ensures CountOf(Calls(a + [t] + b, now, ulong), t.id) == if Due(t, now, ulong) then 1 else 0
  {
    PollAllSplit(a + [t], b, now, ulong);
    PollOneMore(a, t, now, ulong);
    CallsSplit(a + [t], b, now, ulong);
    CallsOneMore(a, t, now, ulong);
    OthersPolled(a, now, t.id, ulong);
    OthersPolled(b, now, t.id, ulong);
    CountSplit(Calls(a, now, ulong) + Called(t, now, ulong), Calls(b, now, ulong), t.id);
    CountSplit(Calls(a, now, ulong), Called(t, now, ulong), t.id);
  }

  lemma DroppedAmong<T>(a: seq<Slot<T>>, t: Slot<T>, b: seq<Slot<T>>, id: T)
    requires t.id != id && Apart(a, t.id) && Apart(b, t.id)
    ensures Dropped(a + [t] + b, id) == Dropped(a, id) + [t] + Dropped(b, id)
    ensures Apart(Dropped(a, id), t.id) && Apart(Dropped(b, id), t.id)
  {
    DroppedSplit(a + [t], b, id);
    DroppedSplit(a, [t], id);
    OthersDropped(a, id, t.id);
    OthersDropped(b, id, t.id);
    assert [t][1..] == [] && Dropped([t], id) == [t];
  }

  /** Over any run of polls, insertions and removals of other timers, a repeating timer has
      the callbacks and the state it would have alone at the same poll times. */
  lemma {:induction false} RepeatingRunsAlone<T>(a: seq<Slot<T>>, t: Slot<T>, b: seq<Slot<T>>, prev: nat,
                                                 acts: seq<Act<T>>, limit: nat, ulong: Width)
    requires t.repeating && Apart(a, t.id) && Apart(b, t.id) && Steady(prev, PollTimes(acts), limit)
    requires forall k :: 0 <= k < |acts| ==> Leaves(acts[k], t.id)
    ensures CountOf(RunCalls(a + [t] + b, prev, acts, ulong), t.id) == Fires(t, PollTimes(acts), ulong)
    ensures AfterPolls(t, PollTimes(acts), ulong) in RunList(a + [t] + b, prev, acts, ulong)
    decreases |acts|
  {
    if acts != [] {
      var s, act, rest, times := a + [t] + b, acts[0], acts[1..], PollTimes(acts[1..]);
      var next := Acted(s, prev, act, ulong);
      CountSplit(ActCalls(s, prev, act, ulong), RunCalls(next, TimeAfter(prev, act), rest, ulong), t.id);
      match act
      case Poll(now) =>
        assert PollTimes(acts) == [now] + times && ([now] + times)[1..] == times;
        PolledAmong(a, t, b, now, ulong);
        RepeatingRunsAlone(PollAll(a, now, ulong), Polled(t, now, ulong), PollAll(b, now, ulong), now, rest, limit,
                           ulong);
      case Add(slot, runNow) =>
        assert PollTimes(acts) == times;
        assert [slot] + s == ([slot] + a) + [t] + b;
        RepeatingRunsAlone([slot] + a, t, b, prev, rest, limit, ulong);
      case Drop(id) =>
        assert PollTimes(acts) == times;
        DroppedAmong(a, t, b, id);
        RepeatingRunsAlone(Dropped(a, id), t, Dropped(b, id), prev, rest, limit, ulong);
    }
  }

  /** So the rate bound reaches the list: the callbacks of a timer not polled before, counted
      in the log of the whole list. */
  lemma ListRateBound<T>(a: seq<Slot<T>>, t: Slot<T>, b: seq<Slot<T>>, prev: nat, acts: seq<Act<T>>, t0: nat,
                         times: seq<nat>, limit: nat, ulong: Width)
    requires t.repeating && t.period > 0 && t.expire == 0 && Apart(a, t.id) && Apart(b, t.id)
    requires forall k :: 0 <= k < |acts| ==> Leaves(acts[k], t.id)
    requires PollTimes(acts) == [t0] + times && prev <= t0 && Steady(t0, times, limit) && t0 <= limit
    requires DeadlinesFit(t0, t.period, limit, ulong)
    ensures CountOf(RunCalls(a + [t] + b, prev, acts, ulong), t.id) * t.period <= Last(t0, times) - t0
  {
    assert ([t0] + times)[1..] == times;
    RepeatingRunsAlone(a, t, b, prev, acts, limit, ulong);
    RateBound(t, t0, limit, times, ulong);
  }

  // ----- Timers that fire once, and a clock that goes back -----

  lemma {:induction false} OthersNeverCalled<T>(s: seq<Slot<T>>, id: T, prev: nat, acts: seq<Act<T>>, limit: nat,
                                                ulong: Width)
    requires Apart(s, id) && Steady(prev, PollTimes(acts), limit)
    requires forall k :: 0 <= k < |acts| ==> Leaves(acts[k], id)
    ensures CountOf(RunCalls(s, prev, acts, ulong), id) == 0 && Apart(RunList(s, prev, acts, ulong), id)
    decreases |acts|
  {
    if acts != [] {
      var act, rest, next := acts[0], acts[1..], Acted(s, prev, acts[0], ulong);
      CountSplit(ActCalls(s, prev, act, ulong), RunCalls(next, TimeAfter(prev, act), rest, ulong), id);
      PollTimesFirst(acts);
      match act
      case Poll(now) =>
        OthersPolled(s, now, id, ulong);
        OthersNeverCalled(next, id, now, rest, limit, ulong);
      case Add(slot, runNow) =>
        CountOther(slot.id, runNow, id);
        OthersNeverCalled(next, id, prev, rest, limit, ulong);
      case Drop(dropped) =>
        OthersDropped(s, dropped, id);
        OthersNeverCalled(next, id, prev, rest, limit, ulong);
    }
  }

  lemma PollTimesFirst<T>(acts: seq<Act<T>>)
    requires acts != []
    ensures acts[0].Poll? ==> PollTimes(acts) == [acts[0].now] + PollTimes(acts[1..])
    ensures acts[0].Poll? ==> PollTimes(acts)[1..] == PollTimes(acts[1..])
    ensures !acts[0].Poll? ==> PollTimes(acts) == PollTimes(acts[1..])
  {
    if acts[0].Poll? { assert ([acts[0].now] + PollTimes(acts[1..]))[1..] == PollTimes(acts[1..]); }
  }

  lemma CountOther<T>(x: T, once: bool, id: T)
    requires x != id
    ensures CountOf(if once then [x] else [], id) == 0
  {
    assert [x][1..] == [];
  }

  /** A timer that is due once: not due yet it stays, due it is called and gone. */
  lemma OnceAmong<T>(a: seq<Slot<T>>, t: Slot<T>, b: seq<Slot<T>>, now: nat, ulong: Width)
    requires !t.repeating && 0 < t.expire && Apart(a, t.id) && Apart(b, t.id)
    ensures now < t.expire ==> PollAll(a + [t] + b, now, ulong) == PollAll(a, now, ulong) + [t] + PollAll(b, now, ulong)
    ensures now >= t.expire ==> Apart(PollAll(a + [t] + b, now, ulong), t.id)
    ensures Apart(PollAll(a, now, ulong), t.id) && Apart(PollAll(b, now, ulong), t.id)
  {
    PollAllSplit(a + [t], b, now, ulong);
    PollOneMore(a, t, now, ulong);
    OthersPolled(a, now, t.id, ulong);
    OthersPolled(b, now, t.id, ulong);
    if now < t.expire { assert Kept(t, now, ulong) == [t]; }
  }

  lemma OnceCalled<T>(a: seq<Slot<T>>, t: Slot<T>, b: seq<Slot<T>>, now: nat, ulong: Width)
    requires !t.repeating && 0 < t.expire && Apart(a, t.id) && Apart(b, t.id)
    ensures CountOf(Calls(a + [t] + b, now, ulong), t.id) == if now >= t.expire then 1 else 0
  {
    CallsSplit(a + [t], b, now, ulong);
    CallsOneMore(a, t, now, ulong);
    OthersPolled(a, now, t.id, ulong);
    OthersPolled(b, now, t.id, ulong);
    CountSplit(Calls(a, now, ulong) + Called(t, now, ulong), Calls(b, now, ulong), t.id);
    CountSplit(Calls(a, now, ulong), Called(t, now, ulong), t.id);
    CountOnce(t.id, now >= t.expire);
  }

  lemma {:induction false} LastIsLatest(from: nat, times: seq<nat>, limit: nat)
    requires Steady(from, times, limit)
    ensures from <= Last(from, times)
    decreases times
  {
    if times != [] { LastIsLatest(times[0], times[1..], limit); }
  }

  /** With its deadline set, a timer that does not repeat is called once when a poll comes at or
      after the deadline, and then it is in the list no more; before that it is not called. */
  lemma {:induction false} OnceRuns<T>(a: seq<Slot<T>>, t: Slot<T>, b: seq<Slot<T>>, prev: nat, acts: seq<Act<T>>,
                                       limit: nat, ulong: Width)
    requires !t.repeating && 0 < t.expire && Apart(a, t.id) && Apart(b, t.id) && prev < t.expire
    requires Steady(prev, PollTimes(acts), limit) && forall k :: 0 <= k < |acts| ==> Leaves(acts[k], t.id)
    ensures var over := Last(prev, PollTimes(acts)) >= t.expire;
      && CountOf(RunCalls(a + [t] + b, prev, acts, ulong), t.id) == (if over then 1 else 0)
      && (Apart(RunList(a + [t] + b, prev, acts, ulong), t.id) <==> over)
    decreases |acts|
  {
    if acts == [] {
      assert (a + [t] + b)[|a|] == t;
    } else {
      var s, act, rest := a + [t] + b, acts[0], acts[1..];
      var next := Acted(s, prev, act, ulong);
      CountSplit(ActCalls(s, prev, act, ulong), RunCalls(next, TimeAfter(prev, act), rest, ulong), t.id);
      PollTimesFirst(acts);
      match act
      case Poll(now) =>
        OnceAmong(a, t, b, now, ulong);
        OnceCalled(a, t, b, now, ulong);
        if now >= t.expire {
          OthersNeverCalled(next, t.id, now, rest, limit, ulong);
          LastIsLatest(now, PollTimes(rest), limit);
        } else {
          OnceRuns(PollAll(a, now, ulong), t, PollAll(b, now, ulong), now, rest, limit, ulong);
        }
      case Add(slot, runNow) =>
        CountOther(slot.id, runNow, t.id);
        assert [slot] + s == ([slot] + a) + [t] + b;
        OnceRuns([slot] + a, t, b, prev, rest, limit, ulong);
      case Drop(id) =>
        OnceDropped(a, t, b, id);
        OnceRuns(Dropped(a, id), t, Dropped(b, id), prev, rest, limit, ulong);
    }
  }

  lemma OnceDropped<T>(a: seq<Slot<T>>, t: Slot<T>, b: seq<Slot<T>>, id: T)
    requires t.id != id && Apart(a, t.id) && Apart(b, t.id)
    ensures Dropped(a + [t] + b, id) == Dropped(a, id) + [t] + Dropped(b, id)
    ensures Apart(Dropped(a, id), t.id) && Apart(Dropped(b, id), t.id)
  {
    DroppedAmong(a, t, b, id);
  }

  /** When the time has gone back nobody is called, nobody leaves, and every deadline is a
      period from now. */
  lemma {:induction false} ClockBack<T>(s: seq<Slot<T>>, prev: nat, now: nat, ulong: Width)
    requires now < prev && forall k :: 0 <= k < |s| ==> 0 < s[k].period && now + s[k].period < ulong
    ensures var r := Acted(s, prev, Poll(now), ulong);
      && |r| == |s| && ActCalls(s, prev, Act<T>.Poll(now), ulong) == []
      && forall k :: 0 <= k < |s| ==> r[k] == s[k].(expire := now + s[k].period)
    decreases |s|
  {
    if s != [] {
      ClockBack(s[1..], prev, now, ulong);
      assert Reset(s)[1..] == Reset(s[1..]) && Reset(s)[0] == s[0].(expire := 0);
    }
  }

  // ----- Runs one act longer -----

  function TimeAfterAll<T>(prev: nat, acts: seq<Act<T>>): nat
    decreases |acts|
  {
    if acts == [] then prev else TimeAfterAll(TimeAfter(prev, acts[0]), acts[1..])
  }

  lemma {:induction false} RunSplit<T>(s: seq<Slot<T>>, prev: nat, a: seq<Act<T>>, b: seq<Act<T>>, ulong: Width)
    ensures TimeAfterAll(prev, a + b) == TimeAfterAll(TimeAfterAll(prev, a), b)
    ensures RunList(s, prev, a + b, ulong) == RunList(RunList(s, prev, a, ulong), TimeAfterAll(prev, a), b, ulong)
    ensures RunCalls(s, prev, a + b, ulong)
         == RunCalls(s, prev, a, ulong) + RunCalls(RunList(s, prev, a, ulong), TimeAfterAll(prev, a), b, ulong)
    decreases |a|
  {
    if a == [] {
      assert a + b == b;
    } else {
      var next, now := Acted(s, prev, a[0], ulong), TimeAfter(prev, a[0]);
      assert (a + b)[0] == a[0] && (a + b)[1..] == a[1..] + b;
      RunSplit(next, now, a[1..], b, ulong);
      assert RunCalls(s, prev, a + b, ulong) == ActCalls(s, prev, a[0], ulong) + RunCalls(next, now, a[1..] + b, ulong);
    }
  }

  lemma RunOneMore<T>(s: seq<Slot<T>>, prev: nat, acts: seq<Act<T>>, act: Act<T>, ulong: Width)
    ensures TimeAfterAll(prev, acts + [act]) == TimeAfter(TimeAfterAll(prev, acts), act)
    ensures RunList(s, prev, acts + [act], ulong)
         == Acted(RunList(s, prev, acts, ulong), TimeAfterAll(prev, acts), act, ulong)
    ensures RunCalls(s, prev, acts + [act], ulong)
         == RunCalls(s, prev, acts, ulong)
          + ActCalls(RunList(s, prev, acts, ulong), TimeAfterAll(prev, acts), act, ulong)
  {
    RunSplit(s, prev, acts, [act], ulong);
    assert [act][1..] == [];
  }

  /** A list, the callbacks so far and the time of the last poll, as a run from nothing leaves them. */
  ghost predicate Reached<T>(s: seq<Slot<T>>, calls: seq<T>, now: nat, acts: seq<Act<T>>, ulong: Width) {
    s == RunList([], 0, acts, ulong) && calls == RunCalls([], 0, acts, ulong) && now == TimeAfterAll(0, acts)
  }

  lemma ReachedNext<T>(s: seq<Slot<T>>, calls: seq<T>, now: nat, acts: seq<Act<T>>, act: Act<T>, ulong: Width)
    requires Reached(s, calls, now, acts, ulong)
    ensures Reached(Acted(s, now, act, ulong), calls + ActCalls(s, now, act, ulong), TimeAfter(now, act),
                    acts + [act], ulong)
  {
    RunOneMore([], 0, acts, act, ulong);
  }

  /** The callbacks of a run are those before a timer was added, the one when it was added, and those since. */
  lemma CallsSinceAdded<T>(before: seq<Act<T>>, t: Slot<T>, runNow: bool, more: seq<Act<T>>, ulong: Width)
    ensures var others, prev := RunList([], 0, before, ulong), TimeAfterAll(0, before);
      RunCalls([], 0, before + [Add(t, runNow)] + more, ulong)
      == RunCalls([], 0, before, ulong) + (if runNow then [t.id] else []) + RunCalls([t] + others, prev, more, ulong)
  {
    RunOneMore([], 0, before, Add(t, runNow), ulong);
    RunSplit([], 0, before + [Add(t, runNow)], more, ulong);
  }

  lemma CountOnce<T>(x: T, once: bool)
    ensures CountOf(if once then [x] else [], x) == if once then 1 else 0
  {
    assert [x][1..] == [];
  }

  /** How often `id` has been called, not counting a call when it was added. */
  function SinceAdded<T(==)>(calls: seq<T>, id: T, runNow: bool): int {
    CountOf(calls, id) - if runNow then 1 else 0
  }

  lemma CountSinceAdded<T>(before: seq<Act<T>>, t: Slot<T>, runNow: bool, more: seq<Act<T>>, ulong: Width)
    requires CountOf(RunCalls([], 0, before, ulong), t.id) == 0
    ensures var others, prev := RunList([], 0, before, ulong), TimeAfterAll(0, before);
      SinceAdded(RunCalls([], 0, before + [Add(t, runNow)] + more, ulong), t.id, runNow)
      == CountOf(RunCalls([t] + others, prev, more, ulong), t.id)
  {
    var others, prev := RunList([], 0, before, ulong), TimeAfterAll(0, before);
    var first, once := RunCalls([], 0, before, ulong), if runNow then [t.id] else [];
    CallsSinceAdded(before, t, runNow, more, ulong);
    CountSplit(first + once, RunCalls([t] + others, prev, more, ulong), t.id);
    CountSplit(first, once, t.id);
    CountOnce(t.id, runNow);
  }

  lemma FrontRateBound<T>(t: Slot<T>, others: seq<Slot<T>>, prev: nat, more: seq<Act<T>>, t0: nat, times: seq<nat>,
                          limit: nat, ulong: Width)
    requires t.repeating && t.period > 0 && t.expire == 0 && Apart(others, t.id)
    requires forall k :: 0 <= k < |more| ==> Leaves(more[k], t.id)
    requires PollTimes(more) == [t0] + times && prev <= t0
    requires Steady(t0, times, limit) && t0 <= limit && DeadlinesFit(t0, t.period, limit, ulong)
    ensures CountOf(RunCalls([t] + others, prev, more, ulong), t.id) * t.period <= Last(t0, times) - t0
  {
    assert [] + [t] + others == [t] + others;
    ListRateBound([], t, others, prev, more, t0, times, limit, ulong);
  }

  /** For every run from the beginning: since a repeating timer was added it has been called, not
      counting a call at once, at most once per period, whatever was done to other timers. */
  lemma AddedRateBound<T>(before: seq<Act<T>>, t: Slot<T>, runNow: bool, more: seq<Act<T>>, t0: nat, times: seq<nat>,
                          limit: nat, ulong: Width)
    requires t.repeating && t.period > 0 && t.expire == 0
    requires CountOf(RunCalls([], 0, before, ulong), t.id) == 0 && Apart(RunList([], 0, before, ulong), t.id)
    requires forall k :: 0 <= k < |more| ==> Leaves(more[k], t.id)
    requires PollTimes(more) == [t0] + times && TimeAfterAll(0, before) <= t0
    requires Steady(t0, times, limit) && t0 <= limit && DeadlinesFit(t0, t.period, limit, ulong)
    ensures SinceAdded(RunCalls([], 0, before + [Add(t, runNow)] + more, ulong), t.id, runNow) * t.period
         <= Last(t0, times) - t0
  {
    var others, prev := RunList([], 0, before, ulong), TimeAfterAll(0, before);
    FrontRateBound(t, others, prev, more, t0, times, limit, ulong);
    CountSinceAdded(before, t, runNow, more, ulong);
  }
}
