/** The linked list of timers and its walk in `mongoose.c`, where a timer may unlink
    itself while the list is being walked. */
module TimerList {
  import opened TimerLaws
  import opened TimerRules
  import opened TimerRuns

  class Timer {
    var period: nat
    var repeating: bool
    var expire: nat
    var next: Timer?

    constructor (period: nat, repeating: bool, next: Timer?)
      ensures this.period == period && this.repeating == repeating && this.expire == 0 && this.next == next
    {
      this.period, this.repeating, this.expire, this.next := period, repeating, 0, next;
    }

    /** The arithmetic of one visit: whether the timer fires, and its next deadline. */
    method Tick(now: nat, ulong: Width) returns (fires: bool)
      modifies this`expire
      ensures SlotOf(this) == Polled(old(SlotOf(this)), now, ulong) && fires == Due(old(SlotOf(this)), now, ulong)
    {
      if expire == 0 {
        expire := Wrap(now + period, ulong);
      }
      fires := expire <= now;
      if fires {
        expire := if now - expire > period then Wrap(now + period, ulong) else Wrap(expire + period, ulong);
      }
    }
  }

  function At(list: seq<Timer>, i: nat): Timer? {
    if i < |list| then list[i] else null
  }

  predicate Distinct(list: seq<Timer>) {
    forall i, j :: 0 <= i < j < |list| ==> list[i] != list[j]
  }

  ghost predicate Linked(list: seq<Timer>)
    reads list`next
  {
    Distinct(list) && forall i {:trigger list[i].next} :: 0 <= i < |list| ==> list[i].next == At(list, i + 1)
  }

  /** `t` stands at `at`, or nowhere in the list. */
  predicate Stands(list: seq<Timer>, t: Timer, at: nat) {
    Distinct(list) && if at < |list| then list[at] == t else at == |list| && t !in list
  }

  function Before(list: seq<Timer>, i: nat): Timer? {
    if 0 < i <= |list| then list[i - 1] else null
  }

  function Without<T>(list: seq<T>, at: nat): seq<T> {
    if at < |list| then list[..at] + list[at + 1..] else list
  }

  lemma WithoutSame<T>(a: seq<T>, b: seq<T>, at: nat)
    requires at < |a| == |b| && forall i :: 0 <= i < |a| && i != at ==> a[i] == b[i]
    ensures Without(a, at) == Without(b, at)
  {
  }

  lemma WithoutIs(list: seq<Timer>, at: nat)
    requires Distinct(list) && at < |list|
    ensures var r := Without(list, at);
      Distinct(r) && |r| == |list| - 1 &&
      forall i :: 0 <= i < |r| ==> r[i] == (if i < at then list[i] else list[i + 1])
  {
  }

  predicate Within(list: seq<Timer>, all: seq<Timer>) {
    forall i :: 0 <= i < |list| ==> list[i] in all
  }

  lemma WithinWithout(list: seq<Timer>, at: nat, all: seq<Timer>)
    requires Within(list, all)
    ensures Within(Without(list, at), all)
  {
  }

  function SlotOf(t: Timer): Slot<Timer>
    reads t`period, t`repeating, t`expire
  {
    Slot(t, t.period, t.repeating, t.expire)
  }

  ghost function Slots(list: seq<Timer>): (s: seq<Slot<Timer>>)
    reads list`period, list`repeating, list`expire
    ensures Show(list, s)
  {
    if list == [] then [] else [SlotOf(list[0])] + Slots(list[1..])
  }

  ghost predicate Show(list: seq<Timer>, s: seq<Slot<Timer>>)
    reads list`period, list`repeating, list`expire
  {
    |s| == |list| && forall i :: 0 <= i < |list| ==> SlotOf(list[i]) == s[i]
  }

  lemma ShowAll(list: seq<Timer>, s: seq<Slot<Timer>>)
    requires Show(list, s)
    ensures s == Slots(list)
  {
  }

  lemma ShowWithout(list: seq<Timer>, s: seq<Slot<Timer>>, at: nat)
    requires Show(list, s) && at < |list|
    ensures Show(Without(list, at), Without(s, at))
  {
  }

  /** What polling slot `at` makes of the slots. */
  function PolledAt(s: seq<Slot<Timer>>, at: nat, now: nat, ulong: Width): seq<Slot<Timer>>
    requires at < |s|
  {
    if Stays(s[at], now, ulong) then s[at := Polled(s[at], now, ulong)] else Without(s, at)
  }

  /** Where the timer after slot `at` stands once slot `at` has been polled. */
  function NextAt(s: seq<Slot<Timer>>, at: nat, now: nat, ulong: Width): nat
    requires at < |s|
  {
    if Stays(s[at], now, ulong) then at + 1 else at
  }

  /** A walk that has polled `done` and has `todo` before it; `seen` are the slots now. */
  predicate Stage(slots: seq<Slot<Timer>>, done: seq<Slot<Timer>>, todo: seq<Slot<Timer>>, seen: seq<Slot<Timer>>,
                  at: nat, now: nat, ulong: Width) {
    done + todo == slots && seen == PollAll(done, now, ulong) + todo && at == |PollAll(done, now, ulong)|
  }

  lemma ShowPolled(list: seq<Timer>, s: seq<Slot<Timer>>, at: nat, now: nat, ulong: Width)
    requires at < |list| == |s|
    requires forall i :: 0 <= i < |list| && i != at ==> SlotOf(list[i]) == s[i]
    requires SlotOf(list[at]) == Polled(s[at], now, ulong)
    ensures Stays(s[at], now, ulong) ==> Show(list, PolledAt(s, at, now, ulong))
    ensures !Stays(s[at], now, ulong) ==> Show(Without(list, at), PolledAt(s, at, now, ulong))
  {
    var t := s[at := Polled(s[at], now, ulong)];
    assert Show(list, t);
    ShowWithout(list, t, at);
    WithoutSame(s, t, at);
  }

  lemma PolledBetween(a: seq<Slot<Timer>>, s: Slot<Timer>, b: seq<Slot<Timer>>, now: nat, ulong: Width)
    ensures PolledAt(a + [s] + b, |a|, now, ulong) == a + Kept(s, now, ulong) + b
    ensures NextAt(a + [s] + b, |a|, now, ulong) == |a + Kept(s, now, ulong)|
  {
    var all := a + [s] + b;
    assert all[|a|] == s;
    if Stays(s, now, ulong) {
      assert all[|a| := Polled(s, now, ulong)] == a + [Polled(s, now, ulong)] + b;
    } else {
      assert all[..|a|] == a && all[|a| + 1..] == b;
      assert a + Kept(s, now, ulong) == a;
    }
  }

  lemma StageOneMore(slots: seq<Slot<Timer>>, done: seq<Slot<Timer>>, todo: seq<Slot<Timer>>, seen: seq<Slot<Timer>>,
                     at: nat, now: nat, ulong: Width)
    requires Stage(slots, done, todo, seen, at, now, ulong) && todo != []
    ensures at < |seen| && seen[at] == todo[0]
    ensures Stage(slots, done + [todo[0]], todo[1..], PolledAt(seen, at, now, ulong), NextAt(seen, at, now, ulong),
                  now, ulong)
  {
    var a, t, b := PollAll(done, now, ulong), todo[0], todo[1..];
    assert todo == [t] + b;
    assert seen == a + [t] + b;
    PolledBetween(a, t, b, now, ulong);
    PollOneMore(done, t, now, ulong);
    assert done + [t] + b == slots;
  }

  lemma CallsSoFar(had: seq<Timer>, done: seq<Slot<Timer>>, s: Slot<Timer>, now: nat, ulong: Width)
    ensures had + Calls(done + [s], now, ulong) == had + Calls(done, now, ulong) + Called(s, now, ulong)
  {
    CallsOneMore(done, s, now, ulong);
  }

  lemma StageEnds(slots: seq<Slot<Timer>>, done: seq<Slot<Timer>>, todo: seq<Slot<Timer>>, seen: seq<Slot<Timer>>,
                  at: nat, now: nat, ulong: Width)
    requires Stage(slots, done, todo, seen, at, now, ulong) && at >= |seen|
    ensures seen == PollAll(slots, now, ulong) && done == slots
  {
    assert todo == [];
    assert done + [] == done && PollAll(done, now, ulong) + [] == PollAll(done, now, ulong);
  }

  class Manager {
    const ulong: Width
    var head: Timer?
    var oldNow: nat
    var calls: seq<Timer>
    ghost var list: seq<Timer>
    ghost var acts: seq<Act<Timer>>

    ghost predicate Valid()
      reads this`head, this`list, list`next
    {
      head == At(list, 0) && Linked(list)
    }

    /** The list, the callbacks and the clock are those of the run `acts`: all that was done
        to the timers since the beginning. */
    ghost predicate Logged()
      reads this, list
    {
      Reached(Slots(list), calls, oldNow, acts, ulong)
    }

    constructor (ulong: Width)
      ensures Valid() && Logged() && acts == [] && this.ulong == ulong
    {
      this.ulong := ulong;
      head, oldNow, calls, list, acts := null, 0, [], [], [];
    }

    /** `mg_timer_init`. */
    method Init(period: nat, repeating: bool, runNow: bool) returns (t: Timer)
      requires Valid() && Logged()
      modifies this`head, this`list, this`calls, this`acts
      ensures Valid() && fresh(t) && list == [t] + old(list)
      ensures SlotOf(t) == Slot(t, period, repeating, 0)
      ensures calls == old(calls) + (if runNow then [t] else [])
      ensures Logged() && acts == old(acts) + [Add(SlotOf(t), runNow)]
    {
      ghost var slots, had := Slots(list), calls;
      t := Link(period, repeating);
      if runNow {
        calls := calls + [t];
      }
      Log(Add(SlotOf(t), runNow), slots, had, oldNow);
    }

    method Link(period: nat, repeating: bool) returns (t: Timer)
      requires Valid()
      modifies this`head, this`list
      ensures Valid() && fresh(t) && list == [t] + old(list)
      ensures SlotOf(t) == Slot(t, period, repeating, 0)
      ensures Slots(list) == [SlotOf(t)] + old(Slots(list))
    {
      t := new Timer(period, repeating, head);
      ghost var was, slots := list, Slots(list);
      Push(t);
      assert list[1..] == was && Slots(was) == slots;
    }

    ghost method Log(act: Act<Timer>, slots: seq<Slot<Timer>>, had: seq<Timer>, prev: nat)
      requires Reached(slots, had, prev, acts, ulong)
      requires Slots(list) == Acted(slots, prev, act, ulong) && oldNow == TimeAfter(prev, act)
      requires calls == had + ActCalls(slots, prev, act, ulong)
      modifies this`acts
      ensures Logged() && acts == old(acts) + [act]
    {
      ReachedNext(slots, had, prev, acts, act, ulong);
      acts := acts + [act];
    }

    method Push(t: Timer)
      requires Valid() && t !in list && t.next == head
      modifies this`head, this`list
      ensures Valid() && list == [t] + old(list)
    {
      ghost var was := list;
      head := t;
      list := [t] + list;
      assert forall i :: 0 < i < |list| ==> list[i] == was[i - 1];
    }

    /** The first loop of `mg_timer_free`: the timer whose link leads to `t`, if any. */
    method Seek(t: Timer, ghost at: nat) returns (before: Timer?, here: Timer?)
      requires Valid() && Stands(list, t, at)
      ensures here == At(list, at) && before == Before(list, at)
    {
      before, here := null, head;
      ghost var i := 0;
      while here != null && here != t
        invariant i <= at && here == At(list, i) && before == Before(list, i)
        decreases at - i
      {
        before, here := here, here.next;
        i := i + 1;
      }
    }

    /** `mg_timer_free`: unlinks a timer wherever it stands; the others keep their order.
        A timer that is in no list is left alone. */
    method Unlink(t: Timer, ghost at: nat)
      requires Valid() && Stands(list, t, at)
      modifies this`head, this`list, list`next
      ensures Valid() && list == Without(old(list), at)
      ensures t.next == old(t.next)
    {
      var before, here := Seek(t, at);
      ghost var was := list;
      list := Without(list, at);
      if here != null {
        WithoutIs(was, at);
        if before == null {
          head := t.next;
        } else {
          before.next := t.next;
        }
      }
    }

    method UnlinkSlot(t: Timer, ghost at: nat)
      requires Valid() && Stands(list, t, at)
      modifies this`head, this`list, list`next
      ensures Valid() && list == Without(old(list), at) && t !in list
      ensures Slots(list) == Dropped(old(Slots(list)), t)
    {
      SlotsDropped(list, t, at);
      ghost var rest, left := Without(list, at), Slots(Without(list, at));
      Unlink(t, at);
      assert Slots(rest) == left;
    }

    /** `mg_timer_free`, called from outside a poll. */
    method Free(t: Timer, ghost at: nat)
      requires Valid() && Logged() && Stands(list, t, at)
      modifies this`head, this`list, this`acts, list`next
      ensures Valid() && list == Without(old(list), at) && t !in list
      ensures Logged() && acts == old(acts) + [Drop(t)]
    {
      ghost var slots := Slots(list);
      assert calls == calls + [];
      UnlinkSlot(t, at);
      Log(Drop(t), slots, calls, oldNow);
    }

    /** The body of the walk in `mg_timer_poll`; `tmp` is the timer to visit next. */
    method Visit(t: Timer, now: nat, ghost at: nat) returns (tmp: Timer?)
      requires Valid() && at < |list| && list[at] == t
      modifies this`head, this`list, this`calls, list`next, t`expire
      ensures Valid() && SlotOf(t) == Polled(old(SlotOf(t)), now, ulong)
      ensures tmp == At(list, if Stays(old(SlotOf(t)), now, ulong) then at + 1 else at)
      ensures list == if Stays(old(SlotOf(t)), now, ulong) then old(list) else Without(old(list), at)
      ensures calls == old(calls) + if Due(old(SlotOf(t)), now, ulong) then [t] else []
    {
      tmp := t.next;
      var fires := t.Tick(now, ulong);
      if fires {
        calls := calls + [t];
        if !t.repeating {
          WithoutIs(list, at);
          Unlink(t, at);
        }
      }
    }

    method ResetAll(ghost slots: seq<Slot<Timer>>)
      requires Valid() && Show(list, slots)
      modifies list`expire
      ensures Show(list, Reset(slots))
    {
      var t := head;
      ghost var i := 0;
      while t != null
        invariant i <= |list| && t == At(list, i)
        invariant forall j :: 0 <= j < |list| ==>
          SlotOf(list[j]) == if j < i then slots[j].(expire := 0) else slots[j]
        decreases |list| - i
      {
        t.expire := 0;
        t := t.next;
        i := i + 1;
      }
    }

    /** One turn of the walk, on the slots. */
    method Turn(t: Timer, now: nat, ghost at: nat, ghost slots: seq<Slot<Timer>>, ghost all: seq<Timer>)
      returns (tmp: Timer?)
      requires Valid() && Show(list, slots) && at < |list| && list[at] == t && Within(list, all)
      modifies this`head, this`list, this`calls, list`next, t`expire
      ensures Valid() && Show(list, PolledAt(slots, at, now, ulong))
      ensures tmp == At(list, NextAt(slots, at, now, ulong))
      ensures Within(list, all)
      ensures calls == old(calls) + Called(slots[at], now, ulong)
    {
      ghost var was := list;
      WithinWithout(list, at, all);
      tmp := Visit(t, now, at);
      ShowPolled(was, slots, at, now, ulong);
    }

    /** Where the walk stands: `t` is the timer at `at`, the list shows `seen`, and `seen` is what
        polling `done` made of the slots, with `todo` still to come. */
    ghost predicate Walking(t: Timer?, at: nat, seen: seq<Slot<Timer>>, done: seq<Slot<Timer>>, todo: seq<Slot<Timer>>,
                            slots: seq<Slot<Timer>>, had: seq<Timer>, all: seq<Timer>, now: nat)
      reads this`head, this`list, this`calls, list`next, list`period, list`repeating, list`expire
    {
      && Valid() && Show(list, seen) && t == At(list, at) && Within(list, all)
      && Stage(slots, done, todo, seen, at, now, ulong)
      && calls == had + Calls(done, now, ulong)
    }

    method Advance(t: Timer, now: nat, ghost at: nat, ghost seen: seq<Slot<Timer>>, ghost done: seq<Slot<Timer>>,
                   ghost todo: seq<Slot<Timer>>, ghost slots: seq<Slot<Timer>>, ghost had: seq<Timer>,
                   ghost all: seq<Timer>)
      returns (tmp: Timer?, ghost at': nat, ghost seen': seq<Slot<Timer>>)
      requires Walking(t, at, seen, done, todo, slots, had, all, now) && todo != []
      modifies this`head, this`list, this`calls, list`next, list`expire
      ensures Walking(tmp, at', seen', done + [todo[0]], todo[1..], slots, had, all, now)
    {
      StageOneMore(slots, done, todo, seen, at, now, ulong);
      CallsSoFar(had, done, todo[0], now, ulong);
      tmp := Turn(t, now, at, seen, all);
      seen', at' := PolledAt(seen, at, now, ulong), NextAt(seen, at, now, ulong);
    }

    method Walk(now: nat, ghost slots: seq<Slot<Timer>>)
      requires Valid() && Show(list, slots)
      modifies this`head, this`list, this`calls, list`next, list`expire
      ensures Valid() && Show(list, PollAll(slots, now, ulong))
      ensures calls == old(calls) + Calls(slots, now, ulong)
    {
      ghost var had, all := calls, list;
      ghost var done: seq<Slot<Timer>>, todo, at, seen := [], slots, 0, slots;
      var t := head;
      while t != null
        invariant Walking(t, at, seen, done, todo, slots, had, all, now)
        decreases |todo|
      {
        t, at, seen := Advance(t, now, at, seen, done, todo, slots, had, all);
        done, todo := done + [todo[0]], todo[1..];
      }
      StageEnds(slots, done, todo, seen, at, now, ulong);
    }

    /** `mg_timer_poll`: whatever is unlinked on the way, every timer that was in the list
        is visited once and in order. */
    method Poll(now: nat)
      requires Valid() && Logged()
      modifies this, list
      ensures Valid() && oldNow == now
      ensures var before := Found(old(Slots(list)), old(oldNow), now);
        Slots(list) == PollAll(before, now, ulong) && calls == old(calls) + Calls(before, now, ulong)
      ensures Logged() && acts == old(acts) + [Act.Poll(now)]
    {
      ghost var before, slots, had, prev := Slots(list), Slots(list), calls, oldNow;
      if oldNow > now {
        ResetAll(before);
        before := Reset(before);
      }
      oldNow := now;
      assert Show(list, before);
      Walk(now, before);
      ShowAll(list, PollAll(before, now, ulong));
      Log(Act.Poll(now), slots, had, prev);
    }
  }

  lemma DroppedAt(s: seq<Slot<Timer>>, t: Timer, at: nat)
    requires forall i :: 0 <= i < |s| ==> (s[i].id == t <==> i == at)
    ensures Dropped(s, t) == Without(s, at)
  {
    if at < |s| {
      var a, x, b := s[..at], [s[at]], s[at + 1..];
      assert s == a + x + b;
      DroppedSplit(a + x, b, t);
      DroppedSplit(a, x, t);
      DroppedNone(a, t);
      DroppedNone(b, t);
      assert x[1..] == [];
    } else {
      DroppedNone(s, t);
    }
  }

  lemma SlotsDropped(list: seq<Timer>, t: Timer, at: nat)
    requires Stands(list, t, at)
    ensures Slots(Without(list, at)) == Dropped(Slots(list), t)
    ensures t !in Without(list, at)
  {
    var s := Slots(list);
    assert forall i :: 0 <= i < |s| ==> s[i].id == list[i];
    DroppedAt(s, t, at);
    if at < |list| {
      WithoutIs(list, at);
      ShowWithout(list, s, at);
      ShowAll(Without(list, at), Without(s, at));
    }
  }

  /** For every history of a manager the callbacks of a repeating timer keep to its period. */
  lemma ManagerRateBound(m: Manager, before: seq<Act<Timer>>, t: Slot<Timer>, runNow: bool, more: seq<Act<Timer>>,
                         t0: nat, times: seq<nat>, limit: nat)
    requires m.Logged() && m.acts == before + [Add(t, runNow)] + more
    requires t.repeating && t.period > 0 && t.expire == 0
    requires CountOf(RunCalls([], 0, before, m.ulong), t.id) == 0 && Apart(RunList([], 0, before, m.ulong), t.id)
    requires forall k :: 0 <= k < |more| ==> Leaves(more[k], t.id)
    requires PollTimes(more) == [t0] + times && TimeAfterAll(0, before) <= t0
    requires Steady(t0, times, limit) && t0 <= limit && DeadlinesFit(t0, t.period, limit, m.ulong)
    ensures SinceAdded(m.calls, t.id, runNow) * t.period <= Last(t0, times) - t0
  {
    AddedRateBound(before, t, runNow, more, t0, times, limit, m.ulong);
  }
}
