/** What polling means for one repeating timer over whole runs of polls: how often it fires,
    whether it drifts, and exactly when `unsigned long` is too short for that. */
module TimerLaws {
  import opened TimerRules

  // ----- Runs of polls on a repeating timer -----

  function Fires<T>(s: Slot<T>, times: seq<nat>, ulong: Width): nat
    decreases times
  {
    if times == [] then 0
    else (if Due(s, times[0], ulong) then 1 else 0) + Fires(Polled(s, times[0], ulong), times[1..], ulong)
  }

  function AfterPolls<T>(s: Slot<T>, times: seq<nat>, ulong: Width): Slot<T>
    decreases times
  {
    if times == [] then s else AfterPolls(Polled(s, times[0], ulong), times[1..], ulong)
  }

  /** Times that do not go back and do not pass `limit`. */
  predicate Steady(from: nat, times: seq<nat>, limit: nat)
    decreases times
  {
    times == [] || (from <= times[0] <= limit && Steady(times[0], times[1..], limit))
  }

  predicate Gaps(from: nat, times: seq<nat>, gap: nat)
    decreases times
  {
    times == [] || (times[0] <= from + gap && Gaps(times[0], times[1..], gap))
  }

  function Last(from: nat, times: seq<nat>): nat
    decreases times
  {
    if times == [] then from else Last(times[0], times[1..])
  }

  lemma OneMorePeriod(k: nat, period: nat)
    ensures (k + 1) * period == k * period + period
  {
  }

  /** A deadline that is over, pushed on without the wrap of `unsigned long`. */
  function PushedOn(e: nat, period: nat, now: nat): nat
    requires e <= now
  {
    if now - e > period then now + period else e + period
  }

  lemma NextIs<T>(s: Slot<T>, now: nat, ulong: Width)
    requires s.expire > 0
    ensures s.expire > now ==> Next(s, now, ulong) == s.expire
    ensures s.expire <= now && PushedOn(s.expire, s.period, now) < ulong ==>
      Next(s, now, ulong) == PushedOn(s.expire, s.period, now)
  {
  }

  /** The first poll only sets the deadline. */
  lemma FirstPoll<T>(s: Slot<T>, t0: nat, times: seq<nat>, ulong: Width)
    requires s.period > 0 && s.expire == 0 && t0 + s.period < ulong
    ensures Polled(s, t0, ulong) == s.(expire := t0 + s.period)
    ensures Fires(s, [t0] + times, ulong) == Fires(Polled(s, t0, ulong), times, ulong)
    ensures AfterPolls(s, [t0] + times, ulong) == AfterPolls(Polled(s, t0, ulong), times, ulong)
  {
    assert ([t0] + times)[1..] == times;
  }

  // ----- The rate -----

  /** No deadline a run up to `limit` can set passes the end of `unsigned long`. */
  predicate DeadlinesFit(t0: nat, period: nat, limit: nat, ulong: Width) {
    && t0 + period < ulong
    && (limit < t0 + period || (if limit < t0 + 2 * period then t0 + 2 * period else limit + period) < ulong)
  }

  /** With less than two periods to go, the deadline is one of the first two. */
  predicate EarlyDeadline(e: nat, t0: nat, period: nat, limit: nat) {
    limit < t0 + 2 * period ==> e == t0 + period || e == t0 + 2 * period
  }

  lemma PushedOnFits(e: nat, t0: nat, period: nat, now: nat, limit: nat, ulong: Width)
    requires t0 + period <= e <= now <= limit
    requires DeadlinesFit(t0, period, limit, ulong) && EarlyDeadline(e, t0, period, limit)
    ensures PushedOn(e, period, now) < ulong && EarlyDeadline(PushedOn(e, period, now), t0, period, limit)
  {
  }

  /** `fired` callbacks so far, the first poll at `t0`: no deadline is early. */
  lemma {:induction false} NotTooOften<T>(s: Slot<T>, t0: nat, now: nat, fired: nat, limit: nat, times: seq<nat>,
                                          ulong: Width)
    requires s.period > 0 && t0 <= now && Steady(now, times, limit)
    requires DeadlinesFit(t0, s.period, limit, ulong) && EarlyDeadline(s.expire, t0, s.period, limit)
    requires fired * s.period <= now - t0 && t0 + (fired + 1) * s.period <= s.expire && t0 + s.period <= s.expire
    ensures (fired + Fires(s, times, ulong)) * s.period <= Last(now, times) - t0
    decreases times
  {
    if times != [] {
      var next := times[0];
      NextIs(s, next, ulong);
      OneMorePeriod(fired, s.period);
      OneMorePeriod(fired + 1, s.period);
      if s.expire <= next {
        PushedOnFits(s.expire, t0, s.period, next, limit, ulong);
        NotTooOften(Polled(s, next, ulong), t0, next, fired + 1, limit, times[1..], ulong);
      } else {
        NotTooOften(s, t0, next, fired, limit, times[1..], ulong);
      }
    }
  }

  /** A repeating timer never fires more than once a period, counting from its first poll,
      however irregular the polls, as long as the deadlines fit. */
  lemma RateBound<T>(s: Slot<T>, t0: nat, limit: nat, times: seq<nat>, ulong: Width)
    requires s.period > 0 && s.expire == 0 && Steady(t0, times, limit) && DeadlinesFit(t0, s.period, limit, ulong)
    ensures Fires(s, [t0] + times, ulong) * s.period <= Last(t0, times) - t0
  {
    FirstPoll(s, t0, times, ulong);
    OneMorePeriod(0, s.period);
    NotTooOften(Polled(s, t0, ulong), t0, t0, 0, limit, times, ulong);
  }

  /** `n` polls at the same time. */
  function Again(now: nat, n: nat): seq<nat> {
    if n == 0 then [] else [now] + Again(now, n - 1)
  }

  lemma {:induction false} AgainIsSteady(from: nat, now: nat, n: nat)
    requires from <= now
    ensures Steady(from, Again(now, n), now) && Last(from, Again(now, n)) == if n == 0 then from else now
    decreases n
  {
    if n > 0 {
      assert Again(now, n)[1..] == Again(now, n - 1);
      AgainIsSteady(now, now, n - 1);
    }
  }

  /** The deadline is over at `now`, and so will the next one be: it wraps, or it is late. */
  predicate Stuck<T>(s: Slot<T>, now: nat, ulong: Width) {
    var e := Deadline(s, now, ulong);
    e <= now && now + s.period >= ulong && (e + s.period >= ulong || now - e >= s.period)
  }

  lemma StaysStuck<T>(s: Slot<T>, now: nat, ulong: Width)
    requires Stuck(s, now, ulong) && now < ulong && 2 * s.period < ulong
    ensures Due(s, now, ulong) && Stuck(Polled(s, now, ulong), now, ulong)
  {
    var e := Deadline(s, now, ulong);
    if now - e > s.period {
      assert Next(s, now, ulong) == now + s.period - ulong;
    } else if e + s.period >= ulong {
      assert Next(s, now, ulong) == e + s.period - ulong;
    } else {
      assert Next(s, now, ulong) == now;
    }
  }

  /** Once the deadline wraps the timer fires at every poll, however little time passes. */
  lemma {:induction false} FiresEveryPoll<T>(s: Slot<T>, now: nat, n: nat, ulong: Width)
    requires Stuck(s, now, ulong) && now < ulong && 2 * s.period < ulong
    ensures Fires(s, Again(now, n), ulong) == n
    decreases n
  {
    if n > 0 {
      StaysStuck(s, now, ulong);
      assert Again(now, n)[1..] == Again(now, n - 1);
      FiresEveryPoll(Polled(s, now, ulong), now, n - 1, ulong);
    }
  }

  /** The rate bound in every run of polls up to `limit`. */
  ghost predicate RateHolds<T>(s: Slot<T>, t0: nat, limit: nat, ulong: Width) {
    forall times :: Steady(t0, times, limit) ==> Fires(s, [t0] + times, ulong) * s.period <= Last(t0, times) - t0
  }

  lemma MoreThanItself(n: nat, period: nat)
    requires period > 0
    ensures n * period >= n
  {
  }

  lemma WrapBreaksRate<T>(s: Slot<T>, t0: nat, limit: nat, ulong: Width) returns (times: seq<nat>)
    requires 0 < s.period && 2 * s.period < ulong && s.expire == 0 && t0 <= limit < ulong
    requires !DeadlinesFit(t0, s.period, limit, ulong)
    ensures Steady(t0, times, limit) && Fires(s, [t0] + times, ulong) * s.period > Last(t0, times) - t0
  {
    if t0 + s.period >= ulong {
      times := [];
      assert [t0] + times == [t0] && [t0][1..] == [];
      assert Fires(Polled(s, t0, ulong), [], ulong) == 0;
      assert Fires(s, [t0], ulong) == 1;
    } else {
      var n := limit - t0 + 1;
      times := Again(limit, n);
      AgainIsSteady(t0, limit, n);
      FirstPoll(s, t0, times, ulong);
      FiresEveryPoll(Polled(s, t0, ulong), limit, n, ulong);
      MoreThanItself(n, s.period);
    }
  }

  /** The rate bound holds in every run of polls up to `limit` exactly when the deadlines
      such a run can set fit `unsigned long`. The period is an `int`, so twice a period fits. */
  lemma RateBoundIff<T>(s: Slot<T>, t0: nat, limit: nat, ulong: Width)
    requires 0 < s.period && 2 * s.period < ulong && s.expire == 0 && t0 <= limit < ulong
    ensures RateHolds(s, t0, limit, ulong) <==> DeadlinesFit(t0, s.period, limit, ulong)
  {
    if DeadlinesFit(t0, s.period, limit, ulong) {
      forall times | Steady(t0, times, limit) ensures Fires(s, [t0] + times, ulong) * s.period <= Last(t0, times) - t0 {
        RateBound(s, t0, limit, times, ulong);
      }
    } else {
      var times := WrapBreaksRate(s, t0, limit, ulong);
    }
  }

  /** With at least two periods to go, that is: exactly when one more period fits behind
      the last poll. */
  lemma LongRunRateIff<T>(s: Slot<T>, t0: nat, limit: nat, ulong: Width)
    requires 0 < s.period && 2 * s.period < ulong && s.expire == 0 && t0 + 2 * s.period <= limit < ulong
    ensures RateHolds(s, t0, limit, ulong) <==> limit + s.period < ulong
  {
    RateBoundIff(s, t0, limit, ulong);
  }

  const W32: Width := 0x1_0000_0000

  /** With 32 bits, five polls within five milliseconds, five callbacks of a timer of one second. */
  lemma FiveInFiveMilliseconds()
    ensures var s, t0 := Slot(0, 1000, true, 0), W32 - 5000;
      var times := [W32 - 500, W32 - 499, W32 - 498, W32 - 497, W32 - 496];
      Steady(t0, times, W32 - 496) && Fires(s, [t0] + times, W32) == 5 && 5 * s.period > Last(t0, times) - t0
  {
    var s, t0 := Slot(0, 1000, true, 0), W32 - 5000;
    var times := [W32 - 500, W32 - 499, W32 - 498, W32 - 497, W32 - 496];
    var u := s.(expire := W32 - 4000);
    FirstPoll(s, t0, times, W32);
    var a, b, c, d := Polled(u, W32 - 500, W32), u.(expire := 501), u.(expire := 502), u.(expire := 503);
    assert a.expire == 500 && Due(u, W32 - 500, W32);
    assert Polled(a, W32 - 499, W32) == b && Polled(b, W32 - 498, W32) == c && Polled(c, W32 - 497, W32) == d;
    assert Due(a, W32 - 499, W32) && Due(b, W32 - 498, W32) && Due(c, W32 - 497, W32) && Due(d, W32 - 496, W32);
    var t1, t2 := [W32 - 499, W32 - 498, W32 - 497, W32 - 496], [W32 - 498, W32 - 497, W32 - 496];
    var t3, t4 := [W32 - 497, W32 - 496], [W32 - 496];
    assert times[1..] == t1 && t1[1..] == t2 && t2[1..] == t3 && t3[1..] == t4 && t4[1..] == [];
    assert Steady(W32 - 496, [], W32 - 496) && Last(W32 - 496, []) == W32 - 496;
    assert Steady(W32 - 497, t4, W32 - 496) && Last(W32 - 497, t4) == W32 - 496;
    assert Steady(W32 - 498, t3, W32 - 496) && Last(W32 - 498, t3) == W32 - 496;
    assert Steady(W32 - 499, t2, W32 - 496) && Last(W32 - 499, t2) == W32 - 496;
    assert Steady(W32 - 500, t1, W32 - 496) && Last(W32 - 500, t1) == W32 - 496;
    assert Fires(Polled(d, W32 - 496, W32), [], W32) == 0 && Fires(d, t4, W32) == 1;
    assert Fires(c, t3, W32) == 2 && Fires(b, t2, W32) == 3 && Fires(a, t1, W32) == 4;
  }

  // ----- The cadence -----

  /** The `k`-th point of the grid; the first after `limit` is number `Passed + 1`. */
  function Point(t0: nat, period: nat, k: nat): nat {
    t0 + k * period
  }

  function Passed(t0: nat, period: nat, limit: nat): (k: nat)
    requires period > 0 && t0 <= limit
    ensures Point(t0, period, k) <= limit < Point(t0, period, k + 1)
  {
    var k := (limit - t0) / period;
    Division(limit - t0, period);
    k
  }

  lemma Division(n: nat, period: nat)
    requires period > 0
    ensures n / period * period <= n < (n / period + 1) * period
  {
    OneMorePeriod(n / period, period);
  }

  lemma PointsGrow(t0: nat, period: nat, j: nat, k: nat)
    requires period > 0
    ensures j <= k <==> Point(t0, period, j) <= Point(t0, period, k)
  {
    if j <= k {
      assert (k - j) * period >= 0;
    } else {
      assert (j - k) * period > 0;
    }
  }

  /** With polls no further apart than the period, the deadline is always the next point
      of the grid and the timer has fired at every point passed. */
  lemma {:induction false} StaysOnGrid<T>(s: Slot<T>, t0: nat, now: nat, fired: nat, limit: nat, times: seq<nat>,
                                          ulong: Width)
    requires s.period > 0 && t0 <= now <= limit && Steady(now, times, limit) && Gaps(now, times, s.period)
    requires Point(t0, s.period, Passed(t0, s.period, limit) + 1) < ulong
    requires s.expire == Point(t0, s.period, fired + 1) && now < s.expire <= now + s.period
    ensures var k, e := fired + Fires(s, times, ulong), AfterPolls(s, times, ulong).expire;
      e == Point(t0, s.period, k + 1) && Last(now, times) < e <= Last(now, times) + s.period
    decreases times
  {
    if times != [] {
      var next, top := times[0], Passed(t0, s.period, limit);
      NextIs(s, next, ulong);
      if s.expire <= next {
        PointsGrow(t0, s.period, top + 1, fired + 1);
        PointsGrow(t0, s.period, fired + 2, top + 1);
        OneMorePeriod(fired + 1, s.period);
        StaysOnGrid(Polled(s, next, ulong), t0, next, fired + 1, limit, times[1..], ulong);
      } else {
        StaysOnGrid(s, t0, next, fired, limit, times[1..], ulong);
      }
    }
  }

  /** One callback for every whole period, and the deadline at the next point of the grid. */
  predicate OnGrid<T>(s: Slot<T>, t0: nat, times: seq<nat>, ulong: Width) {
    var k := Fires(s, [t0] + times, ulong);
    && Point(t0, s.period, k) <= Last(t0, times) < Point(t0, s.period, k + 1)
    && AfterPolls(s, [t0] + times, ulong).expire == Point(t0, s.period, k + 1)
  }

  /** No drift: after every poll the number of callbacks is exactly the number of whole
      periods since the first poll, and the deadline lies on the grid. */
  lemma NoDrift<T>(s: Slot<T>, t0: nat, limit: nat, times: seq<nat>, ulong: Width)
    requires s.period > 0 && s.expire == 0 && t0 <= limit && Steady(t0, times, limit) && Gaps(t0, times, s.period)
    requires Point(t0, s.period, Passed(t0, s.period, limit) + 1) < ulong
    ensures OnGrid(s, t0, times, ulong)
  {
    var top := Passed(t0, s.period, limit);
    PointsGrow(t0, s.period, 1, top + 1);
    OneMorePeriod(0, s.period);
    FirstPoll(s, t0, times, ulong);
    var first := Polled(s, t0, ulong);
    StaysOnGrid(first, t0, t0, 0, limit, times, ulong);
    OneMorePeriod(Fires(first, times, ulong), s.period);
  }

  lemma {:induction false} DeadlineBelow<T>(s: Slot<T>, times: seq<nat>, ulong: Width)
    requires s.expire < ulong
    ensures AfterPolls(s, times, ulong).expire < ulong
    decreases times
  {
    if times != [] {
      DeadlineBelow(Polled(s, times[0], ulong), times[1..], ulong);
    }
  }

  /** A poll at each of the next `n` points. */
  function Ticks(from: nat, period: nat, n: nat): seq<nat>
    decreases n
  {
    if n == 0 then [] else [from + period] + Ticks(from + period, period, n - 1)
  }

  lemma {:induction false} TicksAreSteady(from: nat, period: nat, n: nat, limit: nat)
    requires Point(from, period, n) <= limit
    ensures Steady(from, Ticks(from, period, n), limit) && Gaps(from, Ticks(from, period, n), period)
    ensures Last(from, Ticks(from, period, n)) == Point(from, period, n)
    decreases n
  {
    if n > 0 {
      OneMorePeriod(n - 1, period);
      assert (n - 1) * period >= 0;
      TicksAreSteady(from + period, period, n - 1, limit);
      assert Ticks(from, period, n)[1..] == Ticks(from + period, period, n - 1);
    }
  }

  /** The cadence in every run up to `limit` with polls no further apart than the period. */
  ghost predicate CadenceHolds<T>(s: Slot<T>, t0: nat, limit: nat, ulong: Width) {
    forall times :: Steady(t0, times, limit) && Gaps(t0, times, s.period) ==> OnGrid(s, t0, times, ulong)
  }

  /** The cadence holds exactly when the first point of the grid after `limit` still fits
      `unsigned long`. */
  lemma NoDriftIff<T>(s: Slot<T>, t0: nat, limit: nat, ulong: Width)
    requires 0 < s.period && s.expire == 0 && t0 <= limit < ulong
    ensures CadenceHolds(s, t0, limit, ulong) <==> Point(t0, s.period, Passed(t0, s.period, limit) + 1) < ulong
  {
    var top := Passed(t0, s.period, limit);
    if Point(t0, s.period, top + 1) < ulong {
      forall times | Steady(t0, times, limit) && Gaps(t0, times, s.period) ensures OnGrid(s, t0, times, ulong) {
        NoDrift(s, t0, limit, times, ulong);
      }
    } else {
      var times := Ticks(t0, s.period, top);
      TicksAreSteady(t0, s.period, top, limit);
      DeadlineBelow(s, [t0] + times, ulong);
      if OnGrid(s, t0, times, ulong) {
        var k := Fires(s, [t0] + times, ulong);
        PointsGrow(t0, s.period, k + 1, top);
        PointsGrow(t0, s.period, top + 1, k + 1);
      }
    }
  }

  predicate Multiple(n: nat, period: nat)
    requires period > 0
  {
    n == 0 || (n >= period && Multiple(n - period, period))
  }

  /** One late poll leaves a deadline of the same grid that is not over exactly when that
      deadline fits and the poll is at most one period late, or a whole number of them. */
  lemma LatePollIff<T>(s: Slot<T>, now: nat, ulong: Width)
    requires 0 < s.period < ulong && 0 < s.expire <= now < ulong
    ensures Next(s, now, ulong) >= now && Multiple(Next(s, now, ulong) - s.expire, s.period)
       <==> PushedOn(s.expire, s.period, now) < ulong
            && (now - s.expire <= s.period || Multiple(now - s.expire, s.period))
  {
    var late, pushed := now - s.expire, PushedOn(s.expire, s.period, now);
    NextIs(s, now, ulong);
    if pushed >= ulong {
      assert Next(s, now, ulong) == pushed - ulong;
    } else if late > s.period {
      assert Next(s, now, ulong) - s.expire - s.period == late;
    } else {
      assert Next(s, now, ulong) - s.expire == s.period;
      assert Multiple(0, s.period);
    }
  }
}
