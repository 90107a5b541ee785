/** What one poll does to a timer and to a list of timers (`mongoose.c`, `mg_timer_poll`). */
module TimerRules {
  /** How many values `unsigned long` has. */
  type Width = n: nat | 0 < n witness 1

  /** What `unsigned long` keeps of `n`. */
  function Wrap(n: nat, ulong: Width): (r: nat)
    ensures r < ulong
    ensures r == if n < ulong then n else if n < 2 * ulong then n - ulong else r
  {
    if n < ulong then n else Wrap(n - ulong, ulong)
  }

  /** `expire` 0 means the timer has not been polled yet. */
  datatype Slot<T> = Slot(id: T, period: nat, repeating: bool, expire: nat)

  function Deadline<T>(s: Slot<T>, now: nat, ulong: Width): nat {
    if s.expire == 0 then Wrap(now + s.period, ulong) else s.expire
  }

  predicate Due<T>(s: Slot<T>, now: nat, ulong: Width) {
    Deadline(s, now, ulong) <= now
  }

  function Next<T>(s: Slot<T>, now: nat, ulong: Width): nat {
    var e := Deadline(s, now, ulong);
    if e > now then e
    else if now - e > s.period then Wrap(now + s.period, ulong)
    else Wrap(e + s.period, ulong)
  }

  predicate Stays<T>(s: Slot<T>, now: nat, ulong: Width) {
    Due(s, now, ulong) ==> s.repeating
  }

  function Polled<T>(s: Slot<T>, now: nat, ulong: Width): Slot<T> {
    s.(expire := Next(s, now, ulong))
  }

  /** What becomes of one slot, and the callbacks it makes. */
  function Kept<T>(s: Slot<T>, now: nat, ulong: Width): seq<Slot<T>> {
    if Stays(s, now, ulong) then [Polled(s, now, ulong)] else []
  }

  function Called<T>(s: Slot<T>, now: nat, ulong: Width): seq<T> {
    if Due(s, now, ulong) then [s.id] else []
  }

  /** The list after a poll: one-shot timers that fired are gone. */
  function PollAll<T>(s: seq<Slot<T>>, now: nat, ulong: Width): seq<Slot<T>> {
    if s == [] then []
    else Kept(s[0], now, ulong) + PollAll(s[1..], now, ulong)
  }

  /** The callbacks of a poll, in order. */
  function Calls<T>(s: seq<Slot<T>>, now: nat, ulong: Width): seq<T> {
    if s == [] then []
    else Called(s[0], now, ulong) + Calls(s[1..], now, ulong)
  }

  function Reset<T>(s: seq<Slot<T>>): seq<Slot<T>> {
    seq(|s|, i requires 0 <= i < |s| => s[i].(expire := 0))
  }

  lemma {:induction false} PollAllSplit<T>(a: seq<Slot<T>>, b: seq<Slot<T>>, now: nat, ulong: Width)
    ensures PollAll(a + b, now, ulong) == PollAll(a, now, ulong) + PollAll(b, now, ulong)
  {
    if a == [] {
      assert a + b == b;
    } else {
      assert (a + b)[0] == a[0] && (a + b)[1..] == a[1..] + b;
      PollAllSplit(a[1..], b, now, ulong);
    }
  }

  lemma {:induction false} CallsSplit<T>(a: seq<Slot<T>>, b: seq<Slot<T>>, now: nat, ulong: Width)
    ensures Calls(a + b, now, ulong) == Calls(a, now, ulong) + Calls(b, now, ulong)
  {
    if a == [] {
      assert a + b == b;
    } else {
      assert (a + b)[0] == a[0] && (a + b)[1..] == a[1..] + b;
      CallsSplit(a[1..], b, now, ulong);
    }
  }

  lemma PollOne<T>(s: Slot<T>, now: nat, ulong: Width)
    ensures PollAll([s], now, ulong) == Kept(s, now, ulong) && Calls([s], now, ulong) == Called(s, now, ulong)
  {
    assert [s][1..] == [];
    assert PollAll([s], now, ulong) == Kept(s, now, ulong) + PollAll([], now, ulong);
    assert Calls([s], now, ulong) == Called(s, now, ulong) + Calls([], now, ulong);
  }

  lemma PollOneMore<T>(s: seq<Slot<T>>, last: Slot<T>, now: nat, ulong: Width)
    ensures PollAll(s + [last], now, ulong) == PollAll(s, now, ulong) + Kept(last, now, ulong)
  {
    PollAllSplit(s, [last], now, ulong);
    PollOne(last, now, ulong);
  }

  lemma CallsOneMore<T>(s: seq<Slot<T>>, last: Slot<T>, now: nat, ulong: Width)
    ensures Calls(s + [last], now, ulong) == Calls(s, now, ulong) + Called(last, now, ulong)
  {
    CallsSplit(s, [last], now, ulong);
    PollOne(last, now, ulong);
  }

  // ----- One timer of the list at a time -----

  /** Nobody is skipped and nobody is made up: a timer is in the list after a poll exactly
      when it is the next state of a timer that was in it and stays. */
  lemma {:induction false} PollAllMembers<T>(s: seq<Slot<T>>, now: nat, u: Slot<T>, ulong: Width)
    ensures u in PollAll(s, now, ulong) <==> exists t :: t in s && Stays(t, now, ulong) && u == Polled(t, now, ulong)
  {
    if s != [] {
      PollAllMembers(s[1..], now, u, ulong);
      assert s == [s[0]] + s[1..];
      if u in PollAll(s, now, ulong) {
        if u in PollAll(s[1..], now, ulong) {
          var t :| t in s[1..] && Stays(t, now, ulong) && u == Polled(t, now, ulong);
          assert t in s;
        } else {
          assert s[0] in s && Stays(s[0], now, ulong) && u == Polled(s[0], now, ulong);
        }
      }
    }
  }

  lemma {:induction false} CallsMembers<T>(s: seq<Slot<T>>, now: nat, x: T, ulong: Width)
    ensures x in Calls(s, now, ulong) <==> exists t :: t in s && Due(t, now, ulong) && x == t.id
  {
    if s != [] {
      CallsMembers(s[1..], now, x, ulong);
      assert s == [s[0]] + s[1..];
      if x in Calls(s, now, ulong) {
        if x in Calls(s[1..], now, ulong) {
          var t :| t in s[1..] && Due(t, now, ulong) && x == t.id;
          assert t in s;
        } else {
          assert s[0] in s && Due(s[0], now, ulong) && x == s[0].id;
        }
      }
    }
  }
}
