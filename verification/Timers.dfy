/** The timers of uloop.c: a list that is ordered by a difference in milliseconds. */
module Timers {
  import opened Sequences

  /** struct timeval; uloop_timeout_set may leave a whole second in `usec`, and less than zero for a
      negative timeout. */
  datatype Time = Time(sec: int, usec: int)

  function Micro(t: Time): int {
    t.sec * 1_000_000 + t.usec
  }

  /** What uloop_timeout_set makes of timeouts that are not negative. */
  predicate Fair(t: Time) {
    0 <= t.usec <= 1_000_000
  }

  ghost predicate AllFair(ts: seq<Time>) {
    forall x :: x in ts ==> Fair(x)
  }

  /** What uloop_gettime returns. */
  predicate IsClock(t: Time) {
    0 <= t.usec < 1_000_000
  }

  /** Division by 1000 as in C: towards zero. */
  function Trunc(x: int): int {
    if x >= 0 then x / 1000 else -(-x / 1000)
  }

  /** tv_diff */
  function Diff(a: Time, b: Time): int {
    (a.sec - b.sec) * 1000 + Trunc(a.usec - b.usec)
  }

  lemma TruncWithin(x: int)
    ensures x >= 0 ==> 1000 * Trunc(x) <= x < 1000 * Trunc(x) + 1000
    ensures x <= 0 ==> 1000 * Trunc(x) - 1000 < x <= 1000 * Trunc(x)
    ensures Trunc(-x) == -Trunc(x)
  {
  }

  /** Truncating twice costs at most one millisecond. */
  lemma TruncTwice(p: int, q: int)
    ensures Trunc(p) - Trunc(q) <= Trunc(p - q) + 1
  {
    TruncWithin(p);
    TruncWithin(q);
    TruncWithin(p - q);
  }

  lemma DiffOpposite(a: Time, b: Time)
    ensures Diff(a, b) == -Diff(b, a)
  {
    TruncWithin(a.usec - b.usec);
  }

  /** What is not more than a whole millisecond late is less than one late. */
  lemma NotLater(a: Time, b: Time)
    requires Diff(a, b) <= 0
    ensures Micro(a) < Micro(b) + 1000
  {
    TruncWithin(a.usec - b.usec);
  }

  /** The difference is not an order, but when `a` is after `x` by a millisecond, then what may
      stand behind `a` may stand behind `x`. */
  lemma StandsBehind(x: Time, a: Time, b: Time)
    requires Diff(a, x) > 0 && Diff(a, b) <= 0
    ensures Diff(x, b) <= 0
  {
    TruncTwice(a.usec - x.usec, a.usec - b.usec);
    assert (a.usec - x.usec) - (a.usec - b.usec) == b.usec - x.usec;
    DiffOpposite(x, b);
  }

  /** And what may stand behind a time that is after the clock is strictly after it. */
  lemma StrictlyAfter(now: Time, a: Time, b: Time)
    requires IsClock(now) && Fair(a) && Fair(b) && Diff(a, now) > 0 && Diff(a, b) <= 0
    ensures Micro(b) > Micro(now)
  {
    TruncWithin(a.usec - now.usec);
    TruncWithin(a.usec - b.usec);
  }

  ghost predicate Ordered(ts: seq<Time>) {
    forall i, j :: 0 <= i < j < |ts| ==> Diff(ts[i], ts[j]) <= 0
  }

  /** Times that are out of order are less than a millisecond apart. */
  lemma AlmostInOrder(ts: seq<Time>, i: nat, j: nat)
    requires Ordered(ts) && i < j < |ts|
    ensures Micro(ts[i]) < Micro(ts[j]) + 1000
  {
    NotLater(ts[i], ts[j]);
  }

  /** The place where uloop_timeout_add puts a time: before the first one that is later by a
      millisecond. */
  ghost predicate Slot(ts: seq<Time>, x: Time, k: nat) {
    && k <= |ts|
    && (forall i :: 0 <= i < k ==> Diff(ts[i], x) <= 0)
    && (k < |ts| ==> Diff(ts[k], x) > 0)
  }

  lemma InsertOrdered(ts: seq<Time>, x: Time, k: nat)
    requires Ordered(ts) && Slot(ts, x, k)
    ensures Ordered(InsertAt(ts, k, x))
  {
    var r := InsertAt(ts, k, x);
    forall i, j | 0 <= i < j < |r|
      ensures Diff(r[i], r[j]) <= 0
    {
      if i == k {
        if j == k + 1 {
          DiffOpposite(x, ts[k]);
        } else {
          StandsBehind(x, ts[k], ts[j - 1]);
        }
      }
    }
  }

  /** struct uloop_timeout */
  class Timer {
    var time: Time
    var pending: bool

    constructor ()
      ensures !pending
    {
      time, pending := Time(0, 0), false;
    }
  }

  /** What the callback of a timer does next. */
  datatype Act = SetTimer(timer: Timer, msecs: int, now: Time) | CancelTimer(timer: Timer) | Return

  /** A list of timers with their times, in order. */
  ghost predicate Queue(list: seq<Timer>, ts: seq<Time>) {
    |ts| == |list| && SealedQueue(list, ts) == true
  }

  ghost predicate SealedQueue(list: seq<Timer>, ts: seq<Time>)
    requires |ts| == |list|
  {
    forall u: nat {:trigger OpenQueue(u)} ::
      Distinct(list) && Ordered(ts)
  }

  ghost predicate OpenQueue(u: nat) {
    true
  }

  lemma QueueInserted(list: seq<Timer>, ts: seq<Time>, k: nat, t: Timer, x: Time)
    requires Queue(list, ts) && Slot(ts, x, k) && t !in list
    ensures Queue(InsertAt(list, k, t), InsertAt(ts, k, x))
    ensures AllFair(ts) && Fair(x) ==> AllFair(InsertAt(ts, k, x))
    ensures forall y :: y in InsertAt(list, k, t) <==> y in list || y == t
  {
    assert OpenQueue(0);
    InsertOrdered(ts, x, k);
    ElementsInserted(list, k, t);
    ElementsInserted(ts, k, x);
    assert forall y :: y in InsertAt(ts, k, x) ==> y in Elements(InsertAt(ts, k, x));
    assert forall y :: y in InsertAt(list, k, t) <==> y in Elements(InsertAt(list, k, t));
  }

  lemma QueueRemoved(list: seq<Timer>, ts: seq<Time>, k: nat)
    requires Queue(list, ts) && k < |list|
    ensures Queue(RemoveAt(list, k), RemoveAt(ts, k))
    ensures AllFair(ts) ==> AllFair(RemoveAt(ts, k))
    ensures forall y :: y in RemoveAt(list, k) <==> y in list && y != list[k]
  {
    assert OpenQueue(0);
    ElementsRemoved(list, k);
    assert forall y :: y in RemoveAt(list, k) <==> y in Elements(RemoveAt(list, k));
  }

  /** When the first timer is after the clock by a millisecond, no timer is as much as a millisecond
      in front of it, and fair ones are strictly after it. */
  lemma AllAfter(list: seq<Timer>, ts: seq<Time>, now: Time)
    requires Queue(list, ts) && IsClock(now) && ts != [] && Diff(ts[0], now) > 0
    ensures forall x :: x in ts ==> Micro(x) > Micro(now) - 1000
    ensures AllFair(ts) ==> forall x :: x in ts ==> Micro(x) > Micro(now)
  {
    assert OpenQueue(0);
    TruncWithin(ts[0].usec - now.usec);
    forall k | 0 <= k < |ts|
      ensures Micro(ts[k]) > Micro(now) - 1000
      ensures AllFair(ts) ==> Micro(ts[k]) > Micro(now)
    {
      if k > 0 {
        NotLater(ts[0], ts[k]);
        if AllFair(ts) {
          assert ts[0] in ts && ts[k] in ts;
          StrictlyAfter(now, ts[0], ts[k]);
        }
      }
    }
  }

  /** A time with negative microseconds can stand behind one that is after the clock, and not be after
      it itself. */
  lemma NotAfter()
    ensures var now, a, b := Time(10, 999_999), Time(11, 500), Time(11, -1);
            IsClock(now) && Diff(a, now) > 0 && Diff(a, b) <= 0 && Micro(b) == Micro(now)
  {
    TruncWithin(500 - 999_999);
    TruncWithin(501);
  }

  lemma FirstIsFirst(list: seq<Timer>, ts: seq<Time>)
    requires Queue(list, ts) && ts != []
    ensures forall x :: x in ts ==> Micro(ts[0]) < Micro(x) + 1000
  {
    assert OpenQueue(0);
    forall k | 0 <= k < |ts|
      ensures Micro(ts[0]) < Micro(ts[k]) + 1000
    {
      if k > 0 {
        NotLater(ts[0], ts[k]);
      }
    }
  }

  class Timeouts {
    var list: seq<Timer>
    /** The timers that there are, and the times of those in the list. */
    ghost var known: set<Timer>
    ghost var ts: seq<Time>

    ghost predicate Valid()
      reads this, known`pending, list`time
    {
      && Queue(list, ts)
      && (forall i :: 0 <= i < |list| ==> list[i].time == ts[i])
      && (forall t :: t in list ==> t in known)
      && (forall t :: t in known ==> (t.pending <==> t in list))
    }

    constructor (known: set<Timer>)
      requires forall t :: t in known ==> !t.pending
      ensures Valid() && list == [] && this.known == known
    {
      list := [];
      this.known, ts := known, [];
    }

    /** uloop_timeout_add: behind all timers that are not a millisecond later. */
    method Add(t: Timer) returns (r: int, ghost k: nat)
      requires Valid() && t in known
      modifies this`list, this`ts, t`pending
      ensures Valid() && t.pending
      ensures r == if old(t.pending) then -1 else 0
      ensures r == -1 ==> list == old(list) && ts == old(ts)
      ensures AllFair(old(ts)) && Fair(t.time) ==> AllFair(ts)
      ensures r == 0 ==> Slot(old(ts), t.time, k) && list == InsertAt(old(list), k, t) && ts == InsertAt(old(ts), k, t.time)
    {
      k := 0;
      if t.pending {
        return -1, k;
      }
      var i: nat := 0;
      while i < |list| && Diff(list[i].time, t.time) <= 0
        invariant i <= |list| && forall j :: 0 <= j < i ==> Diff(ts[j], t.time) <= 0
      {
        i := i + 1;
      }
      k := i;
      QueueInserted(list, ts, k, t, t.time);
      list := list[..i] + [t] + list[i..];
      ts := InsertAt(ts, k, t.time);
      t.pending := true;
      r := 0;
    }

    /** uloop_timeout_cancel */
    method Cancel(t: Timer) returns (r: int)
      requires Valid() && t in known
      modifies this`list, this`ts, t`pending
      ensures Valid() && !t.pending && t !in list
      ensures r == if old(t.pending) then 0 else -1
      ensures AllFair(old(ts)) ==> AllFair(ts)
      ensures r == -1 ==> list == old(list) && ts == old(ts)
      ensures r == 0 ==> exists k :: 0 <= k < |old(list)| && old(list)[k] == t &&
                           list == RemoveAt(old(list), k) && ts == RemoveAt(old(ts), k)
      ensures r == 0 && old(list)[0] == t ==> list == old(list)[1..] && ts == old(ts)[1..]
    {
      if !t.pending {
        return -1;
      }
      var k := IndexOf(list, t);
      QueueRemoved(list, ts, k);
      if k > 0 {
        NotFirst(list, ts, k);
      }
      list := list[..k] + list[k + 1..];
      ts := RemoveAt(ts, k);
      t.pending := false;
      r := 0;
    }

    /** uloop_timeout_set: the timer is due `msecs` milliseconds after the clock, exactly. */
    method Set(t: Timer, msecs: int, now: Time)
      requires Valid() && t in known && IsClock(now)
      modifies this`list, this`ts, t`pending, t`time
      ensures Valid() && t.pending && Micro(t.time) == Micro(now) + 1000 * msecs
      ensures msecs >= 0 ==> Fair(t.time) && (AllFair(old(ts)) ==> AllFair(ts))
    {
      if t.pending {
        var r := Cancel(t);
      }
      TruncWithin(msecs);
      var sec, usec := now.sec + Trunc(msecs), now.usec + (msecs - 1000 * Trunc(msecs)) * 1000;
      if usec > 1_000_000 {
        sec, usec := sec + 1, usec - 1_000_000;
      }
      SetTime(t, Time(sec, usec));
      var r, k := Add(t);
    }

    /** The time of a timer that is not pending may change. */
    method SetTime(t: Timer, time: Time)
      requires Valid() && t in known && !t.pending
      modifies t`time
      ensures Valid() && t.time == time
    {
      t.time := time;
    }

    /** uloop_get_next_timeout: how many milliseconds to sleep; never a millisecond or more past the
        first timer. */
    method NextTimeout(now: Time) returns (r: int)
      requires Valid()
      ensures r == -1 <==> list == []
      ensures list != [] ==> 0 <= r <= 0x7fff_ffff
      ensures r > 0 ==> Micro(now) + 1000 * r < Micro(list[0].time) + 1000
      ensures r > 0 ==> forall t :: t in list ==> Micro(list[0].time) < Micro(t.time) + 1000
    {
      if list == [] {
        return -1;
      }
      var diff := Diff(list[0].time, now);
      TruncWithin(list[0].time.usec - now.usec);
      FirstIsFirst(list, ts);
      r := if diff < 0 then 0 else if diff > 0x7fff_ffff then 0x7fff_ffff else diff;
    }

    /** The callbacks only use timers that there are, and the clock. */
    ghost predicate Fits(script: seq<Act>)
      reads this`known
    {
      forall a :: a in script ==>
        && (a.SetTimer? ==> a.timer in known && IsClock(a.now))
        && (a.CancelTimer? ==> a.timer in known)
    }

    /** They set no timer to the past. */
    ghost predicate Forward(script: seq<Act>) {
      forall a :: a in script && a.SetTimer? ==> a.msecs >= 0
    }

    /** A callback: it takes its steps from a script, which it uses up as it goes. */
    method Callback(script: seq<Act>) returns (rest: seq<Act>)
      requires Valid() && Fits(script)
      modifies this`list, this`ts, known`time, known`pending
      ensures Valid() && Fits(rest) && |rest| <= |script|
      ensures |rest| == |script| ==> list == old(list) && ts == old(ts)
      ensures Forward(script) ==> Forward(rest) && (AllFair(old(ts)) ==> AllFair(ts))
    {
      rest := script;
      while rest != []
        invariant Valid() && Fits(rest) && |rest| <= |script|
        invariant |rest| == |script| ==> list == old(list) && ts == old(ts)
        invariant Forward(script) ==> Forward(rest) && (AllFair(old(ts)) ==> AllFair(ts))
        decreases |rest|
      {
        var act := rest[0];
        rest := rest[1..];
        match act {
          case Return =>
            return;
          case SetTimer(t, msecs, now) =>
            Set(t, msecs, now);
          case CancelTimer(t) =>
            var r := Cancel(t);
        }
      }
    }

    /** uloop_process_timeouts: what is fired is less than a millisecond after the clock; and when it
        ends, all timers that are left are strictly after the clock, whatever the callbacks do, unless
        negative timeouts are set: then they may be less than a millisecond in front of it. */
    method Process(now: Time, script: seq<Act>) returns (rest: seq<Act>, ghost fired: seq<Time>)
      requires Valid() && IsClock(now) && Fits(script)
      modifies this`list, this`ts, known`time, known`pending
      ensures Valid() && Fits(rest) && |rest| <= |script|
      ensures forall t :: t in list ==> Micro(t.time) > Micro(now) - 1000
      ensures AllFair(old(ts)) && Forward(script) ==> forall t :: t in list ==> Micro(t.time) > Micro(now)
      ensures forall x :: x in fired ==> Micro(x) < Micro(now) + 1000
      ensures script == [] ==> |fired| <= |old(list)| && list == old(list)[|fired|..] && fired == old(ts)[..|fired|]
    {
      rest, fired := script, [];
      ghost var was, all := list, ts;
      while list != []
        invariant Valid() && Fits(rest) && |rest| <= |script|
        invariant forall x :: x in fired ==> Micro(x) < Micro(now) + 1000
        invariant AllFair(all) && Forward(script) ==> AllFair(ts) && Forward(rest)
        invariant script == [] ==> |fired| <= |was| == |all|
        invariant script == [] ==> list == was[|fired|..] && ts == all[|fired|..] && fired == all[..|fired|]
        decreases |rest|, |list|
      {
        var t := list[0];
        assert t in list && t in known;
        if Diff(t.time, now) > 0 {
          AllAfter(list, ts, now);
          return;
        }
        NotLater(t.time, now);
        if script == [] {
          OneMoreFired(was, |fired|);
          OneMoreFired(all, |fired|);
        }
        fired := fired + [t.time];
        var r := Cancel(t);
        rest := Callback(rest);
      }
    }
  }

  /** Two calls of uloop_timeout_add are enough for a list that is not in the order of its times: of
      two timers that are less than a millisecond apart within a second, the one that is added first
      stays in front. */
  method NotInOrder(a: Time, late: nat) returns (q: Timeouts)
    requires 0 < late < 1000
    ensures fresh(q) && q.Valid() && q.ts == [Time(a.sec, a.usec + late), a]
    ensures Micro(q.ts[0]) > Micro(q.ts[1])
  {
    var later := new Timer();
    var sooner := new Timer();
    later.time, sooner.time := Time(a.sec, a.usec + late), a;
    q := new Timeouts({later, sooner});
    var r, k := q.Add(later);
    assert q.ts == [later.time];
    TruncWithin(late);
    assert Diff(later.time, sooner.time) == 0;
    r, k := q.Add(sooner);
    assert q.ts == [later.time, sooner.time];
  }

  lemma OneMoreFired<A>(s: seq<A>, n: nat)
    requires n < |s|
    ensures s[n..][1..] == s[n + 1..] && s[..n] + [s[n..][0]] == s[..n + 1]
  {
  }

  lemma NotFirst(list: seq<Timer>, ts: seq<Time>, k: nat)
    requires Queue(list, ts) && 0 < k < |list|
    ensures list[0] != list[k]
  {
    assert OpenQueue(0);
  }
}
