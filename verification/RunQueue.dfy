/** The task queue of runqueue.c as a state machine: two safe lists, flags, one timer that two
    callbacks share.  What tasks do in their callbacks is taken from a script. */
module RunQueue {
  import opened Sequences
  import opened SafeOrder

  /** A task and what its type fixes: which callbacks there are, and its timeouts. */
  class Task {
    const hasRun: bool
    const hasCancel: bool
    const hasKill: bool
    const hasComplete: bool
    const runTimeout: int
    const cancelTimeout: int
    const cancelType: int

    constructor (hasRun: bool, hasCancel: bool, hasKill: bool, hasComplete: bool,
                 runTimeout: int, cancelTimeout: int, cancelType: int)
      ensures this.hasRun == hasRun && this.hasCancel == hasCancel && this.hasKill == hasKill
      ensures this.hasComplete == hasComplete
    {
      this.hasRun, this.hasCancel, this.hasKill, this.hasComplete := hasRun, hasCancel, hasKill, hasComplete;
      this.runTimeout, this.cancelTimeout, this.cancelType := runTimeout, cancelTimeout, cancelType;
    }
  }

  /** The fields of a task that change; `timer` is whether its timeout is pending. */
  datatype Flag = Flag(queued: bool, running: bool, cancelled: bool, timer: bool)

  /** What a callback does next. */
  datatype Step =
    | AddTask(task: Task, running: bool, first: bool)
    | CompleteTask(task: Task)
    | CancelTask(task: Task, kind: int)
    | KillTask(task: Task)
    | CancelActive
    | CancelPending
    | Stop
    | Resume
    | Return

  datatype TimerCallback = StartNext | TellEmpty

  /** A safe_list_for_each that is under way: on which list, and what it visits next. */
  datatype Walker = Walker(active: bool, next: Task)

  /** The two lists and the walks in them. */
  datatype Lists = Lists(active: seq<Task>, inactive: seq<Task>, walkers: seq<Walker>) {
    ghost function Of(active: bool): seq<Task> {
      if active then this.active else inactive
    }

    ghost function Nexts(active: bool): map<int, Task> {
      map i | 0 <= i < |walkers| && walkers[i].active == active :: walkers[i].next
    }

    /** Walks go on to elements of their list or to its head. */
    ghost predicate Proper(end: Task) {
      && Walkers(active, Nexts(true), end)
      && Walkers(inactive, Nexts(false), end)
    }
  }

  ghost predicate SameKinds(a: seq<Walker>, b: seq<Walker>) {
    |a| == |b| && forall i :: 0 <= i < |a| ==> a[i].active == b[i].active
  }

  /** Nothing came in: the lists lost elements, and walks went on past these. */
  ghost predicate Shrunk(a: Lists, b: Lists, end: Task) {
    && SameKinds(a.walkers, b.walkers)
    && Carried(a.active, a.Nexts(true), b.active, b.Nexts(true), end)
    && Carried(a.inactive, a.Nexts(false), b.inactive, b.Nexts(false), end)
  }

  lemma ShrunkNowhere(a: Lists, end: Task)
    requires a.Proper(end)
    ensures Shrunk(a, a, end)
  {
    CarriedNowhere(a.active, a.Nexts(true), end);
    CarriedNowhere(a.inactive, a.Nexts(false), end);
  }

  lemma ShrunkTwice(a: Lists, b: Lists, c: Lists, end: Task)
    requires a.Proper(end) && Shrunk(a, b, end) && Shrunk(b, c, end)
    ensures Shrunk(a, c, end)
  {
    CarriedTwice(a.active, a.Nexts(true), b.active, b.Nexts(true), c.active, c.Nexts(true), end);
    CarriedTwice(a.inactive, a.Nexts(false), b.inactive, b.Nexts(false), c.inactive, c.Nexts(false), end);
  }

  /** safe_list_del on one of the lists: the walks that were going to visit `t` go on. */
  function Moved(ws: seq<Walker>, active: bool, t: Task, next: Task): (r: seq<Walker>)
    ensures SameKinds(ws, r)
    ensures forall i :: 0 <= i < |ws| ==>
              r[i].next == if ws[i].active == active && ws[i].next == t then next else ws[i].next
  {
    seq(|ws|, i requires 0 <= i < |ws| =>
      if ws[i].active == active && ws[i].next == t then ws[i].(next := next) else ws[i])
  }

  function Removed(ls: Lists, active: bool, t: Task, end: Task): (r: Lists)
    requires t in if active then ls.active else ls.inactive
  {
    var s := if active then ls.active else ls.inactive;
    var k := IndexOf(s, t);
    var rest := s[..k] + s[k + 1..];
    var next := if k + 1 < |s| then s[k + 1] else end;
    Lists(if active then rest else ls.active, if active then ls.inactive else rest,
          Moved(ls.walkers, active, t, next))
  }

  lemma ShrunkProper(a: Lists, b: Lists, end: Task)
    requires a.Proper(end) && Shrunk(a, b, end)
    ensures b.Proper(end)
  {
    CarriedWalkers(a.active, a.Nexts(true), b.active, b.Nexts(true), end);
    CarriedWalkers(a.inactive, a.Nexts(false), b.inactive, b.Nexts(false), end);
  }

  lemma RemovedHere(ls: Lists, active: bool, t: Task, end: Task)
    requires Walkers(ls.Of(active), ls.Nexts(active), end) && t in ls.Of(active)
    ensures var r := Removed(ls, active, t, end);
            && Carried(ls.Of(active), ls.Nexts(active), r.Of(active), r.Nexts(active), end)
            && (forall x :: x in r.Of(active) <==> x in ls.Of(active) && x != t)
            && |r.Of(active)| == |ls.Of(active)| - 1
  {
    var s, r := ls.Of(active), Removed(ls, active, t, end);
    var k := IndexOf(s, t);
    assert r.Of(active) == RemoveAt(s, k);
    assert Distinct(s) && end !in s by {
      assert OpenWalk(0);
    }
    SuccessorAt(s, k, end);
    CarriedOne(s, ls.Nexts(active), k, r.Nexts(active), end);
    ElementsRemoved(s, k);
    assert forall x :: x in r.Of(active) <==> x in Elements(RemoveAt(s, k));
  }

  lemma RemovedShrinks(ls: Lists, active: bool, t: Task, end: Task)
    requires ls.Proper(end) && t in ls.Of(active)
    ensures var r := Removed(ls, active, t, end);
            && Shrunk(ls, r, end) && r.Proper(end)
            && (forall x :: x in r.Of(active) <==> x in ls.Of(active) && x != t)
            && r.Of(!active) == ls.Of(!active)
            && |r.Of(active)| == |ls.Of(active)| - 1
  {
    var r := Removed(ls, active, t, end);
    RemovedHere(ls, active, t, end);
    CarriedNowhere(ls.Of(!active), ls.Nexts(!active), end);
    assert r.Nexts(!active) == ls.Nexts(!active);
    ShrunkProper(ls, r, end);
  }

  lemma SuccessorAt(s: seq<Task>, k: nat, end: Task)
    requires Distinct(s) && k < |s| && end !in s
    ensures Successor(s, end, s[k]) == if k + 1 < |s| then s[k + 1] else end
  {
    FromAt(s, k);
    assert s[k..][1..] == s[k + 1..];
  }

  function Added(ls: Lists, active: bool, t: Task, first: bool): Lists {
    var s := if active then ls.active else ls.inactive;
    var more := if first then [t] + s else s + [t];
    Lists(if active then more else ls.active, if active then ls.inactive else more, ls.walkers)
  }

  lemma AddedProper(ls: Lists, active: bool, t: Task, first: bool, end: Task)
    requires ls.Proper(end) && t != end && t !in ls.Of(active)
    ensures var r := Added(ls, active, t, first);
            && r.Proper(end)
            && (forall x :: x in r.Of(active) <==> x in ls.Of(active) || x == t)
            && r.Of(!active) == ls.Of(!active)
            && |r.Of(active)| == |ls.Of(active)| + 1
  {
    assert OpenWalk(0);
    var r := Added(ls, active, t, first);
    assert r.Nexts(active) == ls.Nexts(active) && r.Nexts(!active) == ls.Nexts(!active);
  }

  /** A task is queued if and only if it is in exactly one of the lists, and can be run if it
      waits; it has a timer or is being cancelled only while it is queued; and none gets lost: it is
      as often completed as it was added, or queued now. */
  ghost predicate Books(ls: Lists, fs: map<Task, Flag>, end: Task, added: multiset<Task>, completed: multiset<Task>) {
    SealedBooks(ls, fs, end, added, completed) == true
  }

  ghost predicate SealedBooks(ls: Lists, fs: map<Task, Flag>, end: Task, added: multiset<Task>, completed: multiset<Task>) {
    forall u: nat {:trigger OpenBooks(u)} ::
      && end !in fs && ls.Proper(end)
      && (forall t :: t in ls.active ==> t in fs) && (forall t :: t in ls.inactive ==> t in fs)
      && (forall t :: t in fs ==> (t in ls.active <==> fs[t].queued && fs[t].running))
      && (forall t :: t in fs ==> (t in ls.inactive <==> fs[t].queued && !fs[t].running))
      && (forall t :: t in ls.inactive ==> t.hasRun)
      && (forall t :: t in fs ==> (fs[t].timer ==> fs[t].queued))
      && (forall t :: t in fs ==> (fs[t].cancelled ==> fs[t].queued && fs[t].running))
      && (forall t :: t in fs ==> completed[t] + (if fs[t].queued then 1 else 0) == added[t])
  }

  ghost predicate OpenBooks(u: nat) {
    true
  }

  lemma BooksAdded(ls: Lists, fs: map<Task, Flag>, end: Task, added: multiset<Task>, completed: multiset<Task>,
                   t: Task, running: bool, first: bool)
    requires Books(ls, fs, end, added, completed) && t in fs && !fs[t].queued && (running || t.hasRun)
    ensures Books(Added(ls, running, t, first), fs[t := Flag(true, running, false, fs[t].timer)], end,
                  added + multiset{t}, completed)
    ensures |Added(ls, running, t, first).active| == |ls.active| + if running then 1 else 0
  {
    assert OpenBooks(0);
    AddedProper(ls, running, t, first, end);
    var r := Added(ls, running, t, first);
    assert r.active == r.Of(true) && r.inactive == r.Of(false);
  }

  lemma BooksWithout(ls: Lists, r: Lists, fs: map<Task, Flag>, end: Task, added: multiset<Task>,
                     completed: multiset<Task>, t: Task)
    requires Books(ls, fs, end, added, completed) && t in fs && fs[t].queued && r.Proper(end)
    requires forall x :: x in r.Of(fs[t].running) <==> x in ls.Of(fs[t].running) && x != t
    requires r.Of(!fs[t].running) == ls.Of(!fs[t].running)
    ensures Books(r, fs[t := Flag(false, false, false, false)], end, added, completed + multiset{t})
  {
    assert OpenBooks(0);
    assert ls.active == ls.Of(true) && ls.inactive == ls.Of(false);
    assert r.active == r.Of(true) && r.inactive == r.Of(false);
  }

  lemma BooksQueued(ls: Lists, fs: map<Task, Flag>, end: Task, added: multiset<Task>, completed: multiset<Task>, t: Task)
    requires Books(ls, fs, end, added, completed) && t in fs && fs[t].queued
    ensures t in ls.Of(fs[t].running) && ls.Proper(end)
  {
    assert OpenBooks(0);
  }

  lemma BooksRemoved(ls: Lists, fs: map<Task, Flag>, end: Task, added: multiset<Task>, completed: multiset<Task>, t: Task)
    requires Books(ls, fs, end, added, completed) && t in fs && fs[t].queued
    ensures t in ls.Of(fs[t].running)
    ensures var r := Removed(ls, fs[t].running, t, end);
            && Books(r, fs[t := Flag(false, false, false, false)], end, added, completed + multiset{t})
            && Shrunk(ls, r, end)
            && |r.active| == |ls.active| - (if fs[t].running then 1 else 0)
            && |r.inactive| == |ls.inactive| - (if fs[t].running then 0 else 1)
            && (ls.inactive == [] ==> r.inactive == [])
  {
    BooksQueued(ls, fs, end, added, completed, t);
    RemovedShrinks(ls, fs[t].running, t, end);
    BooksWithout(ls, Removed(ls, fs[t].running, t, end), fs, end, added, completed, t);
  }

  ghost predicate Known(s: Step, tasks: set<Task>) {
    match s
    case AddTask(t, _, _) => t in tasks
    case CompleteTask(t) => t in tasks
    case CancelTask(t, _) => t in tasks
    case KillTask(t) => t in tasks
    case _ => true
  }

  /** The tasks of a script are tasks of the queue. */
  ghost predicate AllKnown(script: seq<Step>, tasks: set<Task>) {
    forall i :: 0 <= i < |script| ==> Known(script[i], tasks)
  }

  /** How many steps of a script add tasks. */
  ghost function Adds(script: seq<Step>): (n: nat) {
    if script == [] then 0 else (if script[0].AddTask? then 1 else 0) + Adds(script[1..])
  }

  /** The callbacks add nothing. */
  ghost predicate Quiet(script: seq<Step>) {
    forall s :: s in script ==> !s.AddTask?
  }

  /** No callback starts a stopped queue again. */
  ghost predicate Still(script: seq<Step>) {
    forall s :: s in script ==> !s.Resume?
  }

  lemma {:induction false} QuietAdds(script: seq<Step>)
    ensures Quiet(script) <==> Adds(script) == 0
  {
    if script != [] {
      assert forall s :: s in script <==> s == script[0] || s in script[1..];
      QuietAdds(script[1..]);
    }
  }

  lemma SomeElement(s: seq<Task>)
    ensures s == [] || exists t :: t in s
  {
    if s != [] {
      assert s[0] in s;
    }
  }

  /** Completing a task and adding it again leaves the books balanced. */
  lemma BooksSettled(ls: Lists, fs: map<Task, Flag>, end: Task, added: multiset<Task>, completed: multiset<Task>, t: Task)
    requires Books(ls, fs, end, added + multiset{t}, completed + multiset{t})
    ensures Books(ls, fs, end, added, completed)
  {
    assert OpenBooks(0);
    forall x | x in fs
      ensures completed[x] + (if fs[x].queued then 1 else 0) == added[x]
    {
      assert (completed + multiset{t})[x] + (if fs[x].queued then 1 else 0) == (added + multiset{t})[x];
    }
  }

  lemma BooksPromoted(ls: Lists, fs: map<Task, Flag>, end: Task, added: multiset<Task>, completed: multiset<Task>, t: Task, f: Flag)
    requires Books(ls, fs, end, added, completed) && t in fs && fs[t].queued && !fs[t].running
    requires f.queued && f.running && !f.cancelled
    ensures t in ls.inactive && !fs[t].cancelled
    ensures var r := Added(Removed(ls, false, t, end), true, t, false);
            && Books(r, fs[t := f], end, added, completed)
            && |r.inactive| == |ls.inactive| - 1 && |r.active| == |ls.active| + 1
  {
    BooksRemoved(ls, fs, end, added, completed, t);
    var m, fm := Removed(ls, false, t, end), fs[t := Flag(false, false, false, false)];
    BooksAdded(m, fm, end, added, completed + multiset{t}, t, true, false);
    var r, fr := Added(m, true, t, false), fs[t := Flag(true, true, false, false)];
    assert fm[t := Flag(true, true, false, false)] == fr;
    BooksSettled(r, fr, end, added, completed, t);
    BooksMarked(r, fr, end, added, completed, t, f);
    assert fr[t := f] == fs[t := f];
    assert !fs[t].cancelled by {
      assert OpenBooks(0);
    }
  }

  /** What the calls below look at when they compare two moments. */
  datatype Moment = Moment(lists: Lists, flags: map<Task, Flag>, adds: nat, added: multiset<Task>)

  /** What a call may have done, callbacks included: unless it added a task, the lists lost
      elements, and those that stay keep running, or being cancelled. */
  ghost predicate Later(a: Moment, b: Moment, end: Task) {
    && a.adds <= b.adds && b.flags.Keys == a.flags.Keys && SameKinds(a.lists.walkers, b.lists.walkers)
    && SealedLater(a, b, end) == true
  }

  ghost predicate SealedLater(a: Moment, b: Moment, end: Task)
    requires b.flags.Keys == a.flags.Keys
  {
    forall u: nat {:trigger OpenBooks(u)} ::
      a.adds == b.adds ==>
        && b.added == a.added && Shrunk(a.lists, b.lists, end)
        && forall t :: t in b.flags && b.flags[t].queued ==>
             && a.flags[t].queued && a.flags[t].running == b.flags[t].running
             && (a.flags[t].cancelled ==> b.flags[t].cancelled)
  }

  /** Tasks that a walk has cancelled are gone, or running still with the request pending. */
  ghost predicate Dealt(flags: map<Task, Flag>, seen: seq<Task>, active: bool) {
    forall t :: t in seen && t in flags && flags[t].queued ==> active && flags[t].cancelled
  }

  /** One round of a walk that cancels tasks. */
  lemma CancelledOne(was: Moment, seen: seq<Task>, a: Moment, b: Moment, active: bool, cur: Task, end: Task)
    requires Later(a, b, end) && a.lists.walkers != [] && was.adds <= a.adds
    requires var s, n := a.lists.Of(active), |a.lists.walkers| - 1;
             && cur in s && Distinct(s) && end !in s && Distinct(was.lists.Of(active))
             && a.lists.walkers[n] == Walker(active, Successor(s, end, cur))
             && (a.adds == was.adds ==> Walked(was.lists.Of(active), seen, From(s, cur), s) && Dealt(a.flags, seen, active))
    requires cur in a.flags && a.flags[cur].running == active
    requires a.adds == b.adds && b.flags[cur].queued ==> b.flags[cur].running && b.flags[cur].cancelled
    ensures |b.lists.walkers| == |a.lists.walkers|
    ensures var s, cur' := b.lists.Of(active), b.lists.walkers[|b.lists.walkers| - 1].next;
            && (a.adds == b.adds ==> |From(s, cur')| < |From(a.lists.Of(active), cur)|)
            && (b.adds == was.adds ==>
                  && Walked(was.lists.Of(active), seen + [cur], From(s, cur'), s)
                  && Dealt(b.flags, seen + [cur], active))
  {
    if a.adds == b.adds {
      InnerLater(a, b, end, active);
      var s, cur' := b.lists.Of(active), b.lists.walkers[|b.lists.walkers| - 1].next;
      ShorterRound(a.lists.Of(active), end, cur, s, cur');
      if a.adds == was.adds {
        WalkedRound(was.lists.Of(active), seen, a.lists.Of(active), end, cur, s, cur');
        assert OpenBooks(0);
      }
    }
  }

  lemma ShorterRound(s: seq<Task>, end: Task, cur: Task, now: seq<Task>, next: Task)
    requires Distinct(s) && end !in s && cur in s
    requires now == Only(s, Elements(now)) && next == Skip(From(s, Successor(s, end, cur)), Elements(now), end)
    ensures |From(now, next)| < |From(s, cur)|
  {
    AheadHere(s, end, cur);
    assert From(s, cur)[1..] == From(s, Successor(s, end, cur));
    AheadThinned(s, Elements(now), end, Successor(s, end, cur));
    OnlyShorter(From(s, Successor(s, end, cur)), Elements(now));
  }

  /** Without the walk that began last. */
  ghost function Outer(m: Moment): Moment
    requires m.lists.walkers != []
  {
    m.(lists := m.lists.(walkers := m.lists.walkers[..|m.lists.walkers| - 1]))
  }

  lemma OuterLater(a: Moment, b: Moment, end: Task)
    requires Later(a, b, end) && a.lists.walkers != [] && b.lists.walkers != []
    ensures Later(Outer(a), Outer(b), end)
    ensures |a.lists.walkers| == |b.lists.walkers|
  {
    assert OpenBooks(0);
    var a', b' := Outer(a).lists, Outer(b).lists;
    if a.adds == b.adds {
      CarriedFewer(a.lists.active, a.lists.Nexts(true), b.lists.active, b.lists.Nexts(true), end,
                   a'.Nexts(true), b'.Nexts(true));
      CarriedFewer(a.lists.inactive, a.lists.Nexts(false), b.lists.inactive, b.lists.Nexts(false), end,
                   a'.Nexts(false), b'.Nexts(false));
    }
  }

  /** How the walk that began last fares. */
  lemma InnerLater(a: Moment, b: Moment, end: Task, active: bool)
    requires Later(a, b, end) && a.lists.walkers != [] && a.adds == b.adds
    requires a.lists.walkers[|a.lists.walkers| - 1].active == active
    ensures |a.lists.walkers| == |b.lists.walkers|
    ensures b.lists.Of(active) == Only(a.lists.Of(active), Elements(b.lists.Of(active)))
    ensures var n := |a.lists.walkers| - 1;
            && b.lists.walkers[n].active == active
            && b.lists.walkers[n].next ==
                 Skip(From(a.lists.Of(active), a.lists.walkers[n].next), Elements(b.lists.Of(active)), end)
  {
    assert OpenBooks(0) && OpenWalk(0);
    var n := |a.lists.walkers| - 1;
    assert n in a.lists.Nexts(active);
  }

  /** The walks change, the rest of the books does not. */
  lemma BooksWalked(ls: Lists, r: Lists, fs: map<Task, Flag>, end: Task, added: multiset<Task>, completed: multiset<Task>)
    requires Books(ls, fs, end, added, completed)
    requires r.active == ls.active && r.inactive == ls.inactive
    requires forall i :: 0 <= i < |r.walkers| ==>
               || (i < |ls.walkers| && r.walkers[i] == ls.walkers[i])
               || r.walkers[i].next == end || r.walkers[i].next in r.Of(r.walkers[i].active)
    ensures Books(r, fs, end, added, completed) && r.Proper(end)
  {
    assert OpenBooks(0) && OpenWalk(0);
    forall i | 0 <= i < |r.walkers|
      ensures r.walkers[i].next == end || r.walkers[i].next in r.Of(r.walkers[i].active)
    {
      if i < |ls.walkers| && r.walkers[i] == ls.walkers[i] {
        assert i in ls.Nexts(r.walkers[i].active);
      }
    }
  }

  lemma BooksMarked(ls: Lists, fs: map<Task, Flag>, end: Task, added: multiset<Task>, completed: multiset<Task>, t: Task, f: Flag)
    requires Books(ls, fs, end, added, completed) && t in fs
    requires f.queued == fs[t].queued && f.running == fs[t].running
    requires (f.timer ==> f.queued) && (f.cancelled ==> f.queued && f.running)
    ensures Books(ls, fs[t := f], end, added, completed)
  {
    assert OpenBooks(0);
  }

  lemma LaterNowhere(a: Moment, end: Task)
    requires a.lists.Proper(end)
    ensures Later(a, a, end)
  {
    ShrunkNowhere(a.lists, end);
  }

  lemma LaterTwice(a: Moment, b: Moment, c: Moment, end: Task)
    requires a.lists.Proper(end) && Later(a, b, end) && Later(b, c, end)
    ensures Later(a, c, end)
  {
    assert OpenBooks(0);
    if a.adds == c.adds {
      ShrunkTwice(a.lists, b.lists, c.lists, end);
    }
  }

  class RunQueue {
    const maxRunningTasks: int
    const hasEmptyCb: bool
    /** Stands for the heads of the two lists. */
    const end: Task

    var lists: Lists
    var flags: map<Task, Flag>
    var runningTasks: int
    var stopped: bool
    var empty: bool
    var armed: bool
    var callback: TimerCallback

    /** Calls of runqueue_start_next that are still to come in the calls under way; how often
        tasks were added at all; how often each one was added and completed; whether one was
        ever added as running. */
    ghost var owed: nat
    ghost var adds: nat
    ghost var added: multiset<Task>
    ghost var completed: multiset<Task>
    ghost var forced: bool

    /** What every call keeps. */
    ghost predicate Valid()
      reads this
    {
      Books(lists, flags, end, added, completed) && Timing()
    }

    ghost predicate CanStart()
      reads this`lists, this`stopped
    {
      !stopped && lists.inactive != [] && (maxRunningTasks == 0 || |lists.active| < maxRunningTasks)
    }

    ghost predicate Timing()
      reads this`lists, this`runningTasks, this`stopped, this`empty, this`armed, this`callback, this`owed, this`forced
    {
      && runningTasks == |lists.active|
      && (empty ==> lists.active == [] && lists.inactive == [])
      && (armed && callback == TellEmpty ==> empty)
      && (owed == 0 && CanStart() ==> armed && callback == StartNext)
      && (!forced && maxRunningTasks > 0 ==> runningTasks <= maxRunningTasks)
    }

    /** runqueue_init, for the tasks of `pool`. */
    constructor (maxRunningTasks: int, hasEmptyCb: bool, pool: set<Task>)
      ensures Valid() && owed == 0 && !forced && flags.Keys == pool
      ensures lists == Lists([], [], []) && !stopped && !empty && !armed
      ensures forall t :: t in flags ==> flags[t] == Flag(false, false, false, false)
      ensures this.maxRunningTasks == maxRunningTasks && this.hasEmptyCb == hasEmptyCb
    {
      this.maxRunningTasks, this.hasEmptyCb := maxRunningTasks, hasEmptyCb;
      lists := Lists([], [], []);
      flags := map t | t in pool :: Flag(false, false, false, false);
      runningTasks, stopped, empty, armed, callback := 0, false, false, false, StartNext;
      owed, adds, added, completed, forced := 0, 0, multiset{}, multiset{}, false;
      end := new Task(false, false, false, false, 0, 0, 0);
      new;
      assert OpenWalk(0);
    }

    /** A task is in one list when it is queued, in the one that its flags say; none is in both, and
        what was added is completed or still queued; and a task that could be started has a wakeup. */
    lemma InOneList(t: Task)
      requires Valid() && t in flags
      ensures t in lists.active <==> flags[t].queued && flags[t].running
      ensures t in lists.inactive <==> flags[t].queued && !flags[t].running
      ensures Distinct(lists.active) && Distinct(lists.inactive) && runningTasks == |lists.active|
      ensures completed[t] + (if flags[t].queued then 1 else 0) == added[t]
      ensures owed == 0 && CanStart() ==> armed && callback == StartNext
      ensures !forced && maxRunningTasks > 0 ==> |lists.active| <= maxRunningTasks
    {
      assert OpenBooks(0) && OpenWalk(0);
    }

    /** runqueue_start_next */
    method Wake()
      requires Books(lists, flags, end, added, completed)
      requires runningTasks == |lists.active|
      requires empty ==> lists.active == [] && lists.inactive == []
      requires !forced && maxRunningTasks > 0 ==> runningTasks <= maxRunningTasks
      modifies this`armed, this`callback
      ensures Valid()
      ensures !empty ==> armed && callback == StartNext
      ensures empty ==> armed == old(armed) && callback == old(callback)
    {
      if empty {
        return;
      }
      callback := StartNext;
      armed := true;
    }

    /** The part of _runqueue_task_add behind its checks. */
    method Enqueue(t: Task, running: bool, first: bool)
      requires Valid() && t in flags && !flags[t].queued && (running || t.hasRun)
      modifies this`lists, this`flags, this`runningTasks, this`empty, this`armed, this`callback
      modifies this`adds, this`added, this`forced
      ensures Valid() && adds == old(adds) + 1 && added == old(added) + multiset{t}
      ensures lists == Added(old(lists), running, t, first)
      ensures flags == old(flags)[t := Flag(true, running, false, old(flags[t].timer))]
      ensures forced == (old(forced) || running)
    {
      PutIn(t, running, first);
      empty := false;
      Wake();
    }

    /** A call of runqueue_start_next that was still to come. */
    method WakeOwed()
      requires Valid() && owed > 0
      modifies this`owed, this`armed, this`callback
      ensures Valid() && owed == old(owed) - 1
    {
      owed := owed - 1;
      Wake();
    }

    /** The list, the flags and the counter of _runqueue_task_add. */
    method PutIn(t: Task, running: bool, first: bool)
      requires Valid() && t in flags && !flags[t].queued && (running || t.hasRun)
      modifies this`lists, this`flags, this`runningTasks, this`adds, this`added, this`forced
      ensures Books(lists, flags, end, added, completed) && runningTasks == |lists.active|
      ensures !forced && maxRunningTasks > 0 ==> runningTasks <= maxRunningTasks
      ensures adds == old(adds) + 1 && added == old(added) + multiset{t}
      ensures lists == Added(old(lists), running, t, first)
      ensures flags == old(flags)[t := Flag(true, running, false, old(flags[t].timer))]
      ensures forced == (old(forced) || running)
    {
      BooksAdded(lists, flags, end, added, completed, t, running, first);
      if running {
        runningTasks := runningTasks + 1;
        forced := true;
      }
      lists := Added(lists, running, t, first);
      flags := flags[t := Flag(true, running, false, flags[t].timer)];
      adds, added := adds + 1, added + multiset{t};
    }

    /** _runqueue_task_add */
    method Add(t: Task, running: bool, first: bool)
      requires Valid() && t in flags
      modifies this`lists, this`flags, this`runningTasks, this`empty, this`armed, this`callback
      modifies this`adds, this`added, this`forced
      ensures Valid()
      ensures adds == old(adds) + if old(flags[t].queued) || (!t.hasRun && !running) then 0 else 1
      ensures adds == old(adds) ==> lists == old(lists) && added == old(added) && flags == old(flags)
      ensures adds > old(adds) ==>
                && lists == Added(old(lists), running, t, first) && added == old(added) + multiset{t}
                && flags == old(flags)[t := Flag(true, running, false, old(flags[t].timer))]
      ensures forced == (old(forced) || (adds > old(adds) && running))
    {
      if flags[t].queued {
        return;
      }
      if !t.hasRun && !running {
        return;
      }
      Enqueue(t, running, first);
    }

    /** The part of runqueue_task_complete before the callback. */
    method TakeOut(t: Task)
      requires Valid() && t in flags && flags[t].queued && owed > 0
      modifies this`lists, this`runningTasks, this`completed, this`flags
      ensures Valid() && completed == old(completed) + multiset{t}
      ensures Shrunk(old(lists), lists, end)
      ensures |lists.active| == |old(lists.active)| - (if old(flags[t].running) then 1 else 0)
      ensures |lists.inactive| == |old(lists.inactive)| - (if old(flags[t].running) then 0 else 1)
      ensures flags == old(flags)[t := Flag(false, false, false, false)]
    {
      BooksRemoved(lists, flags, end, added, completed, t);
      var running := flags[t].running;
      if running {
        runningTasks := runningTasks - 1;
      }
      completed := completed + multiset{t};
      lists, flags := Removed(lists, running, t, end), flags[t := Flag(false, false, false, false)];
    }

    ghost function Now(): Moment
      reads this`lists, this`flags, this`adds, this`added
    {
      Moment(lists, flags, adds, added)
    }

    lemma BooksProper()
      requires Valid()
      ensures lists.Proper(end)
    {
      assert OpenBooks(0);
    }

    lemma Apart(active: bool)
      requires Valid()
      ensures Distinct(lists.Of(active)) && end !in lists.Of(active)
      ensures forall t :: t in lists.Of(active) ==> t in flags && flags[t].queued && flags[t].running == active
    {
      assert OpenBooks(0) && OpenWalk(0);
    }

    lemma AddIsLater(a: Moment, b: Moment)
      requires b.flags.Keys == a.flags.Keys && a.lists.walkers == b.lists.walkers && a.adds < b.adds
      ensures Later(a, b, end)
    {
    }

    lemma TakeOutIsLater(a: Moment, b: Moment, t: Task)
      requires t in a.flags && b.flags == a.flags[t := Flag(false, false, false, false)]
      requires a.adds == b.adds && a.added == b.added && Shrunk(a.lists, b.lists, end)
      ensures Later(a, b, end)
    {
    }

    /** A callback: it takes its steps from a script, which it uses up as it goes. */
    method Callback(script: seq<Step>) returns (rest: seq<Step>)
      requires Valid() && AllKnown(script, flags.Keys)
      modifies this
      ensures Valid() && owed == old(owed) && Later(old(Now()), Now(), end)
      ensures AllKnown(rest, flags.Keys) && |rest| <= |script| && (adds > old(adds) ==> |rest| < |script|)
      ensures adds + Adds(rest) <= old(adds) + Adds(script)
      ensures Still(script) ==> Still(rest) && (old(stopped) ==> stopped)
      decreases |script|, 0
    {
      ghost var was := Now();
      BooksProper();
      LaterNowhere(was, end);
      rest := script;
      while rest != []
        invariant Valid() && owed == old(owed) && Later(was, Now(), end)
        invariant AllKnown(rest, flags.Keys) && |rest| <= |script| && (adds > old(adds) ==> |rest| < |script|)
        invariant adds + Adds(rest) <= old(adds) + Adds(script)
        invariant Still(script) ==> Still(rest) && (old(stopped) ==> stopped)
        decreases |rest|
      {
        ghost var mid := Now();
        var step := rest[0];
        rest := rest[1..];
        if step.Return? {
          return;
        }
        rest := Do(step, rest);
        LaterTwice(was, mid, Now(), end);
      }
    }

    /** One step of a callback. */
    method Do(step: Step, script: seq<Step>) returns (rest: seq<Step>)
      requires Valid() && Known(step, flags.Keys) && AllKnown(script, flags.Keys)
      modifies this
      ensures Valid() && owed == old(owed) && Later(old(Now()), Now(), end)
      ensures AllKnown(rest, flags.Keys) && |rest| <= |script|
      ensures adds + Adds(rest) <= old(adds) + Adds(script) + if step.AddTask? then 1 else 0
      ensures Still(script) && !step.Resume? ==> Still(rest) && (old(stopped) ==> stopped)
      decreases |script|, 5
    {
      ghost var was := Now();
      BooksProper();
      LaterNowhere(was, end);
      rest := script;
      match step {
        case AddTask(t, running, first) =>
          Add(t, running, first);
          if adds > old(adds) {
            AddIsLater(was, Now());
          }
        case CompleteTask(t) =>
          rest := Complete(t, script);
        case CancelTask(t, kind) =>
          rest := Cancel(t, kind, script);
        case KillTask(t) =>
          rest := Kill(t, script);
        case CancelActive =>
          rest := CancelAll(true, script);
        case CancelPending =>
          rest := CancelAll(false, script);
        case Stop =>
          stopped := true;
        case Resume =>
          stopped := false;
          Wake();
        case Return =>
      }
    }

    lemma MarkIsLater(a: Moment, b: Moment, t: Task)
      requires t in a.flags && t in b.flags && b.lists == a.lists && b.adds == a.adds && b.added == a.added && a.lists.Proper(end)
      requires b.flags == a.flags[t := b.flags[t]]
      requires b.flags[t].queued == a.flags[t].queued && b.flags[t].running == a.flags[t].running
      requires a.flags[t].cancelled ==> b.flags[t].cancelled
      ensures Later(a, b, end)
    {
      ShrunkNowhere(a.lists, end);
    }

    /** runqueue_task_cancel */
    method Cancel(t: Task, kind: int, script: seq<Step>) returns (rest: seq<Step>)
      requires Valid() && t in flags && AllKnown(script, flags.Keys)
      modifies this
      ensures Valid() && owed == old(owed) && Later(old(Now()), Now(), end)
      ensures AllKnown(rest, flags.Keys) && |rest| <= |script| && (adds > old(adds) ==> |rest| < |script|)
      ensures adds + Adds(rest) <= old(adds) + Adds(script)
      ensures Still(script) ==> Still(rest) && (old(stopped) ==> stopped)
      ensures adds == old(adds) && flags[t].queued ==> flags[t].running && flags[t].cancelled
      decreases |script|, 2
    {
      rest := script;
      ghost var was := Now();
      BooksProper();
      LaterNowhere(was, end);
      if !flags[t].queued {
        return;
      }
      if !flags[t].running {
        rest := Complete(t, script);
        return;
      }
      ghost var f := Flag(true, true, true, t.cancelTimeout != 0 || flags[t].timer);
      BooksMarked(lists, flags, end, added, completed, t, f);
      flags := flags[t := flags[t].(cancelled := true)];
      if t.cancelTimeout != 0 {
        flags := flags[t := flags[t].(timer := true)];
      }
      assert flags == was.flags[t := f];
      ghost var mid := Now();
      MarkIsLater(was, mid, t);
      if t.hasCancel {
        rest := Callback(script);
        LaterTwice(was, mid, Now(), end);
        Sticks(mid, Now(), t);
      }
    }

    lemma Sticks(a: Moment, b: Moment, t: Task)
      requires Later(a, b, end) && t in a.flags
      ensures a.adds == b.adds && b.flags[t].queued ==>
                a.flags[t].queued && b.flags[t].running == a.flags[t].running &&
                (a.flags[t].cancelled ==> b.flags[t].cancelled)
    {
      assert OpenBooks(0);
    }

    /** runqueue_task_kill */
    method Kill(t: Task, script: seq<Step>) returns (rest: seq<Step>)
      requires Valid() && t in flags && AllKnown(script, flags.Keys)
      modifies this
      ensures Valid() && owed == old(owed) && Later(old(Now()), Now(), end)
      ensures AllKnown(rest, flags.Keys) && |rest| <= |script| && (adds > old(adds) ==> |rest| < |script|)
      ensures adds + Adds(rest) <= old(adds) + Adds(script)
      ensures Still(script) ==> Still(rest) && (old(stopped) ==> stopped)
      ensures adds == old(adds) ==> !flags[t].queued
      decreases |script|, 2
    {
      rest := script;
      ghost var was := Now();
      BooksProper();
      LaterNowhere(was, end);
      var running := flags[t].running;
      if !flags[t].queued {
        return;
      }
      if running && t.hasKill {
        rest := Callback(rest);
      }
      ghost var mid := Now();
      rest := Complete(t, rest);
      LaterTwice(was, mid, Now(), end);
    }

    /** The beginning of safe_list_for_each: a walk whose first element is `cur`. */
    method Begin(active: bool) returns (cur: Task)
      requires Valid()
      modifies this`lists
      ensures Valid() && lists.walkers != [] && Outer(Now()) == old(Now())
      ensures var s, n := lists.Of(active), |lists.walkers| - 1;
              && cur == FirstOr(s, end)
              && lists.walkers[n] == Walker(active, Successor(s, end, cur))
    {
      var s := if active then lists.active else lists.inactive;
      cur := if s == [] then end else s[0];
      Apart(active);
      if s != [] {
        SuccessorAt(s, 0, end);
      }
      var next := if |s| > 1 then s[1] else end;
      ghost var was := lists;
      lists := lists.(walkers := lists.walkers + [Walker(active, next)]);
      BooksWalked(was, lists, flags, end, added, completed);
    }

    /** The end of a round of safe_list_for_each. */
    method Advance(active: bool, cur: Task)
      requires Valid() && lists.walkers != [] && lists.walkers[|lists.walkers| - 1].active == active
      requires cur == end || cur in lists.Of(active)
      modifies this`lists
      ensures Valid() && |lists.walkers| == |old(lists.walkers)| && Outer(Now()) == Outer(old(Now()))
      ensures lists.active == old(lists.active) && lists.inactive == old(lists.inactive)
      ensures lists.walkers[|lists.walkers| - 1] == Walker(active, Successor(lists.Of(active), end, cur))
    {
      var s := if active then lists.active else lists.inactive;
      var next := end;
      if cur == end {
        next := if s == [] then end else s[0];
      } else {
        var k := IndexOf(s, cur);
        next := if k + 1 < |s| then s[k + 1] else end;
        Apart(active);
        SuccessorAt(s, k, end);
      }
      ghost var was := lists;
      lists := lists.(walkers := lists.walkers[|lists.walkers| - 1 := Walker(active, next)]);
      BooksWalked(was, lists, flags, end, added, completed);
    }

    /** The walk of runqueue_cancel_active or runqueue_cancel_pending. */
    method CancelAll(active: bool, script: seq<Step>) returns (rest: seq<Step>)
      requires Valid() && AllKnown(script, flags.Keys)
      modifies this
      ensures Valid() && owed == old(owed) && Later(old(Now()), Now(), end)
      ensures AllKnown(rest, flags.Keys) && |rest| <= |script| && (adds > old(adds) ==> |rest| < |script|)
      ensures adds + Adds(rest) <= old(adds) + Adds(script)
      ensures Still(script) ==> Still(rest) && (old(stopped) ==> stopped)
      ensures adds == old(adds) ==>
                forall t :: t in old(lists.Of(active)) && t in flags && flags[t].queued ==> active && flags[t].cancelled
      decreases |script|, 4
    {
      rest := script;
      ghost var was, seen, n := Now(), [], |lists.walkers|;
      Apart(active);
      BooksProper();
      LaterNowhere(was, end);
      var cur := Begin(active);
      WalkedNothing(was.lists.Of(active), end);
      while cur != end
        invariant Valid() && owed == old(owed) && |lists.walkers| == n + 1 && lists.walkers[n].active == active
        invariant Later(was, Outer(Now()), end)
        invariant AllKnown(rest, flags.Keys) && |rest| <= |script| && (adds > old(adds) ==> |rest| < |script|)
        invariant adds + Adds(rest) <= old(adds) + Adds(script)
        invariant Still(script) ==> Still(rest) && (old(stopped) ==> stopped)
        invariant cur == end || cur in lists.Of(active)
        invariant lists.walkers[n].next == Successor(lists.Of(active), end, cur)
        invariant adds == old(adds) ==> Walked(was.lists.Of(active), seen, From(lists.Of(active), cur), lists.Of(active))
        invariant adds == old(adds) ==> Dealt(flags, seen, active)
        decreases |rest|, |From(lists.Of(active), cur)|
      {
        ghost var here := cur;
        rest, cur := CancelOne(active, cur, rest, was, seen);
        seen := seen + [here];
      }
      End();
      if adds == old(adds) {
        AllDealt(was, seen, active);
      }
    }

    /** The end of safe_list_for_each. */
    method End()
      requires Valid() && lists.walkers != []
      modifies this`lists
      ensures Valid() && Now() == Outer(old(Now()))
    {
      ghost var was := lists;
      lists := lists.(walkers := lists.walkers[..|lists.walkers| - 1]);
      BooksWalked(was, lists, flags, end, added, completed);
    }

    lemma AllDealt(was: Moment, seen: seq<Task>, active: bool)
      requires Valid() && Later(was, Now(), end) && adds == was.adds && Dealt(flags, seen, active)
      requires Walked(was.lists.Of(active), seen, From(lists.Of(active), end), lists.Of(active))
      requires forall t :: t in was.lists.Of(active) ==> t in was.flags && was.flags[t].running == active
      ensures Dealt(flags, was.lists.Of(active), active)
    {
      Apart(active);
      WalkedAll(was.lists.Of(active), seen, end, lists.Of(active));
      forall t | t in was.lists.Of(active) && t in flags && flags[t].queued
        ensures active && flags[t].cancelled
      {
        assert t in lists.Of(active) by {
          assert OpenBooks(0);
        }
      }
    }

    /** Where a walk goes next is in its list. */
    lemma WalkGoesOn(i: nat)
      requires Valid() && i < |lists.walkers|
      ensures lists.walkers[i].next == end || lists.walkers[i].next in lists.Of(lists.walkers[i].active)
    {
      assert OpenBooks(0) && OpenWalk(0);
      assert i in lists.Nexts(lists.walkers[i].active);
    }

    /** One round of the walk. */
    method CancelOne(active: bool, cur: Task, script: seq<Step>, ghost was: Moment, ghost seen: seq<Task>)
      returns (rest: seq<Step>, cur': Task)
      requires Valid() && AllKnown(script, flags.Keys) && lists.walkers != [] && cur in lists.Of(active)
      requires lists.walkers[|lists.walkers| - 1] == Walker(active, Successor(lists.Of(active), end, cur))
      requires was.lists.Proper(end) && Later(was, Outer(Now()), end) && Distinct(was.lists.Of(active))
      requires adds == was.adds ==>
                 Walked(was.lists.Of(active), seen, From(lists.Of(active), cur), lists.Of(active)) && Dealt(flags, seen, active)
      modifies this
      ensures Valid() && owed == old(owed) && |lists.walkers| == |old(lists.walkers)| && Later(was, Outer(Now()), end)
      ensures AllKnown(rest, flags.Keys) && |rest| <= |script| && (adds > old(adds) ==> |rest| < |script|)
      ensures adds + Adds(rest) <= old(adds) + Adds(script)
      ensures Still(script) ==> Still(rest) && (old(stopped) ==> stopped)
      ensures old(adds) <= adds && (cur' == end || cur' in lists.Of(active))
      ensures lists.walkers[|lists.walkers| - 1] == Walker(active, Successor(lists.Of(active), end, cur'))
      ensures adds == was.adds ==>
                && Walked(was.lists.Of(active), seen + [cur], From(lists.Of(active), cur'), lists.Of(active))
                && Dealt(flags, seen + [cur], active)
      ensures adds == old(adds) ==> |From(lists.Of(active), cur')| < |From(old(lists.Of(active)), cur)|
      decreases |script|, 3
    {
      ghost var before := Now();
      Apart(active);
      rest := Cancel(cur, 0, script);
      ghost var mid := Now();
      OuterLater(before, mid, end);
      LaterTwice(was, Outer(before), Outer(mid), end);
      cur' := lists.walkers[|lists.walkers| - 1].next;
      CancelledOne(was, seen, before, mid, active, cur, end);
      WalkGoesOn(|lists.walkers| - 1);
      Advance(active, cur');
    }

    /** A task is taken out, and runqueue_start_next is still to be called for it. */
    method Leave(t: Task)
      requires Valid() && t in flags && flags[t].queued
      modifies this`lists, this`runningTasks, this`completed, this`flags, this`owed
      ensures Valid() && owed == old(owed) + 1 && completed == old(completed) + multiset{t}
      ensures Later(old(Now()), Now(), end) && adds == old(adds) && lists.Proper(end)
      ensures flags == old(flags)[t := Flag(false, false, false, false)]
    {
      ghost var was := Now();
      owed := owed + 1;
      TakeOut(t);
      TakeOutIsLater(was, Now(), t);
      BooksProper();
    }

    /** runqueue_task_complete */
    method Complete(t: Task, script: seq<Step>) returns (rest: seq<Step>)
      requires Valid() && t in flags && AllKnown(script, flags.Keys)
      modifies this
      ensures Valid() && owed == old(owed) && Later(old(Now()), Now(), end)
      ensures AllKnown(rest, flags.Keys) && |rest| <= |script| && (adds > old(adds) ==> |rest| < |script|)
      ensures adds + Adds(rest) <= old(adds) + Adds(script)
      ensures Still(script) ==> Still(rest) && (old(stopped) ==> stopped)
      ensures adds == old(adds) ==> !flags[t].queued
      decreases |script|, 1
    {
      rest := script;
      ghost var was := Now();
      BooksProper();
      LaterNowhere(was, end);
      if !flags[t].queued {
        return;
      }
      Leave(t);
      ghost var mid := Now();
      if t.hasComplete {
        rest := Callback(script);
        LaterTwice(was, mid, Now(), end);
        Sticks(mid, Now(), t);
      }
      WakeOwed();
    }

    /** How the books balance between two moments: what left the lists was completed. */
    lemma Balance(was: Lists, fs: map<Task, Flag>, bill: multiset<Task>, t: Task)
      requires Valid() && Books(was, fs, end, added, bill) && t in fs && t in flags
      ensures completed[t] + (if flags[t].queued then 1 else 0) == bill[t] + (if fs[t].queued then 1 else 0)
    {
      assert OpenBooks(0);
    }

    /** runqueue_cancel_pending: when the callbacks add no tasks, every task that was waiting is
        completed just once, and none is left. */
    method CancelAllPending(script: seq<Step>) returns (rest: seq<Step>)
      requires Valid() && AllKnown(script, flags.Keys)
      modifies this
      ensures Valid() && owed == old(owed) && |rest| <= |script| && AllKnown(rest, flags.Keys)
      ensures adds + Adds(rest) <= old(adds) + Adds(script)
      ensures Still(script) ==> Still(rest) && (old(stopped) ==> stopped)
      ensures Quiet(script) ==> adds == old(adds) && Quiet(rest)
      ensures adds == old(adds) ==> lists.inactive == []
      ensures adds == old(adds) ==> forall t :: t in old(lists.inactive) ==> completed[t] == old(completed)[t] + 1
      ensures adds >= old(adds) && Later(old(Now()), Now(), end) && (adds > old(adds) ==> |rest| < |script|)
    {
      ghost var was, bill := Now(), completed;
      Apart(false);
      rest := CancelAll(false, script);
      QuietAdds(script);
      QuietAdds(rest);
      if adds == was.adds {
        PendingGone(was, bill);
      }
    }

    lemma PendingGone(was: Moment, bill: multiset<Task>)
      requires Valid() && Books(was.lists, was.flags, end, was.added, bill)
      requires Later(was, Now(), end) && adds == was.adds
      requires forall t :: t in was.lists.inactive ==> t in was.flags && was.flags[t].queued && !was.flags[t].running
      requires forall t :: t in was.lists.inactive && t in flags ==> !flags[t].queued
      ensures lists.inactive == []
      ensures forall t :: t in was.lists.inactive ==> completed[t] == bill[t] + 1
    {
      Apart(false);
      assert OpenBooks(0);
      forall t | t in was.lists.inactive
        ensures completed[t] == bill[t] + 1
      {
        Balance(was.lists, was.flags, bill, t);
      }
      assert forall t :: t in lists.Of(false) ==> t in was.lists.inactive by {
        assert OpenWalk(0);
      }
      assert forall t :: t in lists.inactive ==> t !in lists.Of(false);
      SomeElement(lists.inactive);
    }

    /** The callback of a task's timer. */
    method TaskTimeout(t: Task, script: seq<Step>) returns (rest: seq<Step>)
      requires Valid() && t in flags && flags[t].timer && AllKnown(script, flags.Keys)
      modifies this
      ensures Valid() && owed == old(owed) && |rest| <= |script| && t in flags
      ensures adds == old(adds) && old(flags[t].cancelled) ==> !flags[t].queued
      ensures adds == old(adds) && flags[t].queued ==> flags[t].running && flags[t].cancelled
    {
      ghost var f := flags[t].(timer := false);
      TimerQueued(t);
      BooksMarked(lists, flags, end, added, completed, t, f);
      flags := flags[t := flags[t].(timer := false)];
      if flags[t].cancelled {
        rest := Kill(t, script);
      } else {
        rest := Cancel(t, t.cancelType, script);
      }
    }

    lemma TimerQueued(t: Task)
      requires Valid() && t in flags
      ensures flags[t].timer ==> flags[t].queued
      ensures flags[t].cancelled ==> flags[t].queued && flags[t].running
    {
      assert OpenBooks(0);
    }

    /** runqueue_kill ends with both lists empty when the callbacks add no tasks.  It stops the
        timer, so a wakeup is lost just when a task that was added could be started: never when the
        callbacks add nothing, and never in a stopped queue that they do not resume. */
    method KillAll(script: seq<Step>) returns (rest: seq<Step>)
      requires Valid() && AllKnown(script, flags.Keys)
      modifies this
      ensures Quiet(script) ==> adds == old(adds)
      ensures adds == old(adds) ==> Valid() && lists.active == [] && lists.inactive == []
      ensures !armed && (Valid() <==> !(owed == 0 && CanStart()))
      ensures old(stopped) && Still(script) ==> stopped && Valid()
      ensures |rest| <= |script| && owed == old(owed)
    {
      rest := script;
      ghost var was := Now();
      BooksProper();
      LaterNowhere(was, end);
      while lists.active != []
        invariant Valid() && owed == old(owed) && Later(was, Now(), end)
        invariant AllKnown(rest, flags.Keys) && |rest| <= |script|
        invariant adds + Adds(rest) <= old(adds) + Adds(script)
        invariant Still(script) ==> Still(rest) && (old(stopped) ==> stopped)
        decreases |rest|, |lists.active|
      {
        ghost var mid := Now();
        var t := lists.active[0];
        Apart(true);
        assert t in lists.Of(true);
        rest := Kill(t, rest);
        LaterTwice(was, mid, Now(), end);
        if adds == mid.adds {
          OneLess(mid, t);
        }
      }
      ghost var mid := Now();
      rest := CancelAllPending(rest);
      if adds == mid.adds {
        StillNone(mid);
      }
      QuietAdds(script);
      armed := false;
    }

    /** The statements of runqueue_kill, one after the other, for a queue in which only `t` waits
        and whose callback adds `u`: the timer is stopped although `u` could be started. */
    method KillOne(t: Task, u: Task)
      requires Valid() && owed == 0 && !stopped && maxRunningTasks >= 0 && runningTasks == 0
      requires t in flags && u in flags && t != u && !flags[u].queued && u.hasRun && t.hasComplete
      requires lists == Lists([], [t], [])
      modifies this
      ensures lists == Lists([], [u], []) && CanStart() && !armed && owed == 0 && !Valid()
    {
      var cur := Begin(false);
      FinishOne(t, u);
      End();
      armed := false;
    }

    /** The statements of runqueue_task_complete for such a task. */
    method FinishOne(t: Task, u: Task)
      requires Valid() && t in flags && u in flags && t != u && !flags[u].queued && u.hasRun
      requires lists.active == [] && lists.inactive == [t]
      modifies this
      ensures Valid() && owed == old(owed) && stopped == old(stopped)
      ensures lists.active == [] && lists.inactive == [u] && |lists.walkers| == |old(lists.walkers)|
    {
      TakeOutOnly(t);
      AddAlone(u);
      WakeOwed();
    }

    method TakeOutOnly(t: Task)
      requires Valid() && t in flags && lists.active == [] && lists.inactive == [t]
      modifies this`lists, this`runningTasks, this`completed, this`flags, this`owed
      ensures Valid() && owed == old(owed) + 1 && lists.active == [] && lists.inactive == []
      ensures |lists.walkers| == |old(lists.walkers)|
      ensures flags == old(flags)[t := Flag(false, false, false, false)]
    {
      OnlyWaiting(t);
      owed := owed + 1;
      TakeOut(t);
    }

    method AddAlone(u: Task)
      requires Valid() && u in flags && !flags[u].queued && u.hasRun
      requires lists.active == [] && lists.inactive == []
      modifies this`lists, this`flags, this`runningTasks, this`empty, this`armed, this`callback
      modifies this`adds, this`added, this`forced
      ensures Valid() && lists.active == [] && lists.inactive == [u] && lists.walkers == old(lists.walkers)
    {
      AddedAlone(lists, u);
      Add(u, false, false);
    }

    lemma AddedAlone(ls: Lists, u: Task)
      requires ls.active == [] && ls.inactive == []
      ensures Added(ls, false, u, false) == Lists([], [u], ls.walkers)
    {
    }

    lemma OnlyWaiting(t: Task)
      requires Valid() && t in flags && t in lists.inactive
      ensures flags[t].queued && !flags[t].running
    {
      assert OpenBooks(0);
    }

    /** A task that is not queued any more has left its list. */
    lemma OneLess(was: Moment, t: Task)
      requires Valid() && Later(was, Now(), end) && adds == was.adds
      requires t in was.lists.active && t in flags && !flags[t].queued
      ensures |lists.active| < |was.lists.active|
    {
      assert OpenBooks(0) && OpenWalk(0);
      assert lists.active == Only(was.lists.active, Elements(lists.active));
      OnlyLess(was.lists.active, Elements(lists.active), t);
    }

    lemma StillNone(was: Moment)
      requires Valid() && Later(was, Now(), end) && adds == was.adds && was.lists.active == []
      ensures lists.active == []
    {
      assert OpenBooks(0) && OpenWalk(0);
      assert lists.active == Only(was.lists.active, Elements(lists.active));
    }

    /** One round of the loop of __runqueue_start_next: the first waiting task starts running. */
    method StartFirst(script: seq<Step>) returns (rest: seq<Step>)
      requires Valid() && AllKnown(script, flags.Keys) && CanStart() && owed > 0
      modifies this
      ensures Valid() && owed == old(owed) && AllKnown(rest, flags.Keys) && |rest| <= |script|
      ensures adds + Adds(rest) <= old(adds) + Adds(script)
      ensures old(adds) <= adds && (adds > old(adds) ==> |rest| < |script|)
      ensures adds == old(adds) ==> |lists.inactive| < |old(lists.inactive)|
    {
      var t := lists.inactive[0];
      Apart(false);
      assert t in lists.Of(false);
      assert t.hasRun by {
        assert OpenBooks(0);
      }
      Promote(t);
      ghost var mid := Now();
      rest := Callback(script);
      NoMore(mid);
    }

    /** From the waiting to the running tasks. */
    method Promote(t: Task)
      requires Valid() && t in flags && flags[t].queued && !flags[t].running && CanStart() && owed > 0
      modifies this`lists, this`flags, this`runningTasks
      ensures Valid() && t in flags && flags[t].queued && flags[t].running && !flags[t].cancelled
      ensures |lists.inactive| == |old(lists.inactive)| - 1 && |lists.active| == |old(lists.active)| + 1
      ensures flags.Keys == old(flags.Keys)
    {
      ghost var f := Flag(true, true, false, t.runTimeout != 0 || flags[t].timer);
      BooksPromoted(lists, flags, end, added, completed, t, f);
      ghost var fs := flags;
      lists := Added(Removed(lists, false, t, end), true, t, false);
      runningTasks := runningTasks + 1;
      flags := flags[t := flags[t].(running := true)];
      if t.runTimeout != 0 {
        flags := flags[t := flags[t].(timer := true)];
      }
      assert flags == fs[t := f];
    }

    lemma NoMore(was: Moment)
      requires Later(was, Now(), end)
      ensures adds == was.adds ==> |lists.inactive| <= |was.lists.inactive|
    {
      if adds == was.adds {
        assert OpenBooks(0) && OpenWalk(0);
        assert lists.inactive == Only(was.lists.inactive, Elements(lists.inactive));
        OnlyShorter(was.lists.inactive, Elements(lists.inactive));
      }
    }

    /** __runqueue_start_next: afterwards nothing can be started. */
    method StartTasks(script: seq<Step>) returns (rest: seq<Step>)
      requires Valid() && AllKnown(script, flags.Keys)
      modifies this
      ensures Valid() && owed == old(owed) && AllKnown(rest, flags.Keys) && |rest| <= |script|
      ensures adds + Adds(rest) <= old(adds) + Adds(script)
      ensures !CanStart()
      ensures lists.active == [] && lists.inactive == [] ==> empty
    {
      rest := script;
      owed := owed + 1;
      while true
        invariant Valid() && owed == old(owed) + 1 && AllKnown(rest, flags.Keys) && |rest| <= |script|
        invariant adds + Adds(rest) <= old(adds) + Adds(script)
        decreases |rest|, |lists.inactive|
      {
        if stopped {
          break;
        }
        if lists.inactive == [] {
          break;
        }
        if maxRunningTasks != 0 && runningTasks >= maxRunningTasks {
          break;
        }
        rest := StartFirst(rest);
      }
      NoteEmpty();
      owed := owed - 1;
    }

    /** The end of __runqueue_start_next. */
    method NoteEmpty()
      requires Valid() && !CanStart()
      modifies this`empty, this`callback, this`armed
      ensures Valid() && (lists.active == [] && lists.inactive == [] ==> empty)
    {
      if !empty && lists.active == [] && lists.inactive == [] {
        empty := true;
        if hasEmptyCb {
          callback := TellEmpty;
          armed := true;
        }
      }
    }

    /** The queue's timer fires.  The callback for an empty queue runs only while both lists are
        empty. */
    method Expire(script: seq<Step>) returns (rest: seq<Step>, ghost toldEmpty: bool)
      requires Valid() && armed && owed == 0 && AllKnown(script, flags.Keys)
      modifies this
      ensures Valid() && owed == 0 && AllKnown(rest, flags.Keys) && |rest| <= |script|
      ensures adds + Adds(rest) <= old(adds) + Adds(script)
      ensures toldEmpty <==> old(callback) == TellEmpty
      ensures toldEmpty ==> old(lists.active) == [] && old(lists.inactive) == []
      ensures !toldEmpty ==> !CanStart()
    {
      toldEmpty := callback == TellEmpty;
      if callback == StartNext {
        owed := owed + 1;
        armed := false;
        rest := StartTasks(script);
        owed := owed - 1;
      } else {
        armed := false;
        rest := Callback(script);
      }
    }
  }

  /** runqueue_kill can lose a wakeup: a queue that it leaves with a task that could be started,
      and no timer for it. */
  method LostWakeup() returns (q: RunQueue)
    ensures q.CanStart() && !q.armed && q.owed == 0 && !q.Valid()
  {
    var t := new Task(true, false, false, true, 0, 0, 0);
    var u := new Task(true, false, false, false, 0, 0, 0);
    q := new RunQueue(1, false, {t, u});
    q.Add(t, false, false);
    assert [] + [t] == [t];
    q.KillOne(t, u);
  }

  lemma {:induction false} OnlyLess(s: seq<Task>, alive: set<Task>, t: Task)
    requires t in s && t !in alive
    ensures |Only(s, alive)| < |s|
  {
    if s[0] == t {
      OnlyShorter(s[1..], alive);
    } else {
      OnlyLess(s[1..], alive, t);
    }
  }
}
