/** What happens to a list while it is walked, as a value: a log of changes, what they leave of the
    list, what they leave ahead of a walker, and whom a walk visits. */
module SafeLog {
  import opened Sequences
  import opened SafeOrder

  /** An element was taken out, or added at the end or in front. */
  datatype Change<A> = Gone(x: A) | Came(x: A) | CameFirst(x: A)

  ghost function Drop<A>(s: seq<A>, x: A): (r: seq<A>)
    ensures forall y :: y in r ==> y in s && y != x
    ensures forall y :: y in s && y != x ==> y in r
  {
    Only(s, Elements(s) - {x})
  }

  ghost function Changed<A>(s: seq<A>, c: Change<A>): seq<A> {
    match c
    case Gone(x) => Drop(s, x)
    case Came(x) => s + [x]
    case CameFirst(x) => [x] + s
  }

  /** What lies ahead of a walker: who has nothing ahead any more does not see what is added. */
  ghost function AheadChanged<A>(s: seq<A>, c: Change<A>): seq<A> {
    match c
    case Gone(x) => Drop(s, x)
    case Came(x) => if s == [] then [] else s + [x]
    case CameFirst(x) => s
  }

  ghost function Play<A>(s: seq<A>, log: seq<Change<A>>): seq<A>
    decreases |log|
  {
    if log == [] then s else Play(Changed(s, log[0]), log[1..])
  }

  ghost function PlayAhead<A>(s: seq<A>, log: seq<Change<A>>): seq<A>
    decreases |log|
  {
    if log == [] then s else PlayAhead(AheadChanged(s, log[0]), log[1..])
  }

  lemma {:induction false} PlayTwice<A>(s: seq<A>, a: seq<Change<A>>, b: seq<Change<A>>)
    ensures Play(Play(s, a), b) == Play(s, a + b)
    decreases |a|
  {
    if a == [] {
      assert a + b == b;
    } else {
      assert (a + b)[1..] == a[1..] + b;
      PlayTwice(Changed(s, a[0]), a[1..], b);
    }
  }

  lemma {:induction false} PlayAheadTwice<A>(s: seq<A>, a: seq<Change<A>>, b: seq<Change<A>>)
    ensures PlayAhead(PlayAhead(s, a), b) == PlayAhead(s, a + b)
    decreases |a|
  {
    if a == [] {
      assert a + b == b;
    } else {
      assert (a + b)[1..] == a[1..] + b;
      PlayAheadTwice(AheadChanged(s, a[0]), a[1..], b);
    }
  }

  // -------- a list and its walkers --------

  /** How a list and the walkers in it get on while `log` happens: walker `j`, who was going to
      visit `next[j]`, is going to visit what lies ahead of him then. */
  ghost predicate Followed<A, J>(was: seq<A>, next: map<J, A>, log: seq<Change<A>>, now: seq<A>, next': map<J, A>, head: A) {
    SealedFollowed(was, next, log, now, next', head) == true
  }

  ghost predicate SealedFollowed<A, J>(was: seq<A>, next: map<J, A>, log: seq<Change<A>>, now: seq<A>, next': map<J, A>, head: A) {
    forall u: nat {:trigger OpenLog(u)} ::
      && now == Play(was, log) && next'.Keys == next.Keys
      && forall j :: j in next ==> From(now, next'[j]) == PlayAhead(From(was, next[j]), log)
  }

  ghost predicate OpenLog(u: nat) {
    true
  }

  lemma FollowedNowhere<A, J>(s: seq<A>, next: map<J, A>, head: A)
    ensures Followed(s, next, [], s, next, head)
  {
  }

  lemma FollowedTwice<A, J>(a: seq<A>, na: map<J, A>, l: seq<Change<A>>, b: seq<A>, nb: map<J, A>, m: seq<Change<A>>,
                            c: seq<A>, nc: map<J, A>, head: A)
    requires Followed(a, na, l, b, nb, head) && Followed(b, nb, m, c, nc, head)
    ensures Followed(a, na, l + m, c, nc, head)
  {
    assert OpenLog(0);
    PlayTwice(a, l, m);
    forall j | j in na
      ensures From(c, nc[j]) == PlayAhead(From(a, na[j]), l + m)
    {
      PlayAheadTwice(From(a, na[j]), l, m);
    }
  }

  /** The same for some of the walkers. */
  lemma FollowedFewer<A, J>(s: seq<A>, n: map<J, A>, log: seq<Change<A>>, t: seq<A>, n': map<J, A>, head: A,
                            m: map<J, A>, m': map<J, A>)
    requires Followed(s, n, log, t, n', head) && m.Keys == m'.Keys
    requires forall j :: j in m ==> j in n && m[j] == n[j]
    requires forall j :: j in m' ==> j in n' && m'[j] == n'[j]
    ensures Followed(s, m, log, t, m', head)
  {
    assert OpenLog(0);
  }

  lemma FollowedAt<A, J>(s: seq<A>, n: map<J, A>, log: seq<Change<A>>, t: seq<A>, n': map<J, A>, head: A, j: J)
    requires Followed(s, n, log, t, n', head) && j in n
    ensures j in n' && t == Play(s, log) && From(t, n'[j]) == PlayAhead(From(s, n[j]), log)
  {
    assert OpenLog(0);
  }

  // -------- single changes --------

  lemma PlayOne<A>(s: seq<A>, c: Change<A>)
    ensures Play(s, [c]) == Changed(s, c) && PlayAhead(s, [c]) == AheadChanged(s, c)
  {
    assert [c][1..] == [];
  }

  /** An element goes, and the walkers who were going to visit it go on to its successor. */
  lemma FollowedGone<A, J>(s: seq<A>, next: map<J, A>, k: nat, next': map<J, A>, head: A)
    requires Walkers(s, next, head) && k < |s| && next'.Keys == next.Keys
    requires forall j :: j in next ==> next'[j] == if next[j] == s[k] then Successor(s, head, s[k]) else next[j]
    ensures Followed(s, next, [Gone(s[k])], RemoveAt(s, k), next', head)
  {
    assert OpenWalk(0);
    var x := s[k];
    var alive := Elements(s) - {x};
    OneGone(s, k, head);
    PlayOne(s, Gone(x));
    forall j | j in next
      ensures From(RemoveAt(s, k), next'[j]) == PlayAhead(From(s, next[j]), [Gone(x)])
    {
      var r := From(s, next[j]);
      AheadThinned(s, alive, head, next[j]);
      OnlySame(r, alive, Elements(r) - {x});
      PlayOne(r, Gone(x));
      if next[j] != x {
        Unmoved(s, alive, head, next[j]);
      }
    }
  }

  lemma {:induction false} FromLonger<A>(s: seq<A>, x: A, n: A)
    ensures n in s ==> From(s + [x], n) == From(s, n) + [x]
    ensures n !in s && n != x ==> From(s + [x], n) == []
  {
    if s == [] {
      assert [x][1..] == [];
      assert s + [x] == [x];
    } else {
      assert (s + [x])[1..] == s[1..] + [x];
      FromLonger(s[1..], x, n);
    }
  }

  lemma FollowedCame<A, J>(s: seq<A>, next: map<J, A>, x: A, head: A)
    requires Walkers(s, next, head) && x !in s && x != head
    ensures Followed(s, next, [Came(x)], s + [x], next, head)
  {
    assert OpenWalk(0);
    PlayOne(s, Came(x));
    forall j | j in next
      ensures From(s + [x], next[j]) == PlayAhead(From(s, next[j]), [Came(x)])
    {
      FromLonger(s, x, next[j]);
      PlayOne(From(s, next[j]), Came(x));
    }
  }

  lemma FollowedFirst<A, J>(s: seq<A>, next: map<J, A>, x: A, head: A)
    requires Walkers(s, next, head) && x !in s && x != head
    ensures Followed(s, next, [CameFirst(x)], [x] + s, next, head)
  {
    assert OpenWalk(0);
    PlayOne(s, CameFirst(x));
    forall j | j in next
      ensures From([x] + s, next[j]) == PlayAhead(From(s, next[j]), [CameFirst(x)])
    {
      assert ([x] + s)[1..] == s;
      PlayOne(From(s, next[j]), CameFirst(x));
    }
  }

  // -------- whom a walk visits --------

  /** A walk that has `ahead` before it visits these; `logs` is what happens during each visit. */
  ghost function Visits<A>(ahead: seq<A>, logs: seq<seq<Change<A>>>): seq<A>
    decreases |logs|
  {
    if ahead == [] || logs == [] then []
    else [ahead[0]] + Visits(PlayAhead(ahead[1..], logs[0]), logs[1..])
  }

  /** And this is ahead of it then. */
  ghost function Left<A>(ahead: seq<A>, logs: seq<seq<Change<A>>>): seq<A>
    decreases |logs|
  {
    if ahead == [] || logs == [] then ahead
    else Left(PlayAhead(ahead[1..], logs[0]), logs[1..])
  }

  ghost function Whole<A>(logs: seq<seq<Change<A>>>): seq<Change<A>> {
    if logs == [] then [] else logs[0] + Whole(logs[1..])
  }

  lemma {:induction false} VisitsAreFewer<A>(ahead: seq<A>, logs: seq<seq<Change<A>>>)
    ensures |Visits(ahead, logs)| <= |logs|
    decreases |logs|
  {
    if ahead != [] && logs != [] {
      VisitsAreFewer(PlayAhead(ahead[1..], logs[0]), logs[1..]);
    }
  }

  lemma {:induction false} VisitsMore<A>(ahead: seq<A>, logs: seq<seq<Change<A>>>, log: seq<Change<A>>)
    requires Left(ahead, logs) != []
    ensures Visits(ahead, logs + [log]) == Visits(ahead, logs) + [Left(ahead, logs)[0]]
    ensures Left(ahead, logs + [log]) == PlayAhead(Left(ahead, logs)[1..], log)
    decreases |logs|
  {
    if logs == [] {
      assert (logs + [log])[1..] == [];
    } else {
      assert (logs + [log])[1..] == logs[1..] + [log];
      VisitsMore(PlayAhead(ahead[1..], logs[0]), logs[1..], log);
    }
  }

  /** A walk can be taken up at any visit. */
  lemma {:induction false} VisitsSplit<A>(ahead: seq<A>, logs: seq<seq<Change<A>>>, k: nat)
    requires k <= |logs|
    ensures Visits(ahead, logs) == Visits(ahead, logs[..k]) + Visits(Left(ahead, logs[..k]), logs[k..])
    ensures Left(ahead, logs) == Left(Left(ahead, logs[..k]), logs[k..])
    decreases k
  {
    if k == 0 || ahead == [] {
      assert logs[..0] == [] && logs[0..] == logs;
    } else {
      assert logs[..k][1..] == logs[1..][..k - 1] && logs[1..][k - 1..] == logs[k..];
      VisitsSplit(PlayAhead(ahead[1..], logs[0]), logs[1..], k - 1);
    }
  }

  lemma {:induction false} WholeMore<A>(logs: seq<seq<Change<A>>>, log: seq<Change<A>>)
    ensures Whole(logs + [log]) == Whole(logs) + log
  {
    if logs == [] {
      assert (logs + [log])[1..] == [];
    } else {
      assert (logs + [log])[1..] == logs[1..] + [log];
      WholeMore(logs[1..], log);
      Associate(logs[0], Whole(logs[1..]), log);
    }
  }

  // -------- what that means --------

  /** What lies ahead is in the list. */
  lemma {:induction false} AheadStaysIn<A>(s: seq<A>, ahead: seq<A>, log: seq<Change<A>>)
    requires forall x :: x in ahead ==> x in s
    ensures forall x :: x in PlayAhead(ahead, log) ==> x in Play(s, log)
    decreases |log|
  {
    if log != [] {
      AheadStaysIn(Changed(s, log[0]), AheadChanged(ahead, log[0]), log[1..]);
    }
  }

  /** An element is in the list when it is visited. */
  lemma {:induction false} VisitedIsThere<A>(s: seq<A>, ahead: seq<A>, logs: seq<seq<Change<A>>>, k: nat)
    requires k < |Visits(ahead, logs)| && forall x :: x in ahead ==> x in s
    ensures k < |logs| && Visits(ahead, logs)[k] in Play(s, Whole(logs[..k]))
    decreases |logs|
  {
    if k == 0 {
      assert logs[..0] == [];
    } else {
      AheadStaysIn(s, ahead[1..], logs[0]);
      VisitedIsThere(Play(s, logs[0]), PlayAhead(ahead[1..], logs[0]), logs[1..], k - 1);
      assert logs[..k][1..] == logs[1..][..k - 1];
      PlayTwice(s, logs[0], Whole(logs[1..][..k - 1]));
    }
  }

  /** What is ahead stays ahead until it goes. */
  lemma {:induction false} AheadOrGone<A>(ahead: seq<A>, log: seq<Change<A>>, x: A)
    requires x in ahead
    ensures x in PlayAhead(ahead, log) || Gone(x) in log
    decreases |log|
  {
    if log != [] && log[0] != Gone(x) {
      AheadOrGone(AheadChanged(ahead, log[0]), log[1..], x);
    }
  }

  /** Every element ahead is visited or taken out by a walk that comes to its end. */
  lemma {:induction false} VisitedOrGone<A>(ahead: seq<A>, logs: seq<seq<Change<A>>>, x: A)
    requires x in ahead && Left(ahead, logs) == []
    ensures x in Visits(ahead, logs) || Gone(x) in Whole(logs)
    decreases |logs|
  {
    if x != ahead[0] {
      AheadOrGone(ahead[1..], logs[0], x);
      if x in PlayAhead(ahead[1..], logs[0]) {
        VisitedOrGone(PlayAhead(ahead[1..], logs[0]), logs[1..], x);
      }
    }
  }

  lemma {:induction false} NothingAhead<A>(log: seq<Change<A>>)
    ensures PlayAhead([], log) == []
  {
    if log != [] {
      assert AheadChanged([], log[0]) == [];
      NothingAhead(log[1..]);
    }
  }

  /** An element that is added at the end during visit number `k`, after the changes `a` and before
      `b`: when something is still ahead of the walk, it is visited or taken out again; when nothing
      is, which is so from the beginning when the last element is visited, the walk ends with this
      visit. */
  lemma AddedBehind<A>(all: seq<A>, logs: seq<seq<Change<A>>>, k: nat, a: seq<Change<A>>, x: A, b: seq<Change<A>>)
    requires k < |logs| && Left(all, logs[..k]) != [] && logs[k] == a + ([Came(x)] + b)
    ensures |Visits(all, logs[..k])| < |Visits(all, logs)|
    ensures var ahead := PlayAhead(Left(all, logs[..k])[1..], a);
            && (ahead != [] && Left(all, logs) == [] ==>
                  x in Visits(all, logs)[|Visits(all, logs[..k])| + 1..] || Gone(x) in b || Gone(x) in Whole(logs[k + 1..]))
            && (ahead == [] ==> Visits(all, logs) == Visits(all, logs[..k]) + [Left(all, logs[..k])[0]])
  {
    var here, rest := Left(all, logs[..k]), logs[k..];
    VisitsSplit(all, logs, k);
    assert rest[1..] == logs[k + 1..];
    AddedBehindHere(here, a, x, b, rest);
    var v, w := Visits(all, logs[..k]), Visits(here, rest);
    assert (v + w)[|v| + 1..] == w[1..];
  }

  lemma AddedBehindHere<A>(ahead: seq<A>, a: seq<Change<A>>, x: A, b: seq<Change<A>>, logs: seq<seq<Change<A>>>)
    requires ahead != [] && logs != [] && logs[0] == a + ([Came(x)] + b)
    ensures PlayAhead(ahead[1..], a) != [] && Left(ahead, logs) == [] ==>
            x in Visits(ahead, logs)[1..] || Gone(x) in b || Gone(x) in Whole(logs[1..])
    ensures PlayAhead(ahead[1..], a) == [] ==> Visits(ahead, logs) == [ahead[0]]
  {
    var m := PlayAhead(ahead[1..], a);
    PlayAheadTwice(ahead[1..], a, [Came(x)] + b);
    PlayAheadTwice(m, [Came(x)], b);
    PlayOne(m, Came(x));
    var n := PlayAhead(ahead[1..], logs[0]);
    if m == [] {
      NothingAhead(b);
      assert n == [];
    } else if Left(ahead, logs) == [] {
      AheadOrGone(m + [x], b, x);
      if x in n {
        VisitedOrGone(n, logs[1..], x);
      }
    }
  }

  /** The elements that come in. */
  ghost function Newcomers<A>(log: seq<Change<A>>): seq<A> {
    if log == [] then [] else (if log[0].Gone? then [] else [log[0].x]) + Newcomers(log[1..])
  }

  lemma {:induction false} NewcomersJoined<A>(a: seq<Change<A>>, b: seq<Change<A>>)
    ensures Newcomers(a + b) == Newcomers(a) + Newcomers(b)
  {
    if a == [] {
      assert a + b == b;
    } else {
      assert (a + b)[1..] == a[1..] + b;
      NewcomersJoined(a[1..], b);
    }
  }

  lemma DistinctDrop<A>(s: seq<A>, x: A, t: seq<A>)
    requires Distinct(s + t)
    ensures Distinct(Drop(s, x) + t)
  {
    var d := Drop(s, x);
    DistinctFront(s, t);
    OnlyDistinct(s, Elements(s) - {x});
    DistinctJoined(d, t);
  }

  lemma DistinctFront<A>(s: seq<A>, t: seq<A>)
    requires Distinct(s + t)
    ensures Distinct(s) && Distinct(t) && forall x :: x in s ==> x !in t
  {
    var r := s + t;
    forall x | x in s
      ensures x !in t
    {
      var i :| 0 <= i < |s| && s[i] == x;
      assert r[i] == x;
      forall j | 0 <= j < |t|
        ensures t[j] != x
      {
        assert r[|s| + j] == t[j];
      }
    }
    forall i, j | 0 <= i < j < |s|
      ensures s[i] != s[j]
    {
      assert r[i] == s[i] && r[j] == s[j];
    }
    forall i, j | 0 <= i < j < |t|
      ensures t[i] != t[j]
    {
      assert r[|s| + i] == t[i] && r[|s| + j] == t[j];
    }
  }

  lemma DistinctJoined<A>(s: seq<A>, t: seq<A>)
    requires Distinct(s) && Distinct(t) && forall x :: x in s ==> x !in t
    ensures Distinct(s + t)
  {
    var r := s + t;
    forall i, j | 0 <= i < j < |r|
      ensures r[i] != r[j]
    {
      assert i < |s| ==> r[i] == s[i] && r[i] in s;
      assert i >= |s| ==> r[i] == t[i - |s|];
      assert j < |s| ==> r[j] == s[j];
      assert j >= |s| ==> r[j] == t[j - |s|] && r[j] in t;
    }
  }

  /** What is ahead has no element twice, and none of those that come later. */
  lemma {:induction false} AheadDistinct<A>(ahead: seq<A>, log: seq<Change<A>>, t: seq<A>)
    requires Distinct(ahead + (Newcomers(log) + t))
    ensures Distinct(PlayAhead(ahead, log) + t)
    ensures forall x :: x in PlayAhead(ahead, log) ==> x in ahead || x in Newcomers(log)
    decreases |log|
  {
    if log == [] {
      assert Newcomers(log) + t == t;
    } else {
      var rest := Newcomers(log[1..]) + t;
      var next := AheadChanged(ahead, log[0]);
      match log[0] {
        case Gone(x) =>
          assert Newcomers(log) + t == rest;
          DistinctDrop(ahead, x, rest);
        case Came(x) =>
          assert Newcomers(log) + t == [x] + rest;
          assert ahead + ([x] + rest) == (ahead + [x]) + rest;
          DistinctFront(ahead, [x] + rest);
          DistinctFront([x], rest);
        case CameFirst(x) =>
          assert Newcomers(log) + t == [x] + rest;
          DistinctFront(ahead, [x] + rest);
          DistinctFront([x], rest);
          DistinctJoined(ahead, rest);
      }
      if next == [] {
        assert next + rest == rest;
        assert Distinct(rest);
      }
      AheadDistinct(next, log[1..], t);
    }
  }

  /** An element that does not come in again is not visited twice. */
  lemma {:induction false} VisitedOnce<A>(ahead: seq<A>, logs: seq<seq<Change<A>>>)
    requires Distinct(ahead + Newcomers(Whole(logs)))
    ensures Distinct(Visits(ahead, logs))
    ensures forall x :: x in Visits(ahead, logs) ==> x in ahead || x in Newcomers(Whole(logs))
    decreases |logs|
  {
    if ahead != [] && logs != [] {
      var t := Newcomers(Whole(logs[1..]));
      NewcomersJoined(logs[0], Whole(logs[1..]));
      assert ahead + (Newcomers(logs[0]) + t) == [ahead[0]] + (ahead[1..] + (Newcomers(logs[0]) + t));
      DistinctFront([ahead[0]], ahead[1..] + (Newcomers(logs[0]) + t));
      AheadDistinct(ahead[1..], logs[0], t);
      var n := PlayAhead(ahead[1..], logs[0]);
      VisitedOnce(n, logs[1..]);
      DistinctJoined([ahead[0]], Visits(n, logs[1..]));
    }
  }

  lemma {:induction false} AheadOnly<A>(s: seq<A>, log: seq<Change<A>>)
    requires Newcomers(log) == []
    ensures PlayAhead(s, log) == Only(s, Elements(PlayAhead(s, log)))
    ensures forall x :: x in PlayAhead(s, log) ==> x in s
    decreases |log|
  {
    if log == [] {
      OnlyAll(s, Elements(s));
    } else {
      var x := log[0].x;
      AheadOnly(Drop(s, x), log[1..]);
      OnlyTwice(s, Elements(s) - {x}, Elements(PlayAhead(s, log)));
    }
  }

  /** When nobody comes in, elements are visited in list order. */
  lemma {:induction false} VisitsInOrder<A>(ahead: seq<A>, logs: seq<seq<Change<A>>>)
    requires Distinct(ahead) && Newcomers(Whole(logs)) == []
    ensures Visits(ahead, logs) == Only(ahead, Elements(Visits(ahead, logs)))
    decreases |logs|
  {
    var v := Visits(ahead, logs);
    if v == [] {
      assert Elements(v) == {};
      OnlyNone(ahead);
    } else {
      var t, n := ahead[1..], PlayAhead(ahead[1..], logs[0]);
      NewcomersJoined(logs[0], Whole(logs[1..]));
      AheadOnly(t, logs[0]);
      OnlyDistinct(t, Elements(n));
      VisitsInOrder(n, logs[1..]);
      var w := Visits(n, logs[1..]);
      assert forall x :: x in w ==> x in n;
      OnlyTwice(t, Elements(n), Elements(w));
      assert ahead[0] !in t;
      OnlySame(t, Elements(v), Elements(w));
    }
  }
}
