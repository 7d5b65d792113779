/** A list from which elements are taken while it is walked, as a value: what is left of it,
    and what lies ahead of a walker. */
module SafeOrder {
  import opened Sequences

  /** The elements of `s` that are alive, in the order of `s`. */
  ghost function Only<A>(s: seq<A>, alive: set<A>): (r: seq<A>)
    ensures forall x :: x in r ==> x in s && x in alive
    ensures forall x :: x in s && x in alive ==> x in r
  {
    if s == [] then [] else (if s[0] in alive then [s[0]] else []) + Only(s[1..], alive)
  }

  /** The part of `s` that begins with `n`. */
  ghost function From<A>(s: seq<A>, n: A): (r: seq<A>)
    ensures n in s <==> r != []
    ensures r != [] ==> r[0] == n
    ensures forall x :: x in r ==> x in s
  {
    if s == [] then [] else if s[0] == n then s else From(s[1..], n)
  }

  ghost function FirstOr<A>(s: seq<A>, end: A): A {
    if s == [] then end else s[0]
  }

  /** The first element of `s` that is alive. */
  ghost function Skip<A>(s: seq<A>, alive: set<A>, end: A): A {
    FirstOr(Only(s, alive), end)
  }

  /** The element behind `n`; behind the head is the first one, behind the last one the head. */
  ghost function Successor<A>(s: seq<A>, head: A, n: A): A {
    if n == head then FirstOr(s, head)
    else if n in s then FirstOr(From(s, n)[1..], head)
    else head
  }

  lemma {:induction false} OnlyAll<A>(s: seq<A>, alive: set<A>)
    requires forall x :: x in s ==> x in alive
    ensures Only(s, alive) == s
  {
    if s != [] {
      OnlyAll(s[1..], alive);
    }
  }

  lemma {:induction false} OnlyTwice<A>(s: seq<A>, a: set<A>, b: set<A>)
    requires b <= a
    ensures Only(Only(s, a), b) == Only(s, b)
  {
    if s != [] {
      OnlyTwice(s[1..], a, b);
      OnlyConcat(if s[0] in a then [s[0]] else [], Only(s[1..], a), b);
      if s[0] in a {
        OnlyConcat([s[0]], [], b);
        assert Only([s[0]], b) == if s[0] in b then [s[0]] else [];
      }
    }
  }

  lemma {:induction false} OnlyConcat<A>(s: seq<A>, t: seq<A>, alive: set<A>)
    ensures Only(s + t, alive) == Only(s, alive) + Only(t, alive)
  {
    if s == [] {
      assert s + t == t;
    } else {
      assert (s + t)[1..] == s[1..] + t;
      OnlyConcat(s[1..], t, alive);
    }
  }

  lemma {:induction false} OnlyDistinct<A>(s: seq<A>, alive: set<A>)
    requires Distinct(s)
    ensures Distinct(Only(s, alive))
  {
    if s != [] {
      assert s[0] !in s[1..];
      OnlyDistinct(s[1..], alive);
      var r, t := Only(s, alive), Only(s[1..], alive);
      forall i, j | 0 <= i < j < |r|
        ensures r[i] != r[j]
      {
        if s[0] in alive {
          assert r[j] == t[j - 1];
          assert i > 0 ==> r[i] == t[i - 1];
        }
      }
    }
  }

  /** Only depends on the elements of the list. */
  lemma {:induction false} OnlySame<A>(s: seq<A>, a: set<A>, b: set<A>)
    requires forall x :: x in s ==> (x in a <==> x in b)
    ensures Only(s, a) == Only(s, b)
  {
    if s != [] {
      OnlySame(s[1..], a, b);
    }
  }

  /** What lies ahead of a walker, after elements have gone and it was moved on past them. */
  lemma {:induction false} AheadThinned<A>(s: seq<A>, alive: set<A>, end: A, n: A)
    requires Distinct(s) && end !in s && (n == end || n in s)
    ensures From(Only(s, alive), Skip(From(s, n), alive, end)) == Only(From(s, n), alive)
  {
    if s != [] {
      var t := s[1..];
      assert s[0] !in t && (n != s[0] ==> n == end || n in t);
      var to := Skip(From(s, n), alive, end);
      if s[0] == n {
        FromFirst(Only(s, alive), end);
      } else {
        AheadThinned(t, alive, end, n);
        assert to == Skip(From(t, n), alive, end);
        assert to == end || to in Only(From(t, n), alive);
        assert to != s[0];
        if s[0] in alive {
          assert Only(s, alive)[1..] == Only(t, alive);
        } else {
          assert Only(s, alive) == Only(t, alive);
        }
      }
    }
  }

  lemma FromFirst<A>(s: seq<A>, end: A)
    requires end !in s
    ensures From(s, FirstOr(s, end)) == s
  {
  }

  /** Being moved on twice is being moved on once. */
  lemma MovedTwice<A>(s: seq<A>, a: set<A>, b: set<A>, end: A, n: A)
    requires Distinct(s) && end !in s && (n == end || n in s) && b <= a
    ensures Skip(From(Only(s, a), Skip(From(s, n), a, end)), b, end) == Skip(From(s, n), b, end)
  {
    AheadThinned(s, a, end, n);
    OnlyTwice(From(s, n), a, b);
  }

  /** A walker that is not at a gone element stays. */
  lemma Unmoved<A>(s: seq<A>, alive: set<A>, end: A, n: A)
    requires n == end ==> end !in s
    requires n == end || (n in s && n in alive)
    ensures Skip(From(s, n), alive, end) == n
  {
    if n in s {
      var r := From(s, n);
      assert r[0] == n;
    }
  }

  lemma AllButOne<A>(s: seq<A>, k: nat)
    requires Distinct(s) && k < |s|
    ensures forall x :: x in s[..k] || x in s[k + 1..] ==> x in Elements(s) - {s[k]}
  {
  }

  lemma OnlyAround<A>(p: seq<A>, x: A, q: seq<A>, alive: set<A>)
    requires x !in alive && forall y :: y in p || y in q ==> y in alive
    ensures Only(p + ([x] + q), alive) == p + q
    ensures Only([x] + q, alive) == q
  {
    OnlyConcat(p, [x] + q, alive);
    OnlyConcat([x], q, alive);
    OnlyAll(p, alive);
    OnlyAll(q, alive);
    assert Only([x], alive) == [];
    assert [] + q == q;
  }

  /** One element goes: the walkers that are at it move to its successor. */
  lemma OneGone<A>(s: seq<A>, k: nat, end: A)
    requires Distinct(s) && k < |s| && end !in s
    ensures Only(s, Elements(s) - {s[k]}) == RemoveAt(s, k)
    ensures Skip(From(s, s[k]), Elements(s) - {s[k]}, end) == Successor(s, end, s[k])
    ensures From(s, s[k]) == s[k..]
  {
    AllButOne(s, k);
    OnlyAround(s[..k], s[k], s[k + 1..], Elements(s) - {s[k]});
    OnePicked(s, k);
    FromAt(s, k);
  }

  lemma OnePicked<A>(s: seq<A>, k: nat)
    requires k < |s|
    ensures s == s[..k] + ([s[k]] + s[k + 1..]) && s[k..] == [s[k]] + s[k + 1..]
  {
  }

  lemma {:induction false} FromAt<A>(s: seq<A>, k: nat)
    requires Distinct(s) && k < |s|
    ensures From(s, s[k]) == s[k..]
  {
    if k > 0 {
      FromAt(s[1..], k - 1);
      assert s[1..][k - 1..] == s[k..];
    }
  }

  ghost predicate OpenWalk(u: nat) {
    true
  }

  /** How a list and the walkers in it get on while elements go: walker `j`, who was going to
      visit `next[j]`, is going to visit what is left of the list from there on. */
  ghost predicate Carried<A, J>(was: seq<A>, next: map<J, A>, now: seq<A>, next': map<J, A>, head: A) {
    SealedCarried(was, next, now, next', head) == true
  }

  ghost predicate SealedCarried<A, J>(was: seq<A>, next: map<J, A>, now: seq<A>, next': map<J, A>, head: A) {
    forall u: nat {:trigger OpenWalk(u)} ::
      && now == Only(was, Elements(now))
      && next'.Keys == next.Keys
      && forall j :: j in next ==> next'[j] == Skip(From(was, next[j]), Elements(now), head)
  }

  ghost predicate Walkers<A, J>(s: seq<A>, next: map<J, A>, head: A) {
    SealedWalkers(s, next, head) == true
  }

  ghost predicate SealedWalkers<A, J>(s: seq<A>, next: map<J, A>, head: A) {
    forall u: nat {:trigger OpenWalk(u)} ::
      Distinct(s) && head !in s && forall j :: j in next ==> next[j] == head || next[j] in s
  }

  lemma CarriedNowhere<A, J>(s: seq<A>, next: map<J, A>, head: A)
    requires Walkers(s, next, head)
    ensures Carried(s, next, s, next, head)
  {
    assert OpenWalk(0);
    OnlyAll(s, Elements(s));
    forall j | j in next
      ensures next[j] == Skip(From(s, next[j]), Elements(s), head)
    {
      Unmoved(s, Elements(s), head, next[j]);
    }
  }

  lemma CarriedTwice<A, J>(a: seq<A>, na: map<J, A>, b: seq<A>, nb: map<J, A>, c: seq<A>, nc: map<J, A>, head: A)
    requires Walkers(a, na, head) && Carried(a, na, b, nb, head) && Carried(b, nb, c, nc, head)
    ensures Carried(a, na, c, nc, head)
  {
    assert OpenWalk(0);
    assert Elements(c) <= Elements(b);
    OnlyTwice(a, Elements(b), Elements(c));
    forall j | j in na
      ensures nc[j] == Skip(From(a, na[j]), Elements(c), head)
    {
      MovedTwice(a, Elements(b), Elements(c), head, na[j]);
    }
  }

  lemma CarriedWalkers<A, J>(a: seq<A>, na: map<J, A>, b: seq<A>, nb: map<J, A>, head: A)
    requires Walkers(a, na, head) && Carried(a, na, b, nb, head)
    ensures Walkers(b, nb, head)
  {
    assert OpenWalk(0);
    OnlyDistinct(a, Elements(b));
    forall j | j in nb
      ensures nb[j] == head || nb[j] in b
    {
      assert nb[j] == Skip(From(a, na[j]), Elements(b), head);
    }
  }

  lemma CarriedOne<A, J>(s: seq<A>, next: map<J, A>, k: nat, next': map<J, A>, head: A)
    requires Walkers(s, next, head) && k < |s| && next'.Keys == next.Keys
    requires forall j :: j in next ==> next'[j] == if next[j] == s[k] then Successor(s, head, s[k]) else next[j]
    ensures Carried(s, next, RemoveAt(s, k), next', head)
  {
    assert OpenWalk(0);
    OneGone(s, k, head);
    ElementsRemoved(s, k);
    assert Elements(RemoveAt(s, k)) == Elements(s) - {s[k]};
    forall j | j in next
      ensures next'[j] == Skip(From(s, next[j]), Elements(RemoveAt(s, k)), head)
    {
      if next[j] != s[k] {
        Unmoved(s, Elements(s) - {s[k]}, head, next[j]);
      }
    }
  }

  /** One round of a walk: `cur` has been seen, the rest lies ahead; then some elements go. */
  lemma RoundOver<A>(was: seq<A>, seen: seq<A>, cur: A, rest: seq<A>, alive: set<A>)
    requires Distinct(was) && seen + ([cur] + rest) == Only(was, Elements(seen + ([cur] + rest)))
    ensures (seen + [cur]) + Only(rest, alive) == Only(was, Elements((seen + [cur]) + Only(rest, alive)))
  {
    var all, r := seen + ([cur] + rest), Only(rest, alive);
    var keep := Elements((seen + [cur]) + r);
    OnlyDistinct(was, Elements(all));
    assert all == (seen + [cur]) + rest;
    OnlyTwice(was, Elements(all), keep);
    OnlyConcat(seen + [cur], rest, keep);
    OnlyAll(seen + [cur], keep);
    DistinctParts(seen + [cur], rest);
    OnlySame(rest, keep, alive);
  }

  lemma DistinctParts<A>(a: seq<A>, b: seq<A>)
    requires Distinct(a + b)
    ensures forall x :: x in a ==> x !in b
  {
    forall i, j | 0 <= i < |a| && 0 <= j < |b|
      ensures a[i] != b[j]
    {
      assert (a + b)[i] == a[i] && (a + b)[|a| + j] == b[j];
    }
  }

  /** What lies ahead of a walker at `cur` is `cur` and what lies ahead of its successor. */
  lemma {:induction false} AheadHere<A>(s: seq<A>, head: A, cur: A)
    requires Distinct(s) && head !in s && cur in s
    ensures From(s, cur) == [cur] + From(s, Successor(s, head, cur))
  {
    var k :| 0 <= k < |s| && s[k] == cur;
    FromAt(s, k);
    assert s[k..] == [cur] + s[k + 1..];
    assert From(s, cur)[1..] == s[k + 1..];
    if k + 1 < |s| {
      FromAt(s, k + 1);
    }
  }

  lemma {:induction false} OnlyNone<A>(s: seq<A>)
    ensures Only(s, {}) == []
  {
    if s != [] {
      OnlyNone(s[1..]);
    }
  }

  lemma CarriedFewer<A, J>(s: seq<A>, n: map<J, A>, t: seq<A>, n': map<J, A>, head: A, m: map<J, A>, m': map<J, A>)
    requires Carried(s, n, t, n', head) && m'.Keys == m.Keys
    requires forall j :: j in m ==> j in n && j in n' && m[j] == n[j] && m'[j] == n'[j]
    ensures Carried(s, m, t, m', head)
  {
    assert OpenWalk(0);
  }

  /** What has been seen and what lies ahead, in list order, and what is gone otherwise. */
  ghost predicate Walked<A>(was: seq<A>, seen: seq<A>, ahead: seq<A>, now: seq<A>) {
    SealedWalked(was, seen, ahead, now) == true
  }

  ghost predicate SealedWalked<A>(was: seq<A>, seen: seq<A>, ahead: seq<A>, now: seq<A>) {
    forall u: nat {:trigger OpenWalk(u)} ::
      && seen + ahead == Only(was, Elements(seen + ahead))
      && forall x :: x in was ==> x in seen || x in ahead || x !in now
  }

  lemma WalkedNothing<A>(s: seq<A>, head: A)
    requires head !in s
    ensures Walked(s, [], From(s, FirstOr(s, head)), s)
  {
    assert OpenWalk(0);
    FromFirst(s, head);
    OnlyAll(s, Elements(s));
    assert [] + s == s;
  }

  lemma WalkedAll<A>(was: seq<A>, seen: seq<A>, head: A, now: seq<A>)
    requires head !in now && Walked(was, seen, From(now, head), now)
    ensures seen == Only(was, Elements(seen))
    ensures forall x :: x in was ==> x in seen || x !in now
  {
    assert OpenWalk(0);
    assert From(now, head) == [] && seen + [] == seen;
  }

  /** One round of a walk: `cur` is seen, some elements go, and the walker was going to visit
      the successor of `cur` and goes to `next` instead. */
  lemma WalkedRound<A>(was: seq<A>, seen: seq<A>, s: seq<A>, head: A, cur: A, now: seq<A>, next: A)
    requires Distinct(was) && Distinct(s) && head !in s && cur in s
    requires Walked(was, seen, From(s, cur), s)
    requires now == Only(s, Elements(now)) && next == Skip(From(s, Successor(s, head, cur)), Elements(now), head)
    ensures Walked(was, seen + [cur], From(now, next), now)
    ensures |From(now, next)| < |From(s, cur)|
    ensures seen + [cur] == Only(was, Elements(seen + [cur]))
    ensures next == head || next in now
  {
    assert OpenWalk(0);
    var rest := From(s, Successor(s, head, cur));
    AheadHere(s, head, cur);
    assert Successor(s, head, cur) == head || Successor(s, head, cur) in s by {
      assert From(s, cur)[1..] == rest;
    }
    AheadThinned(s, Elements(now), head, Successor(s, head, cur));
    RoundOver(was, seen, cur, rest, Elements(now));
    RoundOver(was, seen, cur, rest, {});
    OnlyNone(rest);
    assert (seen + [cur]) + [] == seen + [cur];
    OnlyShorter(rest, Elements(now));
    forall x | x in was
      ensures x in seen + [cur] || x in From(now, next) || x !in now
    {
      assert x in From(s, cur) ==> x == cur || x in rest;
    }
  }

  lemma {:induction false} OnlyShorter<A>(s: seq<A>, alive: set<A>)
    ensures |Only(s, alive)| <= |s|
  {
    if s != [] {
      OnlyShorter(s[1..], alive);
    }
  }
}
