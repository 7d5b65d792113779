/** The iterators that are threaded through the elements of a safe list (safe_list.c), as a
    value: which iterator stands in which chain, and what the pointers say about it. */
module SafeLinks {
  import opened Sequences
  import opened CircularList

  /** struct safe_list; a list head is one too. */
  class SafeNode {
    const list: ListHead<SafeNode?>
    var i: Cursor?

    constructor ()
      ensures fresh(list) && list.entry == this && Ring([list])
      ensures i == null
    {
      list := new ListHead(null);
      i := null;
      new;
      list.entry := this;
    }
  }

  /** struct safe_list_iterator.  `head` is the address of the pointer that points here. */
  class Cursor {
    var head: Slot
    var next_i: Cursor?
    var next: SafeNode

    constructor (head: SafeNode)
    {
      this.head := OfNode(head);
      next_i := null;
      next := head;
    }
  }

  /** The two kinds of places that hold a pointer to an iterator. */
  datatype Slot = OfNode(node: SafeNode) | OfCursor(cursor: Cursor)

  datatype Hook = Hook(head: Slot, next_i: Cursor?, next: SafeNode)

  type Firsts = map<SafeNode, Cursor?>
  type Hooks = map<Cursor, Hook>
  type Chains = map<SafeNode, seq<Cursor>>

  ghost function FirstOf(c: seq<Cursor>): Cursor? {
    if c == [] then null else c[0]
  }

  /** How iterator number `k` of the chain of `n` is linked. */
  ghost function HookAt(n: SafeNode, c: seq<Cursor>, k: nat): Hook
    requires k < |c|
  {
    Hook(if k == 0 then OfNode(n) else OfCursor(c[k - 1]), if k + 1 < |c| then c[k + 1] else null, n)
  }

  /** The chain of `n`: each iterator visits `n` next, and what its `head` points to points back. */
  ghost predicate Chained(n: SafeNode, c: seq<Cursor>, first: Cursor?, s: Hooks) {
    && first == FirstOf(c)
    && forall k {:trigger s[c[k]]} {:trigger c[k] in s} :: 0 <= k < |c| ==> c[k] in s && s[c[k]] == HookAt(n, c, k)
  }

  /** No iterator stands twice in a chain: their heads would have to agree all the way down. */
  lemma {:induction false} ChainDistinct(n: SafeNode, c: seq<Cursor>, first: Cursor?, s: Hooks, a: nat, b: nat)
    requires Chained(n, c, first, s) && a < b < |c|
    ensures c[a] != c[b]
    decreases a
  {
    assert s[c[a]] == HookAt(n, c, a) && s[c[b]] == HookAt(n, c, b);
    if a > 0 {
      ChainDistinct(n, c, first, s, a - 1, b - 1);
    }
  }

  /** Every iterator stands in exactly one chain, that of the element it visits next. */
  ghost predicate Woven(f: Firsts, s: Hooks, cs: Chains) {
    && f.Keys == cs.Keys
    && (forall i :: i in s ==> s[i].next in cs)
    && SealedWeave(f, s, cs) == true
  }

  ghost predicate SealedWeave(f: Firsts, s: Hooks, cs: Chains) {
    forall u: nat {:trigger OpenWeave(u)} :: f.Keys == cs.Keys && Weave(f, s, cs)
  }

  ghost predicate OpenWeave(u: nat) {
    true
  }

  ghost predicate Weave(f: Firsts, s: Hooks, cs: Chains)
    requires f.Keys == cs.Keys
  {
    && (forall n :: n in cs ==> Chained(n, cs[n], f[n], s))
    && (forall i :: i in s ==> s[i].next in cs && i in cs[s[i].next])
  }

  /** *i->head == i */
  lemma HeadHoldsCursor(f: Firsts, s: Hooks, cs: Chains, i: Cursor)
    requires Woven(f, s, cs) && i in s
    ensures var p := s[i].head; if p.OfNode? then p.node in f && f[p.node] == i else p.cursor in s && s[p.cursor].next_i == i
    ensures s[i].next in cs && i in cs[s[i].next]
  {
    assert OpenWeave(0);
    var n := s[i].next;
    var c := cs[n];
    assert Chained(n, c, f[n], s);
    var k :| 0 <= k < |c| && c[k] == i;
    if k > 0 {
      assert s[c[k - 1]] == HookAt(n, c, k - 1);
    }
  }

  // -------- pushing an iterator --------

  /** The links after `i` is put in front of the chain of `n`. */
  ghost predicate PushedLinks(f: Firsts, s: Hooks, f': Firsts, s': Hooks, n: SafeNode, i: Cursor)
    requires n in f
  {
    && f' == f[n := i]
    && s'.Keys == s.Keys + {i}
    && s'[i] == Hook(OfNode(n), f[n], n)
    && (forall j :: j in s && j != i ==> s'[j] == if j == f[n] then s[j].(head := OfCursor(i)) else s[j])
  }

  lemma PushedChain(n: SafeNode, c: seq<Cursor>, f: Firsts, s: Hooks, f': Firsts, s': Hooks, i: Cursor)
    requires n in f && Chained(n, c, f[n], s) && i !in s && PushedLinks(f, s, f', s', n, i)
    ensures Chained(n, [i] + c, i, s')
  {
    var c' := [i] + c;
    forall k | 0 <= k < |c'|
      ensures c'[k] in s' && s'[c'[k]] == HookAt(n, c', k)
      ensures k > 0 ==> c'[k] == c[k - 1] && c'[k] != i
    {
      if k > 0 {
        assert c'[k] == c[k - 1] && s[c[k - 1]] == HookAt(n, c, k - 1);
        if k > 1 {
          ChainDistinct(n, c, f[n], s, 0, k - 1);
        }
      }
    }
  }

  lemma Pushed(f: Firsts, s: Hooks, cs: Chains, f': Firsts, s': Hooks, n: SafeNode, i: Cursor)
    requires Woven(f, s, cs) && n in cs && i !in s
    requires PushedLinks(f, s, f', s', n, i)
    ensures Woven(f', s', cs[n := [i] + cs[n]])
  {
    assert OpenWeave(0);
    var c := cs[n];
    assert Chained(n, c, f[n], s);
    PushedChain(n, c, f, s, f', s', i);
    forall j | j in s && s[j].next != n
      ensures s'[j] == s[j]
    {
      assert f[n] != null ==> f[n] == c[0] && s[c[0]] == HookAt(n, c, 0);
    }
    forall j | j in s'
      ensures (j in [i] + c && s'[j].next == n) || (j in s && s[j].next != n)
    {
      assert j != i && s[j].next == n ==> j in c;
    }
    OneChain(f, s, cs, f', s', n, [i] + c);
  }

  /** Only the chain of `n` changes. */
  lemma OneChain(f: Firsts, s: Hooks, cs: Chains, f': Firsts, s': Hooks, n: SafeNode, c: seq<Cursor>)
    requires Woven(f, s, cs) && n in cs
    requires f'.Keys == f.Keys && forall m :: m in f && m != n ==> f'[m] == f[m]
    requires Chained(n, c, f'[n], s')
    requires forall j :: j in s && s[j].next != n ==> j in s' && s'[j] == s[j]
    requires forall j :: j in s' ==> (j in c && s'[j].next == n) || (j in s && s[j].next != n)
    ensures Woven(f', s', cs[n := c])
  {
    assert OpenWeave(0);
    forall m | m in cs && m != n
      ensures Chained(m, cs[m], f'[m], s')
    {
      OtherChain(m, cs[m], f[m], s, s', n);
    }
  }

  /** A chain stays when only iterators of another chain are relinked. */
  lemma OtherChain(m: SafeNode, c: seq<Cursor>, first: Cursor?, s: Hooks, s': Hooks, n: SafeNode)
    requires Chained(m, c, first, s) && m != n
    requires forall j :: j in s && s[j].next != n ==> j in s' && s'[j] == s[j]
    ensures Chained(m, c, first, s')
  {
    forall k | 0 <= k < |c|
      ensures c[k] in s' && s'[c[k]] == HookAt(m, c, k)
    {
      assert s[c[k]] == HookAt(m, c, k);
    }
  }

  // -------- taking an iterator out --------

  /** The links after `i` is taken out of its chain. */
  ghost predicate PulledLinks(f: Firsts, s: Hooks, f': Firsts, s': Hooks, i: Cursor)
    requires i in s
  {
    && f' == (if s[i].head.OfNode? then f[s[i].head.node := s[i].next_i] else f)
    && s'.Keys == s.Keys - {i}
    && (forall j :: j in s' ==>
          && s'[j].next == s[j].next
          && s'[j].head == (if j == s[i].next_i then s[i].head else s[j].head)
          && s'[j].next_i == (if s[i].head == OfCursor(j) then s[i].next_i else s[j].next_i))
  }

  lemma Pulled(f: Firsts, s: Hooks, cs: Chains, f': Firsts, s': Hooks, i: Cursor, k: nat)
    requires Woven(f, s, cs) && i in s
    requires k < |cs[s[i].next]| && cs[s[i].next][k] == i
    requires PulledLinks(f, s, f', s', i)
    ensures Woven(f', s', cs[s[i].next := RemoveAt(cs[s[i].next], k)])
  {
    assert OpenWeave(0);
    var n := s[i].next;
    var c := cs[n];
    assert Chained(n, c, f[n], s);
    assert s[i] == HookAt(n, c, k);
    PulledChain(n, c, f, s, f', s', k);
    var r := RemoveAt(c, k);
    forall j | j in s && s[j].next != n
      ensures j in s' && s'[j] == s[j]
    {
      assert k + 1 < |c| ==> s[c[k + 1]] == HookAt(n, c, k + 1);
      assert k > 0 ==> s[c[k - 1]] == HookAt(n, c, k - 1);
    }
    forall j | j in s'
      ensures (j in r && s'[j].next == n) || (j in s && s[j].next != n)
    {
      if s[j].next == n {
        var a :| 0 <= a < |c| && c[a] == j;
        assert r[if a < k then a else a - 1] == j;
      }
    }
    OneChain(f, s, cs, f', s', n, r);
  }

  /** Which places of a chain hold one of its iterators, the one before it or the one after it. */
  lemma ChainPlaces(n: SafeNode, c: seq<Cursor>, first: Cursor?, s: Hooks, k: nat)
    requires Chained(n, c, first, s) && k < |c|
    ensures forall b :: 0 <= b < |c| && c[b] == c[k] ==> b == k
  {
    forall b | 0 <= b < |c| && c[b] == c[k]
      ensures b == k
    {
      if b < k {
        ChainDistinct(n, c, first, s, b, k);
      } else if k < b {
        ChainDistinct(n, c, first, s, k, b);
      }
    }
  }

  lemma PulledChain(n: SafeNode, c: seq<Cursor>, f: Firsts, s: Hooks, f': Firsts, s': Hooks, k: nat)
    requires n in f && Chained(n, c, f[n], s) && k < |c| && PulledLinks(f, s, f', s', c[k])
    ensures f'.Keys == f.Keys && forall m :: m in f && m != n ==> f'[m] == f[m]
    ensures Chained(n, RemoveAt(c, k), f'[n], s')
  {
    var r := RemoveAt(c, k);
    assert s[c[k]] == HookAt(n, c, k);
    ChainPlaces(n, c, f[n], s, k);
    forall a | 0 <= a < |r|
      ensures r[a] in s' && s'[r[a]] == HookAt(n, r, a)
    {
      if a < k {
        PulledBefore(n, c, f, s, f', s', k, a);
      } else {
        PulledBehind(n, c, f, s, f', s', k, a);
      }
    }
  }

  lemma PulledBefore(n: SafeNode, c: seq<Cursor>, f: Firsts, s: Hooks, f': Firsts, s': Hooks, k: nat, a: nat)
    requires n in f && Chained(n, c, f[n], s) && a < k < |c| && PulledLinks(f, s, f', s', c[k])
    ensures c[a] in s' && s'[c[a]] == HookAt(n, RemoveAt(c, k), a)
  {
    var r := RemoveAt(c, k);
    ChainPlaces(n, c, f[n], s, k);
    ChainPlaces(n, c, f[n], s, k - 1);
    assert s[c[a]] == HookAt(n, c, a) && s[c[k]] == HookAt(n, c, k);
    assert r[a] == c[a] && (a > 0 ==> r[a - 1] == c[a - 1]);
    assert a + 1 < |r| ==> r[a + 1] == c[if a + 1 < k then a + 1 else a + 2];
    if k + 1 < |c| {
      ChainPlaces(n, c, f[n], s, k + 1);
    }
  }

  lemma PulledBehind(n: SafeNode, c: seq<Cursor>, f: Firsts, s: Hooks, f': Firsts, s': Hooks, k: nat, a: nat)
    requires n in f && Chained(n, c, f[n], s) && k <= a < |c| - 1 && PulledLinks(f, s, f', s', c[k])
    ensures c[a + 1] in s' && s'[c[a + 1]] == HookAt(n, RemoveAt(c, k), a)
  {
    var r := RemoveAt(c, k);
    ChainPlaces(n, c, f[n], s, k);
    ChainPlaces(n, c, f[n], s, k + 1);
    assert s[c[a + 1]] == HookAt(n, c, a + 1) && s[c[k]] == HookAt(n, c, k);
    assert a > 0 ==> r[a - 1] == c[if a - 1 < k then a - 1 else a];
    assert a + 1 < |r| ==> r[a + 1] == c[a + 2];
    if k > 0 {
      ChainPlaces(n, c, f[n], s, k - 1);
    }
  }

  // -------- joining two chains --------

  /** The links after the chain of `n`, which leaves, is put in front of that of `m`. */
  ghost predicate JoinedLinks(f: Firsts, s: Hooks, f': Firsts, s': Hooks, n: SafeNode, m: SafeNode, c: seq<Cursor>)
    requires n in f && m in f
  {
    && f' == (if c == [] then f else f[m := f[n]]) - {n}
    && s'.Keys == s.Keys
    && (forall j :: j in s ==>
          && s'[j].next == (if j in c then m else s[j].next)
          && s'[j].head == (if c != [] && j == c[0] then OfNode(m)
                            else if c != [] && j == f[m] then OfCursor(c[|c| - 1]) else s[j].head)
          && s'[j].next_i == (if c != [] && j == c[|c| - 1] then f[m] else s[j].next_i))
  }

  lemma JoinedChain(n: SafeNode, m: SafeNode, c: seq<Cursor>, d: seq<Cursor>, f: Firsts, s: Hooks, f': Firsts, s': Hooks)
    requires n in f && m in f && n != m && Chained(n, c, f[n], s) && Chained(m, d, f[m], s)
    requires JoinedLinks(f, s, f', s', n, m, c)
    ensures m in f' && Chained(m, c + d, f'[m], s')
  {
    var r := c + d;
    if c != [] {
      ChainPlaces(n, c, f[n], s, 0);
      ChainPlaces(n, c, f[n], s, |c| - 1);
    }
    if d != [] {
      ChainPlaces(m, d, f[m], s, 0);
    }
    forall a | 0 <= a < |r|
      ensures r[a] in s' && s'[r[a]] == HookAt(m, r, a)
      ensures a < |c| ==> s[r[a]].next == n
      ensures a >= |c| ==> s[r[a]].next == m
    {
      if a < |c| {
        assert r[a] == c[a] && s[c[a]] == HookAt(n, c, a);
        assert d != [] ==> s[d[0]] == HookAt(m, d, 0);
      } else {
        assert r[a] == d[a - |c|] && s[d[a - |c|]] == HookAt(m, d, a - |c|);
        assert r[a] !in c by {
          forall b | 0 <= b < |c|
            ensures c[b] != r[a]
          {
            assert s[c[b]] == HookAt(n, c, b);
          }
        }
      }
    }
  }

  lemma ChainNext(n: SafeNode, c: seq<Cursor>, first: Cursor?, s: Hooks)
    requires Chained(n, c, first, s)
    ensures forall j :: j in c ==> j in s && s[j].next == n
  {
    forall k | 0 <= k < |c|
      ensures c[k] in s && s[c[k]].next == n
    {
      assert s[c[k]] == HookAt(n, c, k);
    }
  }

  /** Iterators of neither chain stay. */
  lemma JoinedElsewhere(f: Firsts, s: Hooks, f': Firsts, s': Hooks, n: SafeNode, m: SafeNode, c: seq<Cursor>, d: seq<Cursor>, j: Cursor)
    requires n in f && m in f && n != m && Chained(n, c, f[n], s) && Chained(m, d, f[m], s)
    requires JoinedLinks(f, s, f', s', n, m, c)
    requires j in s && s[j].next != n && s[j].next != m
    ensures j in s' && s'[j] == s[j]
  {
    ChainNext(n, c, f[n], s);
    ChainNext(m, d, f[m], s);
  }

  lemma Joined(f: Firsts, s: Hooks, cs: Chains, f': Firsts, s': Hooks, n: SafeNode, m: SafeNode)
    requires Woven(f, s, cs) && n in cs && m in cs && n != m
    requires JoinedLinks(f, s, f', s', n, m, cs[n])
    ensures Woven(f', s', cs[m := cs[n] + cs[m]] - {n})
  {
    assert OpenWeave(0);
    var c, d := cs[n], cs[m];
    var cs' := cs[m := c + d] - {n};
    JoinedChain(n, m, c, d, f, s, f', s');
    forall j | j in s && s[j].next != n && s[j].next != m
      ensures j in s' && s'[j] == s[j]
    {
      JoinedElsewhere(f, s, f', s', n, m, c, d, j);
    }
    forall x | x in cs' && x != m
      ensures Chained(x, cs'[x], f'[x], s')
    {
      AnyOtherChain(x, cs[x], f[x], s, s', n, m);
    }
    ChainNext(n, c, f[n], s);
    ChainNext(m, d, f[m], s);
    forall j | j in s'
      ensures s'[j].next in cs' && j in cs'[s'[j].next]
    {
      assert j in c || j in d ==> j in c + d;
    }
  }

  lemma AnyOtherChain(x: SafeNode, c: seq<Cursor>, first: Cursor?, s: Hooks, s': Hooks, n: SafeNode, m: SafeNode)
    requires Chained(x, c, first, s) && x != n && x != m
    requires forall j :: j in s && s[j].next != n && s[j].next != m ==> j in s' && s'[j] == s[j]
    ensures Chained(x, c, first, s')
  {
    forall k | 0 <= k < |c|
      ensures c[k] in s' && s'[c[k]] == HookAt(x, c, k)
    {
      assert s[c[k]] == HookAt(x, c, k);
    }
  }

  /** An element without iterators comes in. */
  lemma Widened(f: Firsts, s: Hooks, cs: Chains, n: SafeNode)
    requires Woven(f, s, cs) && n !in cs
    ensures Woven(f[n := null], s, cs[n := []])
  {
    assert OpenWeave(0);
    assert Chained(n, [], null, s);
  }
}
