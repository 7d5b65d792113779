/** Linked lists that may lose any of their elements while they are walked, by several nested
    walks at a time (safe_list.c). */
module SafeList {
  import opened Sequences
  import opened CircularList
  import opened SafeLinks
  import opened SafeLog
  import opened SafeOrder

  ghost function Lists(all: seq<SafeNode>): (r: seq<ListHead<SafeNode?>>)
    ensures |r| == |all|
    ensures forall k {:trigger r[k]} :: 0 <= k < |all| ==> r[k] == all[k].list
  {
    seq(|all|, k requires 0 <= k < |all| => all[k].list)
  }

  /** Each iterator of `c` leads to the next one. */
  ghost predicate Strung(c: seq<Cursor>)
    reads c`next_i
  {
    forall k {:trigger c[k].next_i} :: 0 <= k < |c| ==> c[k].next_i == if k + 1 < |c| then c[k + 1] else null
  }

  /** What a callback does next: take an element out of the list if it is there, add it at the end or
      in front if it is not, walk the list, or return. */
  datatype Action = Delete(node: SafeNode) | Insert(node: SafeNode, first: bool) | Iterate | Return(ret: int)

  type Log = seq<Change<SafeNode>>

  class SafeList {
    const head: SafeNode

    /** The elements in list order; the iterators that are threaded through them; which ones
        stand in the chain of an element; the objects that belong to the list. */
    ghost var items: seq<SafeNode>
    ghost var live: set<Cursor>
    ghost var chains: Chains
    ghost var nodes: set<SafeNode>
    ghost var records: set<ListHead<SafeNode?>>

    ghost function Firsts(): Firsts
      reads this`nodes, nodes`i
    {
      map n | n in nodes :: n.i
    }

    ghost function Hooks(): Hooks
      reads this`live, live`head, live`next_i, live`next
    {
      map j | j in live :: Hook(j.head, j.next_i, j.next)
    }

    ghost predicate Valid()
      reads this, nodes`i, live`head, live`next_i, live`next
      reads records`next, records`prev, records`entry
    {
      Linkage() && Threads()
    }

    /** The list part: a ring of the head and the items, and records that know them. */
    ghost predicate Linkage()
      reads this`items, this`nodes, this`records, records`next, records`prev, records`entry
    {
      SealedLinkage() == true
    }

    ghost predicate SealedLinkage()
      reads this`items, this`nodes, this`records, records`next, records`prev, records`entry
    {
      forall u: nat {:trigger OpenSafe(u)} :: Linked()
    }

    ghost predicate OpenSafe(u: nat) {
      true
    }

    ghost predicate Linked()
      reads this`items, this`nodes, this`records, records`next, records`prev, records`entry
    {
      && nodes == Elements([head] + items)
      && records == Elements(Lists([head] + items))
      && Ring(Lists([head] + items)) == true
      && (forall n :: n in nodes ==> n.list in records && n.list.entry == n)
    }

    /** The iterator part. */
    ghost predicate Threads()
      reads this`nodes, this`live, this`chains, nodes`i, live`head, live`next_i, live`next
    {
      SealedThreads() == true
    }

    ghost predicate SealedThreads()
      reads this`nodes, this`live, this`chains, nodes`i, live`head, live`next_i, live`next
    {
      forall u: nat {:trigger OpenSafe(u)} :: chains.Keys == nodes && Woven(Firsts(), Hooks(), chains)
    }

    lemma SealThreads()
      requires chains.Keys == nodes && Woven(Firsts(), Hooks(), chains)
      ensures Threads()
    {
    }

    lemma Snapshot() returns (f: Firsts, s: Hooks, cs: Chains)
      requires Threads()
      ensures f == Firsts() && s == Hooks() && cs == chains && cs.Keys == nodes && Woven(f, s, cs)
    {
      f, s, cs := Firsts(), Hooks(), chains;
      OpenThreads();
    }

    lemma OpenThreads()
      requires Threads()
      ensures chains.Keys == nodes && Woven(Firsts(), Hooks(), chains)
    {
      assert OpenSafe(0);
    }

    /** INIT_SAFE_LIST */
    constructor ()
      ensures Valid() && items == [] && live == {}
      ensures fresh(head) && fresh(head.list)
    {
      head := new SafeNode();
      items, live, chains := [], {}, map[];
      nodes, records := {}, {};
      new;
      assert [head] + items == [head] && Lists([head]) == [head.list];
      nodes, records := {head}, {head.list};
      chains := map[head := []];
      assert Chained(head, [], null, Hooks()) && OpenWeave(0);
    }

    /** Where an element is, what its record says, and that the elements are different. */
    lemma Neighbour(n: SafeNode) returns (k: nat)
      requires Linkage() && n in nodes
      ensures k < |items| + 1 && ([head] + items)[k] == n && n.list in records
      ensures n.list.next != null && n.list.next in records && n.list.next.entry != null && n.list.next.entry in nodes
      ensures n == head || n in items
      ensures n.list.next.entry == Successor(items, head, n)
      ensures n.list.prev != null && n.list.prev in records
      ensures k == 0 <==> n == head
      ensures n != head ==> n.list.next.entry != n
      ensures head !in items
    {
      assert OpenSafe(0);
      var all := [head] + items;
      var r := Lists(all);
      k :| 0 <= k < |all| && all[k] == n;
      RingNeighbours(r, k);
      assert r[k] == n.list;
      Apart();
      var m := all[After(k, |all|)];
      assert m in nodes && r[After(k, |all|)] == m.list;
      assert r[Before(k, |all|)] in records;
      if k > 0 {
        assert n == items[k - 1];
        FromAt(items, k - 1);
        assert items[k - 1..][1..] == items[k..];
      }
    }

    lemma NextOf(n: SafeNode)
      requires Linkage() && n in items
      ensures n in nodes && n.list.next != null && n.list.next.entry != null
      ensures n.list.next.entry in nodes && n.list.next.entry != n
      ensures n.list.next.entry == Successor(items, head, n)
    {
      assert OpenSafe(0);
      assert n in [head] + items;
      var k := Neighbour(n);
    }

    lemma Apart()
      requires Linkage()
      ensures Distinct([head] + items) && Distinct(items) && head !in items
    {
      assert OpenSafe(0) && OpenRing(0);
      var all := [head] + items;
      forall a, b | 0 <= a < b < |all|
        ensures all[a] != all[b]
      {
        assert Lists(all)[a] != Lists(all)[b];
      }
      assert forall a :: 0 <= a < |items| ==> items[a] == all[a + 1];
      assert all[0] == head;
    }

    /** __safe_list_set_iterator behind the search for `next`. */
    method PushInPlace(next: SafeNode, i: Cursor)
      requires next.i != i
      modifies next`i, i`head, i`next_i, i`next, (if next.i == null then {} else {next.i})`head
      ensures next.i == i
      ensures i.next == next && i.head == OfNode(next) && i.next_i == old(next.i)
      ensures old(next.i) != null ==> old(next.i).head == OfCursor(i)
    {
      var next_i := next.i;
      next.i := i;
      i.next := next;
      i.head := OfNode(next);

      i.next_i := next_i;
      if next_i != null {
        next_i.head := OfCursor(i);
      }
    }

    /** `i` comes in front of the chain of `next`. */
    method Push(next: SafeNode, i: Cursor)
      requires Threads() && next in nodes && i !in live
      modifies this`live, this`chains, i`head, i`next_i, i`next, nodes`i, live`head
      ensures Threads() && live == old(live) + {i} && i.next == next
    {
      ghost var f, s, cs := Firsts(), Hooks(), chains;
      OpenThreads();
      FirstIsLive(f, s, cs, next);
      live := live + {i};
      chains := chains[next := [i] + chains[next]];
      PushInPlace(next, i);
      Pushed(f, s, cs, Firsts(), Hooks(), next, i);
      SealThreads();
    }

    /** __safe_list_set_iterator: `i` is going to visit what follows `list`. */
    method SetIterator(list: SafeNode, i: Cursor)
      requires Valid() && list in nodes && i !in live
      modifies this`live, this`chains, i`head, i`next_i, i`next, nodes`i, live`head
      ensures Valid() && live == old(live) + {i}
      ensures i.next == Successor(items, head, list)
    {
      ghost var k := Neighbour(list);
      var next := list.list.next.entry;
      Push(next, i);
    }

    lemma FirstIsLive(f: Firsts, s: Hooks, cs: Chains, n: SafeNode)
      requires Woven(f, s, cs) && n in cs
      ensures n in f && (f[n] != null ==> f[n] in s)
    {
      assert OpenWeave(0);
      assert Chained(n, cs[n], f[n], s);
      if cs[n] != [] {
        assert cs[n][0] in s;
      }
    }

    /** __safe_list_del_iterator, statement by statement. */
    method PullInPlace(i: Cursor)
      requires i.head.OfCursor? ==> i.head.cursor != i
      requires i.next_i != i
      modifies (if i.head.OfNode? then {i.head.node} else {})`i
      modifies (if i.head.OfCursor? then {i.head.cursor} else {})`next_i
      modifies (if i.next_i == null then {} else {i.next_i})`head
      ensures i.head.OfNode? ==> i.head.node.i == i.next_i
      ensures i.head.OfCursor? ==> i.head.cursor.next_i == i.next_i
      ensures i.next_i != null ==> i.next_i.head == i.head
    {
      match i.head {
        case OfNode(n) => n.i := i.next_i;
        case OfCursor(j) => j.next_i := i.next_i;
      }
      if i.next_i != null {
        i.next_i.head := i.head;
      }
    }

    method PullLinks(i: Cursor)
      requires i in live
      requires i.head.OfNode? ==> i.head.node in nodes
      requires i.head.OfCursor? ==> i.head.cursor in live && i.head.cursor != i
      requires i.next_i != null ==> i.next_i in live && i.next_i != i
      modifies this`live, nodes`i, live`head, live`next_i
      ensures live == old(live) - {i}
      ensures PulledLinks(old(Firsts()), old(Hooks()), Firsts(), Hooks(), i)
    {
      live := live - {i};
      PullInPlace(i);
    }

    /** __safe_list_del_iterator, as far as the iterators go. */
    method Pull(i: Cursor)
      requires Threads() && i in live
      modifies this`live, this`chains, nodes`i, live`head, live`next_i
      ensures Threads() && live == old(live) - {i}
    {
      ghost var f, s, cs := Firsts(), Hooks(), chains;
      OpenThreads();
      ghost var k := HookPlaces(f, s, cs, i);
      chains := chains[i.next := RemoveAt(chains[i.next], k)];
      PullLinks(i);
      Pulled(f, s, cs, Firsts(), Hooks(), i, k);
      SealThreads();
    }

    /** __safe_list_del_iterator */
    method DelIterator(i: Cursor)
      requires Valid() && i in live
      modifies this`live, this`chains, nodes`i, live`head, live`next_i
      ensures Valid() && live == old(live) - {i}
    {
      Pull(i);
    }

    /** The neighbours of an iterator in its chain are others. */
    lemma HookPlaces(f: Firsts, s: Hooks, cs: Chains, i: Cursor) returns (k: nat)
      requires Woven(f, s, cs) && i in s
      ensures k < |cs[s[i].next]| && cs[s[i].next][k] == i
      ensures s[i].head.OfNode? ==> s[i].head.node in f
      ensures s[i].head.OfCursor? ==> s[i].head.cursor in s && s[i].head.cursor != i
      ensures s[i].next_i != null ==> s[i].next_i in s && s[i].next_i != i
    {
      assert OpenWeave(0);
      var n := s[i].next;
      var c := cs[n];
      assert Chained(n, c, f[n], s);
      k :| 0 <= k < |c| && c[k] == i;
      assert s[c[k]] == HookAt(n, c, k);
      if k > 0 {
        ChainDistinct(n, c, f[n], s, k - 1, k);
        assert c[k - 1] in s;
      }
      if k + 1 < |c| {
        ChainDistinct(n, c, f[n], s, k, k + 1);
        assert c[k + 1] in s;
      }
    }

    /** __safe_list_move_iterator */
    method MoveIterator(list: SafeNode, i: Cursor)
      requires Valid() && list in nodes && i in live
      modifies this`live, this`chains, i`next, nodes`i, live`head, live`next_i
      ensures Valid() && live == old(live)
      ensures i.next == Successor(items, head, list)
    {
      DelIterator(i);
      SetIterator(list, i);
    }

    /** The part of safe_list_del behind list_del: the iterators of `list`, the chain `c`, go to
        `next`, in front of those that are there. */
    method Migrate(list: SafeNode, next: SafeNode, ghost c: seq<Cursor>)
      requires next in nodes && list !in nodes && Distinct(c)
      requires list.i == FirstOf(c) && (forall k :: 0 <= k < |c| ==> c[k] in live)
      requires Strung(c)
      requires next.i != null ==> next.i in live && next.i !in c
      modifies list`i, nodes`i, live`head, live`next_i, live`next
      ensures list.i == null
      ensures Firsts() == if c == [] then old(Firsts()) else old(Firsts())[next := c[0]]
      ensures forall j :: j in live ==>
                && j.next == (if j in c then next else old(j.next))
                && j.head == (if c != [] && j == c[0] then OfNode(next)
                              else if c != [] && j == old(next.i) then OfCursor(c[|c| - 1]) else old(j.head))
                && j.next_i == (if c != [] && j == c[|c| - 1] then old(next.i) else old(j.next_i))
    {
      if list.i == null {
        return;
      }
      var next_i := next.i;
      var tail := Readdress(list.i, next, c);
      next.i := list.i;
      list.i.head := OfNode(next);
      tail.cursor.next_i := next_i;
      if next_i != null {
        next_i.head := tail;
      }
      list.i := null;
    }

    /** The loop of safe_list_del over the chain `c`; it ends at the place that holds null. */
    method Readdress(first: Cursor, next: SafeNode, ghost c: seq<Cursor>) returns (tail: Slot)
      requires first == FirstOf(c) && Strung(c) && (forall k :: 0 <= k < |c| ==> c[k] in live)
      modifies live`next
      ensures |c| > 0 && tail == OfCursor(c[|c| - 1])
      ensures forall j :: j in live ==> j.next == if j in c then next else old(j.next)
    {
      tail := OfNode(next);
      var i: Cursor? := first;
      ghost var k: nat := 0;
      while i != null
        invariant k <= |c| && i == (if k < |c| then c[k] else null)
        invariant tail == if k == 0 then OfNode(next) else OfCursor(c[k - 1])
        invariant forall j :: j in live ==> j.next == if j in c[..k] then next else old(j.next)
        decreases |c| - k
      {
        assert c[k] in live && c[k].next_i == if k + 1 < |c| then c[k + 1] else null;
        tail := OfCursor(i);
        i.next := next;
        assert c[..k + 1] == c[..k] + [c[k]];
        i := i.next_i;
        k := k + 1;
      }
      assert c[..k] == c;
    }

    /** The list part of safe_list_del. */
    method Unhook(list: SafeNode) returns (ghost k: nat)
      requires Linkage() && list in items
      modifies this`items, this`nodes, this`records, records`next, records`prev
      ensures Linkage() && k < |old(items)| && old(items)[k] == list && items == RemoveAt(old(items), k)
      ensures nodes == old(nodes) - {list} && records == old(records) - {list.list}
      ensures list.list.next == null
    {
      ghost var r := Lists([head] + items);
      ghost var j := Dismiss(list);
      k := j - 1;
      ListDel(list.list, r, j);
      SealLinkage(RemoveAt(r, j));
    }

    /** An element, number `j` counted from the head, is not counted as an element any more. */
    ghost method Dismiss(list: SafeNode) returns (j: nat)
      requires Linkage() && list in items
      modifies this`items, this`nodes, this`records
      ensures 0 < j <= |old(items)| && old(items)[j - 1] == list && items == RemoveAt(old(items), j - 1)
      ensures Lists([head] + items) == RemoveAt(Lists([head] + old(items)), j)
      ensures Lists([head] + old(items))[j] == list.list && Ring(Lists([head] + old(items)))
      ensures nodes == old(nodes) - {list} && records == old(records) - {list.list}
      ensures nodes == Elements([head] + items) && records == Elements(Lists([head] + items))
      ensures forall n :: n in nodes ==> n.list in records && n.list.entry == n
      ensures list.list in old(records) && list.list.next != null && list.list.next in old(records)
      ensures list.list.prev != null && list.list.prev in old(records)
    {
      assert OpenSafe(0);
      var all := [head] + items;
      assert list in all;
      j := Neighbour(list);
      Apart();
      ElementsRemoved(all, j);
      RingDistinct(Lists(all));
      ElementsRemoved(Lists(all), j);
      ListsRemoved(all, j);
      assert RemoveAt(all, j) == [head] + RemoveAt(items, j - 1);
      assert forall n :: n in nodes && n != list ==> n.list != list.list;
      nodes := nodes - {list};
      records := records - {list.list};
      items := RemoveAt(items, j - 1);
    }

    /** The chain of an element, as the loop of safe_list_del needs it. */
    lemma ChainOf(f: Firsts, s: Hooks, cs: Chains, n: SafeNode, next: SafeNode)
      requires Woven(f, s, cs) && Hooks() == s && n in cs && next in cs && n != next
      ensures Distinct(cs[n]) && f[n] == FirstOf(cs[n]) && Strung(cs[n])
      ensures forall k :: 0 <= k < |cs[n]| ==> cs[n][k] in live
      ensures forall j :: j in live ==> (j in cs[n] <==> j.next == n)
      ensures f[next] != null ==> f[next] in live && f[next] !in cs[n]
    {
      assert OpenWeave(0);
      var c := cs[n];
      assert Chained(n, c, f[n], s) && Chained(next, cs[next], f[next], s);
      forall a, b | 0 <= a < b < |c|
        ensures c[a] != c[b]
      {
        ChainDistinct(n, c, f[n], s, a, b);
      }
      forall k | 0 <= k < |c|
        ensures c[k] in live && c[k].next_i == (if k + 1 < |c| then c[k + 1] else null) && c[k].next == n
      {
        assert s[c[k]] == HookAt(n, c, k);
      }
      assert Strung(c);
      forall j | j in live && j.next == n
        ensures j in c
      {
        assert j in s && s[j].next == n;
      }
      if f[next] != null {
        assert s[cs[next][0]] == HookAt(next, cs[next], 0);
      }
    }

    /** The iterator part of safe_list_del, after list_del. */
    method Handover(list: SafeNode, next: SafeNode, ghost f: Firsts, ghost s: Hooks, ghost cs: Chains)
      requires Woven(f, s, cs) && cs.Keys == nodes + {list} && chains == cs
      requires list !in nodes && next in nodes
      requires Hooks() == s && Firsts() == f - {list} && list.i == f[list]
      modifies this`chains, list`i, nodes`i, live`head, live`next_i, live`next
      ensures Threads() && list.i == null
      ensures forall j :: j in live ==> j.next == if old(j.next) == list then next else old(j.next)
    {
      ChainOf(f, s, cs, list, next);
      assert next.i == Firsts()[next] == f[next];
      chains := chains[next := cs[list] + cs[next]] - {list};
      Migrate(list, next, cs[list]);
      Joined(f, s, cs, Firsts(), Hooks(), list, next);
      SealThreads();
    }

    /** safe_list_del: an iterator that was going to visit `list` goes on to its successor. */
    method Del(list: SafeNode) returns (ghost k: nat)
      requires Valid() && list in items
      modifies this`items, this`nodes, this`records, this`chains
      modifies records`next, records`prev, nodes`i, live`head, live`next_i, live`next
      ensures Valid()
      ensures k < |old(items)| && old(items)[k] == list && items == RemoveAt(old(items), k)
      ensures nodes == old(nodes) - {list} && records == old(records) - {list.list}
      ensures list.list.next == null && list.i == null
      ensures forall j :: j in live ==>
                j.next == if old(j.next) == list then Successor(old(items), head, list) else old(j.next)
    {
      NextOf(list);
      var next := list.list.next.entry;
      ghost var f, s, cs := Snapshot();
      k := Unhook(list);
      Handover(list, next, f, s, cs);
    }

    lemma Stranger(list: SafeNode)
      requires Linkage() && list !in nodes && list.list.entry == list
      ensures list.list !in Lists([head] + items)
    {
      assert OpenSafe(0);
      var all := [head] + items;
      forall k | 0 <= k < |all|
        ensures Lists(all)[k] != list.list
      {
        assert all[k] in nodes;
      }
    }

    /** A new element between others: `k` is its place, counted from the head. */
    ghost method Admit(list: SafeNode, k: nat)
      requires Linkage() && list.list.entry == list && 0 < k <= |items| + 1
      modifies this`items, this`nodes, this`records
      ensures Lists([head] + items) == InsertAt(Lists([head] + old(items)), k, list.list)
      ensures items == InsertAt(old(items), k - 1, list)
      ensures nodes == old(nodes) + {list} && records == old(records) + {list.list}
      ensures nodes == Elements([head] + items) && records == Elements(Lists([head] + items))
      ensures forall n :: n in nodes ==> n.list in records && n.list.entry == n
      ensures Ring(Lists([head] + old(items)))
    {
      assert OpenSafe(0);
      var all := [head] + items;
      ListsInserted(all, k, list);
      ElementsInserted(all, k, list);
      ElementsInserted(Lists(all), k, list.list);
      assert InsertAt(all, k, list) == [head] + InsertAt(items, k - 1, list);
      nodes := nodes + {list};
      records := records + {list.list};
      items := InsertAt(items, k - 1, list);
    }

    ghost method AdmitFirst(list: SafeNode)
      requires Linkage() && list.list.entry == list
      modifies this`items, this`nodes, this`records
      ensures Lists([head] + items) == InsertAt(Lists([head] + old(items)), 1, list.list)
      ensures items == [list] + old(items)
      ensures nodes == old(nodes) + {list} && records == old(records) + {list.list}
      ensures nodes == Elements([head] + items) && records == Elements(Lists([head] + items))
      ensures forall n :: n in nodes ==> n.list in records && n.list.entry == n
      ensures Ring(Lists([head] + old(items)))
    {
      InsertFront(items, list);
      Admit(list, 1);
    }

    lemma SealLinkage(ring: seq<ListHead<SafeNode?>>)
      requires ring == Lists([head] + items) && Ring(ring)
      requires nodes == Elements([head] + items) && records == Elements(Lists([head] + items))
      requires forall n :: n in nodes ==> n.list in records && n.list.entry == n
      ensures Linkage()
    {
    }

    /** list_add_tail in front of the head. */
    method HookTail(list: SafeNode)
      requires Linkage() && list !in nodes && list.list.entry == list
      modifies this`items, this`nodes, this`records
      modifies list.list`next, list.list`prev, records`next, records`prev
      ensures Linkage() && items == old(items) + [list]
      ensures nodes == old(nodes) + {list} && records == old(records) + {list.list}
    {
      ghost var r := Lists([head] + items);
      Stranger(list);
      HeadLinked();
      Admit(list, |items| + 1);
      ListAddTail(list.list, head.list, r, 0);
      SealLinkage(InsertAt(r, |r|, list.list));
    }

    method LinkFirst(list: SafeNode, ghost r: seq<ListHead<SafeNode?>>)
      requires Ring(r) && |r| > 0 && r[0] == head.list && list.list !in r && head.list.next != null
      requires Lists([head] + items) == InsertAt(r, 1, list.list)
      requires nodes == Elements([head] + items) && records == Elements(Lists([head] + items))
      requires forall n :: n in nodes ==> n.list in records && n.list.entry == n
      modifies list.list`next, list.list`prev, head.list`next, head.list.next`prev
      ensures Linkage()
    {
      ListAdd(list.list, head.list, r, 0);
      SealLinkage(InsertAt(r, 1, list.list));
    }

    /** list_add behind the head. */
    method HookFirst(list: SafeNode)
      requires Linkage() && list !in nodes && list.list.entry == list
      modifies this`items, this`nodes, this`records
      modifies list.list`next, list.list`prev, records`next, records`prev
      ensures Linkage() && items == [list] + old(items)
      ensures nodes == old(nodes) + {list} && records == old(records) + {list.list}
    {
      ghost var r := Lists([head] + items);
      Stranger(list);
      HeadLinked();
      AdmitFirst(list);
      LinkFirst(list, r);
    }

    lemma HeadLinked()
      requires Linkage()
      ensures head in nodes && head.list in records && Lists([head] + items)[0] == head.list
      ensures head.list.next != null && head.list.next in records
      ensures head.list.prev != null && head.list.prev in records
    {
      assert OpenSafe(0);
      assert ([head] + items)[0] == head;
      var k := Neighbour(head);
    }

    /** The chain of a new element is empty. */
    ghost method Widen(list: SafeNode, f: Firsts, s: Hooks, cs: Chains)
      requires Woven(f, s, cs) && list !in cs && nodes == cs.Keys + {list} && chains == cs
      requires list.i == null && Hooks() == s && forall n :: n in cs ==> n.i == f[n]
      modifies this`chains
      ensures Threads()
    {
      Widened(f, s, cs, list);
      assert Firsts() == f[list := null];
      chains := chains[list := []];
      SealThreads();
    }

    /** A new element has no iterator. */
    method NoIterator(list: SafeNode) returns (ghost f: Firsts, ghost s: Hooks, ghost cs: Chains)
      requires Valid() && list !in nodes
      modifies list`i
      ensures Linkage() && Woven(f, s, cs) && cs == chains && nodes == cs.Keys && list.i == null
      ensures Hooks() == s && forall n :: n in cs ==> n.i == f[n]
    {
      f, s, cs := Firsts(), Hooks(), chains;
      OpenThreads();
      list.i := null;
    }

    /** `*i->head == i`, and an iterator stands in one chain only, that of the element it is
        going to visit. */
    lemma InOneChain(i: Cursor)
      requires Valid() && i in live
      ensures if i.head.OfNode? then i.head.node in nodes && i.head.node.i == i
              else i.head.cursor in live && i.head.cursor.next_i == i
      ensures chains.Keys == nodes && i.next in nodes
      ensures forall n :: n in nodes ==> (i in chains[n] <==> n == i.next)
    {
      OpenThreads();
      assert OpenWeave(0);
      var f, s := Firsts(), Hooks();
      HeadHoldsCursor(f, s, chains, i);
      forall n | n in nodes && i in chains[n]
        ensures n == i.next
      {
        ChainNext(n, chains[n], f[n], s);
      }
    }

    /** safe_list_add: no iterator changes its mind. */
    method Add(list: SafeNode)
      requires Valid() && list !in nodes && list.list.entry == list
      modifies this`items, this`nodes, this`records, this`chains, list`i
      modifies list.list`next, list.list`prev, records`next, records`prev
      ensures Valid() && items == old(items) + [list]
      ensures nodes == old(nodes) + {list} && records == old(records) + {list.list}
    {
      ghost var f, s, cs := NoIterator(list);
      HookTail(list);
      Widen(list, f, s, cs);
    }

    /** safe_list_add_first */
    method AddFirst(list: SafeNode)
      requires Valid() && list !in nodes && list.list.entry == list
      modifies this`items, this`nodes, this`records, this`chains, list`i
      modifies list.list`next, list.list`prev, records`next, records`prev
      ensures Valid() && items == [list] + old(items)
      ensures nodes == old(nodes) + {list} && records == old(records) + {list.list}
    {
      ghost var f, s, cs := NoIterator(list);
      HookFirst(list);
      Widen(list, f, s, cs);
    }

    /** Which element each of some iterators is going to visit. */
    static ghost function Nexts(js: set<Cursor>): (m: map<Cursor, SafeNode>)
      reads js`next
      ensures m.Keys == js
    {
      map j | j in js :: j.next
    }

    lemma WalkersHere(js: set<Cursor>)
      requires Valid() && js <= live
      ensures Walkers(items, Nexts(js), head)
    {
      OpenThreads();
      Apart();
      assert OpenWalk(0);
      forall j | j in js
        ensures j.next == head || j.next in items
      {
        assert Hooks()[j].next in chains;
        var k := Neighbour(j.next);
      }
    }

    /** Every element that a callback may take out or add is in the list, or in none; it and its
        record are among `ns` and `rs`. */
    ghost predicate Scripted(script: seq<Action>, ns: set<SafeNode>, rs: set<ListHead<SafeNode?>>)
      reads this`items, this`nodes, rs`next, rs`entry
    {
      forall a :: a in script && (a.Delete? || a.Insert?) ==> Usable(a.node, ns, rs)
    }

    ghost predicate Usable(n: SafeNode, ns: set<SafeNode>, rs: set<ListHead<SafeNode?>>)
      reads this`items, this`nodes, rs`next, rs`entry
    {
      && n in ns && n.list in rs && n != head && n.list.entry == n
      && (n in items || (n !in nodes && n.list.next == null))
    }

    /** The rest of a script is scripted as well. */
    lemma RestScripted(script: seq<Action>, k: nat, ns: set<SafeNode>, rs: set<ListHead<SafeNode?>>)
      requires Scripted(script, ns, rs) && k <= |script|
      ensures Scripted(script[k..], ns, rs)
    {
    }

    /** One deletion out of a callback. */
    method Take(list: SafeNode, ghost script: seq<Action>, ghost ns: set<SafeNode>, ghost rs: set<ListHead<SafeNode?>>)
      requires Valid() && list in items && Scripted(script, ns, rs)
      modifies this`items, this`nodes, this`records, this`chains
      modifies nodes`i, live`head, live`next_i, live`next, records`next, records`prev
      ensures Valid() && nodes <= old(nodes) && records <= old(records)
      ensures Followed(old(items), old(Nexts(live)), [Gone(list)], items, Nexts(live), head)
      ensures Scripted(script, ns, rs)
    {
      ghost var was, next, old_nodes := items, Nexts(live), nodes;
      WalkersHere(live);
      Apart();
      Outsiders(script, ns, rs);
      ghost var k := Del(list);
      FollowedGone(was, next, k, Nexts(live), head);
      TakenScript(script, ns, rs, was, old_nodes, k);
    }

    lemma Outsiders(script: seq<Action>, ns: set<SafeNode>, rs: set<ListHead<SafeNode?>>)
      requires Valid() && Scripted(script, ns, rs)
      ensures forall a :: a in script && (a.Delete? || a.Insert?) && a.node !in nodes ==> a.node.list !in records
      ensures forall n :: n in nodes <==> n == head || n in items
    {
      assert OpenSafe(0);
      forall a | a in script && (a.Delete? || a.Insert?) && a.node !in nodes
        ensures a.node.list !in records
      {
        Stranger(a.node);
      }
      forall n | n == head || n in items
        ensures n in [head] + items
      {
      }
    }

    lemma TakenScript(script: seq<Action>, ns: set<SafeNode>, rs: set<ListHead<SafeNode?>>, was: seq<SafeNode>,
                      before: set<SafeNode>, k: nat)
      requires k < |was| && items == RemoveAt(was, k) && was[k] != head && Distinct(was)
      requires nodes == before - {was[k]} && was[k].list.next == null
      requires forall n :: n in before <==> n == head || n in was
      requires forall a :: a in script && (a.Delete? || a.Insert?) ==>
                 && a.node in ns && a.node.list in rs && a.node != head && a.node.list.entry == a.node
                 && (a.node in was || (a.node !in before && a.node.list.next == null))
      ensures Scripted(script, ns, rs)
    {
      ElementsRemoved(was, k);
      assert forall n :: n in items <==> n in was && n != was[k] by {
        forall n
          ensures n in items <==> n in was && n != was[k]
        {
          assert n in items <==> n in Elements(RemoveAt(was, k));
        }
      }
    }

    /** One addition out of a callback. */
    method Bring(list: SafeNode, first: bool, ghost script: seq<Action>, ghost ns: set<SafeNode>,
                 ghost rs: set<ListHead<SafeNode?>>)
      requires Valid() && Scripted(script, ns, rs)
      requires list !in nodes && list != head && list.list.entry == list && list.list.next == null
      modifies this`items, this`nodes, this`records, this`chains, list`i
      modifies list.list`next, list.list`prev, records`next, records`prev
      ensures Valid() && nodes == old(nodes) + {list} && records == old(records) + {list.list}
      ensures Followed(old(items), old(Nexts(live)), [if first then CameFirst(list) else Came(list)], items, Nexts(live), head)
      ensures Scripted(script, ns, rs)
    {
      ghost var was, next := items, Nexts(live);
      WalkersHere(live);
      Outsiders(script, ns, rs);
      if first {
        FollowedFirst(was, next, list, head);
        AddFirst(list);
      } else {
        FollowedCame(was, next, list, head);
        Add(list);
      }
    }

    /** Any callback: it takes its steps from a script, which it uses up as it goes; `log` is what it
        did to the list. */
    method Callback(cur: SafeNode, script: seq<Action>, ghost ns: set<SafeNode>, ghost rs: set<ListHead<SafeNode?>>)
      returns (ret: int, rest: seq<Action>, ghost log: Log)
      requires Valid() && cur in items && Scripted(script, ns, rs) && nodes <= ns && records <= rs
      modifies this`items, this`nodes, this`records, this`chains, this`live
      modifies ns`i, live`head, live`next_i, live`next, rs`next, rs`prev
      ensures Valid() && live == old(live) && nodes <= ns && records <= rs
      ensures Followed(old(items), old(Nexts(live)), log, items, Nexts(live), head)
      ensures |rest| <= |script| && (|rest| == |script| ==> log == []) && Scripted(rest, ns, rs)
      decreases |script|, 0, 0
    {
      ghost var was, next, js := items, Nexts(live), live;
      FollowedNowhere(was, next, head);
      rest, log := script, [];
      while rest != []
        invariant Valid() && live == js && nodes <= ns && records <= rs
        invariant Followed(was, next, log, items, Nexts(js), head)
        invariant |rest| <= |script| && (|rest| == |script| ==> log == []) && Scripted(rest, ns, rs)
        decreases |rest|
      {
        var action := rest[0];
        RestScripted(rest, 1, ns, rs);
        rest := rest[1..];
        if action.Return? {
          return action.ret, rest, log;
        }
        ghost var mid, nextMid := items, Nexts(js);
        ghost var more;
        rest, more := Do(action, rest, ns, rs);
        FollowedTwice(was, next, log, mid, nextMid, more, items, Nexts(js), head);
        log := log + more;
      }
      ret := 0;
    }

    /** One step of a callback. */
    method Do(action: Action, script: seq<Action>, ghost ns: set<SafeNode>, ghost rs: set<ListHead<SafeNode?>>)
      returns (rest: seq<Action>, ghost log: Log)
      requires Valid() && Scripted([action], ns, rs) && Scripted(script, ns, rs) && nodes <= ns && records <= rs
      modifies this`items, this`nodes, this`records, this`chains, this`live
      modifies ns`i, live`head, live`next_i, live`next, rs`next, rs`prev
      ensures Valid() && live == old(live) && nodes <= ns && records <= rs
      ensures Followed(old(items), old(Nexts(live)), log, items, Nexts(live), head)
      ensures |rest| <= |script| && Scripted(rest, ns, rs)
      decreases |script|, 2, 0
    {
      rest, log := script, [];
      FollowedNowhere(items, Nexts(live), head);
      match action {
        case Return(_) =>
        case Delete(node) =>
          assert action in [action];
          if node.list.next != null {
            Take(node, rest, ns, rs);
            log := [Gone(node)];
          }
        case Insert(node, first) =>
          assert action in [action];
          if node in items {
            NextOf(node);
          }
          if node.list.next == null {
            Bring(node, first, rest, ns, rs);
            log := [if first then CameFirst(node) else Came(node)];
          }
        case Iterate =>
          ghost var seen, logs;
          var r;
          r, rest, seen, logs := ForEach(rest, ns, rs);
          log := Whole(logs);
      }
    }

    /** safe_list_for_each, with callbacks that take elements out, add elements and walk the list
        themselves.  Visit number `k` is that of `seen[k]`, and `logs[k]` is what happens to the list
        during it.  Who is visited is a function of these; an element is in the list when it is visited;
        unless a callback stops the walk, an element is seen or was taken out; an element that was
        not added again is not visited twice; and without additions elements are visited in list
        order. */
    method ForEach(script: seq<Action>, ghost ns: set<SafeNode>, ghost rs: set<ListHead<SafeNode?>>)
      returns (ret: int, rest: seq<Action>, ghost seen: seq<SafeNode>, ghost logs: seq<Log>)
      requires Valid() && Scripted(script, ns, rs) && nodes <= ns && records <= rs
      modifies this`items, this`nodes, this`records, this`chains, this`live
      modifies ns`i, live`head, live`next_i, live`next, rs`next, rs`prev
      ensures Valid() && live == old(live) && nodes <= ns && records <= rs
      ensures Followed(old(items), old(Nexts(live)), Whole(logs), items, Nexts(live), head)
      ensures |rest| <= |script| && Scripted(rest, ns, rs)
      ensures |seen| == |logs| && seen == Visits(old(items), logs) && (ret == 0 ==> Left(old(items), logs) == [])
      ensures forall k :: 0 <= k < |seen| ==> seen[k] in Play(old(items), Whole(logs[..k]))
      ensures ret == 0 ==> forall x :: x in old(items) ==> x in seen || Gone(x) in Whole(logs)
      ensures Distinct(old(items) + Newcomers(Whole(logs))) ==> Distinct(seen)
      ensures Newcomers(Whole(logs)) == [] ==> seen == Only(old(items), Elements(seen))
      decreases |script|, 1, 0
    {
      ghost var was, next, js := items, Nexts(live), live;
      Apart();
      var cur, i := Begin();
      ret, rest, seen, logs := Walk(cur, i, script, was, next, js, ns, rs);
      DelIterator(i);
      WalkMeans(was, logs);
    }

    /** What safe_list_for_each does before its loop. */
    method Begin() returns (cur: SafeNode, i: Cursor)
      requires Valid()
      modifies this`live, this`chains, nodes`i, live`head
      ensures Valid() && fresh(i) && live == old(live) + {i} && i !in old(live)
      ensures (cur == head || cur in items) && head !in items && i.next == Successor(items, head, cur)
      ensures Nexts(old(live)) == old(Nexts(live)) && From(items, cur) == items
    {
      Apart();
      HeadLinked();
      ghost var at := Neighbour(head);
      FromFirst(items, head);
      i := new Cursor(head);
      cur := head.list.next.entry;
      SetIterator(cur, i);
    }

    /** The loop of safe_list_for_each. */
    method Walk(first: SafeNode, i: Cursor, script: seq<Action>, ghost was: seq<SafeNode>,
                ghost next: map<Cursor, SafeNode>, ghost js: set<Cursor>,
                ghost ns: set<SafeNode>, ghost rs: set<ListHead<SafeNode?>>)
      returns (ret: int, rest: seq<Action>, ghost seen: seq<SafeNode>, ghost logs: seq<Log>)
      requires Valid() && live == js + {i} && i !in js && Scripted(script, ns, rs) && nodes <= ns && records <= rs
      requires (first == head || first in items) && head !in items && i.next == Successor(items, head, first)
      requires was == items == From(items, first) && next == Nexts(js)
      modifies this`items, this`nodes, this`records, this`chains, this`live
      modifies ns`i, live`head, live`next_i, live`next, rs`next, rs`prev
      ensures Valid() && live == js + {i} && nodes <= ns && records <= rs
      ensures Followed(was, next, Whole(logs), items, Nexts(js), head)
      ensures |seen| == |logs| && seen == Visits(was, logs) && (ret == 0 ==> Left(was, logs) == [])
      ensures |rest| <= |script| && Scripted(rest, ns, rs)
      decreases |script|, 0, 3
    {
      var cur := first;
      ret, rest, seen, logs := 0, script, [], [];
      FollowedNowhere(was, next, head);
      while cur != head
        invariant Valid() && live == js + {i} && nodes <= ns && records <= rs
        invariant Followed(was, next, Whole(logs), items, Nexts(js), head)
        invariant (cur == head || cur in items) && head !in items && i.next == Successor(items, head, cur)
        invariant |seen| == |logs| && seen == Visits(was, logs) && From(items, cur) == Left(was, logs)
        invariant ret == 0 && |rest| <= |script| && Scripted(rest, ns, rs)
        decreases |rest|, |From(items, cur)|
      {
        var cur';
        ghost var log;
        VisitsMore(was, logs, []);
        ret, rest, cur', log := Step(cur, i, rest, was, next, js, logs, ns, rs);
        VisitsMore(was, logs, log);
        seen, logs := seen + [cur], logs + [log];
        if ret != 0 {
          return;
        }
        cur := cur';
      }
    }

    /** One round of the loop of safe_list_for_each. */
    method Step(cur: SafeNode, i: Cursor, script: seq<Action>, ghost was: seq<SafeNode>,
                ghost next: map<Cursor, SafeNode>, ghost js: set<Cursor>, ghost logs: seq<Log>,
                ghost ns: set<SafeNode>, ghost rs: set<ListHead<SafeNode?>>)
      returns (ret: int, rest: seq<Action>, cur': SafeNode, ghost log: Log)
      requires Valid() && live == js + {i} && i !in js && Scripted(script, ns, rs) && nodes <= ns && records <= rs
      requires cur in items && i.next == Successor(items, head, cur)
      requires Followed(was, next, Whole(logs), items, Nexts(js), head)
      modifies this`items, this`nodes, this`records, this`chains, this`live
      modifies ns`i, live`head, live`next_i, live`next, rs`next, rs`prev
      ensures Valid() && live == js + {i} && nodes <= ns && records <= rs
      ensures Followed(was, next, Whole(logs + [log]), items, Nexts(js), head)
      ensures (cur' == head || cur' in items) && head !in items
      ensures From(items, cur') == PlayAhead(old(From(items, cur))[1..], log)
      ensures ret == 0 ==> i.next == Successor(items, head, cur')
      ensures |rest| == |script| ==> |From(items, cur')| < |old(From(items, cur))|
      ensures |rest| <= |script| && Scripted(rest, ns, rs)
      decreases |script|, 0, 2
    {
      ret, rest, log := Visit(cur, i, script, was, next, js, logs, ns, rs);
      cur' := i.next;
      if ret == 0 {
        MoveOn(cur', i, js, rest, ns, rs);
      }
    }

    /** __safe_list_move_iterator changes nothing for other iterators or for callbacks. */
    method MoveOn(cur: SafeNode, i: Cursor, ghost js: set<Cursor>, ghost script: seq<Action>,
                  ghost ns: set<SafeNode>, ghost rs: set<ListHead<SafeNode?>>)
      requires Valid() && live == js + {i} && i !in js && cur in nodes && Scripted(script, ns, rs)
      modifies this`live, this`chains, i`next, nodes`i, live`head, live`next_i
      ensures Valid() && live == old(live) && i.next == Successor(items, head, cur)
      ensures Nexts(js) == old(Nexts(js)) && Scripted(script, ns, rs)
    {
      MoveIterator(cur, i);
    }

    /** One call of the callback in a walk. */
    method Visit(cur: SafeNode, i: Cursor, script: seq<Action>, ghost was: seq<SafeNode>,
                 ghost next: map<Cursor, SafeNode>, ghost js: set<Cursor>, ghost logs: seq<Log>,
                 ghost ns: set<SafeNode>, ghost rs: set<ListHead<SafeNode?>>)
      returns (ret: int, rest: seq<Action>, ghost log: Log)
      requires Valid() && live == js + {i} && i !in js && Scripted(script, ns, rs) && nodes <= ns && records <= rs
      requires cur in items && i.next == Successor(items, head, cur)
      requires Followed(was, next, Whole(logs), items, Nexts(js), head)
      modifies this`items, this`nodes, this`records, this`chains, this`live
      modifies ns`i, live`head, live`next_i, live`next, rs`next, rs`prev
      ensures Valid() && live == js + {i} && nodes <= ns && records <= rs
      ensures Followed(was, next, Whole(logs + [log]), items, Nexts(js), head)
      ensures (i.next == head || i.next in items) && i.next in nodes && head !in items
      ensures From(items, i.next) == PlayAhead(old(From(items, cur))[1..], log)
      ensures |rest| == |script| ==> |From(items, i.next)| < |old(From(items, cur))|
      ensures |rest| <= |script| && Scripted(rest, ns, rs)
      decreases |script|, 0, 1
    {
      ghost var s, few, all := items, Nexts(js), Nexts(live);
      Apart();
      AheadHere(items, head, cur);
      ret, rest, log := Callback(cur, script, ns, rs);
      FollowedAt(s, all, log, items, Nexts(live), head, i);
      FollowedFewer(s, all, log, items, Nexts(live), head, few, Nexts(js));
      FollowedTwice(was, next, Whole(logs), s, few, log, items, Nexts(js), head);
      WholeMore(logs, log);
      NextIsThere(i);
    }

    lemma NextIsThere(i: Cursor)
      requires Valid() && i in live
      ensures (i.next == head || i.next in items) && i.next in nodes && head !in items
    {
      InOneChain(i);
      var k := Neighbour(i.next);
    }

    /** What the walk through the list `was` amounts to. */
    lemma WalkMeans(was: seq<SafeNode>, logs: seq<Log>)
      requires Distinct(was)
      ensures var seen := Visits(was, logs);
              && |seen| <= |logs| && (forall k :: 0 <= k < |seen| ==> seen[k] in Play(was, Whole(logs[..k])))
              && (Left(was, logs) == [] ==> forall x :: x in was ==> x in seen || Gone(x) in Whole(logs))
              && (Distinct(was + Newcomers(Whole(logs))) ==> Distinct(seen))
              && (Newcomers(Whole(logs)) == [] ==> seen == Only(was, Elements(seen)))
    {
      VisitsAreFewer(was, logs);
      var seen := Visits(was, logs);
      forall k | 0 <= k < |seen|
        ensures seen[k] in Play(was, Whole(logs[..k]))
      {
        VisitedIsThere(was, was, logs, k);
      }
      if Left(was, logs) == [] {
        forall x | x in was
          ensures x in seen || Gone(x) in Whole(logs)
        {
          VisitedOrGone(was, logs, x);
        }
      }
      if Distinct(was + Newcomers(Whole(logs))) {
        VisitedOnce(was, logs);
      }
      if Newcomers(Whole(logs)) == [] {
        VisitsInOrder(was, logs);
      }
    }
  }

  lemma InsertFront<A>(s: seq<A>, x: A)
    ensures InsertAt(s, 0, x) == [x] + s
  {
  }

  lemma ListsRemoved(all: seq<SafeNode>, k: nat)
    requires k < |all|
    ensures Lists(RemoveAt(all, k)) == RemoveAt(Lists(all), k)
  {
    var a, b := Lists(RemoveAt(all, k)), RemoveAt(Lists(all), k);
    forall i | 0 <= i < |a|
      ensures a[i] == b[i]
    {
      assert b[i] == Lists(all)[if i < k then i else i + 1];
    }
  }

  lemma ListsInserted(all: seq<SafeNode>, k: nat, n: SafeNode)
    requires k <= |all|
    ensures Lists(InsertAt(all, k, n)) == InsertAt(Lists(all), k, n.list)
  {
    var a, b := Lists(InsertAt(all, k, n)), InsertAt(Lists(all), k, n.list);
    forall i | 0 <= i < |a|
      ensures a[i] == b[i]
    {
      assert i != k ==> b[i] == Lists(all)[if i < k then i else i - 1];
    }
  }
}
