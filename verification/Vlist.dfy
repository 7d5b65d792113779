/** Generation-based comparison of lists of keyed nodes (vlist.c, vlist.h). */
module Vlist {
  import opened Sequences
  import opened CircularList
  import opened AvlLinks
  import opened AvlOrder
  import opened Avl

  /** One call of the update callback. */
  datatype Report = Report(now: AvlNode?, was: AvlNode?)

  // -------- where keys go --------

  lemma SlotsMeet(rows: seq<Row>, cmp: Comparison, key: Key, p: nat, q: nat)
    requires LowerSlot(rows, cmp, key, p) && Slot(rows, cmp, key, q)
    requires p < |rows| ==> cmp(key, rows[p].key) != 0
    ensures p == q
  {
    assert p < |rows| ==> cmp(key, rows[p].key) < 0;
    assert q < |rows| ==> cmp(key, rows[q].key) < 0;
  }

  /** With strictly ascending keys only one row has a given key. */
  lemma NoOther(rows: seq<Row>, cmp: Comparison, key: Key, p: nat)
    requires Preorder(cmp) && Ordered(rows, cmp) && AllLead(rows)
    requires LowerSlot(rows, cmp, key, p)
    ensures forall i :: 0 <= i < |rows| && i != p ==> cmp(key, rows[i].key) != 0
    ensures forall i :: p < i < |rows| ==> cmp(key, rows[i].key) < 0
  {
    forall i | p < i < |rows|
      ensures cmp(key, rows[i].key) < 0
    {
      LeadersAscend(rows, cmp, p, i);
      Between(cmp, key, rows[p].key, rows[i].key);
    }
  }

  lemma SlotWithout(rows: seq<Row>, cmp: Comparison, key: Key, p: nat, q: nat)
    requires Preorder(cmp) && Ordered(rows, cmp) && AllLead(rows)
    requires LowerSlot(rows, cmp, key, p) && p < |rows|
    requires Slot(RemoveAt(rows, p), cmp, key, q)
    ensures q == p
  {
    NoOther(rows, cmp, key, p);
    var r := RemoveAt(rows, p);
    forall i | 0 <= i < |r|
      ensures i < p ==> cmp(key, r[i].key) > 0
      ensures i >= p ==> cmp(key, r[i].key) < 0
    {
      assert r[i] == rows[if i < p then i else i + 1];
    }
    assert p < |r| ==> cmp(key, r[p].key) < 0;
    assert q < |r| ==> cmp(key, r[q].key) < 0;
  }

  lemma NewWithout(rows: seq<Row>, cmp: Comparison, key: Key, p: nat)
    requires Preorder(cmp) && Ordered(rows, cmp) && AllLead(rows)
    requires LowerSlot(rows, cmp, key, p) && p < |rows|
    ensures IsNewKey(RemoveAt(rows, p), cmp, key)
  {
    NoOther(rows, cmp, key, p);
    var r := RemoveAt(rows, p);
    forall i | 0 <= i < |r|
      ensures cmp(key, r[i].key) != 0
    {
      assert r[i] == rows[if i < p then i else i + 1];
    }
  }

  lemma Swapped(items: seq<AvlNode>, p: nat, x: AvlNode)
    requires p < |items|
    ensures InsertAt(RemoveAt(items, p), p, x) == items[p := x]
  {
  }

  class VlistTree {
    const avl: AvlTree
    var keepOld: bool
    var noDelete: bool
    var version: int
    var log: seq<Report>

    ghost predicate Valid()
      reads avl`root, avl`count, avl`items, avl`nodes, avl`records, avl`shape
      reads avl.nodes`parent, avl.nodes`left, avl.nodes`right, avl.nodes`balance, avl.items`key, avl.items`leader
      reads avl.records`next, avl.records`prev, avl.records`entry
    {
      avl.Valid() && !avl.allowDups
    }

    /** vlist_init */
    constructor (cmp: Comparison)
      requires Preorder(cmp)
      ensures Valid() && avl.items == [] && avl.comp == cmp
      ensures version == 1 && !keepOld && !noDelete && log == []
      ensures fresh(avl) && fresh(avl.listHead)
    {
      avl := new AvlTree(cmp, false);
      version := 1;
      keepOld, noDelete := false, false;
      log := [];
    }

    /** The call of the update callback; what it does with the tree is not modelled. */
    method Update(now: AvlNode?, was: AvlNode?)
      modifies this`log
      ensures log == old(log) + [Report(now, was)]
    {
      log := log + [Report(now, was)];
    }

    /** The key is there already, as item number `p`. */
    ghost predicate Has(key: Key, p: nat)
      reads avl`items, avl.items`key, avl.items`leader
    {
      p < |avl.items| && avl.comp(key, avl.Rows()[p].key) == 0
    }

    /** vlist_delete */
    method Delete(node: AvlNode) returns (ghost k: nat)
      requires Valid() && node in avl.nodes
      modifies this`log, avl`root, avl`count, avl`items, avl`nodes, avl`records, avl`shape
      modifies avl.nodes`parent, avl.nodes`left, avl.nodes`right, avl.nodes`balance, avl.nodes`leader
      modifies avl.records`next, avl.records`prev
      ensures Valid()
      ensures k < |old(avl.items)| && old(avl.items)[k] == node
      ensures noDelete ==> avl.items == old(avl.items)
      ensures !noDelete ==> avl.items == RemoveAt(old(avl.items), k)
      ensures log == old(log) + [Report(null, node)]
      ensures avl.nodes <= old(avl.nodes) && avl.records <= old(avl.records)
    {
      k := avl.ItemOf(node);
      if !noDelete {
        k := avl.Delete(node);
      }
      Update(null, node);
    }

    /** The branch of vlist_add that replaces a node. */
    method Replace(anode: AvlNode, node: AvlNode, ghost p: nat)
      requires Valid() && node !in avl.nodes && node.list.entry == node
      requires LowerSlot(avl.Rows(), avl.comp, node.key, p)
      requires Has(node.key, p) && avl.items[p] == anode
      modifies avl`root, avl`count, avl`items, avl`nodes, avl`records, avl`shape
      modifies avl.nodes`parent, avl.nodes`left, avl.nodes`right, avl.nodes`balance, avl.nodes`leader
      modifies node`parent, node`left, node`right, node`balance, node`leader
      modifies avl.records`next, avl.records`prev, node.list`next, node.list`prev
      ensures Valid()
      ensures avl.items == old(avl.items)[p := node]
    {
      ghost var was, rows := avl.items, avl.Rows();
      avl.InKeyOrder();
      ghost var k := avl.Delete(anode);
      assert k == p by {
        assert rows[k].node == rows[p].node;
      }
      ghost var rest := avl.Rows();
      assert rest == RemoveAt(rows, p);
      assert IsNewKey(rest, avl.comp, node.key) by {
        NewWithout(rows, avl.comp, node.key, p);
      }
      var r;
      ghost var q;
      r, q := avl.Insert(node);
      SlotWithout(rows, avl.comp, node.key, p, q);
      Swapped(was, p, node);
    }

    /** The branch of vlist_add for a key that is not there. */
    method PutNew(node: AvlNode, ghost p: nat)
      requires Valid() && node !in avl.nodes && node.list.entry == node
      requires LowerSlot(avl.Rows(), avl.comp, node.key, p) && !Has(node.key, p)
      modifies avl`root, avl`count, avl`items, avl`nodes, avl`records, avl`shape
      modifies avl.nodes`parent, avl.nodes`left, avl.nodes`right, avl.nodes`balance, avl.nodes`leader
      modifies node`parent, node`left, node`right, node`balance, node`leader
      modifies avl.records`next, avl.records`prev, node.list`next, node.list`prev
      ensures Valid()
      ensures avl.items == InsertAt(old(avl.items), p, node)
    {
      ghost var rows := avl.Rows();
      avl.InKeyOrder();
      NoOther(rows, avl.comp, node.key, p);
      var r;
      ghost var q;
      r, q := avl.Insert(node);
      SlotsMeet(rows, avl.comp, node.key, p, q);
    }

    /** vlist_add from the search on to the report. */
    method Put(node: AvlNode) returns (anode: AvlNode?, ghost p: nat)
      requires Valid() && node !in avl.nodes && node.list.entry == node
      modifies avl`root, avl`count, avl`items, avl`nodes, avl`records, avl`shape
      modifies avl.nodes`parent, avl.nodes`left, avl.nodes`right, avl.nodes`balance, avl.nodes`leader, avl.nodes`version
      modifies node`parent, node`left, node`right, node`balance, node`leader
      modifies avl.records`next, avl.records`prev, node.list`next, node.list`prev
      ensures Valid()
      ensures LowerSlot(old(avl.Rows()), avl.comp, node.key, p)
      ensures anode == if old(Has(node.key, p)) then old(avl.items)[p] else null
      ensures avl.items == if !old(Has(node.key, p)) then InsertAt(old(avl.items), p, node)
                           else if keepOld || noDelete then old(avl.items) else old(avl.items)[p := node]
      ensures forall x :: x in old(avl.nodes) ==>
                x.version == if (keepOld || noDelete) && old(Has(node.key, p)) && x == old(avl.items)[p] then version
                             else old(x.version)
    {
      ghost var depth;
      avl.InKeyOrder();
      anode, p, depth := avl.Find(node.key);
      assert anode != null <==> Has(node.key, p);
      if anode != null {
        if keepOld || noDelete {
          anode.version := version;
        } else {
          Replace(anode, node, p);
        }
      } else {
        PutNew(node, p);
      }
    }

    /** vlist_add: item number `p` is the node with this key afterwards; if there was one, it
        is replaced or, when old nodes are kept, stamped with the current version. */
    method Add(node: AvlNode, key: Key) returns (ghost p: nat)
      requires Valid() && node !in avl.nodes && node.list.entry == node
      modifies this`log, avl`root, avl`count, avl`items, avl`nodes, avl`records, avl`shape
      modifies avl.nodes`parent, avl.nodes`left, avl.nodes`right, avl.nodes`balance, avl.nodes`leader, avl.nodes`version
      modifies node`parent, node`left, node`right, node`balance, node`leader, node`key, node`version
      modifies avl.records`next, avl.records`prev, node.list`next, node.list`prev
      ensures Valid() && node.key == key && node.version == version
      ensures LowerSlot(old(avl.Rows()), avl.comp, key, p)
      ensures log == old(log) + [Report(node, if old(Has(key, p)) then old(avl.items)[p] else null)]
      ensures avl.items == if !old(Has(key, p)) then InsertAt(old(avl.items), p, node)
                           else if keepOld || noDelete then old(avl.items) else old(avl.items)[p := node]
      ensures forall x :: x in old(avl.nodes) ==>
                x.version == if (keepOld || noDelete) && old(Has(key, p)) && x == old(avl.items)[p] then version
                             else old(x.version)
    {
      avl.Unlisted(node);
      node.key := key;
      node.version := version;
      var anode;
      anode, p := Put(node);
      Update(node, anode);
    }

    /** vlist_update */
    method NextGeneration()
      modifies this`version
      ensures version == old(version) + 1
    {
      version := version + 1;
    }

    /** One round of the loop of vlist_flush, at item number `k`. */
    method FlushOne(node: AvlNode, ghost k: nat)
      requires Valid() && k < |avl.items| && avl.items[k] == node
      modifies this`log, avl`root, avl`count, avl`items, avl`nodes, avl`records, avl`shape
      modifies avl.nodes`parent, avl.nodes`left, avl.nodes`right, avl.nodes`balance, avl.nodes`leader
      modifies avl.records`next, avl.records`prev
      ensures Valid()
      ensures avl.items == if noDelete || Stays(node.version, version) then old(avl.items) else RemoveAt(old(avl.items), k)
      ensures log == old(log) + if Stays(node.version, version) then [] else [Report(null, node)]
      ensures avl.nodes <= old(avl.nodes) && avl.records <= old(avl.records)
    {
      if Stays(node.version, version) {
        return;
      }
      avl.InKeyOrder();
      assert forall i :: 0 <= i < |avl.items| ==> avl.Rows()[i].node == avl.items[i];
      ghost var j := Delete(node);
      assert j == k;
    }

    /** Round `i` of the loop of vlist_flush, at item number `k` of what is left of the list. */
    method FlushRound(element: ListHead<AvlNode?>, ghost was: seq<AvlNode>, ghost s: seq<Stamp>, ghost i: nat,
                      ghost before: seq<Report>, ghost k: nat)
      returns (ghost k': nat)
      requires Valid() && Way(avl.items, log, was, s, i, noDelete, version, before, k) && i < |was|
      requires k < |avl.items| && element == avl.items[k].list && s[i].version == avl.items[k].version
      modifies this`log, avl`root, avl`count, avl`items, avl`nodes, avl`records, avl`shape
      modifies avl.nodes`parent, avl.nodes`left, avl.nodes`right, avl.nodes`balance, avl.nodes`leader
      modifies avl.records`next, avl.records`prev
      ensures Valid() && Way(avl.items, log, was, s, i + 1, noDelete, version, before, k')
      ensures old(element.next) == if k' < |avl.items| then avl.items[k'].list else avl.listHead
      ensures avl.nodes <= old(avl.nodes) && avl.records <= old(avl.records)
    {
      avl.Neighbours(k);
      WayOn(avl.items, log, was, s, i, noDelete, version, before, k);
      k' := if noDelete || Stays(element.entry.version, version) then k + 1 else k;
      FlushOne(element.entry, k);
    }

    /** vlist_flush: the nodes that are not of the current version leave, and each of them is
        reported once, in list order; without deletion they are only reported. */
    method Flush()
      requires Valid()
      modifies this`log, avl`root, avl`count, avl`items, avl`nodes, avl`records, avl`shape
      modifies avl.nodes`parent, avl.nodes`left, avl.nodes`right, avl.nodes`balance, avl.nodes`leader
      modifies avl.records`next, avl.records`prev
      ensures Valid()
      ensures avl.items == if noDelete then old(avl.items) else Kept(old(Stamps(avl.items)), |old(avl.items)|, version)
      ensures log == old(log) + Farewells(old(Stamps(avl.items)), |old(avl.items)|, version)
    {
      ghost var was, s, before := avl.items, Stamps(avl.items), log;
      ghost var i: nat, k: nat := 0, 0;
      WayBegins(was, s, noDelete, version, before);
      avl.Ends();
      if was != [] {
        avl.Neighbours(0);
      }
      var element := avl.listHead.next;
      var ptr: ListHead?<AvlNode?> := element.next;
      while element.prev != avl.listHead.prev
        invariant Valid() && Way(avl.items, log, was, s, i, noDelete, version, before, k)
        invariant element == (if k < |avl.items| then avl.items[k].list else avl.listHead) && ptr == element.next
        invariant avl.nodes <= old(avl.nodes) && avl.records <= old(avl.records)
        decreases |was| - i
      {
        WayMeets(avl.items, log, was, s, i, noDelete, version, before, k);
        k := FlushRound(element, was, s, i, before, k);
        element := ptr;
        ptr := ptr.next;
        i := i + 1;
      }
      FlushEnds(element, k);
      WayEnds(avl.items, log, was, s, i, noDelete, version, before, k);
    }

    /** The loop of vlist_flush ends behind the last node. */
    lemma FlushEnds(element: ListHead<AvlNode?>, k: nat)
      requires Valid() && element.prev == avl.listHead.prev
      requires element == if k < |avl.items| then avl.items[k].list else avl.listHead
      ensures k >= |avl.items|
    {
      if k < |avl.items| {
        avl.Neighbours(k);
        assert false;
      }
    }

    /** vlist_flush_all */
    method FlushAll()
      requires Valid()
      modifies this`version, this`log, avl`root, avl`count, avl`items, avl`nodes, avl`records, avl`shape
      modifies avl.nodes`parent, avl.nodes`left, avl.nodes`right, avl.nodes`balance, avl.nodes`leader
      modifies avl.records`next, avl.records`prev
      ensures Valid() && version == -1
      ensures avl.items == if noDelete then old(avl.items) else []
      ensures log == old(log) + AllGone(old(avl.items))
    {
      version := -1;
      NothingStays(Stamps(avl.items), |avl.items|);
      assert Farewells(Stamps(avl.items), |avl.items|, -1) == AllGone(avl.items);
      Flush();
    }

    /** While one generation is added: which nodes are in the list, and how they are stamped. */
    ghost predicate Midway(was: seq<AvlNode>, nodes: seq<AvlNode>, keys: seq<Key>, i: nat)
      reads this`version, avl`items, avl.items`key, avl.items`leader, avl.items`version
    {
      i <= |nodes| == |keys| && SealedMidway(was, nodes, keys, i) == true
    }

    ghost predicate SealedMidway(was: seq<AvlNode>, nodes: seq<AvlNode>, keys: seq<Key>, i: nat)
      requires i <= |nodes| == |keys|
      reads this`version, avl`items, avl.items`key, avl.items`leader, avl.items`version
    {
      forall u: nat {:trigger OpenMidway(u)} :: OnTheWay(was, nodes, keys, i)
    }

    ghost predicate OpenMidway(u: nat) {
      true
    }

    ghost predicate OnTheWay(was: seq<AvlNode>, nodes: seq<AvlNode>, keys: seq<Key>, i: nat)
      requires i <= |nodes| == |keys|
      reads this`version, avl`items, avl.items`key, avl.items`leader, avl.items`version
    {
      && (forall x :: x in avl.items ==> x in was || x in nodes[..i])
      && (forall x :: x in avl.items ==> x.version != -1 && (x.version == version <==> x in nodes[..i]))
      && Arrived(avl.Rows(), avl.comp, nodes, keys, i)
    }

    /** vlist_add in a tree that replaces nodes, in terms of rows. */
    method AddRow(node: AvlNode, key: Key) returns (ghost p: nat)
      requires Valid() && node !in avl.nodes && node.list.entry == node && !keepOld && !noDelete
      modifies this`log, avl`root, avl`count, avl`items, avl`nodes, avl`records, avl`shape
      modifies avl.nodes`parent, avl.nodes`left, avl.nodes`right, avl.nodes`balance, avl.nodes`leader, avl.nodes`version
      modifies node`parent, node`left, node`right, node`balance, node`leader, node`key, node`version
      modifies avl.records`next, avl.records`prev, node.list`next, node.list`prev
      ensures Valid() && node.key == key && node.version == version
      ensures LowerSlot(old(avl.Rows()), avl.comp, key, p)
      ensures log == old(log) + [Report(node, if old(Has(key, p)) then old(avl.items)[p] else null)]
      ensures avl.items == if old(Has(key, p)) then old(avl.items)[p := node] else InsertAt(old(avl.items), p, node)
      ensures avl.Rows() == RowsPut(old(avl.Rows()), avl.comp, Row(node, key, true), p)
      ensures forall x :: x in old(avl.items) ==> x.version == old(x.version)
      ensures avl.nodes <= old(avl.nodes) + {node} && avl.records <= old(avl.records) + {node.list}
    {
      ghost var was, rows := avl.items, avl.Rows();
      avl.InKeyOrder();
      avl.Footprint();
      p := Add(node, key);
      avl.InKeyOrder();
      avl.Footprint();
      ItemsPut(was, p, node);
      RowsAdded(was, rows, node, p);
    }

    lemma RowsAdded(was: seq<AvlNode>, rows: seq<Row>, node: AvlNode, p: nat)
      requires |rows| == |was| && AllLead(rows) && AllLead(avl.Rows()) && p <= |was|
      requires forall a :: 0 <= a < |was| ==> rows[a].node == was[a] && rows[a].key == was[a].key
      requires avl.items == if p < |was| && avl.comp(node.key, rows[p].key) == 0 then was[p := node] else InsertAt(was, p, node)
      ensures avl.Rows() == RowsPut(rows, avl.comp, Row(node, node.key, true), p)
    {
      var a, b := avl.Rows(), RowsPut(rows, avl.comp, Row(node, node.key, true), p);
      var there := p < |was| && avl.comp(node.key, rows[p].key) == 0;
      forall i | 0 <= i < |a|
        ensures a[i] == b[i]
      {
        assert a[i].leader;
        if i != p {
          var j := if there || i < p then i else i - 1;
          assert avl.items[i] == was[j] && b[i] == rows[j];
          assert rows[j].leader;
        }
      }
    }

    /** One more step of a generation. */
    lemma MidwayOn(was: seq<AvlNode>, nodes: seq<AvlNode>, keys: seq<Key>, i: nat, rows: seq<Row>, list: seq<AvlNode>, p: nat)
      requires i < |nodes| == |keys| && Distinct(nodes) && Preorder(avl.comp)
      requires Ordered(rows, avl.comp) && AllLead(rows) && DistinctRows(rows) && LowerSlot(rows, avl.comp, keys[i], p)
      requires |rows| == |list| && forall a :: 0 <= a < |rows| ==> rows[a].node == list[a]
      requires nodes[i] !in list && Arrived(rows, avl.comp, nodes, keys, i)
      requires forall x :: x in list ==> x in was || x in nodes[..i]
      requires forall x :: x in list ==> x.version != -1 && (x.version == version <==> x in nodes[..i])
      requires nodes[i].version == version && version != -1
      requires forall x :: x in avl.items ==> x in list || x == nodes[i]
      requires avl.Rows() == RowsPut(rows, avl.comp, Row(nodes[i], keys[i], true), p)
      ensures Midway(was, nodes, keys, i + 1)
    {
      OneMoreArrived(rows, avl.comp, nodes, keys, i, p);
      assert nodes[..i + 1] == nodes[..i] + [nodes[i]];
    }

    /** Call number `i` of vlist_add in a generation. */
    method AddNext(node: AvlNode, key: Key, ghost nodes: seq<AvlNode>, ghost keys: seq<Key>, ghost i: nat,
                   ghost was: seq<AvlNode>, ghost first: seq<Row>, ghost x: AvlNode)
      returns (ghost report: Report)
      requires Valid() && !keepOld && !noDelete && version != -1
      requires i < |nodes| == |keys| && Distinct(nodes) && Midway(was, nodes, keys, i)
      requires Mixed(first, avl.Rows(), avl.comp, nodes, keys, i)
      requires node == nodes[i] && key == keys[i] && node !in avl.nodes && node.list.entry == node
      modifies this`log, avl`root, avl`count, avl`items, avl`nodes, avl`records, avl`shape
      modifies avl.nodes`parent, avl.nodes`left, avl.nodes`right, avl.nodes`balance, avl.nodes`leader, avl.nodes`version
      modifies node`parent, node`left, node`right, node`balance, node`leader, node`key, node`version
      modifies avl.records`next, avl.records`prev, node.list`next, node.list`prev
      ensures Valid() && Midway(was, nodes, keys, i + 1)
      ensures log == old(log) + [report] && report.now == node
      ensures Mixed(first, avl.Rows(), avl.comp, nodes, keys, i + 1)
      ensures Names(first, avl.comp, nodes, keys, i, report.was)
      ensures Copies(avl.items, x) + Reported([report], x) == Copies(old(avl.items), x) + if node == x then 1 else 0
      ensures avl.nodes <= old(avl.nodes) + {node} && avl.records <= old(avl.records) + {node.list}
    {
      ghost var list, rows := avl.items, avl.Rows();
      avl.InKeyOrder();
      assert OpenMidway(0);
      ghost var p := AddRow(node, key);
      report := log[|log| - 1];
      PutConserves(list, p, node, x);
      OneCopy(node, report, x);
      ItemsPut(list, p, node);
      MixedOn(first, rows, avl.comp, nodes, keys, i, p);
      NamesFound(first, rows, avl.comp, nodes, keys, i, p);
      MidwayOn(was, nodes, keys, i, rows, list, p);
    }

    /** A node that is still to come is not in the tree. */
    lemma StillNew(nodes: seq<AvlNode>, keys: seq<Key>, i: nat, was: seq<AvlNode>)
      requires Valid() && i < |nodes| == |keys| && Distinct(nodes) && Midway(was, nodes, keys, i)
      requires forall n :: n in nodes ==> n !in was
      ensures nodes[i] !in avl.nodes
    {
      avl.Owned();
      assert OpenMidway(0);
    }

    /** All that is known after `i` calls, of which `reports` tell. */
    ghost predicate Progress(was: seq<AvlNode>, first: seq<Row>, before: seq<Report>, nodes: seq<AvlNode>, keys: seq<Key>,
                             i: nat, x: AvlNode, reports: seq<Report>)
      reads this`version, this`log, avl`items, avl.items`key, avl.items`leader, avl.items`version
    {
      i <= |nodes| == |keys| && SealedProgress(was, first, before, nodes, keys, i, x, reports) == true
    }

    ghost predicate SealedProgress(was: seq<AvlNode>, first: seq<Row>, before: seq<Report>, nodes: seq<AvlNode>,
                                   keys: seq<Key>, i: nat, x: AvlNode, reports: seq<Report>)
      requires i <= |nodes| == |keys|
      reads this`version, this`log, avl`items, avl.items`key, avl.items`leader, avl.items`version
    {
      forall u: nat {:trigger OpenProgress(u)} ::
        && Midway(was, nodes, keys, i) && Mixed(first, avl.Rows(), avl.comp, nodes, keys, i)
        && log == before + reports && Told(reports, nodes, i, x, Copies(was, x), Copies(avl.items, x))
        && Named(first, avl.comp, nodes, keys, i, reports)
    }

    ghost predicate OpenProgress(u: nat) {
      true
    }

    lemma ProgressBegins(nodes: seq<AvlNode>, keys: seq<Key>, x: AvlNode)
      requires Valid() && |nodes| == |keys| && Midway(avl.items, nodes, keys, 0)
      ensures Progress(avl.items, avl.Rows(), log, nodes, keys, 0, x, [])
    {
      avl.InKeyOrder();
      MixedAtFirst(avl.Rows(), avl.comp, nodes, keys);
      assert nodes[..0] == [] && log + [] == log;
    }

    lemma ProgressEnds(was: seq<AvlNode>, first: seq<Row>, before: seq<Report>, nodes: seq<AvlNode>, keys: seq<Key>,
                       x: AvlNode, reports: seq<Report>)
      requires Progress(was, first, before, nodes, keys, |nodes|, x, reports)
      ensures Midway(was, nodes, keys, |nodes|) && log == before + reports && |reports| == |nodes|
      ensures forall j :: 0 <= j < |nodes| ==> reports[j].now == nodes[j]
      ensures Copies(avl.items, x) + Reported(reports, x) == Copies(was, x) + Copies(nodes, x)
      ensures Named(first, avl.comp, nodes, keys, |nodes|, reports)
    {
      assert OpenProgress(0);
      AllTold(reports, nodes, x, Copies(was, x), Copies(avl.items, x));
    }

    /** The next call, whose node and records are among `ns` and `rs`. */
    method AddNextTold(node: AvlNode, key: Key, ghost nodes: seq<AvlNode>, ghost keys: seq<Key>, ghost i: nat,
                       ghost was: seq<AvlNode>, ghost first: seq<Row>, ghost x: AvlNode,
                       ghost before: seq<Report>, ghost told: seq<Report>,
                       ghost ns: set<AvlNode>, ghost rs: set<ListHead<AvlNode?>>)
      returns (ghost reports: seq<Report>)
      requires Valid() && !keepOld && !noDelete && version != -1
      requires i < |nodes| == |keys| && Distinct(nodes) && Progress(was, first, before, nodes, keys, i, x, told)
      requires node == nodes[i] && key == keys[i] && (forall n :: n in nodes ==> n !in was) && node.list.entry == node
      requires avl.nodes <= ns && node in ns && avl.records <= rs && node.list in rs
      modifies this`log, avl`root, avl`count, avl`items, avl`nodes, avl`records, avl`shape
      modifies ns`parent, ns`left, ns`right, ns`balance, ns`leader, ns`version, node`key, rs`next, rs`prev
      ensures Valid() && Progress(was, first, before, nodes, keys, i + 1, x, reports)
      ensures avl.nodes <= ns && avl.records <= rs
    {
      assert OpenProgress(0);
      StillNew(nodes, keys, i, was);
      ghost var c := Copies(avl.items, x);
      ghost var report := AddNext(node, key, nodes, keys, i, was, first, x);
      OneMoreTold(told, nodes, i, x, Copies(was, x), c, report, Copies(avl.items, x));
      OneMoreNamed(first, avl.comp, nodes, keys, i, told, report);
      reports := told + [report];
      assert log == before + reports;
    }

    /** The calls of vlist_add of one generation.  Node `x` is any node. */
    method AddAll(nodes: seq<AvlNode>, keys: seq<Key>, ghost x: AvlNode,
                  ghost ns: set<AvlNode>, ghost rs: set<ListHead<AvlNode?>>)
      returns (ghost reports: seq<Report>)
      requires Valid() && !keepOld && !noDelete && version != -1
      requires |nodes| == |keys| && Distinct(nodes)
      requires forall n :: n in nodes ==> n !in avl.nodes && n.list.entry == n && n in ns && n.list in rs
      requires Midway(avl.items, nodes, keys, 0)
      requires avl.nodes <= ns && avl.records <= rs
      modifies this`log, avl`root, avl`count, avl`items, avl`nodes, avl`records, avl`shape
      modifies ns`parent, ns`left, ns`right, ns`balance, ns`leader, ns`version, nodes`key, rs`next, rs`prev
      ensures Valid() && Progress(old(avl.items), old(avl.Rows()), old(log), nodes, keys, |nodes|, x, reports)
      ensures avl.nodes <= ns && avl.records <= rs
    {
      ProgressBegins(nodes, keys, x);
      avl.Owned();
      reports := AddFrom(nodes, keys, 0, avl.items, avl.Rows(), x, log, [], ns, rs);
    }

    /** Those from number `i` on. */
    method AddFrom(nodes: seq<AvlNode>, keys: seq<Key>, i: nat, ghost was: seq<AvlNode>, ghost first: seq<Row>,
                   ghost x: AvlNode, ghost before: seq<Report>, ghost told: seq<Report>,
                   ghost ns: set<AvlNode>, ghost rs: set<ListHead<AvlNode?>>)
      returns (ghost reports: seq<Report>)
      requires Valid() && !keepOld && !noDelete && version != -1
      requires i <= |nodes| == |keys| && Distinct(nodes) && Progress(was, first, before, nodes, keys, i, x, told)
      requires forall n :: n in nodes ==> n !in was && n.list.entry == n && n in ns && n.list in rs
      requires avl.nodes <= ns && avl.records <= rs
      modifies this`log, avl`root, avl`count, avl`items, avl`nodes, avl`records, avl`shape
      modifies ns`parent, ns`left, ns`right, ns`balance, ns`leader, ns`version, nodes`key, rs`next, rs`prev
      ensures Valid() && Progress(was, first, before, nodes, keys, |nodes|, x, reports)
      ensures avl.nodes <= ns && avl.records <= rs
      decreases |nodes| - i
    {
      reports := told;
      if i < |nodes| {
        reports := AddNextTold(nodes[i], keys[i], nodes, keys, i, was, first, x, before, told, ns, rs);
        reports := AddFrom(nodes, keys, i + 1, was, first, x, before, reports, ns, rs);
      }
    }

    /** One generation, from vlist_update to vlist_flush, in a tree that neither keeps nor pins
        old nodes: what is listed afterwards are the nodes that were added last with their key,
        every call of vlist_add was reported with the node that it replaced, and each node that was
        listed before or added is still listed or was reported as replaced or gone, as often as it
        came in. */
    method Generation(nodes: seq<AvlNode>, keys: seq<Key>, ghost x: AvlNode)
      returns (ghost reports: seq<Report>, ghost farewells: seq<Report>)
      requires Valid() && !keepOld && !noDelete
      requires |nodes| == |keys| && Distinct(nodes)
      requires forall n :: n in nodes ==> n !in avl.nodes && n.list.entry == n
      requires version + 1 != -1 && forall n :: n in avl.items ==> n.version != -1 && n.version != version + 1
      modifies this`log, this`version, avl`root, avl`count, avl`items, avl`nodes, avl`records, avl`shape
      modifies avl.nodes`parent, avl.nodes`left, avl.nodes`right, avl.nodes`balance, avl.nodes`leader, avl.nodes`version
      modifies nodes`parent, nodes`left, nodes`right, nodes`balance, nodes`leader, nodes`key, nodes`version
      modifies avl.records`next, avl.records`prev, Lists(nodes)`next, Lists(nodes)`prev
      ensures Valid()
      ensures forall n :: n in avl.items ==> n in nodes && n.version == version
      ensures forall j :: 0 <= j < |nodes| ==> (nodes[j] in avl.items <==> LastOfItsKey(avl.comp, keys, j, |keys|))
      ensures forall j :: 0 <= j < |nodes| && nodes[j] in avl.items ==> nodes[j].key == keys[j]
      ensures log == old(log) + reports + farewells && |reports| == |nodes|
      ensures forall j :: 0 <= j < |nodes| ==> reports[j].now == nodes[j]
      ensures Named(old(avl.Rows()), avl.comp, nodes, keys, |nodes|, reports)
      ensures forall r :: r in farewells ==> r.now == null
      ensures Copies(avl.items, x) + Reported(reports + farewells, x) == Copies(old(avl.items), x) + Copies(nodes, x)
    {
      NextGeneration();
      assert nodes[..0] == [];
      ghost var ns, rs := avl.nodes + Elements(nodes), avl.records + Lists(nodes);
      reports := AddAll(nodes, keys, x, ns, rs);
      ProgressEnds(old(avl.items), old(avl.Rows()), old(log), nodes, keys, x, reports);
      farewells := FlushArrived(nodes, keys, old(avl.items), x);
      ReportedJoined(reports, farewells, x);
    }

    /** The vlist_flush that ends a generation. */
    method FlushArrived(ghost nodes: seq<AvlNode>, ghost keys: seq<Key>, ghost was: seq<AvlNode>, ghost x: AvlNode)
      returns (ghost farewells: seq<Report>)
      requires Valid() && !noDelete && version != -1
      requires |nodes| == |keys| && Midway(was, nodes, keys, |nodes|)
      modifies this`log, avl`root, avl`count, avl`items, avl`nodes, avl`records, avl`shape
      modifies avl.nodes`parent, avl.nodes`left, avl.nodes`right, avl.nodes`balance, avl.nodes`leader
      modifies avl.records`next, avl.records`prev
      ensures Valid()
      ensures forall n :: n in avl.items ==> n in nodes && n.version == version
      ensures forall j :: 0 <= j < |nodes| ==> (nodes[j] in avl.items <==> LastOfItsKey(avl.comp, keys, j, |keys|))
      ensures forall j :: 0 <= j < |nodes| && nodes[j] in avl.items ==> nodes[j].key == keys[j]
      ensures log == old(log) + farewells && forall r :: r in farewells ==> r.now == null
      ensures Copies(avl.items, x) + Reported(farewells, x) == Copies(old(avl.items), x)
    {
      farewells := FlushFound(nodes, keys, was, x);
      Flush();
    }

    /** What vlist_flush is going to do at the end of a generation. */
    lemma FlushFound(nodes: seq<AvlNode>, keys: seq<Key>, was: seq<AvlNode>, x: AvlNode) returns (farewells: seq<Report>)
      requires version != -1
      requires |nodes| == |keys| && Midway(was, nodes, keys, |nodes|)
      ensures farewells == Farewells(Stamps(avl.items), |avl.items|, version)
      ensures forall r :: r in farewells ==> r.now == null
      ensures var list := Kept(Stamps(avl.items), |avl.items|, version);
              && (forall n :: n in list ==> n in nodes && n.version == version)
              && (forall j :: 0 <= j < |nodes| ==> (nodes[j] in list <==> LastOfItsKey(avl.comp, keys, j, |keys|)))
              && (forall j :: 0 <= j < |nodes| && nodes[j] in list ==> nodes[j].key == keys[j])
              && Copies(list, x) + Reported(farewells, x) == Copies(avl.items, x)
    {
      var list, rows, s := avl.items, avl.Rows(), Stamps(avl.items);
      assert OpenMidway(0);
      assert nodes[..|nodes|] == nodes && list[..|list|] == list;
      Settles(list, rows, s, avl.comp, nodes, keys, version);
      farewells := Farewells(s, |list|, version);
      ReportsOnly(s, |list|, version);
      FlushConserves(list, s, |list|, version, x);
      forall j | 0 <= j < |nodes| && nodes[j] in list
        ensures nodes[j].key == keys[j]
      {
        var a :| 0 <= a < |list| && list[a] == nodes[j];
        assert rows[a].node == nodes[j];
      }
    }
  }

  /** What a flush leaves of the list in which a generation has arrived. */
  lemma Settles(list: seq<AvlNode>, rows: seq<Row>, s: seq<Stamp>, cmp: Comparison,
                nodes: seq<AvlNode>, keys: seq<Key>, version: int)
    requires |list| == |rows| == |s| && version != -1
    requires forall a :: 0 <= a < |list| ==> rows[a].node == list[a] && s[a].node == list[a]
    requires forall a :: 0 <= a < |list| ==> s[a].version != -1 && (s[a].version == version <==> list[a] in nodes)
    requires |nodes| == |keys| && Arrived(rows, cmp, nodes, keys, |nodes|)
    ensures forall n :: n in Kept(s, |list|, version) ==> n in nodes && n in list
    ensures forall j :: 0 <= j < |nodes| ==>
              (nodes[j] in Kept(s, |list|, version) <==> LastOfItsKey(cmp, keys, j, |keys|))
    ensures forall a, j :: 0 <= a < |rows| && 0 <= j < |nodes| && rows[a].node == nodes[j] ==> rows[a].key == keys[j]
  {
    forall n | n in Kept(s, |list|, version)
      ensures n in nodes && n in list
    {
      KeptMeans(s, |list|, version, n);
      var a :| 0 <= a < |list| && s[a].node == n && Stays(s[a].version, version);
      assert list[a] == n;
    }
    forall j | 0 <= j < |nodes|
      ensures nodes[j] in Kept(s, |list|, version) <==> LastOfItsKey(cmp, keys, j, |keys|)
    {
      KeptMeans(s, |list|, version, nodes[j]);
      assert Present(rows, nodes[j]) <==> LastOfItsKey(cmp, keys, j, |keys|);
      if Present(rows, nodes[j]) {
        var a :| 0 <= a < |rows| && rows[a].node == nodes[j];
        assert s[a].node == nodes[j] && Stays(s[a].version, version);
      }
    }
  }

  lemma {:induction false} ReportsOnly(s: seq<Stamp>, i: nat, current: int)
    requires i <= |s|
    ensures forall r :: r in Farewells(s, i, current) ==> r.now == null
  {
    if i > 0 {
      ReportsOnly(s, i - 1, current);
    }
  }

  ghost function Lists(nodes: seq<AvlNode>): set<ListHead<AvlNode?>> {
    set n | n in nodes :: n.list
  }

  /** The reports of the first `i` calls of vlist_add, and how often node `x` has come in and is
      still there. */
  ghost predicate Told(reports: seq<Report>, nodes: seq<AvlNode>, i: nat, x: AvlNode, copies: nat, copies': nat) {
    && i <= |nodes| && |reports| == i
    && (forall j :: 0 <= j < i ==> reports[j].now == nodes[j])
    && copies' + Reported(reports, x) == copies + Copies(nodes[..i], x)
  }

  lemma OneMoreTold(reports: seq<Report>, nodes: seq<AvlNode>, i: nat, x: AvlNode, copies: nat, c: nat, report: Report, c': nat)
    requires Told(reports, nodes, i, x, copies, c) && i < |nodes| && report.now == nodes[i]
    requires c' + Reported([report], x) == c + if nodes[i] == x then 1 else 0
    ensures Told(reports + [report], nodes, i + 1, x, copies, c')
  {
    ReportedJoined(reports, [report], x);
    CopiesTaken(nodes, i, x);
  }

  lemma AllTold(reports: seq<Report>, nodes: seq<AvlNode>, x: AvlNode, copies: nat, copies': nat)
    requires Told(reports, nodes, |nodes|, x, copies, copies')
    ensures copies' + Reported(reports, x) == copies + Copies(nodes, x)
    ensures forall j :: 0 <= j < |nodes| ==> reports[j].now == nodes[j]
  {
    assert nodes[..|nodes|] == nodes;
  }

  lemma CopiesTaken(nodes: seq<AvlNode>, i: nat, x: AvlNode)
    requires i < |nodes|
    ensures Copies(nodes[..i + 1], x) == Copies(nodes[..i], x) + if nodes[i] == x then 1 else 0
  {
    assert nodes[..i + 1][..i] == nodes[..i];
  }

  lemma ItemsPut(items: seq<AvlNode>, p: nat, y: AvlNode)
    ensures p <= |items| ==> forall x :: x in InsertAt(items, p, y) ==> x in items || x == y
    ensures p < |items| ==> forall x :: x in items[p := y] ==> x in items || x == y
  {
  }

  // -------- what stays and what goes --------

  datatype Stamp = Stamp(node: AvlNode, version: int)

  ghost function Stamps(items: seq<AvlNode>): (s: seq<Stamp>)
    reads items`version
    ensures |s| == |items|
    ensures forall i {:trigger s[i]} :: 0 <= i < |items| ==> s[i] == Stamp(items[i], items[i].version)
  {
    var stamp := map x | x in items :: Stamp(x, x.version);
    seq(|items|, i requires 0 <= i < |items| => stamp[items[i]])
  }

  predicate Stays(v: int, current: int) {
    (v == current || v == -1) && current != -1
  }

  /** The nodes among the first `i` that stay. */
  ghost function Kept(s: seq<Stamp>, i: nat, current: int): seq<AvlNode>
    requires i <= |s|
  {
    if i == 0 then []
    else Kept(s, i - 1, current) + if Stays(s[i - 1].version, current) then [s[i - 1].node] else []
  }

  /** The reports about the nodes among the first `i` that leave. */
  ghost function Farewells(s: seq<Stamp>, i: nat, current: int): seq<Report>
    requires i <= |s|
  {
    if i == 0 then []
    else Farewells(s, i - 1, current) + if Stays(s[i - 1].version, current) then [] else [Report(null, s[i - 1].node)]
  }

  /** After `i` rounds of the loop of vlist_flush: the list without the nodes that left, with the
      next round at its item number `k`, and what was reported. */
  ghost predicate Way(list: seq<AvlNode>, log: seq<Report>, was: seq<AvlNode>, s: seq<Stamp>, i: nat, noDelete: bool,
                      current: int, before: seq<Report>, k: nat) {
    i <= |was| == |s| && SealedWay(list, log, was, s, i, noDelete, current, before, k) == true
  }

  ghost predicate SealedWay(list: seq<AvlNode>, log: seq<Report>, was: seq<AvlNode>, s: seq<Stamp>, i: nat,
                            noDelete: bool, current: int, before: seq<Report>, k: nat)
    requires i <= |was| == |s|
  {
    forall u: nat {:trigger OpenWay(u)} ::
      && (forall j :: 0 <= j < |was| ==> s[j].node == was[j])
      && list == (if noDelete then was else Kept(s, i, current) + was[i..])
      && k == (if noDelete then i else |Kept(s, i, current)|)
      && log == before + Farewells(s, i, current)
  }

  ghost predicate OpenWay(u: nat) {
    true
  }

  lemma WayBegins(was: seq<AvlNode>, s: seq<Stamp>, noDelete: bool, current: int, before: seq<Report>)
    requires |was| == |s| && forall j :: 0 <= j < |was| ==> s[j].node == was[j]
    ensures Way(was, before, was, s, 0, noDelete, current, before, 0)
  {
    assert [] + was[0..] == was && before + [] == before;
  }

  /** The next round meets the next node of the list as it was. */
  lemma WayMeets(list: seq<AvlNode>, log: seq<Report>, was: seq<AvlNode>, s: seq<Stamp>, i: nat, noDelete: bool,
                 current: int, before: seq<Report>, k: nat)
    requires Way(list, log, was, s, i, noDelete, current, before, k)
    ensures k < |list| <==> i < |was|
    ensures i < |was| ==> list[k] == was[i] == s[i].node
  {
    assert OpenWay(0);
  }

  lemma WayOn(list: seq<AvlNode>, log: seq<Report>, was: seq<AvlNode>, s: seq<Stamp>, i: nat, noDelete: bool,
              current: int, before: seq<Report>, k: nat)
    requires Way(list, log, was, s, i, noDelete, current, before, k) && i < |was|
    ensures k < |list| && s[i].node == list[k]
    ensures var stays := Stays(s[i].version, current);
            Way(if noDelete || stays then list else RemoveAt(list, k),
                log + (if stays then [] else [Report(null, s[i].node)]), was, s, i + 1, noDelete, current, before,
                if noDelete || stays then k + 1 else k)
  {
    assert OpenWay(0);
    OneMoreKept(Kept(s, i, current), was, i);
    OneMoreReport(before, s, i, current);
  }

  lemma WayEnds(list: seq<AvlNode>, log: seq<Report>, was: seq<AvlNode>, s: seq<Stamp>, i: nat, noDelete: bool,
                current: int, before: seq<Report>, k: nat)
    requires Way(list, log, was, s, i, noDelete, current, before, k) && k >= |list|
    ensures i == |was| && log == before + Farewells(s, |was|, current)
    ensures list == if noDelete then was else Kept(s, |was|, current)
  {
    assert OpenWay(0);
  }

  lemma OneMoreKept(kept: seq<AvlNode>, was: seq<AvlNode>, i: nat)
    requires i < |was|
    ensures RemoveAt(kept + was[i..], |kept|) == (kept + []) + was[i + 1..]
    ensures kept + was[i..] == (kept + [was[i]]) + was[i + 1..]
  {
  }

  lemma OneMoreReport(log: seq<Report>, s: seq<Stamp>, i: nat, current: int)
    requires i < |s|
    ensures log + Farewells(s, i + 1, current) ==
              (log + Farewells(s, i, current)) + if Stays(s[i].version, current) then [] else [Report(null, s[i].node)]
  {
  }

  lemma {:induction false} KeptMeans(s: seq<Stamp>, i: nat, current: int, x: AvlNode)
    requires i <= |s|
    ensures x in Kept(s, i, current) <==> exists a :: 0 <= a < i && s[a].node == x && Stays(s[a].version, current)
  {
    if i > 0 {
      KeptMeans(s, i - 1, current, x);
    }
  }

  /** How often a node is in a list. */
  ghost function Copies(s: seq<AvlNode>, x: AvlNode): nat {
    if s == [] then 0 else Copies(s[..|s| - 1], x) + if s[|s| - 1] == x then 1 else 0
  }

  /** How often a node is reported as replaced or gone. */
  ghost function Reported(log: seq<Report>, x: AvlNode): nat {
    if log == [] then 0 else Reported(log[..|log| - 1], x) + if log[|log| - 1].was == x then 1 else 0
  }

  lemma {:induction false} CopiesJoined(a: seq<AvlNode>, b: seq<AvlNode>, x: AvlNode)
    ensures Copies(a + b, x) == Copies(a, x) + Copies(b, x)
  {
    if b == [] {
      assert a + b == a;
    } else {
      assert (a + b)[..|a + b| - 1] == a + b[..|b| - 1];
      CopiesJoined(a, b[..|b| - 1], x);
    }
  }

  lemma {:induction false} ReportedJoined(a: seq<Report>, b: seq<Report>, x: AvlNode)
    ensures Reported(a + b, x) == Reported(a, x) + Reported(b, x)
  {
    if b == [] {
      assert a + b == a;
    } else {
      assert (a + b)[..|a + b| - 1] == a + b[..|b| - 1];
      ReportedJoined(a, b[..|b| - 1], x);
    }
  }

  lemma OneCopy(y: AvlNode, r: Report, x: AvlNode)
    ensures Copies([y], x) == if y == x then 1 else 0
    ensures Reported([r], x) == if r.was == x then 1 else 0
  {
    assert [y][..0] == [] && [r][..0] == [];
  }

  /** A flush loses no node: it stays or is reported. */
  lemma {:induction false} FlushConserves(items: seq<AvlNode>, s: seq<Stamp>, i: nat, current: int, x: AvlNode)
    requires i <= |s| == |items|
    requires forall j :: 0 <= j < |s| ==> s[j].node == items[j]
    ensures Copies(Kept(s, i, current), x) + Reported(Farewells(s, i, current), x) == Copies(items[..i], x)
  {
    if i > 0 {
      FlushConserves(items, s, i - 1, current, x);
      var y, kept, f := items[i - 1], Kept(s, i - 1, current), Farewells(s, i - 1, current);
      assert items[..i][..i - 1] == items[..i - 1];
      if Stays(s[i - 1].version, current) {
        CopiesJoined(kept, [y], x);
        assert f + [] == f;
      } else {
        ReportedJoined(f, [Report(null, y)], x);
        assert kept + [] == kept;
      }
      OneCopy(y, Report(null, y), x);
    }
  }

  /** Putting a node in loses none: the one that gives way is reported. */
  lemma PutConserves(items: seq<AvlNode>, p: nat, y: AvlNode, x: AvlNode)
    ensures p <= |items| ==> Copies(InsertAt(items, p, y), x) == Copies(items, x) + if y == x then 1 else 0
    ensures p < |items| ==>
              Copies(items[p := y], x) + (if items[p] == x then 1 else 0) == Copies(items, x) + if y == x then 1 else 0
  {
    OneCopy(y, Report(null, null), x);
    if p <= |items| {
      assert items == items[..p] + items[p..];
      CopiesJoined(items[..p], items[p..], x);
      CopiesJoined(items[..p] + [y], items[p..], x);
      CopiesJoined(items[..p], [y], x);
    }
    if p < |items| {
      assert items[p..] == [items[p]] + items[p + 1..];
      assert items[p := y] == items[..p] + [y] + items[p + 1..];
      CopiesJoined([items[p]], items[p + 1..], x);
      CopiesJoined(items[..p] + [y], items[p + 1..], x);
      OneCopy(items[p], Report(null, null), x);
    }
  }

  // -------- one generation --------

  /** No key after number `j` and before number `n` is equal to key number `j`. */
  ghost predicate LastOfItsKey(cmp: Comparison, keys: seq<Key>, j: nat, n: nat)
    requires j < n <= |keys|
  {
    forall m :: j < m < n ==> cmp(keys[j], keys[m]) != 0
  }

  ghost predicate Present(rows: seq<Row>, x: AvlNode) {
    exists a :: 0 <= a < |rows| && rows[a].node == x
  }

  /** Of the first `i` nodes just those are in the list that were the last with their key. */
  ghost predicate Arrived(rows: seq<Row>, cmp: Comparison, nodes: seq<AvlNode>, keys: seq<Key>, i: nat)
    requires i <= |nodes| == |keys|
  {
    && (forall j {:trigger nodes[j]} :: 0 <= j < i ==> (Present(rows, nodes[j]) <==> LastOfItsKey(cmp, keys, j, i)))
    && (forall a, j :: 0 <= a < |rows| && 0 <= j < i && rows[a].node == nodes[j] ==> rows[a].key == keys[j])
  }

  /** The rows after a node with a new key is inserted or one with a known key replaced. */
  ghost function RowsPut(rows: seq<Row>, cmp: Comparison, row: Row, p: nat): seq<Row>
    requires p <= |rows|
  {
    if p < |rows| && cmp(row.key, rows[p].key) == 0 then rows[p := row] else InsertAt(rows, p, row)
  }

  lemma OneMoreArrived(rows: seq<Row>, cmp: Comparison, nodes: seq<AvlNode>, keys: seq<Key>, i: nat, p: nat)
    requires Preorder(cmp) && Ordered(rows, cmp) && AllLead(rows) && DistinctRows(rows)
    requires i < |nodes| == |keys| && Distinct(nodes) && !Present(rows, nodes[i])
    requires LowerSlot(rows, cmp, keys[i], p)
    requires Arrived(rows, cmp, nodes, keys, i)
    ensures Arrived(RowsPut(rows, cmp, Row(nodes[i], keys[i], true), p), cmp, nodes, keys, i + 1)
  {
    var row := Row(nodes[i], keys[i], true);
    var r := RowsPut(rows, cmp, row, p);
    NoOther(rows, cmp, keys[i], p);
    var there := p < |rows| && cmp(keys[i], rows[p].key) == 0;
    assert r[p] == row;
    forall a, j | 0 <= a < |r| && 0 <= j < i + 1 && r[a].node == nodes[j]
      ensures r[a].key == keys[j]
    {
      if a != p {
        var b := if there || a < p then a else a - 1;
        assert r[a] == rows[b];
        assert j != i;
      }
    }
    forall j | 0 <= j < i + 1
      ensures Present(r, nodes[j]) <==> LastOfItsKey(cmp, keys, j, i + 1)
    {
      if j < i {
        StillPresent(rows, cmp, nodes, keys, i, p, j);
      }
    }
  }

  lemma StillPresent(rows: seq<Row>, cmp: Comparison, nodes: seq<AvlNode>, keys: seq<Key>, i: nat, p: nat, j: nat)
    requires Preorder(cmp) && Ordered(rows, cmp) && AllLead(rows) && DistinctRows(rows)
    requires i < |nodes| == |keys| && Distinct(nodes) && j < i
    requires LowerSlot(rows, cmp, keys[i], p)
    requires Arrived(rows, cmp, nodes, keys, i)
    ensures Present(RowsPut(rows, cmp, Row(nodes[i], keys[i], true), p), nodes[j]) <==>
              LastOfItsKey(cmp, keys, j, i + 1)
  {
    var row := Row(nodes[i], keys[i], true);
    var r := RowsPut(rows, cmp, row, p);
    NoOther(rows, cmp, keys[i], p);
    var there := p < |rows| && cmp(keys[i], rows[p].key) == 0;
    assert LastOfItsKey(cmp, keys, j, i + 1) <==> LastOfItsKey(cmp, keys, j, i) && cmp(keys[j], keys[i]) != 0;
    assert Present(rows, nodes[j]) <==> LastOfItsKey(cmp, keys, j, i);
    if Present(rows, nodes[j]) {
      var a :| 0 <= a < |rows| && rows[a].node == nodes[j];
      assert rows[a].key == keys[j];
      if !(there && a == p) {
        assert r[if there || a < p then a else a + 1] == rows[a];
      } else {
        forall b | 0 <= b < |r|
          ensures r[b].node != nodes[j]
        {
          assert b != p ==> r[b] == rows[b];
        }
      }
    } else {
      forall b | 0 <= b < |r|
        ensures r[b].node != nodes[j]
      {
        assert b != p ==> r[b] == rows[if there || b < p then b else b - 1];
      }
    }
  }

  // -------- which node each report names as replaced --------

  ghost predicate SameKey(cmp: Comparison, a: Key, b: Key) {
    cmp(a, b) == 0
  }

  lemma SameKeys(cmp: Comparison, a: Key, b: Key, c: Key)
    requires Preorder(cmp)
    ensures SameKey(cmp, a, b) <==> SameKey(cmp, b, a)
    ensures SameKey(cmp, a, b) && SameKey(cmp, b, c) ==> SameKey(cmp, a, c)
  {
    Between(cmp, a, b, c);
    Between(cmp, c, b, a);
  }

  /** No node was added with this key before number `i`. */
  ghost predicate NotAdded(cmp: Comparison, keys: seq<Key>, i: nat, key: Key)
    requires i <= |keys|
  {
    forall k :: 0 <= k < i ==> !SameKey(cmp, keys[k], key)
  }

  /** Number `k` was the last one before number `i` with this key. */
  ghost predicate LastAdded(cmp: Comparison, keys: seq<Key>, i: nat, k: nat, key: Key)
    requires i <= |keys|
  {
    k < i && SameKey(cmp, keys[k], key) && forall m :: k < m < i ==> !SameKey(cmp, keys[m], key)
  }

  /** What the call number `j` of vlist_add has to name as replaced, when the list began with the
      rows `first`: the node added last with an equal key, or else the one that the list began with,
      or else none. */
  ghost predicate Names(first: seq<Row>, cmp: Comparison, nodes: seq<AvlNode>, keys: seq<Key>, j: nat, w: AvlNode?)
    requires j < |nodes| == |keys|
  {
    || (exists k :: 0 <= k < j && LastAdded(cmp, keys, j, k, keys[j]) && w == nodes[k])
    || (NotAdded(cmp, keys, j, keys[j])
        && exists a :: 0 <= a < |first| && SameKey(cmp, keys[j], first[a].key) && w == first[a].node)
    || (NotAdded(cmp, keys, j, keys[j])
        && (forall a :: 0 <= a < |first| ==> !SameKey(cmp, keys[j], first[a].key)) && w == null)
  }

  /** So every call has, up to number `i`. */
  ghost predicate Named(first: seq<Row>, cmp: Comparison, nodes: seq<AvlNode>, keys: seq<Key>, i: nat, reports: seq<Report>)
    requires i <= |nodes| == |keys|
  {
    |reports| == i && SealedNamed(first, cmp, nodes, keys, i, reports) == true
  }

  ghost predicate SealedNamed(first: seq<Row>, cmp: Comparison, nodes: seq<AvlNode>, keys: seq<Key>, i: nat, reports: seq<Report>)
    requires i <= |nodes| == |keys| && |reports| == i
  {
    forall j {:trigger OpenNamed(j)} :: 0 <= j < i ==> Names(first, cmp, nodes, keys, j, reports[j].was)
  }

  ghost predicate OpenNamed(j: int) {
    true
  }

  /** Report number `j` names what it has to. */
  lemma NamedAt(first: seq<Row>, cmp: Comparison, nodes: seq<AvlNode>, keys: seq<Key>, i: nat, reports: seq<Report>, j: nat)
    requires j < i <= |nodes| == |keys| && Named(first, cmp, nodes, keys, i, reports)
    ensures Names(first, cmp, nodes, keys, j, reports[j].was)
  {
    assert OpenNamed(j);
  }

  lemma OneMoreNamed(first: seq<Row>, cmp: Comparison, nodes: seq<AvlNode>, keys: seq<Key>, i: nat, reports: seq<Report>, r: Report)
    requires i < |nodes| == |keys| && Named(first, cmp, nodes, keys, i, reports) && Names(first, cmp, nodes, keys, i, r.was)
    ensures Named(first, cmp, nodes, keys, i + 1, reports + [r])
  {
    var more := reports + [r];
    forall j | 0 <= j < i + 1
      ensures Names(first, cmp, nodes, keys, j, more[j].was)
    {
      if j < i {
        NamedAt(first, cmp, nodes, keys, i, reports, j);
      }
    }
  }

  /** The row of the node added last with its key, or one that the list began with and whose key was
      not added. */
  ghost predicate Known(first: seq<Row>, cmp: Comparison, nodes: seq<AvlNode>, keys: seq<Key>, i: nat, row: Row)
    requires i <= |nodes| == |keys|
  {
    || (exists k :: 0 <= k < i && LastAdded(cmp, keys, i, k, row.key) && row.node == nodes[k])
    || (row in first && NotAdded(cmp, keys, i, row.key))
  }

  /** The rows after `i` calls.  Sealed as in `BlobFrames.At`. */
  ghost predicate Mixed(first: seq<Row>, rows: seq<Row>, cmp: Comparison, nodes: seq<AvlNode>, keys: seq<Key>, i: nat)
    requires i <= |nodes| == |keys|
  {
    SealedMixed(first, rows, cmp, nodes, keys, i) == true
  }

  ghost predicate SealedMixed(first: seq<Row>, rows: seq<Row>, cmp: Comparison, nodes: seq<AvlNode>, keys: seq<Key>, i: nat)
    requires i <= |nodes| == |keys|
  {
    forall u: nat {:trigger OpenMixed(u)} ::
      && (forall b :: 0 <= b < |rows| ==> Known(first, cmp, nodes, keys, i, rows[b]))
      && (forall k {:trigger keys[k]} :: 0 <= k < i ==> HasKey(rows, cmp, keys[k]))
      && (forall a :: 0 <= a < |first| ==> HasKey(rows, cmp, first[a].key))
  }

  ghost predicate OpenMixed(u: nat) {
    true
  }

  ghost predicate HasKey(rows: seq<Row>, cmp: Comparison, key: Key) {
    exists b :: 0 <= b < |rows| && SameKey(cmp, rows[b].key, key)
  }

  lemma MixedAtFirst(rows: seq<Row>, cmp: Comparison, nodes: seq<AvlNode>, keys: seq<Key>)
    requires |nodes| == |keys| && Preorder(cmp)
    ensures Mixed(rows, rows, cmp, nodes, keys, 0)
  {
    forall a | 0 <= a < |rows|
      ensures HasKey(rows, cmp, rows[a].key) && Known(rows, cmp, nodes, keys, 0, rows[a])
    {
      assert Transitive(cmp, rows[a].key, rows[a].key, rows[a].key);
      assert SameKey(cmp, rows[a].key, rows[a].key);
    }
  }

  /** A key of a row stays when a node is put in. */
  lemma KeyStays(rows: seq<Row>, cmp: Comparison, row: Row, p: nat, key: Key)
    requires Preorder(cmp) && p <= |rows| && HasKey(rows, cmp, key)
    ensures HasKey(RowsPut(rows, cmp, row, p), cmp, key)
  {
    var b :| 0 <= b < |rows| && SameKey(cmp, rows[b].key, key);
    var r := RowsPut(rows, cmp, row, p);
    if p < |rows| && cmp(row.key, rows[p].key) == 0 {
      if b == p {
        SameKeys(cmp, row.key, rows[p].key, key);
        assert r[p] == row;
      } else {
        assert r[b] == rows[b];
      }
    } else {
      assert r[if b < p then b else b + 1] == rows[b];
    }
  }

  lemma KnownStays(first: seq<Row>, cmp: Comparison, nodes: seq<AvlNode>, keys: seq<Key>, i: nat, row: Row)
    requires i < |nodes| == |keys| && Known(first, cmp, nodes, keys, i, row) && !SameKey(cmp, keys[i], row.key)
    ensures Known(first, cmp, nodes, keys, i + 1, row)
  {
    if k :| 0 <= k < i && LastAdded(cmp, keys, i, k, row.key) && row.node == nodes[k] {
      assert LastAdded(cmp, keys, i + 1, k, row.key);
    }
  }

  lemma MixedOn(first: seq<Row>, rows: seq<Row>, cmp: Comparison, nodes: seq<AvlNode>, keys: seq<Key>, i: nat, p: nat)
    requires Preorder(cmp) && Ordered(rows, cmp) && AllLead(rows)
    requires i < |nodes| == |keys| && LowerSlot(rows, cmp, keys[i], p) && Mixed(first, rows, cmp, nodes, keys, i)
    ensures Mixed(first, RowsPut(rows, cmp, Row(nodes[i], keys[i], true), p), cmp, nodes, keys, i + 1)
  {
    var row := Row(nodes[i], keys[i], true);
    var r := RowsPut(rows, cmp, row, p);
    forall b | 0 <= b < |r|
      ensures Known(first, cmp, nodes, keys, i + 1, r[b])
    {
      RowKnown(first, rows, cmp, nodes, keys, i, p, b);
    }
    forall k {:trigger keys[k]} | 0 <= k < i + 1
      ensures HasKey(r, cmp, keys[k])
    {
      if k < i {
        MixedAt(first, rows, cmp, nodes, keys, i, k, 0, 0);
        KeyStays(rows, cmp, row, p, keys[k]);
      } else {
        KeyComes(rows, cmp, row, p);
      }
    }
    forall a | 0 <= a < |first|
      ensures HasKey(r, cmp, first[a].key)
    {
      MixedAt(first, rows, cmp, nodes, keys, i, 0, a, 0);
      KeyStays(rows, cmp, row, p, first[a].key);
    }
  }

  /** What the parts of the sealed predicate say about single keys and rows. */
  lemma MixedAt(first: seq<Row>, rows: seq<Row>, cmp: Comparison, nodes: seq<AvlNode>, keys: seq<Key>, i: nat,
                k: nat, a: nat, b: nat)
    requires i <= |nodes| == |keys| && Mixed(first, rows, cmp, nodes, keys, i)
    ensures k < i ==> HasKey(rows, cmp, keys[k])
    ensures a < |first| ==> HasKey(rows, cmp, first[a].key)
    ensures b < |rows| ==> Known(first, cmp, nodes, keys, i, rows[b])
  {
    assert OpenMixed(0);
  }

  lemma KeyComes(rows: seq<Row>, cmp: Comparison, row: Row, p: nat)
    requires Preorder(cmp) && p <= |rows|
    ensures HasKey(RowsPut(rows, cmp, row, p), cmp, row.key)
  {
    var r := RowsPut(rows, cmp, row, p);
    assert r[p] == row;
    assert Transitive(cmp, row.key, row.key, row.key);
    assert SameKey(cmp, r[p].key, row.key);
  }

  lemma RowKnown(first: seq<Row>, rows: seq<Row>, cmp: Comparison, nodes: seq<AvlNode>, keys: seq<Key>, i: nat, p: nat, b: nat)
    requires Preorder(cmp) && Ordered(rows, cmp) && AllLead(rows)
    requires i < |nodes| == |keys| && LowerSlot(rows, cmp, keys[i], p) && Mixed(first, rows, cmp, nodes, keys, i)
    requires b < |RowsPut(rows, cmp, Row(nodes[i], keys[i], true), p)|
    ensures Known(first, cmp, nodes, keys, i + 1, RowsPut(rows, cmp, Row(nodes[i], keys[i], true), p)[b])
  {
    var row := Row(nodes[i], keys[i], true);
    var r := RowsPut(rows, cmp, row, p);
    var there := p < |rows| && cmp(keys[i], rows[p].key) == 0;
    if b == p {
      assert r[p] == row;
      assert Transitive(cmp, keys[i], keys[i], keys[i]);
      assert SameKey(cmp, keys[i], keys[i]);
      assert LastAdded(cmp, keys, i + 1, i, keys[i]);
    } else {
      var a := if there || b < p then b else b - 1;
      NoOther(rows, cmp, keys[i], p);
      assert r[b] == rows[a] && !SameKey(cmp, keys[i], rows[a].key);
      MixedAt(first, rows, cmp, nodes, keys, i, 0, 0, a);
      KnownStays(first, cmp, nodes, keys, i, rows[a]);
    }
  }

  lemma NamesFound(first: seq<Row>, rows: seq<Row>, cmp: Comparison, nodes: seq<AvlNode>, keys: seq<Key>, i: nat, p: nat)
    requires Preorder(cmp) && Ordered(rows, cmp) && AllLead(rows)
    requires i < |nodes| == |keys| && LowerSlot(rows, cmp, keys[i], p) && Mixed(first, rows, cmp, nodes, keys, i)
    ensures Names(first, cmp, nodes, keys, i,
              if p < |rows| && cmp(keys[i], rows[p].key) == 0 then rows[p].node else null)
  {
    assert OpenMixed(0);
    if p < |rows| && cmp(keys[i], rows[p].key) == 0 {
      NamesThere(first, rows[p], cmp, nodes, keys, i);
    } else {
      NoOther(rows, cmp, keys[i], p);
      forall key | HasKey(rows, cmp, key)
        ensures !SameKey(cmp, keys[i], key) && !SameKey(cmp, key, keys[i])
      {
        var b :| 0 <= b < |rows| && SameKey(cmp, rows[b].key, key);
        SameKeys(cmp, keys[i], key, rows[b].key);
        SameKeys(cmp, rows[b].key, key, keys[i]);
        assert !SameKey(cmp, keys[i], rows[b].key);
      }
    }
  }

  lemma NamesThere(first: seq<Row>, row: Row, cmp: Comparison, nodes: seq<AvlNode>, keys: seq<Key>, i: nat)
    requires Preorder(cmp) && i < |nodes| == |keys|
    requires SameKey(cmp, keys[i], row.key) && Known(first, cmp, nodes, keys, i, row)
    ensures Names(first, cmp, nodes, keys, i, row.node)
  {
    forall k | 0 <= k < i
      ensures SameKey(cmp, keys[k], row.key) <==> SameKey(cmp, keys[k], keys[i])
    {
      SameKeys(cmp, keys[k], row.key, keys[i]);
      SameKeys(cmp, keys[k], keys[i], row.key);
      SameKeys(cmp, keys[i], row.key, keys[k]);
    }
    if k :| 0 <= k < i && LastAdded(cmp, keys, i, k, row.key) && row.node == nodes[k] {
      assert LastAdded(cmp, keys, i, k, keys[i]);
    } else {
      var a :| 0 <= a < |first| && first[a] == row;
    }
  }

  lemma {:induction false} NothingStays(s: seq<Stamp>, i: nat)
    requires i <= |s|
    ensures Kept(s, i, -1) == []
    ensures Farewells(s, i, -1) == seq(i, j requires 0 <= j < i => Report(null, s[j].node))
  {
    if i > 0 {
      NothingStays(s, i - 1);
    }
  }

  /** A report for every node of a list, in its order. */
  ghost function AllGone(items: seq<AvlNode>): seq<Report> {
    seq(|items|, i requires 0 <= i < |items| => Report(null, items[i]))
  }
}
