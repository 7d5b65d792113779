/** The list threaded through all nodes of a tree, in key order, as a value: runs of equal
    keys, each opened by a leader. */
module AvlOrder {
  import opened Sequences
  import opened GhostTree
  import opened AvlLinks

  datatype Row = Row(node: AvlNode, key: Key, leader: bool)

  type Comparison = (Key, Key) -> int

  /** What the header file asks of a comparison function. */
  ghost predicate Preorder(cmp: Comparison) {
    && (forall a, b :: cmp(a, b) < 0 <==> cmp(b, a) > 0)
    && (forall a, b, c :: Transitive(cmp, a, b, c))
  }

  ghost predicate Transitive(cmp: Comparison, a: Key, b: Key, c: Key) {
    cmp(a, b) <= 0 && cmp(b, c) <= 0 ==> cmp(a, c) <= 0
  }

  lemma Between(cmp: Comparison, a: Key, b: Key, c: Key)
    requires Preorder(cmp)
    ensures cmp(a, b) < 0 && cmp(b, c) <= 0 ==> cmp(a, c) < 0
    ensures cmp(a, b) <= 0 && cmp(b, c) < 0 ==> cmp(a, c) < 0
    ensures cmp(a, b) <= 0 && cmp(b, c) <= 0 ==> cmp(a, c) <= 0
  {
    assert Transitive(cmp, a, b, c) && Transitive(cmp, c, a, b) && Transitive(cmp, b, c, a);
  }

  /** Keys ascend, and a row is a leader just when its key is new. */
  ghost predicate Ordered(rows: seq<Row>, cmp: Comparison) {
    && (forall i, j :: 0 <= i < j < |rows| ==> cmp(rows[i].key, rows[j].key) <= 0)
    && (forall j {:trigger IsNew(rows, cmp, j)} :: 0 <= j < |rows| ==> (rows[j].leader <==> IsNew(rows, cmp, j)))
  }

  ghost predicate IsNew(rows: seq<Row>, cmp: Comparison, j: nat)
    requires j < |rows|
  {
    j == 0 || cmp(rows[j - 1].key, rows[j].key) < 0
  }

  ghost predicate DistinctRows(rows: seq<Row>) {
    forall i, j :: 0 <= i < j < |rows| ==> rows[i].node != rows[j].node
  }

  ghost function Leaders(rows: seq<Row>): seq<AvlNode> {
    if rows == [] then []
    else (if rows[0].leader then [rows[0].node] else []) + Leaders(rows[1..])
  }

  lemma {:induction false} LeadersConcat(a: seq<Row>, b: seq<Row>)
    ensures Leaders(a + b) == Leaders(a) + Leaders(b)
  {
    if a == [] {
      assert a + b == b;
    } else {
      assert (a + b)[1..] == a[1..] + b;
      LeadersConcat(a[1..], b);
    }
  }

  lemma {:induction false} LeadersHold(rows: seq<Row>)
    ensures forall i :: 0 <= i < |rows| && rows[i].leader ==> rows[i].node in Leaders(rows)
    ensures forall x :: x in Leaders(rows) ==> exists i :: 0 <= i < |rows| && rows[i].leader && rows[i].node == x
  {
    if rows != [] {
      LeadersHold(rows[1..]);
      forall x | x in Leaders(rows)
        ensures exists i :: 0 <= i < |rows| && rows[i].leader && rows[i].node == x
      {
        if x in Leaders(rows[1..]) {
          var i :| 0 <= i < |rows[1..]| && rows[1..][i].leader && rows[1..][i].node == x;
          assert rows[i + 1].leader && rows[i + 1].node == x;
        } else {
          assert rows[0].leader && rows[0].node == x;
        }
      }
      forall i | 0 <= i < |rows| && rows[i].leader
        ensures rows[i].node in Leaders(rows)
      {
        if i > 0 {
          assert rows[i] == rows[1..][i - 1];
        }
      }
    }
  }

  lemma LeadersCons(x: Row, b: seq<Row>)
    ensures Leaders([x] + b) == (if x.leader then [x.node] else []) + Leaders(b)
  {
    assert ([x] + b)[1..] == b;
  }

  lemma LeadersAround(rows: seq<Row>, k: nat)
    requires k < |rows|
    ensures Leaders(rows) ==
              Leaders(rows[..k]) + ((if rows[k].leader then [rows[k].node] else []) + Leaders(rows[k + 1..]))
  {
    var a, x, b := rows[..k], rows[k], rows[k + 1..];
    assert rows == a + ([x] + b);
    LeadersConcat(a, [x] + b);
    LeadersCons(x, b);
  }

  /** The leader at row `k` splits the leaders in one way only. */
  lemma LeadersSplit(rows: seq<Row>, k: nat, a: seq<AvlNode>, b: seq<AvlNode>)
    requires k < |rows| && rows[k].leader && DistinctRows(rows)
    requires Leaders(rows) == a + [rows[k].node] + b
    ensures Leaders(rows[..k]) == a
    ensures Leaders(rows[k + 1..]) == b
  {
    var x, p, q := rows[k].node, Leaders(rows[..k]), Leaders(rows[k + 1..]);
    LeadersAround(rows, k);
    assert x !in p by {
      LeadersHold(rows[..k]);
    }
    assert x !in q by {
      LeadersHold(rows[k + 1..]);
    }
    assert p + ([x] + q) == p + [x] + q;
    SplitOnceBy(p, x, q, a, b);
  }

  /** Every row belongs to a leader at or before it. */
  lemma {:induction false} LeaderOf(rows: seq<Row>, cmp: Comparison, i: nat) returns (h: nat)
    requires Preorder(cmp) && Ordered(rows, cmp) && i < |rows|
    ensures h <= i && rows[h].leader && cmp(rows[h].key, rows[i].key) == 0
    decreases i
  {
    assert cmp(rows[i].key, rows[i].key) == 0;
    assert rows[i].leader <==> IsNew(rows, cmp, i);
    if rows[i].leader {
      h := i;
    } else {
      h := LeaderOf(rows, cmp, i - 1);
      assert cmp(rows[i - 1].key, rows[i].key) == 0;
      Between(cmp, rows[h].key, rows[i - 1].key, rows[i].key);
      Between(cmp, rows[i].key, rows[i - 1].key, rows[h].key);
    }
  }

  /** Leaders before a leader have smaller keys, those after it larger ones. */
  lemma LeadersAscend(rows: seq<Row>, cmp: Comparison, k: nat, i: nat)
    requires Preorder(cmp) && Ordered(rows, cmp) && k < |rows| && i < |rows|
    ensures rows[k].leader && i < k ==> cmp(rows[i].key, rows[k].key) < 0
    ensures rows[i].leader && k < i ==> cmp(rows[k].key, rows[i].key) < 0
  {
    assert rows[k].leader <==> IsNew(rows, cmp, k);
    assert rows[i].leader <==> IsNew(rows, cmp, i);
    if i < k {
      Between(cmp, rows[i].key, rows[k - 1].key, rows[k].key);
      assert i < k - 1 ==> cmp(rows[i].key, rows[k - 1].key) <= 0;
    } else if k < i {
      Between(cmp, rows[k].key, rows[i - 1].key, rows[i].key);
      assert k < i - 1 ==> cmp(rows[k].key, rows[i - 1].key) <= 0;
    }
  }

  // -------- insertion --------

  /** `p` is the end of the rows with keys up to `key`. */
  ghost predicate Slot(rows: seq<Row>, cmp: Comparison, key: Key, p: nat) {
    && p <= |rows|
    && (forall i :: 0 <= i < p ==> cmp(key, rows[i].key) >= 0)
    && (forall i :: p <= i < |rows| ==> cmp(key, rows[i].key) < 0)
  }

  /** `p` is the end of the rows with keys below `key`. */
  ghost predicate LowerSlot(rows: seq<Row>, cmp: Comparison, key: Key, p: nat) {
    && p <= |rows|
    && (forall i :: 0 <= i < p ==> cmp(key, rows[i].key) > 0)
    && (forall i :: p <= i < |rows| ==> cmp(key, rows[i].key) <= 0)
  }

  ghost predicate IsNewKey(rows: seq<Row>, cmp: Comparison, key: Key) {
    forall i :: 0 <= i < |rows| ==> cmp(key, rows[i].key) != 0
  }

  ghost predicate Exceeds(key: Key, part: seq<AvlNode>, rows: seq<Row>, cmp: Comparison) {
    forall i :: 0 <= i < |rows| && rows[i].node in part ==> cmp(key, rows[i].key) > 0
  }

  ghost predicate Precedes(key: Key, part: seq<AvlNode>, rows: seq<Row>, cmp: Comparison) {
    forall i :: 0 <= i < |rows| && rows[i].node in part ==> cmp(key, rows[i].key) < 0
  }

  /** One row tells for which rows around it the key is too small or too large. */
  lemma SmallerHere(rows: seq<Row>, cmp: Comparison, key: Key, r: nat)
    requires Preorder(cmp) && Ordered(rows, cmp) && r < |rows|
    ensures cmp(key, rows[r].key) < 0 ==> forall i :: r <= i < |rows| ==> cmp(key, rows[i].key) < 0
    ensures cmp(key, rows[r].key) <= 0 ==> forall i :: r <= i < |rows| ==> cmp(key, rows[i].key) <= 0
    ensures cmp(key, rows[r].key) > 0 ==> forall i :: 0 <= i <= r ==> cmp(key, rows[i].key) > 0
    ensures cmp(key, rows[r].key) >= 0 ==> forall i :: 0 <= i <= r ==> cmp(key, rows[i].key) >= 0
  {
    forall i | r <= i < |rows|
      ensures cmp(key, rows[r].key) < 0 ==> cmp(key, rows[i].key) < 0
      ensures cmp(key, rows[r].key) <= 0 ==> cmp(key, rows[i].key) <= 0
    {
      assert r < i ==> cmp(rows[r].key, rows[i].key) <= 0;
      Between(cmp, key, rows[r].key, rows[i].key);
    }
    forall i | 0 <= i <= r
      ensures cmp(key, rows[r].key) > 0 ==> cmp(key, rows[i].key) > 0
      ensures cmp(key, rows[r].key) >= 0 ==> cmp(key, rows[i].key) >= 0
    {
      assert i < r ==> cmp(rows[i].key, rows[r].key) <= 0;
      Between(cmp, rows[i].key, rows[r].key, key);
    }
  }

  /** A leader at which the search for a key ends tells where the key would begin. */
  lemma LowerEnd(rows: seq<Row>, cmp: Comparison, key: Key, k: nat) returns (p: nat)
    requires Preorder(cmp) && Ordered(rows, cmp) && k < |rows| && rows[k].leader
    requires cmp(key, rows[k].key) < 0 ==> forall i :: 0 <= i < k && rows[i].leader ==> cmp(key, rows[i].key) > 0
    requires cmp(key, rows[k].key) > 0 ==> forall i :: k < i < |rows| && rows[i].leader ==> cmp(key, rows[i].key) < 0
    ensures LowerSlot(rows, cmp, key, p)
    ensures cmp(key, rows[k].key) == 0 ==> p == k
    ensures cmp(key, rows[k].key) != 0 && p < |rows| ==> cmp(key, rows[p].key) != 0
  {
    SmallerHere(rows, cmp, key, k);
    if cmp(key, rows[k].key) < 0 {
      SlotBeforeLeader(rows, cmp, key, k);
      p := k;
    } else if cmp(key, rows[k].key) == 0 {
      forall i | 0 <= i < k
        ensures cmp(key, rows[i].key) > 0
      {
        LeadersAscend(rows, cmp, k, i);
        Between(cmp, rows[i].key, rows[k].key, key);
      }
      p := k;
    } else {
      var j := RunEnd(rows, k);
      SlotBehindRun(rows, cmp, key, k, j);
      RunIsEqual(rows, cmp, k, j, j);
      Between(cmp, rows[j].key, rows[k].key, key);
      SmallerHere(rows, cmp, key, j);
      p := j + 1;
    }
  }

  lemma {:induction false} RunEnd(rows: seq<Row>, k: nat) returns (j: nat)
    requires k < |rows| && rows[k].leader
    ensures Run(rows, k, j)
  {
    j := k;
    while j + 1 < |rows| && !rows[j + 1].leader
      invariant k <= j < |rows|
      invariant forall i :: k < i <= j ==> !rows[i].leader
    {
      j := j + 1;
    }
  }

  /** Rows `k` to `j` are one whole run. */
  ghost predicate Run(rows: seq<Row>, k: nat, j: nat) {
    && k <= j < |rows| && rows[k].leader
    && (forall i :: k < i <= j ==> !rows[i].leader)
    && (j + 1 < |rows| ==> rows[j + 1].leader)
  }

  lemma RunIsEqual(rows: seq<Row>, cmp: Comparison, k: nat, j: nat, i: nat)
    requires Preorder(cmp) && Ordered(rows, cmp) && Run(rows, k, j) && k <= i <= j
    ensures cmp(rows[k].key, rows[i].key) == 0 && cmp(rows[i].key, rows[k].key) == 0
  {
    var h := LeaderOf(rows, cmp, i);
    LeadersAscend(rows, cmp, k, h);
    assert cmp(rows[k].key, rows[k].key) == 0;
    assert k < i ==> cmp(rows[k].key, rows[i].key) <= 0;
    Between(cmp, rows[h].key, rows[k].key, rows[i].key);
    assert h == k;
  }

  /** A run ends where larger keys begin, so a key equal to its leader belongs behind it. */
  lemma SlotBehindRun(rows: seq<Row>, cmp: Comparison, key: Key, k: nat, j: nat)
    requires Preorder(cmp) && Ordered(rows, cmp) && Run(rows, k, j)
    requires cmp(key, rows[k].key) >= 0
    requires cmp(key, rows[k].key) > 0 ==> forall i :: k < i < |rows| && rows[i].leader ==> cmp(key, rows[i].key) < 0
    ensures Slot(rows, cmp, key, j + 1)
  {
    forall i | 0 <= i <= j
      ensures cmp(key, rows[i].key) >= 0
    {
      if i >= k {
        RunIsEqual(rows, cmp, k, j, i);
      }
      assert i < k ==> cmp(rows[i].key, rows[k].key) <= 0;
      Between(cmp, rows[i].key, rows[k].key, key);
    }
    forall i | j < i < |rows|
      ensures cmp(key, rows[i].key) < 0
    {
      LeadersAscend(rows, cmp, k, j + 1);
      Between(cmp, key, rows[k].key, rows[j + 1].key);
      assert j + 1 < i ==> cmp(rows[j + 1].key, rows[i].key) <= 0;
      Between(cmp, key, rows[j + 1].key, rows[i].key);
    }
  }

  lemma SlotBeforeLeader(rows: seq<Row>, cmp: Comparison, key: Key, k: nat)
    requires Preorder(cmp) && Ordered(rows, cmp) && k < |rows|
    requires cmp(key, rows[k].key) < 0
    requires forall i :: 0 <= i < k && rows[i].leader ==> cmp(key, rows[i].key) > 0
    ensures Slot(rows, cmp, key, k)
    ensures forall i :: 0 <= i < k ==> cmp(key, rows[i].key) > 0
  {
    forall i | 0 <= i < k
      ensures cmp(key, rows[i].key) > 0
    {
      var h := LeaderOf(rows, cmp, i);
      Between(cmp, rows[i].key, rows[h].key, key);
    }
    forall i | k <= i < |rows|
      ensures cmp(key, rows[i].key) < 0
    {
      assert k < i ==> cmp(rows[k].key, rows[i].key) <= 0;
      Between(cmp, key, rows[k].key, rows[i].key);
    }
  }

  /** A slot lies between the rows that are at most as large and those that are larger. */
  lemma SlotNeighbours(rows: seq<Row>, cmp: Comparison, row: Row, p: nat)
    requires Preorder(cmp) && Ordered(rows, cmp) && Slot(rows, cmp, row.key, p)
    requires row.leader <==> IsNewKey(rows, cmp, row.key)
    ensures p > 0 ==> cmp(rows[p - 1].key, row.key) <= 0
    ensures row.leader <==> p == 0 || cmp(rows[p - 1].key, row.key) < 0
    ensures p < |rows| ==> rows[p].leader && cmp(row.key, rows[p].key) < 0
  {
    if !row.leader {
      var i :| 0 <= i < |rows| && cmp(row.key, rows[i].key) == 0;
      assert i < p;
      assert i < p - 1 ==> cmp(rows[i].key, rows[p - 1].key) <= 0;
      Between(cmp, row.key, rows[i].key, rows[p - 1].key);
    }
    assert p < |rows| ==> (rows[p].leader <==> IsNew(rows, cmp, p));
    if 0 < p < |rows| {
      Between(cmp, rows[p - 1].key, row.key, rows[p].key);
    }
  }

  /** Inserting at its slot keeps the order; the new row is a leader when its key is new. */
  lemma InsertKeepsOrder(rows: seq<Row>, cmp: Comparison, row: Row, p: nat)
    requires Preorder(cmp) && Ordered(rows, cmp) && Slot(rows, cmp, row.key, p)
    requires row.leader <==> IsNewKey(rows, cmp, row.key)
    ensures Ordered(InsertAt(rows, p, row), cmp)
  {
    var r := InsertAt(rows, p, row);
    SlotNeighbours(rows, cmp, row, p);
    assert forall i :: 0 <= i < p ==> cmp(rows[i].key, row.key) <= 0;
    forall j | 0 <= j < |r|
      ensures r[j].leader <==> IsNew(r, cmp, j)
    {
      if j < p {
        assert rows[j].leader <==> IsNew(rows, cmp, j);
      } else if j > p + 1 {
        assert r[j] == rows[j - 1] && r[j - 1] == rows[j - 2];
        assert rows[j - 1].leader <==> IsNew(rows, cmp, j - 1);
      }
    }
  }

  // -------- deletion --------

  /** The rows around row `k` compare like row `k` and its successor when one of these is
      no leader, and the successor is new after the predecessor when it is new after row `k`. */
  lemma AcrossRow(rows: seq<Row>, cmp: Comparison, k: nat)
    requires Preorder(cmp) && Ordered(rows, cmp) && 0 < k && k + 1 < |rows|
    requires rows[k].leader ==> rows[k + 1].leader
    ensures rows[k + 1].leader <==> cmp(rows[k - 1].key, rows[k + 1].key) < 0
  {
    assert rows[k].leader <==> IsNew(rows, cmp, k);
    assert rows[k + 1].leader <==> IsNew(rows, cmp, k + 1);
    Between(cmp, rows[k - 1].key, rows[k].key, rows[k + 1].key);
    Between(cmp, rows[k].key, rows[k - 1].key, rows[k + 1].key);
  }

  lemma RemoveKeepsOrder(rows: seq<Row>, cmp: Comparison, k: nat)
    requires Preorder(cmp) && Ordered(rows, cmp) && k < |rows|
    requires rows[k].leader && k + 1 < |rows| ==> rows[k + 1].leader
    ensures Ordered(RemoveAt(rows, k), cmp)
  {
    var r := RemoveAt(rows, k);
    forall j | 0 <= j < |r|
      ensures r[j].leader <==> IsNew(r, cmp, j)
    {
      assert rows[j].leader <==> IsNew(rows, cmp, j);
      if j >= k {
        assert rows[j + 1].leader <==> IsNew(rows, cmp, j + 1);
      }
      if j == k && k > 0 {
        AcrossRow(rows, cmp, k);
      }
    }
  }

  /** When a run loses its leader, the next row of the run becomes the leader. */
  lemma PromoteKeepsOrder(rows: seq<Row>, cmp: Comparison, k: nat)
    requires Preorder(cmp) && Ordered(rows, cmp) && k + 1 < |rows|
    requires rows[k].leader && !rows[k + 1].leader
    ensures Ordered(RemoveAt(rows, k)[k := rows[k + 1].(leader := true)], cmp)
  {
    var r := RemoveAt(rows, k)[k := rows[k + 1].(leader := true)];
    assert rows[k].leader <==> IsNew(rows, cmp, k);
    assert cmp(rows[k].key, rows[k + 1].key) <= 0;
    if k > 0 {
      Between(cmp, rows[k - 1].key, rows[k].key, rows[k + 1].key);
    }
    forall j | 0 <= j < |r|
      ensures r[j].leader <==> IsNew(r, cmp, j)
    {
      assert rows[j].leader <==> IsNew(rows, cmp, j);
      if j > k {
        assert r[j] == rows[j + 1] && r[j - 1].key == rows[j].key;
        assert rows[j + 1].leader <==> IsNew(rows, cmp, j + 1);
      }
    }
  }

  lemma LeadersInserted(rows: seq<Row>, p: nat, row: Row)
    requires p <= |rows|
    ensures Leaders(InsertAt(rows, p, row)) ==
              Leaders(rows[..p]) + ((if row.leader then [row.node] else []) + Leaders(rows[p..]))
  {
    assert InsertAt(rows, p, row) == rows[..p] + ([row] + rows[p..]);
    LeadersConcat(rows[..p], [row] + rows[p..]);
    LeadersCons(row, rows[p..]);
  }

  lemma LeadersParted(rows: seq<Row>, p: nat)
    requires p <= |rows|
    ensures Leaders(rows) == Leaders(rows[..p]) + Leaders(rows[p..])
  {
    assert rows == rows[..p] + rows[p..];
    LeadersConcat(rows[..p], rows[p..]);
  }

  // -------- the tree and the list --------

  /** The rows are in order, and `walk` meets their leaders.  Sealed like AvlLinks.Shaped. */
  ghost predicate Sorted(rows: seq<Row>, cmp: Comparison, walk: seq<AvlNode>) {
    SealedRows(rows, cmp, walk) == true
  }

  ghost predicate SealedRows(rows: seq<Row>, cmp: Comparison, walk: seq<AvlNode>) {
    forall u: nat {:trigger OpenRows(u)} :: InOrder(rows, cmp, walk)
  }

  ghost predicate OpenRows(u: nat) {
    true
  }

  lemma SealRows(rows: seq<Row>, cmp: Comparison, walk: seq<AvlNode>)
    requires Preorder(cmp) && Ordered(rows, cmp) && DistinctRows(rows) && Leaders(rows) == walk
    ensures Sorted(rows, cmp, walk)
  {
  }

  ghost predicate InOrder(rows: seq<Row>, cmp: Comparison, walk: seq<AvlNode>) {
    Preorder(cmp) && Ordered(rows, cmp) && DistinctRows(rows) && Leaders(rows) == walk
  }

  /** Where a node of the tree stands in the list, and which leaders are around it. */
  lemma RowOf(rows: seq<Row>, cmp: Comparison, c: Place, t: Shape) returns (k: nat)
    requires Sorted(rows, cmp, Inorder(Plug(c, t))) && t.Branch?
    ensures k < |rows| && rows[k].node == t.node && rows[k].leader
    ensures Leaders(rows[..k]) == LeftPart(c) + Inorder(t.left)
    ensures Leaders(rows[k + 1..]) == Inorder(t.right) + RightPart(c)
  {
    assert OpenRows(0);
    LeadersHold(rows);
    PlugInorder(c, t);
    SplitWalk(c, t.left, t.node, t.bal, t.right);
    var a, b := LeftPart(c) + Inorder(t.left), Inorder(t.right) + RightPart(c);
    assert Leaders(rows)[|a|] == t.node;
    assert t.node in Leaders(rows);
    k :| 0 <= k < |rows| && rows[k].leader && rows[k].node == t.node;
    LeadersSplit(rows, k, a, b);
  }

  /** Leaders to the left of a node of the tree have smaller keys, those to the right larger ones. */
  lemma Sides(rows: seq<Row>, cmp: Comparison, c: Place, t: Shape) returns (k: nat)
    requires Sorted(rows, cmp, Inorder(Plug(c, t))) && t.Branch?
    ensures k < |rows| && rows[k].node == t.node && rows[k].leader
    ensures forall x :: x in LeftPart(c) || x in Inorder(t.left) ==>
              exists i :: 0 <= i < k && rows[i].leader && rows[i].node == x && cmp(rows[i].key, rows[k].key) < 0
    ensures forall x :: x in Inorder(t.right) || x in RightPart(c) ==>
              exists i :: k < i < |rows| && rows[i].leader && rows[i].node == x && cmp(rows[k].key, rows[i].key) < 0
  {
    assert OpenRows(0);
    k := RowOf(rows, cmp, c, t);
    var a, b := rows[..k], rows[k + 1..];
    LeadersHold(a);
    LeadersHold(b);
    forall x | x in LeftPart(c) || x in Inorder(t.left)
      ensures exists i :: 0 <= i < k && rows[i].leader && rows[i].node == x && cmp(rows[i].key, rows[k].key) < 0
    {
      assert x in Leaders(a);
      var i :| 0 <= i < |a| && a[i].leader && a[i].node == x;
      assert a[i] == rows[i];
      LeadersAscend(rows, cmp, k, i);
    }
    forall x | x in Inorder(t.right) || x in RightPart(c)
      ensures exists i :: k < i < |rows| && rows[i].leader && rows[i].node == x && cmp(rows[k].key, rows[i].key) < 0
    {
      assert x in Leaders(b);
      var i :| 0 <= i < |b| && b[i].leader && b[i].node == x;
      assert b[i] == rows[k + 1 + i];
      LeadersAscend(rows, cmp, k, k + 1 + i);
    }
  }

  /** Without rows there are no leaders, and the first row is always one. */
  lemma SomeLeader(rows: seq<Row>, cmp: Comparison, walk: seq<AvlNode>)
    requires Sorted(rows, cmp, walk)
    ensures rows == [] <==> walk == []
  {
    assert OpenRows(0);
    if rows != [] {
      assert rows[0].leader <==> IsNew(rows, cmp, 0);
    }
  }

  lemma DistinctInserted(rows: seq<Row>, p: nat, row: Row)
    requires DistinctRows(rows) && p <= |rows|
    requires forall i :: 0 <= i < |rows| ==> rows[i].node != row.node
    ensures DistinctRows(InsertAt(rows, p, row))
  {
  }

  /** A row with an old key goes behind its run; the leaders stay. */
  lemma InsertedBehind(rows: seq<Row>, cmp: Comparison, walk: seq<AvlNode>, row: Row, k: nat, j: nat)
    requires Sorted(rows, cmp, walk) && Run(rows, k, j)
    requires cmp(row.key, rows[k].key) == 0 && !row.leader
    requires forall i :: 0 <= i < |rows| ==> rows[i].node != row.node
    ensures Slot(rows, cmp, row.key, j + 1)
    ensures Sorted(InsertAt(rows, j + 1, row), cmp, walk)
  {
    assert OpenRows(0);
    SlotBehindRun(rows, cmp, row.key, k, j);
    InsertKeepsOrder(rows, cmp, row, j + 1);
    DistinctInserted(rows, j + 1, row);
    LeadersInserted(rows, j + 1, row);
    LeadersParted(rows, j + 1);
    SealRows(InsertAt(rows, j + 1, row), cmp, walk);
  }

  lemma InsertedLeftWalk(rows: seq<Row>, row: Row, c: Place, t: Shape, k: nat)
    requires t.Branch? && t.left == Leaf && row.leader
    requires k < |rows| && rows[k].leader && rows[k].node == t.node
    requires Leaders(rows[..k]) == LeftPart(c) + Inorder(t.left)
    requires Leaders(rows[k + 1..]) == Inorder(t.right) + RightPart(c)
    ensures Leaders(InsertAt(rows, k, row)) ==
              Around(c, Inorder(Branch(Branch(Leaf, row.node, 0, Leaf), t.node, t.bal, t.right)))
  {
    LeadersInserted(rows, k, row);
    assert rows[k..] == [rows[k]] + rows[k + 1..];
    LeadersCons(rows[k], rows[k + 1..]);
    HungLeft(LeftPart(c), row.node, t.node, Inorder(t.right), RightPart(c));
  }

  /** A row with a new key goes in front of the leader under which it is hung on the left. */
  lemma InsertedLeft(rows: seq<Row>, cmp: Comparison, row: Row, c: Place, t: Shape) returns (k: nat)
    requires Sorted(rows, cmp, Inorder(Plug(c, t))) && t.Branch? && t.left == Leaf && row.leader
    requires forall i :: 0 <= i < |rows| ==> rows[i].node != row.node
    requires forall i :: 0 <= i < |rows| && rows[i].node == t.node ==> cmp(row.key, rows[i].key) < 0
    requires Exceeds(row.key, LeftPart(c), rows, cmp)
    ensures k < |rows| && rows[k].node == t.node && Slot(rows, cmp, row.key, k)
    ensures IsNewKey(rows, cmp, row.key)
    ensures Sorted(InsertAt(rows, k, row), cmp,
                   Around(c, Inorder(Branch(Branch(Leaf, row.node, 0, Leaf), t.node, t.bal, t.right))))
  {
    k := RowOf(rows, cmp, c, t);
    assert DistinctRows(rows) && Preorder(cmp) && Ordered(rows, cmp) by {
      assert OpenRows(0);
    }
    assert forall i :: 0 <= i < k && rows[i].leader ==> cmp(row.key, rows[i].key) > 0 by {
      LeadersHold(rows[..k]);
      forall i | 0 <= i < k && rows[i].leader
        ensures cmp(row.key, rows[i].key) > 0
      {
        assert rows[..k][i].node in Leaders(rows[..k]);
        assert rows[i].node in LeftPart(c) + Inorder(t.left);
      }
    }
    SlotBeforeLeader(rows, cmp, row.key, k);
    InsertKeepsOrder(rows, cmp, row, k);
    DistinctInserted(rows, k, row);
    InsertedLeftWalk(rows, row, c, t, k);
    SealRows(InsertAt(rows, k, row), cmp,
             Around(c, Inorder(Branch(Branch(Leaf, row.node, 0, Leaf), t.node, t.bal, t.right))));
  }

  lemma HungLeft(p: seq<AvlNode>, x: AvlNode, n: AvlNode, r: seq<AvlNode>, q: seq<AvlNode>)
    ensures (p + []) + ([x] + ([n] + (r + q))) == p + (([] + [x] + []) + [n] + r) + q
  {
  }

  lemma HungRight(p: seq<AvlNode>, l: seq<AvlNode>, n: AvlNode, x: AvlNode, q: seq<AvlNode>)
    ensures ((p + l) + ([n] + [])) + ([x] + q) == p + (l + [n] + ([] + [x] + [])) + q
  {
  }

  lemma SlotBehindSmallerRun(rows: seq<Row>, cmp: Comparison, key: Key, k: nat, j: nat)
    requires Preorder(cmp) && Ordered(rows, cmp) && Run(rows, k, j)
    requires cmp(key, rows[k].key) > 0
    requires forall i :: k < i < |rows| && rows[i].leader ==> cmp(key, rows[i].key) < 0
    ensures Slot(rows, cmp, key, j + 1)
    ensures IsNewKey(rows, cmp, key)
  {
    SlotBehindRun(rows, cmp, key, k, j);
    RunIsEqual(rows, cmp, k, j, j);
    Between(cmp, rows[j].key, rows[k].key, key);
    SmallerHere(rows, cmp, key, j);
  }

  lemma InsertedRightWalk(rows: seq<Row>, row: Row, c: Place, t: Shape, k: nat, j: nat)
    requires t.Branch? && t.right == Leaf && row.leader && Run(rows, k, j) && rows[k].node == t.node
    requires Leaders(rows[..k]) == LeftPart(c) + Inorder(t.left)
    requires Leaders(rows[k + 1..]) == Inorder(t.right) + RightPart(c)
    ensures Leaders(InsertAt(rows, j + 1, row)) ==
              Around(c, Inorder(Branch(t.left, t.node, t.bal, Branch(Leaf, row.node, 0, Leaf))))
  {
    LeadersInserted(rows, j + 1, row);
    NoLeadersInRun(rows, k, j);
    assert [] + RightPart(c) == RightPart(c);
    HungRight(LeftPart(c), Inorder(t.left), t.node, row.node, RightPart(c));
  }

  /** A row with a new key goes behind the run of the leader under which it is hung on the right. */
  lemma InsertedRight(rows: seq<Row>, cmp: Comparison, row: Row, c: Place, t: Shape, k: nat, j: nat)
    requires Sorted(rows, cmp, Inorder(Plug(c, t))) && t.Branch? && t.right == Leaf && row.leader
    requires Run(rows, k, j) && rows[k].node == t.node
    requires forall i :: 0 <= i < |rows| ==> rows[i].node != row.node
    requires cmp(row.key, rows[k].key) > 0
    requires Precedes(row.key, RightPart(c), rows, cmp)
    ensures Slot(rows, cmp, row.key, j + 1)
    ensures IsNewKey(rows, cmp, row.key)
    ensures Sorted(InsertAt(rows, j + 1, row), cmp,
                   Around(c, Inorder(Branch(t.left, t.node, t.bal, Branch(Leaf, row.node, 0, Leaf)))))
  {
    LargerAbove(rows, cmp, row.key, c, t, k);
    InsertedRightWalk(rows, row, c, t, k, j);
    NewRowKeepsOrder(rows, cmp, Inorder(Plug(c, t)), row, k, j,
                     Around(c, Inorder(Branch(t.left, t.node, t.bal, Branch(Leaf, row.node, 0, Leaf)))));
  }

  lemma NewRowKeepsOrder(rows: seq<Row>, cmp: Comparison, walk: seq<AvlNode>, row: Row, k: nat, j: nat, walk': seq<AvlNode>)
    requires Sorted(rows, cmp, walk) && row.leader && Run(rows, k, j)
    requires cmp(row.key, rows[k].key) > 0
    requires forall i :: 0 <= i < |rows| ==> rows[i].node != row.node
    requires forall i :: k < i < |rows| && rows[i].leader ==> cmp(row.key, rows[i].key) < 0
    requires Leaders(InsertAt(rows, j + 1, row)) == walk'
    ensures Slot(rows, cmp, row.key, j + 1)
    ensures IsNewKey(rows, cmp, row.key)
    ensures Sorted(InsertAt(rows, j + 1, row), cmp, walk')
  {
    assert OpenRows(0);
    SlotBehindSmallerRun(rows, cmp, row.key, k, j);
    InsertKeepsOrder(rows, cmp, row, j + 1);
    DistinctInserted(rows, j + 1, row);
    SealRows(InsertAt(rows, j + 1, row), cmp, walk');
  }

  /** Keys larger than all nodes to the right of a place are larger than all later leaders. */
  lemma LargerAbove(rows: seq<Row>, cmp: Comparison, key: Key, c: Place, t: Shape, k: nat)
    requires Sorted(rows, cmp, Inorder(Plug(c, t))) && t.Branch? && t.right == Leaf
    requires k < |rows| && rows[k].node == t.node
    requires Precedes(key, RightPart(c), rows, cmp)
    ensures forall i :: k < i < |rows| && rows[i].leader ==> cmp(key, rows[i].key) < 0
    ensures Leaders(rows[..k]) == LeftPart(c) + Inorder(t.left)
    ensures Leaders(rows[k + 1..]) == Inorder(t.right) + RightPart(c)
  {
    var k' := RowOf(rows, cmp, c, t);
    assert k' == k by {
      assert OpenRows(0);
    }
    LeadersHold(rows[k + 1..]);
    forall i | k < i < |rows| && rows[i].leader
      ensures cmp(key, rows[i].key) < 0
    {
      assert rows[k + 1..][i - k - 1].node in Leaders(rows[k + 1..]);
      assert rows[i].node in Inorder(t.right) + RightPart(c);
    }
  }

  lemma {:induction false} NoLeadersInRun(rows: seq<Row>, k: nat, j: nat)
    requires k <= j < |rows| && rows[k].leader && forall i :: k < i <= j ==> !rows[i].leader
    ensures Leaders(rows[..j + 1]) == Leaders(rows[..k]) + ([rows[k].node] + [])
    ensures Leaders(rows[j + 1..]) == Leaders(rows[k + 1..])
    decreases j - k
  {
    LeadersSnoc(rows[..j], rows[j]);
    assert rows[..j + 1] == rows[..j] + [rows[j]];
    if k < j {
      NoLeadersInRun(rows, k, j - 1);
      LeadersCons(rows[j], rows[j + 1..]);
      assert rows[j..] == [rows[j]] + rows[j + 1..];
    }
  }

  lemma LeadersSnoc(a: seq<Row>, x: Row)
    ensures Leaders(a + [x]) == Leaders(a) + ((if x.leader then [x.node] else []) + [])
  {
    LeadersConcat(a, [x]);
    LeadersCons(x, []);
    assert [x] + [] == [x];
  }

  // -------- rows that leave --------

  lemma DistinctRemoved(rows: seq<Row>, k: nat)
    requires DistinctRows(rows) && k < |rows|
    ensures DistinctRows(RemoveAt(rows, k))
  {
    var r := RemoveAt(rows, k);
    forall i, j | 0 <= i < j < |r|
      ensures r[i].node != r[j].node
    {
      assert r[i] == rows[if i < k then i else i + 1];
      assert r[j] == rows[if j < k then j else j + 1];
    }
  }

  lemma LeadersRemoved(rows: seq<Row>, k: nat)
    requires k < |rows|
    ensures Leaders(RemoveAt(rows, k)) == Leaders(rows[..k]) + Leaders(rows[k + 1..])
  {
    LeadersConcat(rows[..k], rows[k + 1..]);
  }

  /** A row that leads no run leaves, and the leaders stay. */
  lemma FollowerRemoved(rows: seq<Row>, cmp: Comparison, walk: seq<AvlNode>, k: nat)
    requires Sorted(rows, cmp, walk) && k < |rows| && !rows[k].leader
    ensures Sorted(RemoveAt(rows, k), cmp, walk)
  {
    assert OpenRows(0);
    RemoveKeepsOrder(rows, cmp, k);
    DistinctRemoved(rows, k);
    LeadersRemoved(rows, k);
    LeadersAround(rows, k);
    assert [] + Leaders(rows[k + 1..]) == Leaders(rows[k + 1..]);
    SealRows(RemoveAt(rows, k), cmp, walk);
  }

  /** A row that is a run of its own leaves. */
  lemma LeaderRemoved(rows: seq<Row>, cmp: Comparison, c: Place, t: Shape, k: nat)
    requires Sorted(rows, cmp, Inorder(Plug(c, t))) && t.Branch?
    requires k < |rows| && rows[k].node == t.node && (k + 1 < |rows| ==> rows[k + 1].leader)
    ensures Sorted(RemoveAt(rows, k), cmp, Around(c, Inorder(t.left) + Inorder(t.right)))
  {
    var k' := RowOf(rows, cmp, c, t);
    assert k' == k by {
      assert OpenRows(0);
    }
    assert OpenRows(0);
    RemoveKeepsOrder(rows, cmp, k);
    DistinctRemoved(rows, k);
    LeadersRemoved(rows, k);
    SealRows(RemoveAt(rows, k), cmp, Around(c, Inorder(t.left) + Inorder(t.right)));
  }

  /** A leader leaves and the next row of its run leads the run from then on. */
  lemma LeaderSucceeded(rows: seq<Row>, cmp: Comparison, walk: seq<AvlNode>, k: nat, p: seq<AvlNode>, q: seq<AvlNode>)
    requires Sorted(rows, cmp, walk) && k + 1 < |rows| && rows[k].leader && !rows[k + 1].leader
    requires walk == p + [rows[k].node] + q
    ensures Sorted(RemoveAt(rows[k + 1 := rows[k + 1].(leader := true)], k), cmp, p + [rows[k + 1].node] + q)
  {
    assert OpenRows(0);
    var heir := rows[k + 1].(leader := true);
    var r := RemoveAt(rows, k)[k := heir];
    assert r == RemoveAt(rows[k + 1 := heir], k);
    PromoteKeepsOrder(rows, cmp, k);
    DistinctRemoved(rows, k);
    assert DistinctRows(r) by {
      forall i, j | 0 <= i < j < |r|
        ensures r[i].node != r[j].node
      {
        assert r[i].node == RemoveAt(rows, k)[i].node && r[j].node == RemoveAt(rows, k)[j].node;
      }
    }
    LeadersSplit(rows, k, p, q);
    assert r == rows[..k] + ([heir] + rows[k + 2..]);
    LeadersConcat(rows[..k], [heir] + rows[k + 2..]);
    LeadersCons(heir, rows[k + 2..]);
    assert rows[k + 1..] == [rows[k + 1]] + rows[k + 2..];
    LeadersCons(rows[k + 1], rows[k + 2..]);
    SealRows(r, cmp, p + [heir.node] + q);
  }

  lemma GoneFromWalk(rows: seq<Row>, cmp: Comparison, walk: seq<AvlNode>, k: nat)
    requires DistinctRows(rows) && k < |rows| && Sorted(RemoveAt(rows, k), cmp, walk)
    ensures rows[k].node !in walk
  {
    assert OpenRows(0);
    var r := RemoveAt(rows, k);
    LeadersHold(r);
    forall i | 0 <= i < |r|
      ensures r[i].node != rows[k].node
    {
      assert r[i] == rows[if i < k then i else i + 1];
    }
  }
}
