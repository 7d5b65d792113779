/** The balanced tree of avl.c on the heap. */
module Avl {
  import opened Sequences
  import opened CircularList
  import opened GhostTree
  import opened AvlLinks
  import opened AvlOrder

  ghost function JustNode(n: AvlNode?): set<AvlNode> {
    if n == null then {} else {n}
  }

  ghost function Records(head: ListHead<AvlNode?>, items: seq<AvlNode>): (r: seq<ListHead<AvlNode?>>)
    ensures |r| == |items| + 1 && r[0] == head
    ensures forall i {:trigger items[i].list} :: 0 <= i < |items| ==> r[i + 1] == items[i].list
  {
    [head] + seq(|items|, i requires 0 <= i < |items| => items[i].list)
  }

  ghost function RowsOf(items: seq<AvlNode>): (rows: seq<Row>)
    reads items`key, items`leader
    ensures |rows| == |items|
    ensures forall i {:trigger rows[i]} :: 0 <= i < |items| ==> rows[i] == Row(items[i], items[i].key, items[i].leader)
  {
    var row := map x | x in items :: Row(x, x.key, x.leader);
    seq(|items|, i requires 0 <= i < |items| => row[items[i]])
  }

  /** The records know the nodes they belong to. */
  ghost predicate Entries(items: seq<AvlNode>)
    reads (set x | x in items :: x.list)`entry
  {
    forall i :: 0 <= i < |items| ==> items[i].list.entry == items[i]
  }

  lemma EntriesInserted(items: seq<AvlNode>, j: nat, node: AvlNode)
    requires Entries(items) && j <= |items| && node.list.entry == node
    ensures Entries(InsertAt(items, j, node))
  {
    var r := InsertAt(items, j, node);
    forall i | 0 <= i < |r|
      ensures r[i].list.entry == r[i]
    {
      assert i != j ==> r[i] == items[if i < j then i else i - 1];
    }
  }

  lemma EntriesRemoved(items: seq<AvlNode>, j: nat)
    requires Entries(items) && j < |items|
    ensures Entries(RemoveAt(items, j))
  {
    var r := RemoveAt(items, j);
    forall i | 0 <= i < |r|
      ensures r[i].list.entry == r[i]
    {
      assert r[i] == items[if i < j then i else i + 1];
    }
  }

  /** `count` is an unsigned int. */
  const COUNTER_RANGE := 0x1_0000_0000

  /** `c` counts `n` nodes, as far as it can. */
  ghost predicate Counts(c: int, n: int) {
    SealedCount(c, n) == true
  }

  ghost predicate SealedCount(c: int, n: int) {
    forall u: nat {:trigger OpenCount(u)} :: c == n % COUNTER_RANGE
  }

  ghost predicate OpenCount(u: nat) {
    true
  }

  lemma CountedUp(c: int, n: int)
    requires Counts(c, n)
    ensures Counts((c + 1) % COUNTER_RANGE, n + 1)
  {
    assert OpenCount(0);
  }

  lemma CountedDown(c: int, n: int)
    requires Counts(c, n)
    ensures Counts((c - 1) % COUNTER_RANGE, n - 1)
  {
    assert OpenCount(0);
  }

  /** No key occurs twice. */
  ghost predicate AllLead(rows: seq<Row>) {
    forall i :: 0 <= i < |rows| ==> rows[i].leader
  }

  lemma LeaderAdded(rows: seq<Row>, p: nat, row: Row)
    requires p <= |rows| && AllLead(rows) && row.leader
    ensures AllLead(InsertAt(rows, p, row))
  {
    var r := InsertAt(rows, p, row);
    forall i | 0 <= i < |r|
      ensures r[i].leader
    {
      assert i != p ==> r[i] == rows[if i < p then i else i - 1];
    }
  }

  class AvlTree {
    const listHead: ListHead<AvlNode?>
    var root: AvlNode?
    var count: int
    const allowDups: bool
    const comp: Comparison

    /** The nodes in list order, as a set, and the shape of the tree that their leaders form. */
    ghost var items: seq<AvlNode>
    ghost var nodes: set<AvlNode>
    ghost var records: set<ListHead<AvlNode?>>
    ghost var shape: Shape

    ghost function Rows(): seq<Row>
      reads this`items, items`key, items`leader
    {
      RowsOf(items)
    }

    /** The list holds the items in order, and links and records know their nodes. */
    ghost predicate Threaded()
      reads this`items, this`records, records`next, records`prev, records`entry
    {
      SealedThread() == true
    }

    ghost predicate SealedThread()
      reads this`items, this`records, records`next, records`prev, records`entry
    {
      forall u: nat {:trigger OpenThread(u)} :: Thread()
    }

    ghost predicate OpenThread(u: nat) {
      true
    }

    ghost predicate Thread()
      reads this`items, this`records, records`next, records`prev, records`entry
    {
      && records == Elements(Records(listHead, items))
      && Ring(Records(listHead, items)) == true
      && listHead.entry == null
      && Entries(items) == true
    }

    ghost predicate Valid()
      reads this`root, this`count, this`items, this`nodes, this`records, this`shape
      reads nodes`parent, nodes`left, nodes`right, nodes`balance, items`key, items`leader
      reads records`next, records`prev, records`entry
    {
      SealedTree() == true
    }

    ghost predicate SealedTree()
      reads this`root, this`count, this`items, this`nodes, this`records, this`shape
      reads nodes`parent, nodes`left, nodes`right, nodes`balance, items`key, items`leader
      reads records`next, records`prev, records`entry
    {
      forall u: nat {:trigger OpenTree(u)} :: Invariant()
    }

    ghost predicate OpenTree(u: nat) {
      true
    }

    /** What every operation keeps. */
    ghost predicate Invariant()
      reads this`root, this`count, this`items, this`nodes, this`records, this`shape
      reads nodes`parent, nodes`left, nodes`right, nodes`balance, items`key, items`leader
      reads records`next, records`prev, records`entry
    {
      && Listed(Inorder(shape))
      && At(Top, shape) && Balanced(shape)
    }

    /** The part about the list: it is in order, and `walk` meets its leaders. */
    ghost predicate Listed(walk: seq<AvlNode>)
      reads this`count, this`items, this`nodes, this`records
      reads items`key, items`leader, records`next, records`prev, records`entry
    {
      SealedList(walk) == true
    }

    ghost predicate SealedList(walk: seq<AvlNode>)
      reads this`count, this`items, this`nodes, this`records
      reads items`key, items`leader, records`next, records`prev, records`entry
    {
      forall u: nat {:trigger OpenTree(u)} :: InList(walk)
    }

    ghost predicate InList(walk: seq<AvlNode>)
      reads this`count, this`items, this`nodes, this`records
      reads items`key, items`leader, records`next, records`prev, records`entry
    {
      && nodes == Elements(items)
      && Threaded()
      && Sorted(Rows(), comp, walk)
      && (allowDups || AllLead(Rows()))
      && Counts(count, |items|)
    }

    /** avl_init */
    constructor (comp: Comparison, allowDups: bool)
      requires Preorder(comp)
      ensures Valid() && items == []
      ensures this.comp == comp && this.allowDups == allowDups
      ensures fresh(listHead) && nodes == {} && records == {listHead}
    {
      listHead := new ListHead(null);
      root := null;
      count := 0;
      this.comp := comp;
      this.allowDups := allowDups;
      items, nodes, records, shape := [], {}, {listHead}, Leaf;
      new;
      assert Records(listHead, items) == [listHead];
      assert OpenTree(0) && OpenShape(0) && OpenRows(0);
    }

    /** The link fields of all nodes, as a value. */
    ghost function Links(): LinkMap
      reads this`nodes, nodes`parent, nodes`left, nodes`right, nodes`balance
    {
      map x | x in nodes :: Link(x.parent, x.left, x.right, x.balance)
    }

    /** The tree on the heap is `Plug(c, t)`. */
    ghost predicate At(c: Place, t: Shape)
      reads this`root, this`nodes, nodes`parent, nodes`left, nodes`right, nodes`balance
    {
      Shaped(Links(), root, c, t)
    }

    /** avl_rotate_right, statement by statement. */
    method RotateRightInPlace(node: AvlNode)
      requires CanRotateRight(Links(), node)
      modifies this`root, node`left, node`parent, node`balance
      modifies node.left`parent, node.left`right, node.left`balance
      modifies JustNode(node.parent)`left, JustNode(node.parent)`right, JustNode(node.left.right)`parent
      ensures var m, p, b := old(node.left), old(node.parent), old(node.left.right);
              && root == (if p == null then m else old(root))
              && (p != null ==> if old(p.left) == node then p.left == m && p.right == old(p.right)
                                else p.left == old(p.left) && p.right == m)
              && m.parent == p && m.right == node
              && node.parent == m && node.left == b
              && (b != null ==> b.parent == node)
              && node.balance == old(node.balance) + 1 - Min(old(m.balance), 0)
              && m.balance == old(m.balance) + 1 + Max(node.balance, 0)
    {
      var left, parent := node.left, node.parent;
      left.parent := parent;
      node.parent := left;

      if parent == null {
        root := left;
      } else if parent.left == node {
        parent.left := left;
      } else {
        parent.right := left;
      }

      node.left := left.right;
      left.right := node;

      if node.left != null {
        node.left.parent := node;
      }

      node.balance := node.balance + 1 - Min(left.balance, 0);
      left.balance := left.balance + 1 + Max(node.balance, 0);
    }

    /** avl_rotate_left, statement by statement. */
    method RotateLeftInPlace(node: AvlNode)
      requires CanRotateLeft(Links(), node)
      modifies this`root, node`right, node`parent, node`balance
      modifies node.right`parent, node.right`left, node.right`balance
      modifies JustNode(node.parent)`left, JustNode(node.parent)`right, JustNode(node.right.left)`parent
      ensures var m, p, a := old(node.right), old(node.parent), old(node.right.left);
              && root == (if p == null then m else old(root))
              && (p != null ==> if old(p.left) == node then p.left == m && p.right == old(p.right)
                                else p.left == old(p.left) && p.right == m)
              && m.parent == p && m.left == node
              && node.parent == m && node.right == a
              && (a != null ==> a.parent == node)
              && node.balance == old(node.balance) - (1 + Max(old(m.balance), 0))
              && m.balance == old(m.balance) - (1 - Min(node.balance, 0))
    {
      var right, parent := node.right, node.parent;
      right.parent := parent;
      node.parent := right;

      if parent == null {
        root := right;
      } else if parent.left == node {
        parent.left := right;
      } else {
        parent.right := right;
      }

      node.right := right.left;
      right.left := node;

      if node.right != null {
        node.right.parent := node;
      }

      node.balance := node.balance - (1 + Max(right.balance, 0));
      right.balance := right.balance - (1 - Min(node.balance, 0));
    }

    /** A right rotation of the subtree `t` in its place `c`. */
    method RotateRight(node: AvlNode, ghost c: Place, ghost t: Shape)
      requires At(c, t)
      requires t.Branch? && t.left.Branch? && t.node == node
      modifies this`root, nodes`parent, nodes`left, nodes`right, nodes`balance
      ensures At(c, RotatedRight(t))
    {
      ghost var s, rootWas := Links(), root;
      CanRotateRightAt(s, root, c, t);
      Where(s, root, c, t);
      RotateRightInPlace(node);
      assert RightSurgery(s, Links(), node);
      RotatedRightShape(s, Links(), rootWas, c, t);
    }

    method RotateLeft(node: AvlNode, ghost c: Place, ghost t: Shape)
      requires At(c, t)
      requires t.Branch? && t.right.Branch? && t.node == node
      modifies this`root, nodes`parent, nodes`left, nodes`right, nodes`balance
      ensures At(c, RotatedLeft(t))
    {
      ghost var s, rootWas := Links(), root;
      CanRotateLeftAt(s, root, c, t);
      Where(s, root, c, t);
      RotateLeftInPlace(node);
      assert LeftSurgery(s, Links(), node);
      RotatedLeftShape(s, Links(), rootWas, c, t);
    }

    /** A right rotation of the right child, then a left rotation. */
    method RotateRightLeft(parent: AvlNode, ghost c: Place, ghost t: Shape)
      requires At(c, t) && t.Branch? && t.node == parent && t.right.Branch? && t.right.left.Branch?
      modifies this`root, nodes`parent, nodes`left, nodes`right, nodes`balance
      ensures At(c, RotatedRightLeft(t))
    {
      ghost var d := InRight(t.left, t.node, t.bal, c);
      Where(Links(), root, c, t);
      Zip(Links(), root, d, t.right);
      RotateRight(parent.right, d, t.right);
      Zip(Links(), root, d, RotatedRight(t.right));
      RotateLeft(parent, c, Branch(t.left, t.node, t.bal, RotatedRight(t.right)));
    }

    /** A left rotation of the left child, then a right rotation. */
    method RotateLeftRight(parent: AvlNode, ghost c: Place, ghost t: Shape)
      requires At(c, t) && t.Branch? && t.node == parent && t.left.Branch? && t.left.right.Branch?
      modifies this`root, nodes`parent, nodes`left, nodes`right, nodes`balance
      ensures At(c, RotatedLeftRight(t))
    {
      ghost var d := InLeft(t.node, t.bal, t.right, c);
      Where(Links(), root, c, t);
      Zip(Links(), root, d, t.left);
      RotateLeft(parent.left, d, t.left);
      Zip(Links(), root, d, RotatedLeft(t.left));
      RotateRight(parent, c, Branch(RotatedLeft(t.left), t.node, t.bal, t.right));
    }

    /** The node above the hole gets another balance. */
    method SetBalance(parent: AvlNode, bal: int, ghost c: Place, ghost t: Shape)
      requires !c.Top? && At(c, t) && parent == c.node
      modifies parent`balance
      ensures parent.balance == bal
      ensures At(Rebal(c, bal), t)
      ensures At(c.up, Filled(Rebal(c, bal), t))
    {
      ghost var s := Links();
      parent.balance := bal;
      Rebalanced(s, Links(), root, c, t, bal);
      Zip(Links(), root, Rebal(c, bal), t);
    }
  
    /** post_insert where the left child `node` has made `parent` too heavy on the left: one
        rotation, or two when `node` leans to the right. */
    method RepairLeft(node: AvlNode, parent: AvlNode, ghost c: Place, ghost t: Shape) returns (ghost t': Shape)
      requires At(c, t) && LeftHeavy(t) && t.node == parent && t.left.node == node
      requires t.left.bal != 0 && Expects(c, Height(t.right) + 2)
      modifies this`root, nodes`parent, nodes`left, nodes`right, nodes`balance
      ensures WholeAs(Links(), root, t', Around(c, Inorder(t)))
    {
      Children(Links(), root, c, t);
      if node.balance == -1 {
        SingleRightBalances(t);
        RotatedRightSame(t);
        RotateRight(parent, c, t);
        WholeTree(Links(), root, c, RotatedRight(t));
        t' := Plug(c, RotatedRight(t));
      } else {
        LeftRightBalances(t);
        ghost var d, w := InLeft(t.node, t.bal, t.right, c), RotatedLeft(t.left);
        Zip(Links(), root, d, t.left);
        RotateLeft(node, d, t.left);
        Where(Links(), root, d, w);
        Children(Links(), root, d, w);
        Zip(Links(), root, d, w);
        RotateRight(node.parent.parent, c, Branch(w, t.node, t.bal, t.right));
        WholeTree(Links(), root, c, RotatedLeftRight(t));
        t' := Plug(c, RotatedLeftRight(t));
      }
    }

    /** The mirror image of RepairLeft. */
    method RepairRight(node: AvlNode, parent: AvlNode, ghost c: Place, ghost t: Shape) returns (ghost t': Shape)
      requires At(c, t) && RightHeavy(t) && t.node == parent && t.right.node == node
      requires t.right.bal != 0 && Expects(c, Height(t.left) + 2)
      modifies this`root, nodes`parent, nodes`left, nodes`right, nodes`balance
      ensures WholeAs(Links(), root, t', Around(c, Inorder(t)))
    {
      Children(Links(), root, c, t);
      if node.balance == 1 {
        SingleLeftBalances(t);
        RotatedLeftSame(t);
        RotateLeft(parent, c, t);
        WholeTree(Links(), root, c, RotatedLeft(t));
        t' := Plug(c, RotatedLeft(t));
      } else {
        RightLeftBalances(t);
        ghost var d, w := InRight(t.left, t.node, t.bal, c), RotatedRight(t.right);
        Zip(Links(), root, d, t.right);
        RotateRight(node, d, t.right);
        Where(Links(), root, d, w);
        Children(Links(), root, d, w);
        Zip(Links(), root, d, w);
        RotateLeft(node.parent.parent, c, Branch(t.left, t.node, t.bal, w));
        WholeTree(Links(), root, c, RotatedRightLeft(t));
        t' := Plug(c, RotatedRightLeft(t));
      }
    }

    /** post_insert: the subtree at `node` has just become one level higher. */
    method PostInsert(node: AvlNode, ghost c: Place, ghost t: Shape) returns (ghost t': Shape)
      requires At(c, t) && t.Branch? && t.node == node && t.bal != 0 && Lacks(c, t, -1)
      modifies this`root, nodes`parent, nodes`left, nodes`right, nodes`balance
      ensures WholeAs(Links(), root, t', Around(c, Inorder(t)))
      decreases Depth(c), 1
    {
      Where(Links(), root, c, t);
      var parent := node.parent;
      if parent == null {
        WholeTree(Links(), root, c, t);
        t' := Plug(c, t);
      } else if node == parent.left {
        t' := PostInsertLeft(node, parent, c, t);
      } else {
        t' := PostInsertRight(node, parent, c, t);
      }
    }

    /** post_insert with `node` the left child. */
    method PostInsertLeft(node: AvlNode, parent: AvlNode, ghost c: Place, ghost t: Shape) returns (ghost t': Shape)
      requires At(c, t) && t.Branch? && t.node == node && t.bal != 0 && Lacks(c, t, -1)
      requires c.InLeft? && c.node == parent
      modifies this`root, nodes`parent, nodes`left, nodes`right, nodes`balance
      ensures WholeAs(Links(), root, t', Around(c, Inorder(t)))
      decreases Depth(c), 0
    {
      Where(Links(), root, c, t);
      GrewLeft(c, t);
      AroundUp(c, t);
      ghost var u := Branch(t, c.node, c.bal - 1, c.right);
      SetBalance(parent, parent.balance - 1, c, t);
      if parent.balance == 0 {
        WholeTree(Links(), root, c.up, u);
        t' := Plug(c.up, u);
      } else if parent.balance == -1 {
        t' := PostInsert(parent, c.up, u);
      } else {
        t' := RepairLeft(node, parent, c.up, u);
      }
    }

    /** post_insert with `node` the right child. */
    method PostInsertRight(node: AvlNode, parent: AvlNode, ghost c: Place, ghost t: Shape) returns (ghost t': Shape)
      requires At(c, t) && t.Branch? && t.node == node && t.bal != 0 && Lacks(c, t, -1)
      requires c.InRight? && c.node == parent
      modifies this`root, nodes`parent, nodes`left, nodes`right, nodes`balance
      ensures WholeAs(Links(), root, t', Around(c, Inorder(t)))
      decreases Depth(c), 0
    {
      Where(Links(), root, c, t);
      GrewRight(c, t);
      AroundUp(c, t);
      ghost var u := Branch(c.left, c.node, c.bal + 1, t);
      SetBalance(parent, parent.balance + 1, c, t);
      if parent.balance == 0 {
        WholeTree(Links(), root, c.up, u);
        t' := Plug(c.up, u);
      } else if parent.balance == 1 {
        t' := PostInsert(parent, c.up, u);
      } else {
        t' := RepairRight(node, parent, c.up, u);
      }
    }

    /** avl_post_delete: the subtree at `node` has just become one level lower. */
    method PostDelete(node: AvlNode, ghost c: Place, ghost t: Shape) returns (ghost t': Shape)
      requires At(c, t) && t.Branch? && t.node == node && Lacks(c, t, 1)
      modifies this`root, nodes`parent, nodes`left, nodes`right, nodes`balance
      ensures WholeAs(Links(), root, t', Around(c, Inorder(t)))
      decreases Depth(c), 1
    {
      Where(Links(), root, c, t);
      var parent := node.parent;
      if parent == null {
        WholeTree(Links(), root, c, t);
        t' := Plug(c, t);
      } else if node == parent.left {
        t' := ShrunkLeft(parent, c, t);
      } else {
        t' := ShrunkRight(parent, c, t);
      }
    }

    /** What avl_post_delete and avl_delete_worker do at `parent` once its left side has
        become one level lower. */
    method ShrunkLeft(parent: AvlNode, ghost c: Place, ghost t: Shape) returns (ghost t': Shape)
      requires At(c, t) && c.InLeft? && c.node == parent && Lacks(c, t, 1)
      modifies this`root, nodes`parent, nodes`left, nodes`right, nodes`balance
      ensures WholeAs(Links(), root, t', Around(c, Inorder(t)))
      decreases Depth(c), 0
    {
      Above(Links(), root, c, t);
      ShrankLeft(c, t);
      AroundUp(c, t);
      ghost var u := Branch(t, c.node, c.bal + 1, c.right);
      SetBalance(parent, parent.balance + 1, c, t);
      if parent.balance == 0 {
        t' := PostDelete(parent, c.up, u);
      } else if parent.balance == 1 {
        WholeTree(Links(), root, c.up, u);
        t' := Plug(c.up, u);
      } else {
        t' := RaiseLeft(parent, c.up, u);
      }
    }

    /** The left side of `parent` is two levels too low. */
    method RaiseLeft(parent: AvlNode, ghost c: Place, ghost t: Shape) returns (ghost t': Shape)
      requires At(c, t) && RightHeavy(t) && t.node == parent && Expects(c, Height(t.left) + 3)
      modifies this`root, nodes`parent, nodes`left, nodes`right, nodes`balance
      ensures WholeAs(Links(), root, t', Around(c, Inorder(t)))
      decreases Depth(c), 3
    {
      Where(Links(), root, c, t);
      Children(Links(), root, c, t);
      if parent.right.balance == 0 {
        SingleLeftBalances(t);
        RotatedLeftSame(t);
        RotateLeft(parent, c, t);
        WholeTree(Links(), root, c, RotatedLeft(t));
        t' := Plug(c, RotatedLeft(t));
      } else if parent.right.balance == 1 {
        SingleLeftBalances(t);
        RotatedLeftSame(t);
        RotateLeft(parent, c, t);
        Children(Links(), root, c, RotatedLeft(t));
        t' := PostDelete(parent.parent, c, RotatedLeft(t));
      } else {
        t' := RaiseLeftTwice(parent, c, t);
      }
    }

    /** The same when the right child leans to the left: it is rotated first. */
    method RaiseLeftTwice(parent: AvlNode, ghost c: Place, ghost t: Shape) returns (ghost t': Shape)
      requires At(c, t) && RightHeavy(t) && t.node == parent && Expects(c, Height(t.left) + 3)
      requires t.right.bal < 0
      modifies this`root, nodes`parent, nodes`left, nodes`right, nodes`balance
      ensures WholeAs(Links(), root, t', Around(c, Inorder(t)))
      decreases Depth(c), 2
    {
      RightLeftBalances(t);
      RotateRightLeft(parent, c, t);
      Children(Links(), root, c, RotatedRightLeft(t));
      t' := PostDelete(parent.parent, c, RotatedRightLeft(t));
    }

    /** The mirror image of ShrunkLeft. */
    method ShrunkRight(parent: AvlNode, ghost c: Place, ghost t: Shape) returns (ghost t': Shape)
      requires At(c, t) && c.InRight? && c.node == parent && Lacks(c, t, 1)
      modifies this`root, nodes`parent, nodes`left, nodes`right, nodes`balance
      ensures WholeAs(Links(), root, t', Around(c, Inorder(t)))
      decreases Depth(c), 0
    {
      Above(Links(), root, c, t);
      ShrankRight(c, t);
      AroundUp(c, t);
      ghost var u := Branch(c.left, c.node, c.bal - 1, t);
      SetBalance(parent, parent.balance - 1, c, t);
      if parent.balance == 0 {
        t' := PostDelete(parent, c.up, u);
      } else if parent.balance == -1 {
        WholeTree(Links(), root, c.up, u);
        t' := Plug(c.up, u);
      } else {
        t' := RaiseRight(parent, c.up, u);
      }
    }

    /** The mirror image of RaiseLeft. */
    method RaiseRight(parent: AvlNode, ghost c: Place, ghost t: Shape) returns (ghost t': Shape)
      requires At(c, t) && LeftHeavy(t) && t.node == parent && Expects(c, Height(t.right) + 3)
      modifies this`root, nodes`parent, nodes`left, nodes`right, nodes`balance
      ensures WholeAs(Links(), root, t', Around(c, Inorder(t)))
      decreases Depth(c), 3
    {
      Where(Links(), root, c, t);
      Children(Links(), root, c, t);
      if parent.left.balance == 0 {
        SingleRightBalances(t);
        RotatedRightSame(t);
        RotateRight(parent, c, t);
        WholeTree(Links(), root, c, RotatedRight(t));
        t' := Plug(c, RotatedRight(t));
      } else if parent.left.balance == -1 {
        SingleRightBalances(t);
        RotatedRightSame(t);
        RotateRight(parent, c, t);
        Children(Links(), root, c, RotatedRight(t));
        t' := PostDelete(parent.parent, c, RotatedRight(t));
      } else {
        t' := RaiseRightTwice(parent, c, t);
      }
    }

    /** The mirror image of RaiseLeftTwice. */
    method RaiseRightTwice(parent: AvlNode, ghost c: Place, ghost t: Shape) returns (ghost t': Shape)
      requires At(c, t) && LeftHeavy(t) && t.node == parent && Expects(c, Height(t.right) + 3)
      requires t.left.bal > 0
      modifies this`root, nodes`parent, nodes`left, nodes`right, nodes`balance
      ensures WholeAs(Links(), root, t', Around(c, Inorder(t)))
      decreases Depth(c), 2
    {
      LeftRightBalances(t);
      RotateLeftRight(parent, c, t);
      Children(Links(), root, c, RotatedLeftRight(t));
      t' := PostDelete(parent.parent, c, RotatedLeftRight(t));
    }

    /** avl_local_min */
    method LocalMin(start: AvlNode, ghost c: Place, ghost t: Shape) returns (node: AvlNode, ghost c': Place, ghost t': Shape)
      requires At(c, t) && t.Branch? && t.node == start
      ensures At(c', t') && Plug(c', t') == Plug(c, t)
      ensures t'.Branch? && t'.node == node && t'.left == Leaf
      ensures LeftPart(c') == LeftPart(c)
    {
      node, c', t' := start, c, t;
      Where(Links(), root, c', t');
      while node.left != null
        invariant At(c', t') && Plug(c', t') == Plug(c, t)
        invariant t'.Branch? && t'.node == node
        invariant node in Links() && Links()[node] == Link(ParentOf(c'), RootOf(t'.left), RootOf(t'.right), t'.bal)
        invariant LeftPart(c') == LeftPart(c)
        decreases t'
      {
        node := node.left;
        c', t' := InLeft(t'.node, t'.bal, t'.right, c'), t'.left;
        Zip(Links(), root, c', t');
        Where(Links(), root, c', t');
      }
    }

    /** The tail of avl_delete_worker, and what avl_delete does when the next node of a run
        takes over: all links of `node` become links of `heir`. */
    method TakePlaceInPlace(heir: AvlNode, node: AvlNode)
      requires CanSubstitute(Links(), node, heir)
      modifies this`root, heir`parent, heir`left, heir`right, heir`balance
      modifies JustNode(node.left)`parent, JustNode(node.right)`parent
      modifies JustNode(node.parent)`left, JustNode(node.parent)`right
      ensures var p, l, r := old(node.parent), old(node.left), old(node.right);
              && heir.parent == p && heir.left == l && heir.right == r && heir.balance == old(node.balance)
              && (l != null ==> l.parent == heir) && (r != null ==> r.parent == heir)
              && root == (if p == null then heir else old(root))
              && (p != null ==> if old(p.left) == node then p.left == heir && p.right == old(p.right)
                                else p.left == old(p.left) && p.right == heir)
    {
      var parent := node.parent;
      heir.balance := node.balance;
      heir.parent := parent;
      heir.left := node.left;
      heir.right := node.right;

      if heir.left != null {
        heir.left.parent := heir;
      }

      if heir.right != null {
        heir.right.parent := heir;
      }

      if parent == null {
        root := heir;
      } else if parent.left == node {
        parent.left := heir;
      } else {
        parent.right := heir;
      }
    }

    /** `heir`, so far outside the tree, takes the place of `node`. */
    method TakePlace(heir: AvlNode, node: AvlNode, ghost c: Place, ghost t: Shape)
      requires At(c, t) && t.Branch? && t.node == node
      requires heir in nodes && heir !in Nodes(t) && heir !in CtxNodes(c)
      modifies this`root, nodes`parent, nodes`left, nodes`right, nodes`balance
      ensures At(c, Branch(t.left, heir, t.bal, t.right))
    {
      ghost var s, rootWas := Links(), root;
      CanSubstituteAt(s, root, c, t, heir);
      Where(s, root, c, t);
      TakePlaceInPlace(heir, node);
      assert Substitution(s, Links(), node, heir);
      SubstitutedShape(s, Links(), rootWas, c, t, heir);
    }
  
    /** The node above `node` gets `x`, the only subtree of `node`, in its place. */
    method Bypass(node: AvlNode, x: AvlNode?, ghost c: Place, ghost t: Shape, ghost u: Shape)
      requires At(c, t) && t.Branch? && t.node == node && x == RootOf(u)
      requires (u == t.left && t.right == Leaf) || (u == t.right && t.left == Leaf)
      modifies this`root, nodes`parent, nodes`left, nodes`right
      ensures At(c, u)
    {
      ghost var s, rootWas := Links(), root;
      Where(s, root, c, t);
      Children(s, root, c, t);
      Outside(s, root, c, t);
      assert u.Branch? ==> u.node in Nodes(t);

      var parent := node.parent;
      if x != null {
        x.parent := parent;
      }
      if parent == null {
        root := x;
      } else if parent.left == node {
        parent.left := x;
      } else {
        parent.right := x;
      }
      CutOut(s, Links(), rootWas, c, t, u);
    }

    /** avl_delete_worker for a node with at most one child. */
    method DeleteNarrow(node: AvlNode, ghost c: Place, ghost t: Shape) returns (ghost t': Shape)
      requires At(c, t) && t.Branch? && t.node == node && (t.left == Leaf || t.right == Leaf)
      requires Lacks(c, t, 0)
      modifies this`root, nodes`parent, nodes`left, nodes`right, nodes`balance
      ensures WholeAs(Links(), root, t', Around(c, Inorder(t.left) + Inorder(t.right)))
    {
      Where(Links(), root, c, t);
      var parent := node.parent;
      ghost var u := if t.left == Leaf then t.right else t.left;
      assert Inorder(t.left) + Inorder(t.right) == Inorder(u);

      if node.left == null && node.right == null {
        var isLeft := parent != null && parent.left == node;
        Bypass(node, null, c, t, Leaf);
        if parent == null {
          t' := Leaf;
        } else if isLeft {
          t' := ShrunkLeft(parent, c, Leaf);
        } else {
          t' := ShrunkRight(parent, c, Leaf);
        }
      } else {
        var x := if node.left == null then node.right else node.left;
        Bypass(node, x, c, t, u);
        if parent == null {
          t' := u;
        } else {
          t' := PostDelete(x, c, u);
        }
      }
    }

    /** `heir`, so far outside the tree, takes the place of `node` wherever that is. */
    method Replace(heir: AvlNode, node: AvlNode, ghost t: Shape)
      returns (ghost t': Shape, ghost p: seq<AvlNode>, ghost q: seq<AvlNode>)
      requires At(Top, t) && Balanced(t)
      requires node in Nodes(t) && heir in nodes && heir !in Nodes(t)
      modifies this`root, nodes`parent, nodes`left, nodes`right, nodes`balance
      ensures Inorder(t) == p + [node] + q
      ensures WholeAs(Links(), root, t', p + [heir] + q)
    {
      ghost var c, u := Locate(Top, t, node);
      ZipAll(Links(), root, c, u);
      PlugNodes(c, u);
      PlugBalanced(c, u);
      PlugInorder(c, u);
      p, q := LeftPart(c) + Inorder(u.left), Inorder(u.right) + RightPart(c);
      SplitWalk(c, u.left, node, u.bal, u.right);
      SplitWalk(c, u.left, heir, u.bal, u.right);
      TakePlace(heir, node, c, u);
      WholeTree(Links(), root, c, Branch(u.left, heir, u.bal, u.right));
      t' := Plug(c, Branch(u.left, heir, u.bal, u.right));
    }

    /** avl_delete_worker: with two children, the least node of the right side is taken out
        first and then put in the place of `node`, wherever that is by then. */
    method DeleteWorker(node: AvlNode, ghost c: Place, ghost t: Shape) returns (ghost t': Shape)
      requires At(c, t) && t.Branch? && t.node == node
      requires Lacks(c, t, 0)
      modifies this`root, nodes`parent, nodes`left, nodes`right, nodes`balance
      ensures WholeAs(Links(), root, t', Around(c, Inorder(t.left) + Inorder(t.right)))
    {
      Where(Links(), root, c, t);
      if node.left == null || node.right == null {
        t' := DeleteNarrow(node, c, t);
      } else {
        t' := DeleteWide(node, c, t);
      }
    }

    method DeleteWide(node: AvlNode, ghost c: Place, ghost t: Shape) returns (ghost t': Shape)
      requires At(c, t) && t.Branch? && t.node == node && t.left.Branch? && t.right.Branch?
      requires Lacks(c, t, 0)
      modifies this`root, nodes`parent, nodes`left, nodes`right, nodes`balance
      ensures WholeAs(Links(), root, t', Around(c, Inorder(t.left) + Inorder(t.right)))
    {
      Where(Links(), root, c, t);
      ghost var d := InRight(t.left, node, t.bal, c);
      Zip(Links(), root, d, t.right);
      var min, c1, t1 := LocalMin(node.right, d, t.right);
      Where(Links(), root, c1, t1);
      PlugBalanced(c, t);
      PlugBalanced(c1, t1);
      CutOutIsGone(Links(), root, c1, t1);
      ghost var t2 := DeleteNarrow(min, c1, t1);

      // `node` is still in the tree, perhaps at another place; `min` is not.
      WalkIsDistinct(Links(), root, t2);
      assert node in Nodes(t2) by {
        assert LeftPart(c1)[|LeftPart(c1)| - 1] == node;
      }
      ghost var p, q;
      t', p, q := Replace(min, node, t2);
      ReplacedWalk(c, t, c1, t1, p, q);
    }
  
    /** A key smaller than that of a node is smaller than every key to the right of the node. */
    lemma SmallerToTheRight(key: Key, c: Place, t: Shape, x: AvlNode)
      requires Sorted(Rows(), comp, Inorder(Plug(c, t))) && t.Branch?
      requires comp(key, t.node.key) < 0 && x in [t.node] + Inorder(t.right) + RightPart(c)
      ensures comp(key, x.key) < 0
    {
      assert OpenRows(0);
      var k := Sides(Rows(), comp, c, t);
      Between(comp, key, t.node.key, x.key);
    }

    lemma LargerToTheLeft(key: Key, c: Place, t: Shape, x: AvlNode)
      requires Sorted(Rows(), comp, Inorder(Plug(c, t))) && t.Branch?
      requires comp(key, t.node.key) > 0 && x in LeftPart(c) + Inorder(t.left) + [t.node]
      ensures comp(key, x.key) > 0
    {
      assert OpenRows(0);
      var k := Sides(Rows(), comp, c, t);
      Between(comp, x.key, t.node.key, key);
    }

    /** avl_find_rec: the leader with this key, or a node below which it would have to hang.
        `depth` counts the calls. */
    method FindRec(node: AvlNode, key: Key, ghost c: Place, ghost t: Shape)
      returns (found: AvlNode, diff: int, ghost c': Place, ghost t': Shape, ghost depth: nat)
      requires At(c, t) && t.Branch? && t.node == node
      requires Plug(c, t) == shape && Sorted(Rows(), comp, Inorder(shape))
      requires forall x :: x in LeftPart(c) ==> comp(key, x.key) > 0
      requires forall x :: x in RightPart(c) ==> comp(key, x.key) < 0
      ensures At(c', t') && Plug(c', t') == shape && t'.Branch? && t'.node == found
      ensures diff == comp(key, found.key)
      ensures diff < 0 ==> t'.left == Leaf && forall x :: x in LeftPart(c') ==> comp(key, x.key) > 0
      ensures diff > 0 ==> t'.right == Leaf && forall x :: x in RightPart(c') ==> comp(key, x.key) < 0
      ensures 1 <= depth <= Height(t)
      decreases t
    {
      Where(Links(), root, c, t);
      diff := comp(key, node.key);
      if diff < 0 {
        if node.left != null {
          ghost var d := InLeft(node, t.bal, t.right, c);
          forall x | x in RightPart(d)
            ensures comp(key, x.key) < 0
          {
            SmallerToTheRight(key, c, t, x);
          }
          Zip(Links(), root, d, t.left);
          found, diff, c', t', depth := FindRec(node.left, key, d, t.left);
          depth := depth + 1;
          return;
        }
        found, c', t', depth := node, c, t, 1;
        return;
      }
      if diff > 0 {
        if node.right != null {
          ghost var d := InRight(t.left, node, t.bal, c);
          forall x | x in LeftPart(d)
            ensures comp(key, x.key) > 0
          {
            LargerToTheLeft(key, c, t, x);
          }
          Zip(Links(), root, d, t.right);
          found, diff, c', t', depth := FindRec(node.right, key, d, t.right);
          depth := depth + 1;
          return;
        }
        found, c', t', depth := node, c, t, 1;
        return;
      }
      found, c', t', depth := node, c, t, 1;
    }
  
    /** What the links of the list say about its item number `i`. */
    lemma Neighbours(i: nat)
      requires Valid() && i < |items|
      ensures items[i].list.next == if i + 1 < |items| then items[i + 1].list else listHead
      ensures items[i].list.prev == if i > 0 then items[i - 1].list else listHead
      ensures items[i].list.IsLast(listHead) <==> i + 1 == |items|
      ensures items[i].list.IsFirst(listHead) <==> i == 0
      ensures i + 1 < |items| ==> items[i].list.next.entry == items[i + 1]
      ensures i > 0 ==> items[i].list.prev.entry == items[i - 1]
      ensures items[i].list in records && items[i].list.next in records && items[i].list.prev in records
      ensures items[i].list.entry == items[i] && items[i].list.prev != listHead.prev
    {
      assert OpenTree(0);
      Beside(i);
    }

    lemma Beside(i: nat)
      requires Threaded() && i < |items|
      ensures items[i].list.next == if i + 1 < |items| then items[i + 1].list else listHead
      ensures items[i].list.prev == if i > 0 then items[i - 1].list else listHead
      ensures items[i].list.IsLast(listHead) <==> i + 1 == |items|
      ensures items[i].list.IsFirst(listHead) <==> i == 0
      ensures i + 1 < |items| ==> items[i].list.next.entry == items[i + 1]
      ensures i > 0 ==> items[i].list.prev.entry == items[i - 1]
      ensures items[i].list in records && items[i].list.next in records && items[i].list.prev in records
      ensures items[i].list.entry == items[i] && items[i].list.prev != listHead.prev
    {
      assert OpenThread(0);
      var r := Records(listHead, items);
      RingNeighbours(r, i + 1);
      RingNeighbours(r, 0);
      assert r[i + 1] == items[i].list;
      assert r[i] != r[|items|] by {
        assert OpenRing(0);
      }
    }

    /** The first and the last record of the list. */
    lemma Ends()
      requires Valid()
      ensures listHead.next == if items == [] then listHead else items[0].list
      ensures listHead.prev == if items == [] then listHead else items[|items| - 1].list
      ensures forall x :: x in nodes ==> x.list != listHead
    {
      assert OpenTree(0) && OpenThread(0);
      var r := Records(listHead, items);
      RingNeighbours(r, 0);
      assert items != [] ==> r[1] == items[0].list && r[|items|] == items[|items| - 1].list;
    }

    lemma Owned()
      requires Valid()
      ensures nodes == Elements(items) && records == (set x | x in items :: x.list) + {listHead}
    {
      Footprint();
    }

    /** Whose fields the tree owns: those of its items and of their records. */
    lemma Footprint()
      requires Valid()
      ensures nodes == Elements(items)
      ensures listHead in records && forall x :: x in items ==> x.list in records
      ensures forall r :: r in records && r != listHead ==> r.entry != null && r.entry in nodes && r.entry.list == r
    {
      assert OpenTree(0) && OpenThread(0);
      var rs := Records(listHead, items);
      assert rs[0] == listHead;
      forall x | x in items
        ensures x.list in records
      {
        var i :| 0 <= i < |items| && items[i] == x;
        assert rs[i + 1] == items[i].list;
      }
      forall r | r in records && r != listHead
        ensures r.entry != null && r.entry in nodes && r.entry.list == r
      {
        var i :| 0 <= i < |rs| && rs[i] == r;
        assert rs[i] == items[i - 1].list;
      }
    }

    /** Keys ascend along the list, and without duplicates they do so strictly. */
    lemma InKeyOrder()
      requires Valid()
      ensures Preorder(comp) && Ordered(Rows(), comp) && DistinctRows(Rows())
      ensures allowDups || AllLead(Rows())
      ensures nodes == Elements(items)
    {
      assert OpenTree(0) && OpenRows(0);
    }

    /** What holds between two calls: the nodes in the list are linked in order, the pointers and
        balances of the nodes are those of the tree `shape`, which is balanced and whose in-order walk
        meets the leaders of the list in list order, and the counter counts the list. */
    lemma Structure()
      requires Valid()
      ensures At(Top, shape)
      ensures Ring(Records(listHead, items)) && Inorder(shape) == Leaders(Rows())
      ensures Balanced(shape) && root == RootOf(shape) && count == |items| % COUNTER_RANGE
    {
      RootMeansItems();
      assert OpenTree(0) && OpenThread(0) && OpenRows(0) && OpenCount(0);
    }

    /** A leader stands in the tree at the place `c`, between the trees `l` and `r`: parent and child
        links are inverse to each other, and its balance is the difference of the heights. */
    lemma LeaderLinks(x: AvlNode) returns (c: Place, l: Shape, r: Shape)
      requires Valid() && x in items && x.leader
      ensures Plug(c, Branch(l, x, x.balance, r)) == shape && At(c, Branch(l, x, x.balance, r))
      ensures x.left == RootOf(l) && x.right == RootOf(r)
      ensures x.balance == Height(r) - Height(l) && -1 <= x.balance <= 1
      ensures x.left != null ==> x.left in nodes && x.left.parent == x
      ensures x.right != null ==> x.right in nodes && x.right.parent == x
      ensures if x.parent == null then x == root
              else x.parent in nodes && (x.parent.left == x || x.parent.right == x)
    {
      Structure();
      assert nodes == Elements(items) by {
        InKeyOrder();
      }
      var i :| 0 <= i < |items| && items[i] == x;
      assert Rows()[i].leader && Rows()[i].node == x;
      LeadersHold(Rows());
      InorderHoldsNode(shape, x);
      var t;
      c, t := Locate(Top, shape, x);
      ZipAll(Links(), root, c, t);
      PlugBalanced(c, t);
      assert OpenTree(0) && OpenShape(0);
      l, r := t.left, t.right;
      var s := Links();
      assert Fits(l, x, s) && Fits(r, x, s);
      assert l.Branch? ==> l.node in s && s[l.node].parent == x;
      assert r.Branch? ==> r.node in s && s[r.node].parent == x;
    }

    /** Where avl_find_rec ends in a tree that is not empty, in terms of the list. */
    lemma FoundRow(key: Key, c: Place, t: Shape) returns (k: nat)
      requires Sorted(Rows(), comp, Inorder(Plug(c, t))) && t.Branch?
      requires comp(key, t.node.key) < 0 ==> t.left == Leaf && forall x :: x in LeftPart(c) ==> comp(key, x.key) > 0
      requires comp(key, t.node.key) > 0 ==> t.right == Leaf && forall x :: x in RightPart(c) ==> comp(key, x.key) < 0
      ensures k < |items| && items[k] == t.node && items[k].leader
      ensures comp(key, t.node.key) < 0 ==> forall i :: 0 <= i < k && items[i].leader ==> comp(key, items[i].key) > 0
      ensures comp(key, t.node.key) > 0 ==> forall i :: k < i < |items| && items[i].leader ==> comp(key, items[i].key) < 0
    {
      assert OpenRows(0);
      var rows := Rows();
      k := RowOf(rows, comp, c, t);
      LeadersHold(rows[..k]);
      LeadersHold(rows[k + 1..]);
      forall i | 0 <= i < k && items[i].leader && comp(key, t.node.key) < 0
        ensures comp(key, items[i].key) > 0
      {
        assert rows[..k][i].node in Leaders(rows[..k]);
      }
      forall i | k < i < |items| && items[i].leader && comp(key, t.node.key) > 0
        ensures comp(key, items[i].key) < 0
      {
        assert rows[k + 1..][i - k - 1].node in Leaders(rows[k + 1..]);
      }
    }

    lemma RootMeansItems()
      requires Valid()
      ensures Sorted(Rows(), comp, Inorder(shape)) && Threaded() && At(Top, shape)
      ensures root == RootOf(shape)
      ensures root == null <==> items == []
    {
      assert OpenTree(0) && OpenShape(0);
      SomeLeader(Rows(), comp, Inorder(shape));
    }

    lemma NoRootNoItems()
      requires Valid() && root == null
      ensures items == []
    {
      RootMeansItems();
    }

    /** The search for `key` can end at item number `k`. */
    ghost predicate EndsAt(key: Key, k: nat)
      reads this`items, items`key, items`leader
      requires k < |items|
    {
      forall u: nat {:trigger OpenTree(u)} ::
        && items[k].leader
        && (comp(key, items[k].key) < 0 ==> forall i :: 0 <= i < k && items[i].leader ==> comp(key, items[i].key) > 0)
        && (comp(key, items[k].key) > 0 ==> forall i :: k < i < |items| && items[i].leader ==> comp(key, items[i].key) < 0)
    }

    lemma KeyBegins(key: Key, k: nat) returns (p: nat)
      requires Valid() && k < |items| && EndsAt(key, k)
      ensures LowerSlot(Rows(), comp, key, p)
      ensures comp(key, items[k].key) == 0 ==> p == k
      ensures comp(key, items[k].key) != 0 && p < |items| ==> comp(key, items[p].key) != 0
    {
      assert OpenTree(0) && OpenRows(0);
      p := LowerEnd(Rows(), comp, key, k);
    }

    /** The tree is never higher than a Fibonacci tree with as many leaders, so the number of
        calls of avl_find_rec is at most twice the binary logarithm of the number of leaders. */
    lemma Shallow(depth: nat)
      requires Valid() && depth <= Height(shape)
      ensures Fib(Height(shape) + 2) <= |Leaders(Rows())| + 1
      ensures Pow2(depth / 2) <= |Leaders(Rows())| + 1
    {
      assert OpenTree(0) && OpenRows(0);
      FullEnough(shape);
      HeightIsLogarithmic(shape);
      Pow2Monotone(depth / 2, Height(shape) / 2);
    }

    /** The call of avl_find_rec that all searches begin with. */
    method Search(key: Key) returns (found: AvlNode, diff: int, ghost k: nat, ghost depth: nat)
      requires Valid() && root != null
      ensures Valid()
      ensures k < |items| && items[k] == found && diff == comp(key, found.key) && EndsAt(key, k)
      ensures Pow2(depth / 2) <= |Leaders(Rows())| + 1
    {
      RootMeansItems();
      ghost var c, t;
      found, diff, c, t, depth := FindRec(root, key, Top, shape);
      k := FoundRow(key, c, t);
      Shallow(depth);
    }

    /** `x` is the first node whose key is at least `key`. */
    ghost predicate IsFirstFrom(x: AvlNode, key: Key)
      reads this`items, items`key
    {
      exists k :: 0 <= k < |items| && items[k] == x && comp(key, items[k].key) <= 0 && AllSmaller(key, k)
    }

    ghost predicate AllSmaller(key: Key, k: nat)
      requires k <= |items|
      reads this`items, items`key
    {
      forall i :: 0 <= i < k ==> comp(key, items[i].key) > 0
    }

    /** `x` is the last node whose key is at most `key`. */
    ghost predicate IsLastUpTo(x: AvlNode, key: Key)
      reads this`items, items`key
    {
      exists k :: 0 <= k < |items| && items[k] == x && comp(key, items[k].key) >= 0 && AllLarger(key, k + 1)
    }

    ghost predicate AllLarger(key: Key, k: nat)
      requires k <= |items|
      reads this`items, items`key
    {
      forall i :: k <= i < |items| ==> comp(key, items[i].key) < 0
    }

    lemma FirstFrom(key: Key, p: nat)
      requires Valid() && LowerSlot(Rows(), comp, key, p)
      ensures AllSmaller(key, p) && (p == |items| <==> AllSmaller(key, |items|))
      ensures p < |items| ==> IsFirstFrom(items[p], key)
      ensures p < |items| && comp(key, items[p].key) != 0 ==> AllLarger(key, p)
    {
      var rows := Rows();
      assert AllSmaller(key, p) by {
        assert forall i :: 0 <= i < p ==> rows[i].key == items[i].key;
      }
      if p < |items| {
        assert comp(key, rows[p].key) <= 0;
        assert OpenTree(0) && OpenRows(0);
        SmallerHere(rows, comp, key, p);
        assert forall i :: p <= i < |items| ==> rows[i].key == items[i].key;
      }
    }

    lemma LastUpTo(key: Key, p: nat)
      requires Valid() && Slot(Rows(), comp, key, p)
      ensures p == 0 <==> AllLarger(key, 0)
      ensures p > 0 ==> IsLastUpTo(items[p - 1], key)
    {
      var rows := Rows();
      assert AllLarger(key, p) by {
        assert forall i :: p <= i < |items| ==> rows[i].key == items[i].key;
      }
      assert p > 0 ==> comp(key, rows[p - 1].key) >= 0;
    }

    /** avl_find: the first node with this key, by `depth` calls of avl_find_rec. */
    method Find(key: Key) returns (node: AvlNode?, ghost p: nat, ghost depth: nat)
      requires Valid()
      ensures node == null <==> forall x :: x in items ==> comp(key, x.key) != 0
      ensures node != null ==> comp(key, node.key) == 0 && IsFirstFrom(node, key)
      ensures LowerSlot(Rows(), comp, key, p)
      ensures node == if p < |items| && comp(key, items[p].key) == 0 then items[p] else null
      ensures Pow2(depth / 2) <= |Leaders(Rows())| + 1
    {
      RootMeansItems();
      if root == null {
        return null, 0, 0;
      }
      var found, diff;
      ghost var k;
      found, diff, k, depth := Search(key);
      p := KeyBegins(key, k);
      node := if diff == 0 then found else null;
      FirstFrom(key, p);
      assert node == null ==> AllSmaller(key, p) && AllLarger(key, p);
    }

    /** A row with a key up to `key`, followed by a larger key or by nothing. */
    lemma SlotHere(key: Key, r: int)
      requires Valid() && -1 <= r < |items|
      requires r >= 0 ==> comp(key, items[r].key) >= 0
      requires r + 1 < |items| ==> comp(key, items[r + 1].key) < 0
      ensures Slot(Rows(), comp, key, r + 1)
    {
      assert OpenTree(0) && OpenRows(0);
      if r >= 0 {
        SmallerHere(Rows(), comp, key, r);
      }
      if r + 1 < |items| {
        SmallerHere(Rows(), comp, key, r + 1);
      }
    }

    lemma LowerSlotHere(key: Key, r: nat)
      requires Valid() && r <= |items|
      requires r < |items| ==> comp(key, items[r].key) <= 0
      requires r > 0 ==> comp(key, items[r - 1].key) > 0
      ensures LowerSlot(Rows(), comp, key, r)
    {
      assert OpenTree(0) && OpenRows(0);
      if r < |items| {
        SmallerHere(Rows(), comp, key, r);
      }
      if r > 0 {
        SmallerHere(Rows(), comp, key, r - 1);
      }
    }

    /** Going left while `key` is smaller: the first loop of avl_find_lessequal. */
    method LeftWhileSmaller(key: Key, start: AvlNode, startDiff: int, ghost k: nat)
      returns (node: AvlNode?, diff: int, ghost r: nat)
      requires Valid() && k < |items| && start == items[k] && startDiff == comp(key, start.key)
      ensures Valid()
      ensures r < |items| && diff == comp(key, items[r].key)
      ensures if node == null then r == 0 && diff < 0 else node == items[r] && diff >= 0
    {
      var cur: AvlNode := start;
      diff, r := startDiff, k;
      while diff < 0
        invariant Valid()
        invariant r < |items| && cur == items[r] && diff == comp(key, cur.key)
        decreases r
      {
        Neighbours(r);
        if cur.list.IsFirst(listHead) {
          return null, diff, r;
        }
        cur, r := cur.list.prev.entry, r - 1;
        diff := comp(key, cur.key);
      }
      node := cur;
    }

    /** Going right while `key` is larger: the first loop of avl_find_greaterequal. */
    method RightWhileLarger(key: Key, start: AvlNode, startDiff: int, ghost k: nat)
      returns (node: AvlNode?, diff: int, ghost r: nat)
      requires Valid() && k < |items| && start == items[k] && startDiff == comp(key, start.key)
      ensures Valid()
      ensures r < |items| && diff == comp(key, items[r].key)
      ensures if node == null then r == |items| - 1 && diff > 0 else node == items[r] && diff <= 0
    {
      var cur: AvlNode := start;
      diff, r := startDiff, k;
      while diff > 0
        invariant Valid()
        invariant r < |items| && cur == items[r] && diff == comp(key, cur.key)
        decreases |items| - r
      {
        Neighbours(r);
        if cur.list.IsLast(listHead) {
          return null, diff, r;
        }
        cur, r := cur.list.next.entry, r + 1;
        diff := comp(key, cur.key);
      }
      node := cur;
    }

    /** Going right as long as the next node's key is not larger: the second loop of
        avl_find_lessequal. */
    method RightWhileAtLeast(key: Key, start: AvlNode, startDiff: int, ghost k: nat)
      returns (node: AvlNode, ghost r: nat)
      requires Valid() && k < |items| && start == items[k]
      requires startDiff == comp(key, start.key) && startDiff >= 0
      ensures Valid()
      ensures r < |items| && node == items[r] && comp(key, node.key) >= 0
      ensures r + 1 < |items| ==> comp(key, items[r + 1].key) < 0
    {
      var next: AvlNode, diff := start, startDiff;
      ghost var n: nat := k;
      node, r := start, k;
      while diff >= 0
        invariant Valid()
        invariant r < |items| && node == items[r] && comp(key, node.key) >= 0
        invariant n < |items| && next == items[n] && diff == comp(key, next.key)
        invariant n == r + 1 || (n == r && diff >= 0)
        decreases |items| - n
      {
        node, r := next, n;
        Neighbours(r);
        if node.list.IsLast(listHead) {
          break;
        }
        next, n := node.list.next.entry, r + 1;
        diff := comp(key, next.key);
      }
    }

    /** Going left as long as the next node's key is not smaller: the second loop of
        avl_find_greaterequal. */
    method LeftWhileAtMost(key: Key, start: AvlNode, startDiff: int, ghost k: nat)
      returns (node: AvlNode, ghost r: nat)
      requires Valid() && k < |items| && start == items[k]
      requires startDiff == comp(key, start.key) && startDiff <= 0
      ensures Valid()
      ensures r < |items| && node == items[r] && comp(key, node.key) <= 0
      ensures r > 0 ==> comp(key, items[r - 1].key) > 0
    {
      var next: AvlNode, diff := start, startDiff;
      ghost var n: nat := k;
      node, r := start, k;
      while diff <= 0
        invariant Valid()
        invariant r < |items| && node == items[r] && comp(key, node.key) <= 0
        invariant n < |items| && next == items[n] && diff == comp(key, next.key)
        invariant n == r - 1 || (n == r && diff <= 0)
        decreases n
      {
        node, r := next, n;
        Neighbours(r);
        if node.list.IsFirst(listHead) {
          break;
        }
        next, n := node.list.prev.entry, r - 1;
        diff := comp(key, next.key);
      }
    }

    /** avl_find_lessequal: the last node whose key is at most `key`. */
    method FindLessEqual(key: Key) returns (node: AvlNode?, ghost p: nat)
      requires Valid()
      ensures node == null <==> forall x :: x in items ==> comp(key, x.key) < 0
      ensures node != null ==> IsLastUpTo(node, key)
      ensures Slot(Rows(), comp, key, p)
      ensures node == if p == 0 then null else items[p - 1]
    {
      node, p := null, 0;
      if root == null {
        NoRootNoItems();
      } else {
        var found, diff, k, _ := Search(key);
        var left, d, r := LeftWhileSmaller(key, found, diff, k);
        if left != null {
          node, r := RightWhileAtLeast(key, left, d, r);
          p := r + 1;
        }
      }
      SlotHere(key, p - 1);
      LastUpTo(key, p);
    }

    /** avl_find_greaterequal: the first node whose key is at least `key`. */
    method FindGreaterEqual(key: Key) returns (node: AvlNode?, ghost p: nat)
      requires Valid()
      ensures node == null <==> forall x :: x in items ==> comp(key, x.key) > 0
      ensures node != null ==> IsFirstFrom(node, key)
      ensures LowerSlot(Rows(), comp, key, p)
      ensures node == if p == |items| then null else items[p]
    {
      node, p := null, |items|;
      if root == null {
        NoRootNoItems();
      } else {
        var found, diff, k, _ := Search(key);
        var right, d, r := RightWhileLarger(key, found, diff, k);
        if right != null {
          node, r := LeftWhileAtMost(key, right, d, r);
          p := r;
        }
      }
      LowerSlotHere(key, p);
      FirstFrom(key, p);
    }

    lemma SealTree()
      requires Invariant()
      ensures Valid()
    {
    }

    /** The loop at the start of avl_insert: the end of the run that `node` leads. */
    method LastOfRun(node: AvlNode, ghost k: nat) returns (last: AvlNode, ghost j: nat)
      requires Valid() && k < |items| && items[k] == node && node.leader
      ensures Valid()
      ensures j < |items| && items[j] == last && Run(Rows(), k, j)
    {
      last, j := node, k;
      while !last.list.IsLast(listHead)
        invariant Valid()
        invariant k <= j < |items| && items[j] == last
        invariant forall i :: k < i <= j ==> !items[i].leader
        decreases |items| - j
      {
        Neighbours(j);
        var next: AvlNode := last.list.next.entry;
        if next.leader {
          return;
        }
        last, j := next, j + 1;
      }
      Neighbours(j);
    }

    /** A new ring through the records of the items. */
    lemma SealThread(ring: seq<ListHead<AvlNode?>>)
      requires ring == Records(listHead, items) && Ring(ring)
      requires records == Elements(Records(listHead, items)) && listHead.entry == null && Entries(items)
      ensures Threaded()
    {
    }

    lemma ItemInserted(node: AvlNode, j: nat)
      requires Threaded() && j <= |items| && node.list.entry == node
      ensures RowsOf(InsertAt(items, j, node)) == InsertAt(Rows(), j, Row(node, node.key, node.leader))
      ensures Records(listHead, InsertAt(items, j, node)) == InsertAt(Records(listHead, items), j + 1, node.list)
      ensures Entries(InsertAt(items, j, node))
      ensures records + {node.list} == Elements(Records(listHead, InsertAt(items, j, node)))
      ensures Ring(Records(listHead, items))
    {
      assert OpenThread(0);
      EntriesInserted(items, j, node);
      RecordsInserted(listHead, items, j, node);
      ElementsInserted(Records(listHead, items), j + 1, node.list);
      RowsInserted(items, j, node);
    }

    /** tree->count++: `node` becomes item number `j`. */
    method CountIn(node: AvlNode, ghost j: nat)
      requires Threaded() && j <= |items| && node.list.entry == node
      modifies this`count, this`items, this`nodes, this`records
      ensures count == (old(count) + 1) % COUNTER_RANGE
      ensures items == InsertAt(old(items), j, node)
      ensures nodes == old(nodes) + {node} && records == old(records) + {node.list}
      ensures Rows() == InsertAt(old(Rows()), j, Row(node, node.key, node.leader))
      ensures Records(listHead, items) == InsertAt(Records(listHead, old(items)), j + 1, node.list)
      ensures Entries(items) && records == Elements(Records(listHead, items))
      ensures Ring(Records(listHead, old(items)))
    {
      count := (count + 1) % COUNTER_RANGE;
      Take(node, j);
    }

    /** A node becomes item number `j`. */
    ghost method Take(node: AvlNode, j: nat)
      requires Threaded() && j <= |items| && node.list.entry == node
      modifies this`items, this`nodes, this`records
      ensures items == InsertAt(old(items), j, node)
      ensures nodes == old(nodes) + {node} && records == old(records) + {node.list}
      ensures Rows() == InsertAt(old(Rows()), j, Row(node, node.key, node.leader))
      ensures Records(listHead, items) == InsertAt(Records(listHead, old(items)), j + 1, node.list)
      ensures Entries(items) && records == Elements(Records(listHead, items))
      ensures Ring(Records(listHead, old(items)))
    {
      ItemInserted(node, j);
      nodes := nodes + {node};
      records := records + {node.list};
      items := InsertAt(items, j, node);
    }

    /** The list gets the record of a node that is counted in already. */
    method HookAfter(pos: AvlNode, node: AvlNode, ghost r: seq<ListHead<AvlNode?>>, ghost k: nat)
      requires Ring(r) && 0 < k < |r| && r[k] == pos.list && node.list !in r && pos.list.next != null
      requires Records(listHead, items) == InsertAt(r, k + 1, node.list)
      requires records == Elements(Records(listHead, items)) && listHead.entry == null && Entries(items)
      modifies node.list`next, node.list`prev, pos.list`next, pos.list.next`prev
      ensures Threaded()
    {
      ListAdd(node.list, pos.list, r, k);
      SealThread(InsertAt(r, k + 1, node.list));
    }

    method HookBefore(pos: AvlNode, node: AvlNode, ghost r: seq<ListHead<AvlNode?>>, ghost k: nat)
      requires Ring(r) && 0 < k < |r| && r[k] == pos.list && node.list !in r && pos.list.prev != null
      requires Records(listHead, items) == InsertAt(r, k, node.list)
      requires records == Elements(Records(listHead, items)) && listHead.entry == null && Entries(items)
      modifies node.list`next, node.list`prev, pos.list`prev, pos.list.prev`next
      ensures Threaded()
    {
      ListAddTail(node.list, pos.list, r, k);
      SealThread(InsertAt(r, k, node.list));
    }

    /** The list side of avl_insert_after, with item number `j` the position. */
    method LinkAfter(pos: AvlNode, node: AvlNode, ghost j: nat)
      requires Threaded() && j < |items| && items[j] == pos
      requires node !in items && node.list.entry == node && pos.list.next != null
      modifies this`items, this`nodes, this`records, this`count
      modifies node.list`next, node.list`prev, pos.list`next, pos.list.next`prev
      ensures items == InsertAt(old(items), j + 1, node) && nodes == old(nodes) + {node}
      ensures Rows() == InsertAt(old(Rows()), j + 1, Row(node, node.key, node.leader))
      ensures Threaded() && count == (old(count) + 1) % COUNTER_RANGE
    {
      ghost var r := Records(listHead, items);
      NewRecord(node);
      assert r[j + 1] == items[j].list;
      CountIn(node, j + 1);
      HookAfter(pos, node, r, j + 1);
    }

    /** avl_insert_after */
    method InsertAfter(pos: AvlNode, node: AvlNode, ghost j: nat, ghost walk: seq<AvlNode>, ghost walk': seq<AvlNode>)
      requires Listed(walk) && j < |items| && items[j] == pos
      requires node !in nodes && node.list.entry == node
      requires Sorted(InsertAt(Rows(), j + 1, Row(node, node.key, node.leader)), comp, walk')
      requires allowDups || node.leader
      modifies this`items, this`nodes, this`records, this`count
      modifies records`next, records`prev, node.list`next, node.list`prev
      ensures items == InsertAt(old(items), j + 1, node) && nodes == old(nodes) + {node}
      ensures Listed(walk')
    {
      ghost var was, rows := items, Rows();
      assert OpenTree(0);
      Beside(j);
      CountedUp(count, |items|);
      LinkAfter(pos, node, j);
      ListGrown(was, rows, j + 1, node, walk');
    }

    /** The list side of avl_insert_before, with item number `j` the position. */
    method LinkBefore(pos: AvlNode, node: AvlNode, ghost j: nat)
      requires Threaded() && j < |items| && items[j] == pos
      requires node !in items && node.list.entry == node && pos.list.prev != null
      modifies this`items, this`nodes, this`records, this`count
      modifies node.list`next, node.list`prev, pos.list`prev, pos.list.prev`next
      ensures items == InsertAt(old(items), j, node) && nodes == old(nodes) + {node}
      ensures Rows() == InsertAt(old(Rows()), j, Row(node, node.key, node.leader))
      ensures Threaded() && count == (old(count) + 1) % COUNTER_RANGE
    {
      ghost var r := Records(listHead, items);
      NewRecord(node);
      assert r[j + 1] == items[j].list;
      CountIn(node, j);
      HookBefore(pos, node, r, j + 1);
    }

    /** avl_insert_before */
    method InsertBefore(pos: AvlNode, node: AvlNode, ghost j: nat, ghost walk: seq<AvlNode>, ghost walk': seq<AvlNode>)
      requires Listed(walk) && j < |items| && items[j] == pos
      requires node !in nodes && node.list.entry == node
      requires Sorted(InsertAt(Rows(), j, Row(node, node.key, node.leader)), comp, walk')
      requires allowDups || node.leader
      modifies this`items, this`nodes, this`records, this`count
      modifies records`next, records`prev, node.list`next, node.list`prev
      ensures items == InsertAt(old(items), j, node) && nodes == old(nodes) + {node}
      ensures Listed(walk')
    {
      ghost var was, rows := items, Rows();
      assert OpenTree(0);
      Beside(j);
      CountedUp(count, |items|);
      LinkBefore(pos, node, j);
      ListGrown(was, rows, j, node, walk');
    }

    lemma ListGrown(was: seq<AvlNode>, rows: seq<Row>, p: nat, node: AvlNode, walk: seq<AvlNode>)
      requires p <= |was| && |rows| == |was|
      requires items == InsertAt(was, p, node) && nodes == Elements(was) + {node}
      requires Rows() == InsertAt(rows, p, Row(node, node.key, node.leader)) && Sorted(Rows(), comp, walk)
      requires allowDups || (AllLead(rows) && node.leader)
      requires Threaded() && Counts(count, |was| + 1)
      ensures Listed(walk)
    {
      ElementsInserted(was, p, node);
      if !allowDups {
        LeaderAdded(rows, p, Row(node, node.key, node.leader));
      }
    }

    /** `new_` becomes the left child of `node`, whose balance becomes `bal`. */
    method HangLeft(node: AvlNode, new_: AvlNode, bal: int, ghost c: Place, ghost t: Shape)
      requires At(c, t) && t.Branch? && t.node == node && t.left == Leaf
      requires new_ in nodes && new_ !in Nodes(t) && new_ !in CtxNodes(c)
      requires new_.left == null && new_.right == null && new_.balance == 0
      modifies node`balance, node`left, new_`parent
      ensures At(c, Branch(Branch(Leaf, new_, 0, Leaf), node, bal, t.right))
    {
      ghost var s, d := Links(), InLeft(node, t.bal, t.right, c);
      Zip(s, root, d, Leaf);
      Where(s, root, c, t);
      node.balance := bal;
      new_.parent := node;
      node.left := new_;
      Attached(s, Links(), root, d, new_, bal);
      Zip(Links(), root, Rebal(d, bal), Branch(Leaf, new_, 0, Leaf));
    }

    method HangRight(node: AvlNode, new_: AvlNode, bal: int, ghost c: Place, ghost t: Shape)
      requires At(c, t) && t.Branch? && t.node == node && t.right == Leaf
      requires new_ in nodes && new_ !in Nodes(t) && new_ !in CtxNodes(c)
      requires new_.left == null && new_.right == null && new_.balance == 0
      modifies node`balance, node`right, new_`parent
      ensures At(c, Branch(t.left, node, bal, Branch(Leaf, new_, 0, Leaf)))
    {
      ghost var s, d := Links(), InRight(t.left, node, t.bal, c);
      Zip(s, root, d, Leaf);
      Where(s, root, c, t);
      node.balance := bal;
      new_.parent := node;
      node.right := new_;
      Attached(s, Links(), root, d, new_, bal);
      Zip(Links(), root, Rebal(d, bal), Branch(Leaf, new_, 0, Leaf));
    }

    /** A node without links that is in no list yet. */
    ghost predicate Blank(node: AvlNode)
      reads node, node.list
    {
      && node.parent == null && node.left == null && node.right == null && node.balance == 0
      && node.list.entry == node
    }

    /** The part of avl_insert that hangs `new_` below `node` on the left. */
    method GrowLeft(node: AvlNode, new_: AvlNode, ghost c: Place, ghost t: Shape) returns (ghost t': Shape)
      requires At(c, t) && t.Branch? && t.node == node && t.left == Leaf && Lacks(c, t, 0)
      requires new_ in nodes && new_ !in Nodes(t) && new_ !in CtxNodes(c)
      requires new_.left == null && new_.right == null && new_.balance == 0
      modifies this`root, nodes`parent, nodes`left, nodes`right, nodes`balance
      ensures WholeAs(Links(), root, t', Around(c, Inorder(Branch(Branch(Leaf, new_, 0, Leaf), node, t.bal, t.right))))
    {
      LeafOnTheLeft(c, t, new_);
      Where(Links(), root, c, t);
      ghost var u := Branch(Branch(Leaf, new_, 0, Leaf), node, t.bal - 1, t.right);
      if node.balance == 1 {
        HangLeft(node, new_, 0, c, t);
        WholeTree(Links(), root, c, u);
        t' := Plug(c, u);
      } else {
        HangLeft(node, new_, -1, c, t);
        t' := PostInsert(node, c, u);
      }
    }

    method GrowRight(node: AvlNode, new_: AvlNode, ghost c: Place, ghost t: Shape) returns (ghost t': Shape)
      requires At(c, t) && t.Branch? && t.node == node && t.right == Leaf && Lacks(c, t, 0)
      requires new_ in nodes && new_ !in Nodes(t) && new_ !in CtxNodes(c)
      requires new_.left == null && new_.right == null && new_.balance == 0
      modifies this`root, nodes`parent, nodes`left, nodes`right, nodes`balance
      ensures WholeAs(Links(), root, t', Around(c, Inorder(Branch(t.left, node, t.bal, Branch(Leaf, new_, 0, Leaf)))))
    {
      LeafOnTheRight(c, t, new_);
      Where(Links(), root, c, t);
      ghost var u := Branch(t.left, node, t.bal + 1, Branch(Leaf, new_, 0, Leaf));
      if node.balance == -1 {
        HangRight(node, new_, 0, c, t);
        WholeTree(Links(), root, c, u);
        t' := Plug(c, u);
      } else {
        HangRight(node, new_, 1, c, t);
        t' := PostInsert(node, c, u);
      }
    }

    /** The walk of the tree `Plug(c, t)` once `new_` is the left child of the root of `t`. */
    ghost function LeftGrown(c: Place, t: Shape, new_: AvlNode): seq<AvlNode>
      requires t.Branch?
    {
      Around(c, Inorder(Branch(Branch(Leaf, new_, 0, Leaf), t.node, t.bal, t.right)))
    }

    ghost function RightGrown(c: Place, t: Shape, new_: AvlNode): seq<AvlNode>
      requires t.Branch?
    {
      Around(c, Inorder(Branch(t.left, t.node, t.bal, Branch(Leaf, new_, 0, Leaf))))
    }

    /** The tree side of avl_insert on the left, once the list holds `new_`. */
    method SettleLeft(node: AvlNode, new_: AvlNode, ghost c: Place, ghost t: Shape)
      requires At(c, t) && t.Branch? && t.node == node && t.left == Leaf && Lacks(c, t, 0)
      requires new_ in nodes && new_ !in Nodes(t) && new_ !in CtxNodes(c)
      requires new_.left == null && new_.right == null && new_.balance == 0
      requires Listed(LeftGrown(c, t, new_))
      modifies this`root, this`shape, nodes`parent, nodes`left, nodes`right, nodes`balance
      ensures Valid()
    {
      shape := GrowLeft(node, new_, c, t);
      SealTree();
    }

    /** avl_insert, with `new_` going below `node` on the left. */
    method PutLeft(node: AvlNode, new_: AvlNode, ghost c: Place, ghost t: Shape) returns (ghost p: nat)
      requires Valid() && new_ !in nodes && Blank(new_) && new_.leader
      requires At(c, t) && Plug(c, t) == shape && t.Branch? && t.node == node && t.left == Leaf
      requires comp(new_.key, node.key) < 0
      requires Exceeds(new_.key, LeftPart(c), Rows(), comp)
      modifies this`root, this`count, this`items, this`nodes, this`records, this`shape
      modifies nodes`parent, nodes`left, nodes`right, nodes`balance, new_`parent, new_`left, new_`right, new_`balance
      modifies records`next, records`prev, new_.list`next, new_.list`prev
      ensures Valid()
      ensures Slot(old(Rows()), comp, new_.key, p) && items == InsertAt(old(items), p, new_)
      ensures IsNewKey(old(Rows()), comp, new_.key)
    {
      ghost var s := Links();
      Parts(c, t, new_);
      p := InsertedLeft(Rows(), comp, Row(new_, new_.key, true), c, t);
      InsertBefore(node, new_, p, Inorder(shape), LeftGrown(c, t, new_));
      ShapedKept(s, Links(), root, c, t);
      SettleLeft(node, new_, c, t);
    }

    method SettleRight(node: AvlNode, new_: AvlNode, ghost c: Place, ghost t: Shape)
      requires At(c, t) && t.Branch? && t.node == node && t.right == Leaf && Lacks(c, t, 0)
      requires new_ in nodes && new_ !in Nodes(t) && new_ !in CtxNodes(c)
      requires new_.left == null && new_.right == null && new_.balance == 0
      requires Listed(RightGrown(c, t, new_))
      modifies this`root, this`shape, nodes`parent, nodes`left, nodes`right, nodes`balance
      ensures Valid()
    {
      shape := GrowRight(node, new_, c, t);
      SealTree();
    }

    /** avl_insert, with `new_` going below `node` on the right and behind the run of `node`. */
    method PutRight(node: AvlNode, last: AvlNode, new_: AvlNode, ghost c: Place, ghost t: Shape, ghost k: nat, ghost j: nat)
      requires Valid() && new_ !in nodes && Blank(new_) && new_.leader
      requires At(c, t) && Plug(c, t) == shape && t.Branch? && t.node == node && t.right == Leaf
      requires Run(Rows(), k, j) && items[k] == node && items[j] == last
      requires comp(new_.key, node.key) > 0
      requires Precedes(new_.key, RightPart(c), Rows(), comp)
      modifies this`root, this`count, this`items, this`nodes, this`records, this`shape
      modifies nodes`parent, nodes`left, nodes`right, nodes`balance, new_`parent, new_`left, new_`right, new_`balance
      modifies records`next, records`prev, new_.list`next, new_.list`prev
      ensures Valid()
      ensures Slot(old(Rows()), comp, new_.key, j + 1) && items == InsertAt(old(items), j + 1, new_)
      ensures IsNewKey(old(Rows()), comp, new_.key)
    {
      ghost var s := Links();
      Parts(c, t, new_);
      InsertedRight(Rows(), comp, Row(new_, new_.key, true), c, t, k, j);
      InsertAfter(last, new_, j, Inorder(shape), RightGrown(c, t, new_));
      ShapedKept(s, Links(), root, c, t);
      SettleRight(node, new_, c, t);
    }

    /** avl_insert for a key that is there already: `new_` goes behind the run of that key. */
    method PutBehind(last: AvlNode, new_: AvlNode, ghost k: nat, ghost j: nat)
      requires Valid() && new_ !in nodes && Blank(new_) && !new_.leader && allowDups
      requires Run(Rows(), k, j) && items[j] == last
      requires comp(new_.key, items[k].key) == 0
      modifies this`count, this`items, this`nodes, this`records
      modifies records`next, records`prev, new_.list`next, new_.list`prev
      ensures Valid()
      ensures Slot(old(Rows()), comp, new_.key, j + 1) && items == InsertAt(old(items), j + 1, new_)
    {
      ghost var s := Links();
      assert OpenTree(0);
      InsertedBehind(Rows(), comp, Inorder(shape), Row(new_, new_.key, false), k, j);
      InsertAfter(last, new_, j, Inorder(shape), Inorder(shape));
      ShapedKept(s, Links(), root, Top, shape);
      SealTree();
    }

    /** avl_insert into an empty tree. */
    method PutFirst(new_: AvlNode)
      requires Valid() && root == null && new_ !in nodes && Blank(new_) && new_.leader
      modifies this`root, this`count, this`items, this`nodes, this`records, this`shape
      modifies records`next, records`prev, new_.list`next, new_.list`prev
      ensures Valid()
      ensures old(items) == [] && items == [new_]
    {
      RootMeansItems();
      NewRecord(new_);
      assert OpenThread(0) && OpenRows(0);
      ghost var r := Records(listHead, items);
      assert r == [listHead] && InsertAt(r, 1, new_.list) == [listHead, new_.list];
      RingNeighbours(r, 0);
      ListAdd(new_.list, listHead, r, 0);
      root := new_;
      count := 1;
      items, nodes, records := [new_], {new_}, {listHead, new_.list};
      shape := Branch(Leaf, new_, 0, Leaf);
      FirstRow(new_);
      SealTree();
    }

    lemma FirstRow(new_: AvlNode)
      requires items == [new_] && nodes == {new_} && records == {listHead, new_.list} && count == 1 && root == new_
      requires Ring([listHead, new_.list]) && listHead.entry == null && Preorder(comp)
      requires Blank(new_) && new_.leader && shape == Branch(Leaf, new_, 0, Leaf)
      ensures Listed(Inorder(shape)) && At(Top, shape) && Balanced(shape)
    {
      var rows := Rows();
      assert rows == [Row(new_, new_.key, true)];
      assert comp(new_.key, new_.key) == 0;
      assert rows[0].leader <==> IsNew(rows, comp, 0);
      LeadersCons(rows[0], []);
      assert rows == [rows[0]] + [];
      assert Leaders(rows) == [new_] + [] == Inorder(shape);
      SealRows(rows, comp, Inorder(shape));
      assert Records(listHead, items) == [listHead, new_.list];
      assert new_ in Links();
      assert Fits(shape, null, Links()) && FitsCtx(Top, root, root, Links());
      assert Apart(shape) && ApartCtx<AvlNode>(Top) && CtxNodes<AvlNode>(Top) == {};
      assert RootOf(shape) == new_ && ParentOf(Top) == null;
    }

    lemma Unlisted(x: AvlNode)
      requires Valid() && x !in nodes
      ensures x !in items
    {
      assert OpenTree(0);
    }

    /** What a missing child, or a balance, says about the side on which a key is missing. */
    lemma MissingSide(c: Place, t: Shape)
      requires Valid() && At(c, t) && Plug(c, t) == shape && t.Branch?
      ensures t.node in nodes && t.node.balance == t.bal
      ensures t.node.balance == 1 ==> t.right != Leaf
      ensures t.node.balance == -1 ==> t.left != Leaf
    {
      assert OpenTree(0);
      Where(Links(), root, c, t);
      PlugBalanced(c, t);
    }

    /** Where avl_insert finds that a key belongs: the node at which the search ends, its place
        in the tree, and the last node of its run. */
    method FindPlace(key: Key)
      returns (node: AvlNode, last: AvlNode, ghost c: Place, ghost t: Shape, ghost k: nat, ghost j: nat)
      requires Valid() && root != null
      ensures Valid()
      ensures At(c, t) && Plug(c, t) == shape && t.Branch? && t.node == node
      ensures Run(Rows(), k, j) && items[k] == node && items[j] == last
      ensures comp(key, node.key) < 0 ==> t.left == Leaf && Exceeds(key, LeftPart(c), Rows(), comp)
      ensures comp(key, node.key) > 0 ==> t.right == Leaf && Precedes(key, RightPart(c), Rows(), comp)
      ensures node.balance == 1 ==> t.right != Leaf
      ensures node.balance == -1 ==> t.left != Leaf
    {
      RootMeansItems();
      ghost var depth;
      var diff;
      node, diff, c, t, depth := FindRec(root, key, Top, shape);
      k := FoundRow(key, c, t);
      assert diff < 0 ==> Exceeds(key, LeftPart(c), Rows(), comp);
      assert diff > 0 ==> Precedes(key, RightPart(c), Rows(), comp);
      last, j := LastOfRun(node, k);
      MissingSide(c, t);
    }

    /** The part of avl_insert that puts a node with a new key into a tree that is not empty. */
    method PutNew(node: AvlNode, last: AvlNode, new_: AvlNode, diff: int,
                  ghost c: Place, ghost t: Shape, ghost k: nat, ghost j: nat)
      returns (ghost p: nat)
      requires Valid() && new_ !in nodes && Blank(new_) && new_.leader
      requires At(c, t) && Plug(c, t) == shape && t.Branch? && t.node == node
      requires Run(Rows(), k, j) && items[k] == node && items[j] == last
      requires diff == comp(new_.key, node.key) && diff != 0
      requires diff < 0 ==> t.left == Leaf && Exceeds(new_.key, LeftPart(c), Rows(), comp)
      requires diff > 0 ==> t.right == Leaf && Precedes(new_.key, RightPart(c), Rows(), comp)
      requires node.balance == 1 ==> t.right != Leaf
      requires node.balance == -1 ==> t.left != Leaf
      modifies this`root, this`count, this`items, this`nodes, this`records, this`shape
      modifies nodes`parent, nodes`left, nodes`right, nodes`balance
      modifies new_`parent, new_`left, new_`right, new_`balance
      modifies records`next, records`prev, new_.list`next, new_.list`prev
      ensures Valid()
      ensures Slot(old(Rows()), comp, new_.key, p) && items == InsertAt(old(items), p, new_)
      ensures IsNewKey(old(Rows()), comp, new_.key)
    {
      if node.balance == 1 {
        p := PutLeft(node, new_, c, t);
        return p;
      }
      p := j + 1;
      if node.balance == -1 {
        PutRight(node, last, new_, c, t, k, j);
        return;
      }
      if diff < 0 {
        p := PutLeft(node, new_, c, t);
        return;
      }
      PutRight(node, last, new_, c, t, k, j);
    }

    lemma KeyThere(key: Key, k: nat)
      requires Valid() && k < |items| && comp(key, items[k].key) == 0
      ensures !IsNewKey(Rows(), comp, key)
    {
      assert comp(key, Rows()[k].key) == 0;
    }

    /** The part of avl_insert for a key that is there already, behind the last of its run. */
    method PutDuplicate(last: AvlNode, new_: AvlNode, ghost k: nat, ghost j: nat)
      requires Valid() && new_ !in nodes && Blank(new_) && allowDups
      requires Run(Rows(), k, j) && items[j] == last
      requires comp(new_.key, items[k].key) == 0
      modifies this`count, this`items, this`nodes, this`records, new_`leader
      modifies records`next, records`prev, new_.list`next, new_.list`prev
      ensures Valid() && !new_.leader
      ensures Slot(old(Rows()), comp, new_.key, j + 1) && items == InsertAt(old(items), j + 1, new_)
    {
      Unlisted(new_);
      new_.leader := false;
      PutBehind(last, new_, k, j);
    }

    /** No pointer and no balance of the tree and no link of the list is another than before. */
    twostate predicate Untouched()
      requires nodes == old(nodes) && records == old(records)
      reads this, nodes, records
    {
      unchanged(nodes`parent, nodes`left, nodes`right, nodes`balance, nodes`key, nodes`leader)
      && unchanged(records`next, records`prev)
    }

    /** avl_insert into a tree that is not empty, with `new_` still blank. */
    method PutNext(new_: AvlNode) returns (r: int, ghost p: nat)
      requires Valid() && root != null && new_ !in nodes && Blank(new_) && new_.leader
      modifies this`root, this`count, this`items, this`nodes, this`records, this`shape
      modifies nodes`parent, nodes`left, nodes`right, nodes`balance
      modifies new_`parent, new_`left, new_`right, new_`balance, new_`leader
      modifies records`next, records`prev, new_.list`next, new_.list`prev
      ensures Valid()
      ensures r == if !allowDups && !IsNewKey(old(Rows()), comp, new_.key) then -1 else 0
      ensures r == 0 ==> Slot(old(Rows()), comp, new_.key, p) && items == InsertAt(old(items), p, new_)
      ensures r == 0 ==> (new_.leader <==> IsNewKey(old(Rows()), comp, new_.key))
      ensures r == -1 ==> unchanged(this) && Untouched()
    {
      ghost var c, t, k, j;
      var node, last;
      node, last, c, t, k, j := FindPlace(new_.key);
      var diff := comp(new_.key, node.key);
      if diff == 0 {
        KeyThere(new_.key, k);
        if !allowDups {
          return -1, 0;
        }
        PutDuplicate(last, new_, k, j);
        return 0, j + 1;
      }
      p := PutNew(node, last, new_, diff, c, t, k, j);
      r := 0;
    }

    /** avl_insert: item number `p` is `new_` afterwards, behind all keys up to its own, and it
        leads a run just when its key is new; or the key is there already, duplicates are
        forbidden and the tree stays as it is. */
    method Insert(new_: AvlNode) returns (r: int, ghost p: nat)
      requires Valid() && new_ !in nodes && new_.list.entry == new_
      modifies this`root, this`count, this`items, this`nodes, this`records, this`shape
      modifies nodes`parent, nodes`left, nodes`right, nodes`balance
      modifies new_`parent, new_`left, new_`right, new_`balance, new_`leader
      modifies records`next, records`prev, new_.list`next, new_.list`prev
      ensures Valid()
      ensures r == if !allowDups && !IsNewKey(old(Rows()), comp, new_.key) then -1 else 0
      ensures r == 0 ==> Slot(old(Rows()), comp, new_.key, p) && items == InsertAt(old(items), p, new_)
      ensures r == 0 ==> (new_.leader <==> IsNewKey(old(Rows()), comp, new_.key))
      ensures r == -1 ==> unchanged(this) && Untouched()
      ensures r == 0 ==> nodes == old(nodes) + {new_} && records == old(records) + {new_.list}
    {
      ghost var was := items;
      Owned();
      SetBlank(new_);
      if root == null {
        PutFirst(new_);
        r, p := 0, 0;
      } else {
        r, p := PutNext(new_);
      }
      Owned();
      if r == 0 {
        OneMoreOwned(was, p, new_);
      }
    }

    /** The fields of a new node as avl_insert sets them. */
    method SetBlank(new_: AvlNode)
      requires Valid() && new_ !in nodes && new_.list.entry == new_
      modifies new_`parent, new_`left, new_`right, new_`balance, new_`leader
      ensures Valid() && Blank(new_) && new_.leader && Rows() == old(Rows())
    {
      Unlisted(new_);
      new_.parent := null;
      new_.left := null;
      new_.right := null;
      new_.balance := 0;
      new_.leader := true;
    }

    /** The tree owns one more node and its record. */
    lemma OneMoreOwned(was: seq<AvlNode>, p: nat, x: AvlNode)
      requires p <= |was| && items == InsertAt(was, p, x)
      ensures Elements(items) == Elements(was) + {x}
      ensures (set y | y in items :: y.list) == (set y | y in was :: y.list) + {x.list}
    {
      ElementsInserted(was, p, x);
      assert forall y :: y in items <==> y in Elements(items);
      assert forall y :: y in was <==> y in Elements(was);
    }

    /** tree->count--: item number `k` leaves. */
    method CountOut(ghost k: nat)
      requires Threaded() && k < |items|
      modifies this`count, this`items, this`nodes, this`records
      ensures count == (old(count) - 1) % COUNTER_RANGE
      ensures items == RemoveAt(old(items), k)
      ensures nodes == old(nodes) - {old(items)[k]} && records == old(records) - {old(items)[k].list}
      ensures Rows() == RemoveAt(old(Rows()), k)
      ensures Records(listHead, items) == RemoveAt(Records(listHead, old(items)), k + 1)
      ensures Entries(items) && records == Elements(Records(listHead, items))
      ensures Ring(Records(listHead, old(items)))
    {
      assert OpenThread(0) && OpenRing(0);
      ghost var r := Records(listHead, items);
      EntriesRemoved(items, k);
      RecordsRemoved(listHead, items, k);
      assert r[k + 1] == items[k].list;
      ElementsRemoved(r, k + 1);
      RowsRemoved(items, k);
      count := (count - 1) % COUNTER_RANGE;
      nodes := nodes - {items[k]};
      records := records - {items[k].list};
      items := RemoveAt(items, k);
    }

    /** The list side of avl_remove. */
    method LinkOut(node: AvlNode, ghost k: nat)
      requires Threaded() && k < |items| && items[k] == node
      requires node.list.next != null && node.list.prev != null
      modifies this`items, this`nodes, this`records, this`count
      modifies node.list`next, node.list`prev, node.list.next`prev, node.list.prev`next
      ensures items == RemoveAt(old(items), k) && nodes == old(nodes) - {node} && records == old(records) - {node.list}
      ensures Rows() == RemoveAt(old(Rows()), k)
      ensures Threaded() && count == (old(count) - 1) % COUNTER_RANGE
    {
      ghost var r := Records(listHead, items);
      assert OpenThread(0);
      assert r[k + 1] == items[k].list;
      CountOut(k);
      ListDel(node.list, r, k + 1);
      SealThread(RemoveAt(r, k + 1));
    }

    /** avl_remove: `walk` meets the leaders that remain. */
    method Remove(node: AvlNode, ghost k: nat, ghost walk: seq<AvlNode>)
      requires Threaded() && Counts(count, |items|) && nodes == Elements(items)
      requires k < |items| && items[k] == node && DistinctRows(Rows())
      requires Sorted(RemoveAt(Rows(), k), comp, walk) && (allowDups || AllLead(Rows()))
      modifies this`items, this`nodes, this`records, this`count
      modifies records`next, records`prev
      ensures items == RemoveAt(old(items), k) && nodes == old(nodes) - {node} && records == old(records) - {node.list}
      ensures Rows() == RemoveAt(old(Rows()), k)
      ensures Listed(walk)
    {
      ghost var was, rows := items, Rows();
      Beside(k);
      CountedDown(count, |items|);
      LinkOut(node, k);
      ListShrunk(was, rows, k, walk);
    }

    lemma ListShrunk(was: seq<AvlNode>, rows: seq<Row>, k: nat, walk: seq<AvlNode>)
      requires k < |was| && |rows| == |was| && DistinctRows(rows)
      requires forall i :: 0 <= i < |was| ==> rows[i].node == was[i]
      requires items == RemoveAt(was, k) && nodes == Elements(was) - {was[k]}
      requires Rows() == RemoveAt(rows, k) && Sorted(Rows(), comp, walk) && (allowDups || AllLead(rows))
      requires Threaded() && Counts(count, |was| - 1)
      ensures Listed(walk)
    {
      assert forall i, j :: 0 <= i < j < |was| ==> rows[i].node != rows[j].node;
      ElementsRemoved(was, k);
      forall i | 0 <= i < |Rows()| && !allowDups
        ensures Rows()[i].leader
      {
        assert Rows()[i] == rows[if i < k then i else i + 1];
      }
    }

    lemma RowsRemoved(was: seq<AvlNode>, k: nat)
      requires k < |was|
      ensures RowsOf(RemoveAt(was, k)) == RemoveAt(RowsOf(was), k)
    {
      var a, b := RowsOf(RemoveAt(was, k)), RemoveAt(RowsOf(was), k);
      forall i | 0 <= i < |a|
        ensures a[i] == b[i]
      {
        assert b[i] == RowsOf(was)[if i < k then i else i + 1];
      }
    }

    /** Once the tree has the walk without `node`, avl_remove leaves a valid tree. */
    method Finish(node: AvlNode, ghost k: nat)
      requires Threaded() && Counts(count, |items|) && nodes == Elements(items)
      requires k < |items| && items[k] == node && DistinctRows(Rows())
      requires Sorted(RemoveAt(Rows(), k), comp, Inorder(shape)) && (allowDups || AllLead(Rows()))
      requires At(Top, shape) && Balanced(shape)
      modifies this`items, this`nodes, this`records, this`count
      modifies records`next, records`prev
      ensures items == RemoveAt(old(items), k) && nodes == old(nodes) - {node} && records == old(records) - {node.list}
      ensures Rows() == RemoveAt(old(Rows()), k)
      ensures Valid()
    {
      ghost var s := Links();
      GoneFromWalk(Rows(), comp, Inorder(shape), k);
      Remove(node, k, Inorder(shape));
      ShapedApart(s, Links(), root, shape, node);
      SealTree();
    }

    /** Where a node of the tree is listed, and the parts of the invariant. */
    lemma ItemOf(node: AvlNode) returns (k: nat)
      requires Valid() && node in nodes
      ensures k < |items| && items[k] == node
      ensures Threaded() && Counts(count, |items|) && nodes == Elements(items)
      ensures DistinctRows(Rows()) && (allowDups || AllLead(Rows()))
      ensures Sorted(Rows(), comp, Inorder(shape)) && At(Top, shape) && Balanced(shape)
      ensures node.leader ==> node in Nodes(shape)
    {
      assert OpenTree(0) && OpenRows(0);
      k :| 0 <= k < |items| && items[k] == node;
      LeadersHold(Rows());
      assert Rows()[k].node == node;
      InorderHoldsNodes(shape);
    }

    /** The tree side of avl_delete for a leader that has its key for itself. */
    method TakeOut(node: AvlNode, ghost k: nat)
      requires Sorted(Rows(), comp, Inorder(shape)) && At(Top, shape) && Balanced(shape)
      requires k < |items| && items[k] == node && node in Nodes(shape)
      requires k + 1 < |items| ==> Rows()[k + 1].leader
      modifies this`root, this`shape, nodes`parent, nodes`left, nodes`right, nodes`balance
      ensures Sorted(RemoveAt(Rows(), k), comp, Inorder(shape)) && At(Top, shape) && Balanced(shape)
    {
      ghost var c, t := Locate(Top, shape, node);
      ZipAll(Links(), root, c, t);
      PlugBalanced(c, t);
      LeaderRemoved(Rows(), comp, c, t, k);
      shape := DeleteWorker(node, c, t);
    }

    /** avl_delete for a leader whose run goes on with `next`. */
    method Succeed(node: AvlNode, next: AvlNode, ghost k: nat)
      requires Sorted(Rows(), comp, Inorder(shape)) && At(Top, shape) && Balanced(shape)
      requires k + 1 < |items| && items[k] == node && node in Nodes(shape) && node.leader
      requires items[k + 1] == next && !next.leader && next in nodes && DistinctRows(Rows())
      modifies this`root, this`shape, nodes`parent, nodes`left, nodes`right, nodes`balance, next`leader
      ensures Rows() == old(Rows())[k + 1 := old(Rows())[k + 1].(leader := true)]
      ensures Sorted(RemoveAt(Rows(), k), comp, Inorder(shape)) && At(Top, shape) && Balanced(shape)
    {
      ghost var rows, walk := Rows(), Inorder(shape);
      assert next !in Nodes(shape) by {
        FollowerOutside(next, k + 1);
      }
      Promote(next, k + 1);
      ghost var p, q;
      shape, p, q := Replace(next, node, shape);
      LeaderSucceeded(rows, comp, walk, k, p, q);
    }

    method Promote(next: AvlNode, ghost k: nat)
      requires k < |items| && items[k] == next && DistinctRows(Rows())
      modifies next`leader
      ensures Rows() == old(Rows())[k := old(Rows())[k].(leader := true)]
    {
      ghost var rows := Rows();
      next.leader := true;
      RowPromoted(rows, k);
    }

    lemma FollowerOutside(x: AvlNode, k: nat)
      requires Sorted(Rows(), comp, Inorder(shape))
      requires k < |items| && items[k] == x && !x.leader
      ensures x !in Nodes(shape)
    {
      assert OpenRows(0);
      var rows := Rows();
      LeadersHold(rows);
      InorderHoldsNodes(shape);
      assert rows[k].node == x && !rows[k].leader;
    }

    lemma RowPromoted(rows: seq<Row>, k: nat)
      requires k < |items| && |rows| == |items| && DistinctRows(rows)
      requires forall i :: 0 <= i < |items| ==> rows[i].node == items[i] && rows[i].key == items[i].key
      requires forall i :: 0 <= i < |items| && i != k ==> rows[i].leader == items[i].leader
      requires items[k].leader
      ensures Rows() == rows[k := rows[k].(leader := true)]
    {
      var a, b := Rows(), rows[k := rows[k].(leader := true)];
      forall i | 0 <= i < |a|
        ensures a[i] == b[i]
      {
        assert rows[i].node == items[i];
      }
    }

    /** The list as avl_delete leaves it when row `k` goes. */
    ghost function Without(rows: seq<Row>, k: nat): (r: seq<Row>)
      requires k < |rows|
    {
      RemoveAt(if RunGoesOn(rows, k) then rows[k + 1 := rows[k + 1].(leader := true)] else rows, k)
    }

    ghost predicate RunGoesOn(rows: seq<Row>, k: nat)
      requires k < |rows|
    {
      rows[k].leader && k + 1 < |rows| && !rows[k + 1].leader
    }

    /** avl_delete up to the call of avl_remove: the tree has lost the node. */
    method Uproot(node: AvlNode, ghost k: nat)
      requires Threaded() && k < |items| && items[k] == node && (allowDups || AllLead(Rows()))
      requires Sorted(Rows(), comp, Inorder(shape)) && At(Top, shape) && Balanced(shape) && DistinctRows(Rows())
      requires node.leader ==> node in Nodes(shape)
      requires nodes == Elements(items)
      modifies this`root, this`shape, nodes`parent, nodes`left, nodes`right, nodes`balance, nodes`leader
      ensures RemoveAt(Rows(), k) == Without(old(Rows()), k)
      ensures DistinctRows(Rows()) && (allowDups || AllLead(Rows()))
      ensures Sorted(RemoveAt(Rows(), k), comp, Inorder(shape)) && At(Top, shape) && Balanced(shape)
    {
      Beside(k);
      if node.leader {
        if allowDups && !node.list.IsLast(listHead) && !node.list.next.entry.leader {
          var next: AvlNode := node.list.next.entry;
          assert !Rows()[k + 1].leader;
          Succeed(node, next, k);
        } else {
          assert k + 1 < |items| ==> Rows()[k + 1].leader;
          TakeOut(node, k);
        }
      } else {
        FollowerRemoved(Rows(), comp, Inorder(shape), k);
      }
    }

    /** avl_delete: item number `k`, the node, leaves.  When it led a run with more rows, the
        next one leads from then on; nothing else changes in the list. */
    method Delete(node: AvlNode) returns (ghost k: nat)
      requires Valid() && node in nodes
      modifies this`root, this`count, this`items, this`nodes, this`records, this`shape
      modifies nodes`parent, nodes`left, nodes`right, nodes`balance, nodes`leader
      modifies records`next, records`prev
      ensures Valid()
      ensures k < |old(items)| && old(items)[k] == node
      ensures items == RemoveAt(old(items), k) && nodes == old(nodes) - {node} && records == old(records) - {node.list}
      ensures Rows() == Without(old(Rows()), k)
    {
      k := ItemOf(node);
      Uproot(node, k);
      Finish(node, k);
    }

    /** What the parts of the invariant say about a place in the tree and a node outside. */
    lemma Parts(c: Place, t: Shape, x: AvlNode)
      requires Valid() && x !in nodes && At(c, t) && Plug(c, t) == shape
      ensures Listed(Inorder(shape)) && Lacks(c, t, 0)
      ensures Sorted(Rows(), comp, Inorder(shape)) && nodes == Elements(items)
      ensures x !in Nodes(t) && x !in CtxNodes(c) && x !in items
    {
      assert OpenTree(0);
      ShapedInside(Links(), root, c, t);
      PlugBalanced(c, t);
    }

    lemma RowsInserted(was: seq<AvlNode>, p: nat, x: AvlNode)
      requires p <= |was|
      ensures RowsOf(InsertAt(was, p, x)) == InsertAt(RowsOf(was), p, Row(x, x.key, x.leader))
    {
      var a, b := RowsOf(InsertAt(was, p, x)), InsertAt(RowsOf(was), p, Row(x, x.key, x.leader));
      forall i | 0 <= i < |a|
        ensures a[i] == b[i]
      {
        assert i < p ==> b[i] == RowsOf(was)[i];
        assert i > p ==> b[i] == RowsOf(was)[i - 1];
      }
    }

    lemma NewRecord(node: AvlNode)
      requires Threaded() && node !in items && node.list.entry == node
      ensures node.list !in Records(listHead, items) && listHead.entry == null
    {
      assert OpenThread(0);
      var r := Records(listHead, items);
      forall i | 0 <= i < |r|
        ensures r[i] != node.list
      {
        assert i > 0 ==> r[i] == items[i - 1].list;
      }
    }
  }

  lemma RecordsInserted(head: ListHead<AvlNode?>, items: seq<AvlNode>, j: nat, node: AvlNode)
    requires j <= |items|
    ensures Records(head, InsertAt(items, j, node)) == InsertAt(Records(head, items), j + 1, node.list)
  {
    var a, b := Records(head, InsertAt(items, j, node)), InsertAt(Records(head, items), j + 1, node.list);
    forall i | 0 <= i < |a|
      ensures a[i] == b[i]
    {
      if i > 0 {
        assert a[i] == InsertAt(items, j, node)[i - 1].list;
      }
    }
  }

  lemma RecordsRemoved(head: ListHead<AvlNode?>, items: seq<AvlNode>, j: nat)
    requires j < |items|
    ensures Records(head, RemoveAt(items, j)) == RemoveAt(Records(head, items), j + 1)
  {
    var a, b := Records(head, RemoveAt(items, j)), RemoveAt(Records(head, items), j + 1);
    forall i | 0 <= i < |a|
      ensures a[i] == b[i]
    {
      if i > 0 {
        assert a[i] == RemoveAt(items, j)[i - 1].list;
      }
    }
  }
}
