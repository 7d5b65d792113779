/** Tree nodes, and what their link fields say about the shape of a tree. */
module AvlLinks {
  import opened Sequences
  import opened CircularList
  import opened GhostTree

  /** Keys are only ever handed to the comparison function. */
  type Key(!new)

  /** struct avl_node.  `version` belongs to the structure that vlist.h wraps around it. */
  class AvlNode {
    const list: ListHead<AvlNode?>
    var parent: AvlNode?
    var left: AvlNode?
    var right: AvlNode?
    var key: Key
    var balance: int
    var leader: bool
    var version: int

    constructor (key: Key)
      ensures this.key == key
      ensures fresh(list) && list.entry == this
    {
      list := new ListHead(null);
      this.key := key;
      parent, left, right := null, null, null;
      balance, leader, version := 0, false, 0;
      new;
      list.entry := this;
    }
  }

  type Shape = Tree<AvlNode>
  type Place = Ctx<AvlNode>

  /** The link fields and the balance of one node, as a value. */
  datatype Link = Link(parent: AvlNode?, left: AvlNode?, right: AvlNode?, bal: int)
  type LinkMap = map<AvlNode, Link>

  ghost function RootOf(t: Shape): AvlNode? {
    if t.Leaf? then null else t.node
  }

  ghost function ParentOf(c: Place): AvlNode? {
    if c.Top? then null else c.node
  }

  /** The linked nodes `s` hold a tree of this shape, hanging below `parent`. */
  ghost predicate Fits(t: Shape, parent: AvlNode?, s: LinkMap) {
    match t
    case Leaf => true
    case Branch(l, n, b, r) =>
      && n in s && s[n] == Link(parent, RootOf(l), RootOf(r), b)
      && Fits(l, n, s) && Fits(r, n, s)
  }

  /** The same for what lies around a hole, when `hole` hangs in it and `root` is the root. */
  ghost predicate FitsCtx(c: Place, hole: AvlNode?, root: AvlNode?, s: LinkMap)
    decreases c
  {
    match c
    case Top => root == hole
    case InLeft(n, b, r, up) =>
      n in s && s[n] == Link(ParentOf(up), hole, RootOf(r), b) && Fits(r, n, s) && FitsCtx(up, n, root, s)
    case InRight(l, n, b, up) =>
      n in s && s[n] == Link(ParentOf(up), RootOf(l), hole, b) && Fits(l, n, s) && FitsCtx(up, n, root, s)
  }

  /** The linked nodes `s` form the tree `Plug(c, t)` with this root: child and parent
      links are inverse to each other and every balance field is the one in the shape.
      The fact is sealed: methods hand it on in one piece, lemmas open it with OpenShape. */
  ghost predicate Shaped(s: LinkMap, root: AvlNode?, c: Place, t: Shape) {
    Sealed(s, root, c, t) == true
  }

  ghost predicate Sealed(s: LinkMap, root: AvlNode?, c: Place, t: Shape) {
    forall u: nat {:trigger OpenShape(u)} :: Fitting(s, root, c, t)
  }

  ghost predicate OpenShape(u: nat) {
    true
  }

  ghost predicate Fitting(s: LinkMap, root: AvlNode?, c: Place, t: Shape) {
    && Apart(t) && ApartCtx(c) && Nodes(t) !! CtxNodes(c)
    && Fits(t, ParentOf(c), s) && FitsCtx(c, RootOf(t), root, s)
  }

  ghost predicate Same(s: LinkMap, s': LinkMap, xs: set<AvlNode>) {
    forall x :: x in xs && x in s ==> x in s' && s'[x] == s[x]
  }

  // -------- moving the point of view --------

  ghost function Filled(c: Place, t: Shape): Shape
    requires !c.Top?
  {
    if c.InLeft? then Branch(t, c.node, c.bal, c.right) else Branch(c.left, c.node, c.bal, t)
  }

  ghost function Depth(c: Place): nat {
    if c.Top? then 0 else Depth(c.up) + 1
  }

  ghost function Rebal(c: Place, bal: int): Place {
    match c
    case Top => Top
    case InLeft(n, _, r, up) => InLeft(n, bal, r, up)
    case InRight(l, n, _, up) => InRight(l, n, bal, up)
  }

  lemma Zip(s: LinkMap, root: AvlNode?, c: Place, t: Shape)
    requires !c.Top?
    ensures Shaped(s, root, c, t) <==> Shaped(s, root, c.up, Filled(c, t))
    ensures Plug(c, t) == Plug(c.up, Filled(c, t))
  {
    assert OpenShape(0);
  }

  lemma {:induction false} ZipAll(s: LinkMap, root: AvlNode?, c: Place, t: Shape)
    ensures Shaped(s, root, c, t) <==> Shaped(s, root, Top, Plug(c, t))
    decreases c
  {
    assert OpenShape(0);
    if !c.Top? {
      Zip(s, root, c, t);
      ZipAll(s, root, c.up, Filled(c, t));
    }
  }

  /** Where node `n` stands in the tree `Plug(c, t)`. */
  lemma {:induction false} Locate(c: Place, t: Shape, n: AvlNode) returns (c': Place, t': Shape)
    requires n in Nodes(t)
    ensures t'.Branch? && t'.node == n && Plug(c', t') == Plug(c, t)
    decreases t
  {
    if n == t.node {
      c', t' := c, t;
    } else if n in Nodes(t.left) {
      c', t' := Locate(InLeft(t.node, t.bal, t.right, c), t.left, n);
    } else {
      c', t' := Locate(InRight(t.left, t.node, t.bal, c), t.right, n);
    }
  }

  /** Which side of its parent a node hangs on can be read from the links. */
  lemma Where(s: LinkMap, root: AvlNode?, c: Place, t: Shape)
    requires Shaped(s, root, c, t) && t.Branch?
    ensures t.node in s && s[t.node] == Link(ParentOf(c), RootOf(t.left), RootOf(t.right), t.bal)
    ensures !c.Top? ==> c.node in s && c.node != t.node && s[c.node].bal == c.bal
    ensures !c.Top? ==> (s[c.node].left == t.node <==> c.InLeft?)
    ensures c.InLeft? ==> s[c.node].right == RootOf(c.right)
    ensures c.InRight? ==> s[c.node].left == RootOf(c.left) && s[c.node].right == t.node
  {
    assert OpenShape(0);
  }

  /** What an in-order walk of `Plug(c, t)` meets when it meets `mid` in `t`. */
  ghost function Around(c: Place, mid: seq<AvlNode>): seq<AvlNode> {
    LeftPart(c) + mid + RightPart(c)
  }

  lemma AroundUp(c: Place, t: Shape)
    requires !c.Top?
    ensures Around(c, Inorder(t)) == Around(c.up, Inorder(Filled(c, t)))
  {
    if c.InLeft? {
      Regroup(LeftPart(c.up), Inorder(t), [c.node], Inorder(c.right), RightPart(c.up));
    } else {
      Regroup(LeftPart(c.up), Inorder(c.left), [c.node], Inorder(t), RightPart(c.up));
    }
  }

  /** The node above a hole and the subtree on its other side, whatever hangs in the hole. */
  lemma Above(s: LinkMap, root: AvlNode?, c: Place, t: Shape)
    requires !c.Top? && Shaped(s, root, c, t)
    ensures c.node in s && s[c.node].bal == c.bal && s[c.node].parent == ParentOf(c.up)
    ensures c.InLeft? ==> s[c.node].left == RootOf(t) && s[c.node].right == RootOf(c.right)
    ensures c.InRight? ==> s[c.node].left == RootOf(c.left) && s[c.node].right == RootOf(t)
    ensures c.InLeft? && c.right.Branch? ==> c.right.node in s && s[c.right.node].bal == c.right.bal
    ensures c.InRight? && c.left.Branch? ==> c.left.node in s && s[c.left.node].bal == c.left.bal
  {
    assert OpenShape(0);
  }

  /** The node above a hole is not in the hole, and a node is not in its own subtrees. */
  lemma Outside(s: LinkMap, root: AvlNode?, c: Place, t: Shape)
    requires Shaped(s, root, c, t) && t.Branch?
    ensures ParentOf(c) !in Nodes(t)
    ensures t.node != RootOf(t.left) && t.node != RootOf(t.right)
  {
    assert OpenShape(0);
  }

  lemma Children(s: LinkMap, root: AvlNode?, c: Place, t: Shape)
    requires Shaped(s, root, c, t) && t.Branch?
    ensures t.left.Branch? ==> t.left.node in s && s[t.left.node].parent == t.node && s[t.left.node].bal == t.left.bal
    ensures t.right.Branch? ==> t.right.node in s && s[t.right.node].parent == t.node && s[t.right.node].bal == t.right.bal
  {
    assert OpenShape(0);
    assert Fits(t.left, t.node, s) && Fits(t.right, t.node, s);
  }

  /** The links form a balanced search tree whose in-order walk is `walk`. */
  ghost predicate WholeAs(s: LinkMap, root: AvlNode?, t: Shape, walk: seq<AvlNode>) {
    && Shaped(s, root, Top, t)
    && Lacks(Top, t, 0)
    && Inorder(t) == walk
  }

  /** The least node `t1.node` of the right side of `t` is the successor of `t.node`.  When it
      has been taken out and then put where `t.node` is by then, `t.node` is out of the walk. */
  lemma ReplacedWalk(c: Place, t: Shape, c1: Place, t1: Shape, p: seq<AvlNode>, q: seq<AvlNode>)
    requires t.Branch? && t1.Branch? && t1.left == Leaf
    requires Plug(c1, t1) == Plug(c, t) && LeftPart(c1) == LeftPart(c) + Inorder(t.left) + [t.node]
    requires p + [t.node] + q == Around(c1, Inorder(t1.left) + Inorder(t1.right))
    requires Distinct(p + [t.node] + q)
    ensures p + [t1.node] + q == Around(c, Inorder(t.left) + Inorder(t.right))
  {
    PlugInorder(c, t);
    PlugInorder(c1, t1);
    SameRest(LeftPart(c), Inorder(t.left), t.node, Inorder(t.right), RightPart(c),
             t1.node, Inorder(t1.right), RightPart(c1));
    var b := Inorder(t1.right) + RightPart(c1);
    EmptyFront(LeftPart(c1), Inorder(t1.right), RightPart(c1));
    SuccessorMoved(LeftPart(c), Inorder(t.left), t.node, Inorder(t.right), RightPart(c), t1.node, b, p, q);
  }

  /** A node that is cut out of the walk is met nowhere else. */
  lemma CutOutIsGone(s: LinkMap, root: AvlNode?, c: Place, t: Shape)
    requires Shaped(s, root, c, t) && t.Branch?
    ensures t.node !in Around(c, Inorder(t.left) + Inorder(t.right))
  {
    assert OpenShape(0);
    PlugNodes(c, t);
    ApartDistinct(Plug(c, t));
    PlugInorder(c, t);
    OutIsGone(LeftPart(c), Inorder(t.left), t.node, Inorder(t.right), RightPart(c));
  }

  lemma WalkIsDistinct(s: LinkMap, root: AvlNode?, t: Shape)
    requires Shaped(s, root, Top, t)
    ensures Distinct(Inorder(t))
    ensures forall x :: x in Nodes(t) <==> x in Inorder(t)
  {
    assert OpenShape(0);
    ApartDistinct(t);
    InorderHoldsNodes(t);
  }

  lemma SplitWalk(c: Place, l: Shape, n: AvlNode, bal: int, r: Shape)
    ensures Around(c, Inorder(Branch(l, n, bal, r))) == (LeftPart(c) + Inorder(l)) + [n] + (Inorder(r) + RightPart(c))
  {
  }

  lemma WholeTree(s: LinkMap, root: AvlNode?, c: Place, t: Shape)
    requires Shaped(s, root, c, t) && Lacks(c, t, 0)
    ensures WholeAs(s, root, Plug(c, t), Around(c, Inorder(t)))
  {
    assert OpenShape(0);
    ZipAll(s, root, c, t);
    PlugBalanced(c, t);
    PlugInorder(c, t);
  }

  lemma {:induction false} FitsInside(t: Shape, parent: AvlNode?, s: LinkMap)
    requires Fits(t, parent, s)
    ensures Nodes(t) <= s.Keys
  {
    if t.Branch? {
      FitsInside(t.left, t.node, s);
      FitsInside(t.right, t.node, s);
    }
  }

  /** All nodes of the tree are linked nodes. */
  lemma ShapedInside(s: LinkMap, root: AvlNode?, c: Place, t: Shape)
    requires Shaped(s, root, c, t)
    ensures Nodes(t) <= s.Keys && CtxNodes(c) <= s.Keys
  {
    ZipAll(s, root, c, t);
    PlugNodes(c, t);
    assert Fits(Plug(c, t), null, s) by {
      assert OpenShape(0);
    }
    FitsInside(Plug(c, t), null, s);
  }

  // -------- what survives a change of links --------

  lemma {:induction false} FitsKept(t: Shape, parent: AvlNode?, s: LinkMap, s': LinkMap)
    requires Fits(t, parent, s) && Same(s, s', Nodes(t))
    ensures Fits(t, parent, s')
  {
    if t.Branch? {
      FitsKept(t.left, t.node, s, s');
      FitsKept(t.right, t.node, s, s');
    }
  }

  lemma {:induction false} FitsCtxKept(c: Place, hole: AvlNode?, root: AvlNode?, s: LinkMap, s': LinkMap)
    requires FitsCtx(c, hole, root, s) && Same(s, s', CtxNodes(c))
    ensures FitsCtx(c, hole, root, s')
    decreases c
  {
    match c
    case Top =>
    case InLeft(n, _, r, up) => FitsKept(r, n, s, s'); FitsCtxKept(up, n, root, s, s');
    case InRight(l, n, _, up) => FitsKept(l, n, s, s'); FitsCtxKept(up, n, root, s, s');
  }

  /** A subtree that is hung below another node. */
  lemma Reparented(t: Shape, was: AvlNode?, parent: AvlNode?, s: LinkMap, s': LinkMap)
    requires Apart(t) && Fits(t, was, s) && Same(s, s', Nodes(t) - {RootOf(t)})
    requires t.Branch? ==> t.node in s' && s'[t.node] == s[t.node].(parent := parent)
    ensures Fits(t, parent, s')
  {
    if t.Branch? {
      FitsKept(t.left, t.node, s, s');
      FitsKept(t.right, t.node, s, s');
    }
  }

  /** The link of the node above a hole, once `hole` hangs in it. */
  ghost function Rehung(c: Place, k: Link, hole: AvlNode?): Link {
    if c.InLeft? then k.(left := hole) else k.(right := hole)
  }

  /** A context whose hole is filled by something else. */
  lemma Refilled(c: Place, was: AvlNode?, rootWas: AvlNode?, hole: AvlNode?, root: AvlNode?, s: LinkMap, s': LinkMap)
    requires ApartCtx(c) && FitsCtx(c, was, rootWas, s) && Same(s, s', CtxNodes(c) - {ParentOf(c)})
    requires root == if c.Top? then hole else rootWas
    requires !c.Top? ==> c.node in s' && s'[c.node] == Rehung(c, s[c.node], hole)
    ensures FitsCtx(c, hole, root, s')
  {
    match c
    case Top =>
    case InLeft(n, _, r, up) => FitsKept(r, n, s, s'); FitsCtxKept(up, n, root, s, s');
    case InRight(l, n, _, up) => FitsKept(l, n, s, s'); FitsCtxKept(up, n, root, s, s');
  }

  lemma ShapedKept(s: LinkMap, s': LinkMap, root: AvlNode?, c: Place, t: Shape)
    requires Shaped(s, root, c, t) && Same(s, s', s.Keys)
    ensures Shaped(s', root, c, t)
  {
    assert OpenShape(0);
    FitsKept(t, ParentOf(c), s, s');
    FitsCtxKept(c, RootOf(t), root, s, s');
  }

  /** A tree stays when links change outside of it. */
  lemma ShapedApart(s: LinkMap, s': LinkMap, root: AvlNode?, t: Shape, x: AvlNode)
    requires Shaped(s, root, Top, t) && x !in Inorder(t) && Same(s, s', s.Keys - {x})
    ensures Shaped(s', root, Top, t)
  {
    assert OpenShape(0);
    InorderHoldsNodes(t);
    FitsKept(t, null, s, s');
  }

  /** Another balance in the node above the hole. */
  lemma Rebalanced(s: LinkMap, s': LinkMap, root: AvlNode?, c: Place, t: Shape, bal: int)
    requires !c.Top? && Shaped(s, root, c, t)
    requires c.node in s ==> s' == s[c.node := s[c.node].(bal := bal)]
    ensures Shaped(s', root, Rebal(c, bal), t)
  {
    assert OpenShape(0);
    FitsKept(t, c.node, s, s');
    if c.InLeft? {
      FitsKept(c.right, c.node, s, s');
    } else {
      FitsKept(c.left, c.node, s, s');
    }
    FitsCtxKept(c.up, c.node, root, s, s');
  }

  // -------- rotations --------

  ghost predicate CanRotateRight(s: LinkMap, n: AvlNode) {
    && n in s && s[n].left != null && s[n].left in s
    && var p, m := s[n].parent, s[n].left;
      && m != n && (p != null ==> p in s && p != n && p != m)
      && var b := s[m].right;
        b != null ==> b in s && b != n && b != m && b != p
  }

  /** What the pointer surgery of a right rotation at `n` does to the links. */
  ghost predicate RightSurgery(s: LinkMap, s': LinkMap, n: AvlNode)
    requires CanRotateRight(s, n)
  {
    var m, p, b := s[n].left, s[n].parent, s[s[n].left].right;
    var bal := s[n].bal + 1 - Min(s[m].bal, 0);
    && n in s' && s'[n] == Link(m, b, s[n].right, bal)
    && m in s' && s'[m] == Link(p, s[m].left, n, s[m].bal + 1 + Max(bal, 0))
    && (b != null ==> b in s' && s'[b] == s[b].(parent := n))
    && (p != null ==> p in s' && s'[p] == if s[p].left == n then s[p].(left := m) else s[p].(right := m))
    && Same(s, s', s.Keys - {n, m, p, b})
  }

  lemma RotatedRightFits(s: LinkMap, s': LinkMap, t: Shape, parent: AvlNode?)
    requires t.Branch? && t.left.Branch? && Apart(t) && Fits(t, parent, s)
    requires Same(s, s', Nodes(t) - {t.node, t.left.node, RootOf(t.left.right)})
    requires t.node in s' && t.left.node in s'
    requires s'[t.node] == Link(t.left.node, RootOf(t.left.right), RootOf(t.right), RotatedRight(t).right.bal)
    requires s'[t.left.node] == Link(parent, RootOf(t.left.left), t.node, RotatedRight(t).bal)
    requires t.left.right.Branch? ==> t.left.right.node in s && t.left.right.node in s'
    requires t.left.right.Branch? ==> s'[t.left.right.node] == s[t.left.right.node].(parent := t.node)
    ensures Fits(RotatedRight(t), parent, s')
  {
    var Branch(Branch(a, m, _, b), n, _, r) := t;
    assert Apart(t.left) && Fits(t.left, n, s);
    Reparented(a, m, m, s, s');
    Reparented(b, m, n, s, s');
    Reparented(r, n, n, s, s');
  }

  lemma CanRotateRightAt(s: LinkMap, root: AvlNode?, c: Place, t: Shape)
    requires Shaped(s, root, c, t) && t.Branch? && t.left.Branch?
    ensures CanRotateRight(s, t.node)
  {
    assert OpenShape(0);
    assert Apart(t.left) && Fits(t.left, t.node, s) && Fits(t.left.right, t.left.node, s);
    assert ParentOf(c) !in Nodes(t);
  }

  lemma RotatedRightShape(s: LinkMap, s': LinkMap, root: AvlNode?, c: Place, t: Shape)
    requires Shaped(s, root, c, t) && t.Branch? && t.left.Branch?
    requires CanRotateRight(s, t.node) && RightSurgery(s, s', t.node)
    ensures Shaped(s', if c.Top? then t.left.node else root, c, RotatedRight(t))
  {
    assert OpenShape(0);
    var Branch(Branch(a, m, _, b), n, _, r) := t;
    assert Apart(t.left) && Fits(t.left, n, s) && Fits(b, m, s);
    assert ParentOf(c) !in Nodes(t);
    RotatedRightSame(t);
    RotatedRightFits(s, s', t, ParentOf(c));
    Refilled(c, n, root, m, if c.Top? then m else root, s, s');
  }

  ghost predicate CanRotateLeft(s: LinkMap, n: AvlNode) {
    && n in s && s[n].right != null && s[n].right in s
    && var p, m := s[n].parent, s[n].right;
      && m != n && (p != null ==> p in s && p != n && p != m)
      && var a := s[m].left;
        a != null ==> a in s && a != n && a != m && a != p
  }

  /** What the pointer surgery of a left rotation at `n` does to the links. */
  ghost predicate LeftSurgery(s: LinkMap, s': LinkMap, n: AvlNode)
    requires CanRotateLeft(s, n)
  {
    var m, p, a := s[n].right, s[n].parent, s[s[n].right].left;
    var bal := s[n].bal - (1 + Max(s[m].bal, 0));
    && n in s' && s'[n] == Link(m, s[n].left, a, bal)
    && m in s' && s'[m] == Link(p, n, s[m].right, s[m].bal - (1 - Min(bal, 0)))
    && (a != null ==> a in s' && s'[a] == s[a].(parent := n))
    && (p != null ==> p in s' && s'[p] == if s[p].left == n then s[p].(left := m) else s[p].(right := m))
    && Same(s, s', s.Keys - {n, m, p, a})
  }

  lemma RotatedLeftFits(s: LinkMap, s': LinkMap, t: Shape, parent: AvlNode?)
    requires t.Branch? && t.right.Branch? && Apart(t) && Fits(t, parent, s)
    requires Same(s, s', Nodes(t) - {t.node, t.right.node, RootOf(t.right.left)})
    requires t.node in s' && t.right.node in s'
    requires s'[t.node] == Link(t.right.node, RootOf(t.left), RootOf(t.right.left), RotatedLeft(t).left.bal)
    requires s'[t.right.node] == Link(parent, t.node, RootOf(t.right.right), RotatedLeft(t).bal)
    requires t.right.left.Branch? ==> t.right.left.node in s && t.right.left.node in s'
    requires t.right.left.Branch? ==> s'[t.right.left.node] == s[t.right.left.node].(parent := t.node)
    ensures Fits(RotatedLeft(t), parent, s')
  {
    var Branch(l, n, _, Branch(a, m, _, b)) := t;
    assert Apart(t.right) && Fits(t.right, n, s);
    Reparented(b, m, m, s, s');
    Reparented(a, m, n, s, s');
    Reparented(l, n, n, s, s');
  }

  lemma CanRotateLeftAt(s: LinkMap, root: AvlNode?, c: Place, t: Shape)
    requires Shaped(s, root, c, t) && t.Branch? && t.right.Branch?
    ensures CanRotateLeft(s, t.node)
  {
    assert OpenShape(0);
    assert Apart(t.right) && Fits(t.right, t.node, s) && Fits(t.right.left, t.right.node, s);
    assert ParentOf(c) !in Nodes(t);
  }

  lemma RotatedLeftShape(s: LinkMap, s': LinkMap, root: AvlNode?, c: Place, t: Shape)
    requires Shaped(s, root, c, t) && t.Branch? && t.right.Branch?
    requires CanRotateLeft(s, t.node) && LeftSurgery(s, s', t.node)
    ensures Shaped(s', if c.Top? then t.right.node else root, c, RotatedLeft(t))
  {
    assert OpenShape(0);
    var Branch(l, n, _, Branch(a, m, _, b)) := t;
    assert Apart(t.right) && Fits(t.right, n, s) && Fits(a, m, s);
    assert ParentOf(c) !in Nodes(t);
    RotatedLeftSame(t);
    RotatedLeftFits(s, s', t, ParentOf(c));
    Refilled(c, n, root, m, if c.Top? then m else root, s, s');
  }

  // -------- one node in the place of another --------

  ghost predicate CanSubstitute(s: LinkMap, n: AvlNode, heir: AvlNode) {
    && n in s && heir in s && heir != n
    && var p, l, r := s[n].parent, s[n].left, s[n].right;
      && (p != null ==> p in s && p != n && p != heir && p != l && p != r)
      && (l != null ==> l in s && l != n && l != heir && l != r)
      && (r != null ==> r in s && r != n && r != heir)
  }

  /** `heir` takes over all links of `n`. */
  ghost predicate Substitution(s: LinkMap, s': LinkMap, n: AvlNode, heir: AvlNode)
    requires CanSubstitute(s, n, heir)
  {
    var p, l, r := s[n].parent, s[n].left, s[n].right;
    && heir in s' && s'[heir] == s[n]
    && (p != null ==> p in s' && s'[p] == if s[p].left == n then s[p].(left := heir) else s[p].(right := heir))
    && (l != null ==> l in s' && s'[l] == s[l].(parent := heir))
    && (r != null ==> r in s' && s'[r] == s[r].(parent := heir))
    && Same(s, s', s.Keys - {n, heir, p, l, r})
  }

  lemma CanSubstituteAt(s: LinkMap, root: AvlNode?, c: Place, t: Shape, heir: AvlNode)
    requires Shaped(s, root, c, t) && t.Branch?
    requires heir in s && heir !in Nodes(t) && heir !in CtxNodes(c)
    ensures CanSubstitute(s, t.node, heir)
  {
    assert OpenShape(0);
    assert Fits(t.left, t.node, s) && Fits(t.right, t.node, s);
    assert t.left.Branch? ==> t.left.node in Nodes(t.left);
    assert t.right.Branch? ==> t.right.node in Nodes(t.right);
    assert ParentOf(c) !in Nodes(t);
  }

  lemma SubstitutedShape(s: LinkMap, s': LinkMap, root: AvlNode?, c: Place, t: Shape, heir: AvlNode)
    requires Shaped(s, root, c, t) && t.Branch?
    requires heir !in Nodes(t) && heir !in CtxNodes(c)
    requires CanSubstitute(s, t.node, heir) && Substitution(s, s', t.node, heir)
    ensures Shaped(s', if c.Top? then heir else root, c, t.(node := heir))
  {
    assert OpenShape(0);
    var Branch(l, n, _, r) := t;
    assert ParentOf(c) !in Nodes(t);
    Reparented(l, n, heir, s, s');
    Reparented(r, n, heir, s, s');
    Refilled(c, n, root, heir, if c.Top? then heir else root, s, s');
  }

  // -------- the bottom of the tree --------

  /** A new node without children hangs in an empty place; the node above gets balance `bal`. */
  lemma Attached(s: LinkMap, s': LinkMap, root: AvlNode?, c: Place, n: AvlNode, bal: int)
    requires !c.Top? && Shaped(s, root, c, Leaf) && n !in CtxNodes(c)
    requires n in s' && s'[n] == Link(c.node, null, null, 0)
    requires c.node in s ==> c.node in s' && s'[c.node] == Rehung(c, s[c.node], n).(bal := bal)
    requires Same(s, s', s.Keys - {n, c.node})
    ensures Shaped(s', root, Rebal(c, bal), Branch(Leaf, n, 0, Leaf))
  {
    assert OpenShape(0);
    FitsCtxKept(c.up, c.node, root, s, s');
    if c.InLeft? {
      FitsKept(c.right, c.node, s, s');
    } else {
      FitsKept(c.left, c.node, s, s');
    }
      var u := Branch(Leaf, n, 0, Leaf);
    assert Apart(u) && Nodes(u) == {n} && Fits(u, c.node, s');
    assert FitsCtx(Rebal(c, bal), n, root, s');
    assert ApartCtx(Rebal(c, bal)) && CtxNodes(Rebal(c, bal)) == CtxNodes(c);
  }

  /** A node is cut out and its place is taken by `x`, one of its subtrees. */
  lemma CutOut(s: LinkMap, s': LinkMap, root: AvlNode?, c: Place, t: Shape, x: Shape)
    requires Shaped(s, root, c, t) && t.Branch?
    requires (x == t.left && t.right == Leaf) || (x == t.right && t.left == Leaf)
    requires Same(s, s', s.Keys - {RootOf(x), ParentOf(c)})
    requires x.Branch? ==> x.node in s && x.node in s' && s'[x.node] == s[x.node].(parent := ParentOf(c))
    requires !c.Top? && c.node in s ==> c.node in s' && s'[c.node] == Rehung(c, s[c.node], RootOf(x))
    ensures Shaped(s', if c.Top? then RootOf(x) else root, c, x)
  {
    assert OpenShape(0);
    assert ParentOf(c) !in Nodes(t);
    Reparented(x, t.node, ParentOf(c), s, s');
    Refilled(c, t.node, root, RootOf(x), if c.Top? then RootOf(x) else root, s, s');
  }
}
