/** The shape of a search tree, and the place of a subtree in it, as values.
    The heap of module Avl is described by them; everything here is about shapes only. */
module GhostTree {
  import opened Sequences

  /** `bal` is the number stored in the node. */
  datatype Tree<N> =
    | Leaf
    | Branch(left: Tree<N>, node: N, bal: int, right: Tree<N>)

  /** A tree with one subtree missing, read from the hole upwards. */
  datatype Ctx<N> =
    | Top
    | InLeft(node: N, bal: int, right: Tree<N>, up: Ctx<N>)
    | InRight(left: Tree<N>, node: N, bal: int, up: Ctx<N>)

  ghost function Nodes<N>(t: Tree<N>): set<N> {
    match t
    case Leaf => {}
    case Branch(l, n, _, r) => Nodes(l) + {n} + Nodes(r)
  }

  ghost function CtxNodes<N>(c: Ctx<N>): set<N> {
    match c
    case Top => {}
    case InLeft(n, _, r, up) => {n} + Nodes(r) + CtxNodes(up)
    case InRight(l, n, _, up) => Nodes(l) + {n} + CtxNodes(up)
  }

  /** No node stands at two places. */
  ghost predicate Apart<N>(t: Tree<N>) {
    match t
    case Leaf => true
    case Branch(l, n, _, r) =>
      Apart(l) && Apart(r) && n !in Nodes(l) && n !in Nodes(r) && Nodes(l) !! Nodes(r)
  }

  ghost predicate ApartCtx<N>(c: Ctx<N>) {
    match c
    case Top => true
    case InLeft(n, _, r, up) =>
      Apart(r) && ApartCtx(up) && n !in Nodes(r) && n !in CtxNodes(up) && Nodes(r) !! CtxNodes(up)
    case InRight(l, n, _, up) =>
      Apart(l) && ApartCtx(up) && n !in Nodes(l) && n !in CtxNodes(up) && Nodes(l) !! CtxNodes(up)
  }

  ghost function Inorder<N>(t: Tree<N>): seq<N> {
    match t
    case Leaf => []
    case Branch(l, n, _, r) => Inorder(l) + [n] + Inorder(r)
  }

  /** What an in-order walk meets before and after the hole. */
  ghost function LeftPart<N>(c: Ctx<N>): seq<N> {
    match c
    case Top => []
    case InLeft(_, _, _, up) => LeftPart(up)
    case InRight(l, n, _, up) => LeftPart(up) + Inorder(l) + [n]
  }

  ghost function RightPart<N>(c: Ctx<N>): seq<N> {
    match c
    case Top => []
    case InLeft(n, _, r, up) => [n] + Inorder(r) + RightPart(up)
    case InRight(_, _, _, up) => RightPart(up)
  }

  ghost function Plug<N>(c: Ctx<N>, t: Tree<N>): Tree<N>
    decreases c
  {
    match c
    case Top => t
    case InLeft(n, b, r, up) => Plug(up, Branch(t, n, b, r))
    case InRight(l, n, b, up) => Plug(up, Branch(l, n, b, t))
  }

  function Max(a: int, b: int): int { if a > b then a else b }

  function Min(a: int, b: int): int { if a < b then a else b }

  ghost function Height<N>(t: Tree<N>): nat {
    match t
    case Leaf => 0
    case Branch(l, _, _, r) => 1 + Max(Height(l), Height(r))
  }

  /** Every stored number is the height of the right side minus that of the left side,
      and none exceeds one. */
  ghost predicate Balanced<N>(t: Tree<N>) {
    match t
    case Leaf => true
    case Branch(l, _, b, r) =>
      Balanced(l) && Balanced(r) && b == Height(r) - Height(l) && -1 <= b <= 1
  }

  /** The same for what lies around a hole, for a hole of height `h`. */
  ghost predicate BalancedCtx<N>(c: Ctx<N>, h: nat) {
    match c
    case Top => true
    case InLeft(_, b, r, up) =>
      Balanced(r) && b == Height(r) - h && -1 <= b <= 1 && BalancedCtx(up, 1 + Max(h, Height(r)))
    case InRight(l, _, b, up) =>
      Balanced(l) && b == h - Height(l) && -1 <= b <= 1 && BalancedCtx(up, 1 + Max(Height(l), h))
  }

  lemma InorderHoldsNode<N>(t: Tree<N>, x: N)
    ensures x in Nodes(t) <==> x in Inorder(t)
  {
    InorderHoldsNodes(t);
  }

  lemma {:induction false} ApartDistinct<N>(t: Tree<N>)
    requires Apart(t)
    ensures Distinct(Inorder(t))
  {
    if t.Branch? {
      ApartDistinct(t.left);
      ApartDistinct(t.right);
      InorderHoldsNodes(t.left);
      InorderHoldsNodes(t.right);
      var l, r, s := Inorder(t.left), Inorder(t.right), Inorder(t);
      forall i, j | 0 <= i < j < |s|
        ensures s[i] != s[j]
      {
        var x, y := s[i], s[j];
        assert i < |l| ==> x == l[i] && x in l;
        assert i > |l| ==> x == r[i - |l| - 1];
        assert j < |l| ==> y == l[j];
        assert j > |l| ==> y == r[j - |l| - 1] && y in r;
        InorderHoldsNode(t.left, x);
        InorderHoldsNode(t.right, y);
      }
    }
  }

  /** Two ways to cut a walk just behind the same prefix. */
  lemma SameRest<A>(p: seq<A>, l: seq<A>, x: A, r: seq<A>, q: seq<A>, y: A, r': seq<A>, q': seq<A>)
    requires p + (l + [x] + r) + q == (p + l + [x]) + ([] + [y] + r') + q'
    ensures r + q == [y] + (r' + q')
  {
    var w, k := p + (l + [x] + r) + q, |p + l + [x]|;
    assert w[k..] == r + q;
    assert ((p + l + [x]) + ([] + [y] + r') + q')[k..] == [y] + (r' + q');
  }

  lemma EmptyFront<A>(p: seq<A>, r: seq<A>, q: seq<A>)
    ensures p + ([] + r) + q == p + (r + q)
  {
  }

  /** Taking the successor `y` of `x` out of a walk and putting it where `x` stands. */
  lemma SuccessorMoved<A>(p: seq<A>, l: seq<A>, x: A, r: seq<A>, q: seq<A>, y: A, b: seq<A>, p': seq<A>, q': seq<A>)
    requires r + q == [y] + b
    requires p' + [x] + q' == (p + l + [x]) + b
    requires Distinct(p' + [x] + q')
    ensures p' + [y] + q' == p + (l + r) + q
  {
    assert (p + l + [x]) + b == (p + l) + [x] + b;
    SplitOnce(p + l, x, b, p', q');
    assert p' + [y] + q' == (p + l) + ([y] + b);
    assert p + (l + r) + q == (p + l) + (r + q);
  }

  /** What is left of a walk after taking out `x` does not hold `x`. */
  lemma OutIsGone<A>(p: seq<A>, l: seq<A>, x: A, r: seq<A>, q: seq<A>)
    requires Distinct(p + (l + [x] + r) + q)
    ensures x !in p + (l + r) + q
  {
    var w, k := p + (l + [x] + r) + q, |p + l|;
    var v := p + (l + r) + q;
    assert w[k] == x;
    assert forall i :: 0 <= i < k ==> w[i] == v[i];
    assert forall i :: k <= i < |v| ==> w[i + 1] == v[i];
  }

  /** An element that occurs once splits a sequence in one way only. */
  lemma SplitOnceBy<A>(a: seq<A>, x: A, b: seq<A>, p: seq<A>, q: seq<A>)
    requires a + [x] + b == p + [x] + q
    requires x !in a && x !in b
    ensures a == p && b == q
  {
    var w := a + [x] + b;
    assert forall i :: 0 <= i < |a| ==> w[i] == a[i] && a[i] in a;
    assert forall i :: |a| < i < |w| ==> w[i] == b[i - |a| - 1] && b[i - |a| - 1] in b;
    assert w[|p|] == x;
    assert a == w[..|a|] && p == w[..|p|];
    assert b == w[|a| + 1..] && q == w[|p| + 1..];
  }

  lemma SplitOnce<A>(a: seq<A>, x: A, b: seq<A>, p: seq<A>, q: seq<A>)
    requires a + [x] + b == p + [x] + q
    requires Distinct(a + [x] + b)
    ensures a == p && b == q
  {
    var w := a + [x] + b;
    assert w[|a|] == x;
    assert forall i :: 0 <= i < |a| ==> w[i] == a[i];
    assert forall i :: 0 <= i < |b| ==> w[|a| + 1 + i] == b[i];
    SplitOnceBy(a, x, b, p, q);
  }

  lemma {:induction false} InorderHoldsNodes<N>(t: Tree<N>)
    ensures forall x :: x in Nodes(t) <==> x in Inorder(t)
  {
    if t.Branch? {
      InorderHoldsNodes(t.left);
      InorderHoldsNodes(t.right);
    }
  }

  lemma Regroup<N>(a: seq<N>, b: seq<N>, c: seq<N>, d: seq<N>, e: seq<N>)
    ensures a + (b + c + d) + e == a + b + (c + d + e)
    ensures a + (b + c + d) + e == (a + b + c) + d + e
  {
  }

  lemma {:induction false} PlugInorder<N>(c: Ctx<N>, t: Tree<N>)
    ensures Inorder(Plug(c, t)) == LeftPart(c) + Inorder(t) + RightPart(c)
    decreases c
  {
    match c
    case Top =>
    case InLeft(n, b, r, up) =>
      PlugInorder(up, Branch(t, n, b, r));
      Regroup(LeftPart(up), Inorder(t), [n], Inorder(r), RightPart(up));
    case InRight(l, n, b, up) =>
      PlugInorder(up, Branch(l, n, b, t));
      Regroup(LeftPart(up), Inorder(l), [n], Inorder(t), RightPart(up));
  }

  lemma {:induction false} PlugNodes<N>(c: Ctx<N>, t: Tree<N>)
    ensures Nodes(Plug(c, t)) == CtxNodes(c) + Nodes(t)
    ensures Apart(Plug(c, t)) <==> Apart(t) && ApartCtx(c) && Nodes(t) !! CtxNodes(c)
    decreases c
  {
    match c
    case Top =>
    case InLeft(n, b, r, up) => PlugNodes(up, Branch(t, n, b, r));
    case InRight(l, n, b, up) => PlugNodes(up, Branch(l, n, b, t));
  }

  lemma {:induction false} PlugBalanced<N>(c: Ctx<N>, t: Tree<N>)
    ensures Balanced(Plug(c, t)) <==> Balanced(t) && BalancedCtx(c, Height(t))
    decreases c
  {
    match c
    case Top =>
    case InLeft(n, b, r, up) => PlugBalanced(up, Branch(t, n, b, r));
    case InRight(l, n, b, up) => PlugBalanced(up, Branch(l, n, b, t));
  }

  /** The rotations, with the balance arithmetic of the source. */
  ghost function RotatedRight<N>(t: Tree<N>): Tree<N>
    requires t.Branch? && t.left.Branch?
  {
    var Branch(Branch(a, m, bm, b), n, bn, r) := t;
    var bn' := bn + 1 - Min(bm, 0);
    Branch(a, m, bm + 1 + Max(bn', 0), Branch(b, n, bn', r))
  }

  ghost function RotatedLeft<N>(t: Tree<N>): Tree<N>
    requires t.Branch? && t.right.Branch?
  {
    var Branch(l, n, bn, Branch(a, m, bm, b)) := t;
    var bn' := bn - (1 + Max(bm, 0));
    Branch(Branch(l, n, bn', a), m, bm - (1 - Min(bn', 0)), b)
  }

  lemma RotatedRightSame<N>(t: Tree<N>)
    requires t.Branch? && t.left.Branch?
    ensures Inorder(RotatedRight(t)) == Inorder(t)
    ensures Nodes(RotatedRight(t)) == Nodes(t)
    ensures Apart(t) ==> Apart(RotatedRight(t))
  {
    var Branch(Branch(a, m, _, b), n, _, r) := t;
    assert Inorder(t) == Inorder(a) + [m] + (Inorder(b) + [n] + Inorder(r));
    assert Nodes(t.left) == Nodes(a) + {m} + Nodes(b);
    assert Apart(t) ==> Apart(t.left);
  }

  lemma RotatedLeftSame<N>(t: Tree<N>)
    requires t.Branch? && t.right.Branch?
    ensures Inorder(RotatedLeft(t)) == Inorder(t)
    ensures Nodes(RotatedLeft(t)) == Nodes(t)
    ensures Apart(t) ==> Apart(RotatedLeft(t))
  {
    var Branch(l, n, _, Branch(a, m, _, b)) := t;
    assert Inorder(t) == (Inorder(l) + [n] + Inorder(a)) + [m] + Inorder(b);
    assert Nodes(t.right) == Nodes(a) + {m} + Nodes(b);
    assert Apart(t) ==> Apart(t.right);
  }

  /** The double rotations. */
  ghost function RotatedLeftRight<N>(t: Tree<N>): Tree<N>
    requires t.Branch? && t.left.Branch? && t.left.right.Branch?
  {
    RotatedRight(Branch(RotatedLeft(t.left), t.node, t.bal, t.right))
  }

  ghost function RotatedRightLeft<N>(t: Tree<N>): Tree<N>
    requires t.Branch? && t.right.Branch? && t.right.left.Branch?
  {
    RotatedLeft(Branch(t.left, t.node, t.bal, RotatedRight(t.right)))
  }

  // -------- repairing the balance --------

  /** The place is balanced when a subtree of height `h` comes into its hole. */
  ghost predicate Expects<N>(c: Ctx<N>, h: int) {
    h >= 0 && BalancedCtx(c, h) == true
  }

  /** `t` is balanced and `d` levels lower than its place expects. */
  ghost predicate Lacks<N>(c: Ctx<N>, t: Tree<N>, d: int) {
    Balanced(t) == true && Expects(c, Height(t) + d)
  }

  /** Both sides are balanced, but one is two levels higher than the other. */
  ghost predicate LeftHeavy<N>(t: Tree<N>) {
    && t.Branch? && t.left.Branch? && t.bal == -2
    && Balanced(t.left) == true && Balanced(t.right) == true && Height(t.left) == Height(t.right) + 2
  }

  ghost predicate RightHeavy<N>(t: Tree<N>) {
    && t.Branch? && t.right.Branch? && t.bal == 2
    && Balanced(t.left) == true && Balanced(t.right) == true && Height(t.right) == Height(t.left) + 2
  }

  /** One rotation repairs a tree whose high side does not lean inwards. */
  lemma SingleRightBalances<N>(t: Tree<N>)
    requires LeftHeavy(t) && t.left.bal <= 0
    ensures Balanced(RotatedRight(t))
    ensures Height(RotatedRight(t)) == Height(t.right) + (if t.left.bal == 0 then 3 else 2)
  {
  }

  lemma SingleLeftBalances<N>(t: Tree<N>)
    requires RightHeavy(t) && t.right.bal >= 0
    ensures Balanced(RotatedLeft(t))
    ensures Height(RotatedLeft(t)) == Height(t.left) + (if t.right.bal == 0 then 3 else 2)
  {
  }

  /** Otherwise the high side is rotated outwards first. */
  lemma LeftRightBalances<N>(t: Tree<N>)
    requires LeftHeavy(t) && t.left.bal > 0
    ensures t.left.right.Branch?
    ensures Balanced(RotatedLeftRight(t)) && Height(RotatedLeftRight(t)) == Height(t.right) + 2
    ensures Inorder(RotatedLeftRight(t)) == Inorder(t)
  {
    assert Balanced(t.left.right);
    LeftRightHeights(t);
    RotatedLeftSame(t.left);
    RotatedRightSame(Branch(RotatedLeft(t.left), t.node, t.bal, t.right));
  }

  lemma LeftRightHeights<N>(t: Tree<N>)
    requires LeftHeavy(t) && t.left.bal > 0 && t.left.right.Branch?
    ensures Balanced(RotatedLeftRight(t)) && Height(RotatedLeftRight(t)) == Height(t.right) + 2
  {
    assert Balanced(t.left) && Balanced(t.left.right);
  }

  lemma RightLeftBalances<N>(t: Tree<N>)
    requires RightHeavy(t) && t.right.bal < 0
    ensures t.right.left.Branch?
    ensures Balanced(RotatedRightLeft(t)) && Height(RotatedRightLeft(t)) == Height(t.left) + 2
    ensures Inorder(RotatedRightLeft(t)) == Inorder(t)
  {
    assert Balanced(t.right.left);
    RightLeftHeights(t);
    RotatedRightSame(t.right);
    RotatedLeftSame(Branch(t.left, t.node, t.bal, RotatedRight(t.right)));
  }

  lemma RightLeftHeights<N>(t: Tree<N>)
    requires RightHeavy(t) && t.right.bal < 0 && t.right.left.Branch?
    ensures Balanced(RotatedRightLeft(t)) && Height(RotatedRightLeft(t)) == Height(t.left) + 2
  {
    assert Balanced(t.right) && Balanced(t.right.left);
  }

  /** The subtree in a hole has grown by one level: what is left to do above it. */
  lemma GrewLeft<N>(c: Ctx<N>, t: Tree<N>)
    requires c.InLeft? && t.Branch? && Lacks(c, t, -1)
    ensures var u := Branch(t, c.node, c.bal - 1, c.right);
            && (c.bal == 1 ==> Lacks(c.up, u, 0))
            && (c.bal == 0 ==> Lacks(c.up, u, -1))
            && (c.bal == -1 ==> LeftHeavy(u) && Expects(c.up, Height(c.right) + 2))
    ensures -1 <= c.bal <= 1
  {
  }

  lemma GrewRight<N>(c: Ctx<N>, t: Tree<N>)
    requires c.InRight? && t.Branch? && Lacks(c, t, -1)
    ensures var u := Branch(c.left, c.node, c.bal + 1, t);
            && (c.bal == -1 ==> Lacks(c.up, u, 0))
            && (c.bal == 0 ==> Lacks(c.up, u, -1))
            && (c.bal == 1 ==> RightHeavy(u) && Expects(c.up, Height(c.left) + 2))
    ensures -1 <= c.bal <= 1
  {
  }

  /** The subtree in a hole has shrunk by one level. */
  lemma ShrankLeft<N>(c: Ctx<N>, t: Tree<N>)
    requires c.InLeft? && Lacks(c, t, 1)
    ensures var u := Branch(t, c.node, c.bal + 1, c.right);
            && (c.bal == -1 ==> Lacks(c.up, u, 1))
            && (c.bal == 0 ==> Lacks(c.up, u, 0))
            && (c.bal == 1 ==> RightHeavy(u) && Expects(c.up, Height(t) + 3))
    ensures -1 <= c.bal <= 1
  {
  }

  lemma ShrankRight<N>(c: Ctx<N>, t: Tree<N>)
    requires c.InRight? && Lacks(c, t, 1)
    ensures var u := Branch(c.left, c.node, c.bal - 1, t);
            && (c.bal == 1 ==> Lacks(c.up, u, 1))
            && (c.bal == 0 ==> Lacks(c.up, u, 0))
            && (c.bal == -1 ==> LeftHeavy(u) && Expects(c.up, Height(t) + 3))
    ensures -1 <= c.bal <= 1
  {
  }

  /** A new leaf fills the lower side of a node, or makes the node one level higher. */
  lemma LeafOnTheLeft<N>(c: Ctx<N>, t: Tree<N>, x: N)
    requires t.Branch? && t.left == Leaf && Lacks(c, t, 0)
    ensures t.bal == 1 || (t.bal == 0 && t.right == Leaf)
    ensures var u := Branch(Branch(Leaf, x, 0, Leaf), t.node, t.bal - 1, t.right);
            Lacks(c, u, if t.bal == 1 then 0 else -1)
  {
  }

  lemma LeafOnTheRight<N>(c: Ctx<N>, t: Tree<N>, x: N)
    requires t.Branch? && t.right == Leaf && Lacks(c, t, 0)
    ensures t.bal == -1 || (t.bal == 0 && t.left == Leaf)
    ensures var u := Branch(t.left, t.node, t.bal + 1, Branch(Leaf, x, 0, Leaf));
            Lacks(c, u, if t.bal == -1 then 0 else -1)
  {
  }

  // -------- how high a balanced tree can be --------

  function Fib(n: nat): nat {
    if n < 2 then n else Fib(n - 1) + Fib(n - 2)
  }

  function Pow2(n: nat): nat {
    if n == 0 then 1 else 2 * Pow2(n - 1)
  }

  lemma {:induction false} FibGrows(n: nat)
    ensures Fib(n + 2) >= Pow2(n / 2)
    ensures Fib(n + 1) <= Fib(n + 2)
  {
    if n >= 2 {
      FibGrows(n - 2);
      FibGrows(n - 1);
      assert (n - 2) / 2 == n / 2 - 1;
    }
  }

  /** A balanced tree is at least as full as the Fibonacci tree of its height. */
  lemma {:induction false} FullEnough<N>(t: Tree<N>)
    requires Balanced(t)
    ensures |Inorder(t)| + 1 >= Fib(Height(t) + 2)
  {
    if t.Branch? {
      FullEnough(t.left);
      FullEnough(t.right);
      var hl, hr, h: nat := Height(t.left), Height(t.right), Height(t);
      assert Fib(h + 2) == Fib(h + 1) + Fib(h);
      FibGrows(h - 1);
      assert (hl + 1 == h && (hr + 1 == h || hr + 2 == h)) || (hr + 1 == h && hl + 2 == h);
    }
  }

  /** So its height is at most twice the binary logarithm of its size. */
  lemma HeightIsLogarithmic<N>(t: Tree<N>)
    requires Balanced(t)
    ensures Pow2(Height(t) / 2) <= |Inorder(t)| + 1
  {
    FullEnough(t);
    FibGrows(Height(t));
  }

  lemma {:induction false} Pow2Monotone(a: nat, b: nat)
    requires a <= b
    ensures Pow2(a) <= Pow2(b)
    decreases b
  {
    if a < b {
      Pow2Monotone(a, b - 1);
    }
  }
}
