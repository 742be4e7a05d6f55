/** What Tree.Valid says of the tree as a whole, in terms of an independent recursive definition. */
module RbShape {
  import opened RbTree
  import RbWalk

  /** The shape reached from a node by following child pointers. */
  datatype Shape = Leaf | Branch(left: Shape, node: Node, color: Color, right: Shape)

  function InOrder(s: Shape): seq<Node> {
    match s
    case Leaf => []
    case Branch(l, n, _, r) => InOrder(l) + [n] + InOrder(r)
  }

  function NodesOf(s: Shape): set<Node> {
    match s
    case Leaf => {}
    case Branch(l, n, _, r) => NodesOf(l) + {n} + NodesOf(r)
  }

  predicate RedRoot(s: Shape) {
    s.Branch? && s.color == Red
  }

  /** No red node has a red child. */
  predicate NoRedRed(s: Shape) {
    match s
    case Leaf => true
    case Branch(l, _, c, r) => NoRedRed(l) && NoRedRed(r) && (c == Red ==> !RedRoot(l) && !RedRoot(r))
  }

  /** The number of black nodes on each path from the root of `s` to a leaf. */
  ghost function BlackCounts(s: Shape): set<int> {
    match s
    case Leaf => {0}
    case Branch(l, _, c, r) => set b | b in BlackCounts(l) + BlackCounts(r) :: Weight(c) + b
  }

  function Height(s: Shape): nat {
    match s
    case Leaf => 0
    case Branch(l, _, _, r) => 1 + if Height(l) > Height(r) then Height(l) else Height(r)
  }

  /** `s` lies in memory below the pointer `n`, and every node points back to its parent. */
  ghost predicate Stored(s: Shape, n: Node?, parent: Node?)
    reads NodesOf(s)
  {
    match s
    case Leaf => n == null
    case Branch(l, m, c, r) =>
      && n == m && m.parent == parent && m.color == c
      && Stored(l, m.left, m) && Stored(r, m.right, m)
  }

  ghost predicate RedBlackShape(s: Shape) {
    && NoRedRed(s) && !RedRoot(s)
    && exists h :: BlackCounts(s) == {h}
  }

  /** The shape in memory below `n`. */
  ghost function ShapeAt(t: Tree, n: Node?): Shape
    requires t.Linked() && (n != null ==> n in t.nodes)
    reads t, t.nodes
    decreases if n == null then 0 else n.hi - n.lo
  {
    if n == null then Leaf
    else
      assert t.LinkedAt(n);
      assert n.left != null ==> t.LinkedAt(n.left);
      assert n.right != null ==> t.LinkedAt(n.right);
      Branch(ShapeAt(t, n.left), n, n.color, ShapeAt(t, n.right))
  }

  lemma {:induction false} ShapeOrder(t: Tree, n: Node)
    requires t.Linked() && n in t.nodes
    ensures 0 <= n.lo < n.hi <= |t.order|
    ensures InOrder(ShapeAt(t, n)) == t.order[n.lo..n.hi]
    decreases n.hi - n.lo
  {
    assert t.LinkedAt(n);
    if n.left != null {
      ShapeOrder(t, n.left);
    }
    if n.right != null {
      ShapeOrder(t, n.right);
    }
    SliceAround(t.order, n.lo, n.pos, n.hi);
  }

  lemma SliceAround(s: seq<Node>, lo: nat, pos: nat, hi: nat)
    requires lo <= pos < hi <= |s|
    ensures s[lo..hi] == s[lo..pos] + [s[pos]] + s[pos + 1..hi]
  {
  }

  lemma {:induction false} ShapeStored(t: Tree, n: Node)
    requires t.Linked() && n in t.nodes
    ensures Stored(ShapeAt(t, n), n, n.parent)
    decreases n.hi - n.lo
  {
    assert t.LinkedAt(n);
    if n.left != null {
      ShapeStored(t, n.left);
    }
    if n.right != null {
      ShapeStored(t, n.right);
    }
  }

  lemma {:induction false} ShapeColors(t: Tree, n: Node)
    requires t.Valid() && n in t.nodes
    ensures NoRedRed(ShapeAt(t, n))
    decreases n.hi - n.lo
  {
    assert t.RedBlackAt(n, null);
    if n.left != null {
      ShapeColors(t, n.left);
    }
    if n.right != null {
      ShapeColors(t, n.right);
    }
  }

  /** If all paths through either child cross `h` black nodes, so do all paths below the parent. */
  lemma BranchCounts(l: Shape, n: Node, c: Color, r: Shape, h: int)
    requires BlackCounts(l) == {h} && BlackCounts(r) == {h}
    ensures BlackCounts(Branch(l, n, c, r)) == {Weight(c) + h}
  {
    assert BlackCounts(l) + BlackCounts(r) == {h};
    assert h in BlackCounts(l) + BlackCounts(r);
    assert Weight(c) + h in BlackCounts(Branch(l, n, c, r));
  }

  lemma {:induction false} ShapeHeights(t: Tree, n: Node?)
    requires t.Valid() && (n != null ==> n in t.nodes)
    ensures BlackCounts(ShapeAt(t, n)) == {BlackHeight(n)}
    decreases if n == null then 0 else n.hi - n.lo
  {
    if n == null {
      assert BlackCounts(Leaf) == {0};
    } else {
      hide BlackCounts;
      assert t.RedBlackAt(n, null);
      ShapeHeights(t, n.left);
      ShapeHeights(t, n.right);
      BranchCounts(ShapeAt(t, n.left), n, n.color, ShapeAt(t, n.right), BlackHeight(n.left));
    }
  }

  /** A valid tree is a red-black tree in the usual sense: linked consistently in both directions, root
      black, no red node with a red child, equally many black nodes on every path; and `order` is the
      in-order sequence that following its child pointers yields. */
  lemma ValidIsRedBlack(t: Tree)
    requires t.Valid()
    ensures var s := ShapeAt(t, t.root);
            Stored(s, t.root, null) && RedBlackShape(s) && InOrder(s) == t.order
    ensures t.root != null ==> t.root.color == Black && t.root.parent == null
    ensures forall n :: n in t.nodes ==>
              && (n.left != null ==> n.left.parent == n && (n.color == Black || n.left.color == Black))
              && (n.right != null ==> n.right.parent == n && (n.color == Black || n.right.color == Black))
  {
    forall n | n in t.nodes
      ensures n.left != null ==> n.left.parent == n && (n.color == Black || n.left.color == Black)
      ensures n.right != null ==> n.right.parent == n && (n.color == Black || n.right.color == Black)
    {
      assert t.RedBlackAt(n, null);
    }
    ShapeHeights(t, t.root);
    if t.root != null {
      ShapeOrder(t, t.root);
      ShapeStored(t, t.root);
      ShapeColors(t, t.root);
    }
  }

  /** The black nodes from `n` up to the root. */
  ghost function BlacksUp(t: Tree, n: Node): set<Node>
    requires t.Linked() && n in t.nodes
    reads t, t.nodes
  {
    set a | a in t.nodes && (a in t.PathUp(n) || a == t.root) && a.color == Black
  }

  lemma {:induction false} BlacksUpSize(t: Tree, n: Node)
    requires t.Valid() && n in t.nodes
    ensures t.root != null && |BlacksUp(t, n)| + n.bh - Weight(n.color) == t.root.bh
    decreases |t.order| - (n.hi - n.lo)
  {
    assert t.LinkedAt(n);
    if n.parent == null {
      assert BlacksUp(t, n) == if n.color == Black then {n} else {};
    } else {
      var p := n.parent;
      t.Nested(n);
      assert t.RedBlackAt(p, null);
      BlacksUpSize(t, p);
      RbWalk.PathContains(t, p);
      assert n !in BlacksUp(t, p);
      assert BlacksUp(t, n) == BlacksUp(t, p) + if n.color == Black then {n} else {};
    }
  }

  /** Where a child is missing, equally many black nodes lie on the way up, wherever that is in the tree. */
  lemma EqualBlacks(t: Tree, m: Node, n: Node)
    requires t.Valid() && m in t.nodes && n in t.nodes
    requires (m.left == null || m.right == null) && (n.left == null || n.right == null)
    ensures |set a | a in t.nodes && (a in t.PathUp(m) || a == t.root) && a.color == Black| ==
            |set a | a in t.nodes && (a in t.PathUp(n) || a == t.root) && a.color == Black|
  {
    BlacksUpSize(t, m);
    BlacksUpSize(t, n);
    assert t.RedBlackAt(m, null);
    assert t.RedBlackAt(n, null);
  }

  // ---------- logarithmic height ----------

  function Pow2(n: nat): (p: nat)
    ensures p >= 1
  {
    if n == 0 then 1 else 2 * Pow2(n - 1)
  }

  lemma {:induction false} Pow2Sum(a: nat, b: nat)
    ensures Pow2(a + b) == Pow2(a) * Pow2(b) && Pow2(1) == 2
  {
    if a > 0 {
      Pow2Sum(a - 1, b);
    }
  }

  /** A subtree of black height h holds at least 2^h - 1 nodes. */
  lemma {:induction false} SizeFromHeight(t: Tree, n: Node)
    requires t.Valid() && n in t.nodes
    ensures n.bh >= 0 && n.lo < n.hi && Pow2(n.bh) <= n.hi - n.lo + 1
    decreases n.hi - n.lo
  {
    assert t.RedBlackAt(n, null);
    if n.left != null {
      SizeFromHeight(t, n.left);
    }
    if n.right != null {
      SizeFromHeight(t, n.right);
    }
  }

  /** A black node of black height h has at most 2h nodes on any way down, a red one 2h + 1. */
  ghost function Reach(n: Node?): int
    reads n
  {
    2 * BlackHeight(n) + if IsRed(n) then 1 else 0
  }

  lemma {:induction false} HeightFromReach(t: Tree, n: Node?)
    requires t.Valid() && (n != null ==> n in t.nodes)
    ensures Height(ShapeAt(t, n)) <= Reach(n)
    decreases if n == null then 0 else n.hi - n.lo
  {
    if n != null {
      assert t.RedBlackAt(n, null);
      HeightFromReach(t, n.left);
      HeightFromReach(t, n.right);
    }
  }

  /** No node lies deeper than the height says. */
  lemma {:induction false} DepthBelowHeight(t: Tree, n: Node)
    requires t.Linked() && n in t.nodes
    ensures t.root != null && |t.PathUp(n)| + Height(ShapeAt(t, n)) <= Height(ShapeAt(t, t.root))
    ensures Height(ShapeAt(t, n)) > 0
    decreases |t.order| - (n.hi - n.lo)
  {
    assert t.LinkedAt(n);
    t.Nested(n);
    if n.parent != null {
      assert t.LinkedAt(n.parent);
      DepthBelowHeight(t, n.parent);
    }
  }

  /** The height h of a valid tree of n nodes satisfies h <= 2 * log2(n + 1), and no path from the root to a node has
      more than h nodes. */
  lemma LogarithmicHeight(t: Tree)
    requires t.Valid()
    ensures var n, h := |t.order|, Height(ShapeAt(t, t.root));
            Pow2(h) <= (n + 1) * (n + 1)
    ensures forall n :: n in t.nodes ==> |t.PathUp(n)| + 1 <= Height(ShapeAt(t, t.root))
  {
    forall n | n in t.nodes
      ensures |t.PathUp(n)| + 1 <= Height(ShapeAt(t, t.root))
    {
      DepthBelowHeight(t, n);
    }
    HeightFromReach(t, t.root);
    if t.root != null {
      SizeFromHeight(t, t.root);
      ReachBound(Height(ShapeAt(t, t.root)), t.root.bh, |t.order|);
    }
  }

  lemma {:induction false} Pow2Monotone(a: nat, b: nat)
    requires a <= b
    ensures Pow2(a) <= Pow2(b)
  {
    Pow2Sum(b - a, a);
  }

  lemma SquareMonotone(x: nat, y: nat)
    requires x <= y
    ensures x * x <= y * y
  {
    assert x * x <= x * y;
    assert x * y <= y * y;
  }

  lemma ReachBound(h: nat, bh: nat, n: nat)
    requires h <= 2 * bh && Pow2(bh) <= n + 1
    ensures Pow2(h) <= (n + 1) * (n + 1)
  {
    Pow2Monotone(h, bh + bh);
    Pow2Sum(bh, bh);
    SquareMonotone(Pow2(bh), n + 1);
  }
}
