/** The converse of RbShape.ValidIsRedBlack: every red-black tree in memory, however it was built, becomes a
    valid Tree once its ghost fields are filled in.  So the contracts of insertion and erasure speak about
    every well-formed tree. */
module RbAdopt {
  import opened RbTree
  import opened RbShape

  /** No node occurs twice in `s`. */
  ghost predicate Unshared(s: Shape) {
    match s
    case Leaf => true
    case Branch(l, n, _, r) =>
      Unshared(l) && Unshared(r) && n !in NodesOf(l) && n !in NodesOf(r) && NodesOf(l) !! NodesOf(r)
  }

  function Size(s: Shape): nat {
    match s
    case Leaf => 0
    case Branch(l, _, _, r) => Size(l) + 1 + Size(r)
  }

  /** The black nodes on the leftmost path. */
  ghost function LeftBlacks(s: Shape): nat {
    match s
    case Leaf => 0
    case Branch(l, _, c, _) => Weight(c) + LeftBlacks(l)
  }

  /** The ghost fields of the nodes of `s` are those of a subtree that starts at position `at`. */
  ghost predicate Numbered(s: Shape, at: nat)
    reads NodesOf(s)
  {
    match s
    case Leaf => true
    case Branch(l, n, c, r) =>
      && n.lo == at && n.pos == at + Size(l) && n.hi == at + Size(s) && n.bh == LeftBlacks(s)
      && Numbered(l, at) && Numbered(r, at + Size(l) + 1)
  }

  twostate lemma {:induction false} NumberedFrame(s: Shape, new at: nat, new all: set<Node>)
    requires old(Numbered(s, at)) && NodesOf(s) <= all
    requires forall m :: m in all ==> old(allocated(m))
    requires forall m :: m in NodesOf(s) ==>
               old(allocated(m)) && m.lo == old(m.lo) && m.pos == old(m.pos) && m.hi == old(m.hi) && m.bh == old(m.bh)
    ensures Numbered(s, at)
  {
    if s.Branch? {
      NumberedFrame(s.left, at, all);
      NumberedFrame(s.right, at + Size(s.left) + 1, all);
    }
  }

  /** Fills in the ghost fields of the nodes of `s`, all of which lie in `all`. */
  ghost method Number(s: Shape, at: nat, all: set<Node>)
    requires Unshared(s) && NodesOf(s) <= all
    modifies NodesOf(s)`lo, NodesOf(s)`pos, NodesOf(s)`hi, NodesOf(s)`bh
    ensures Numbered(s, at)
  {
    if s.Branch? {
      s.node.lo, s.node.pos, s.node.hi, s.node.bh := at, at + Size(s.left), at + Size(s), LeftBlacks(s);
      Number(s.left, at, all);
      label leftDone:
      Number(s.right, at + Size(s.left) + 1, all);
      NumberedFrame@leftDone(s.left, at, all);
    }
  }

  /** All paths of a shape with equal black counts cross as many black nodes as the leftmost one. */
  lemma {:induction false} EqualCounts(s: Shape, h: int)
    requires BlackCounts(s) == {h}
    ensures h == LeftBlacks(s)
    ensures s.Branch? ==>
              && BlackCounts(s.left) == {h - Weight(s.color)} && BlackCounts(s.right) == {h - Weight(s.color)}
  {
    if s.Branch? {
      var w := Weight(s.color);
      forall b | b in BlackCounts(s.left) + BlackCounts(s.right)
        ensures b == h - w
      {
        assert w + b in BlackCounts(s);
      }
      HasCount(s.left);
      HasCount(s.right);
      assert BlackCounts(s.left) == {h - w};
      assert BlackCounts(s.right) == {h - w};
      EqualCounts(s.left, h - w);
    }
  }

  lemma {:induction false} HasCount(s: Shape)
    ensures BlackCounts(s) != {}
  {
    if s.Branch? {
      HasCount(s.left);
      var b :| b in BlackCounts(s.left);
      assert Weight(s.color) + b in BlackCounts(s);
    }
  }

  lemma {:induction false} SizeOfOrder(s: Shape)
    ensures |InOrder(s)| == Size(s)
  {
    if s.Branch? {
      SizeOfOrder(s.left);
      SizeOfOrder(s.right);
    }
  }

  lemma {:induction false} NumberedOrder(s: Shape, at: nat)
    requires Numbered(s, at)
    ensures |InOrder(s)| == Size(s)
    ensures forall k :: 0 <= k < Size(s) ==> InOrder(s)[k] in NodesOf(s) && InOrder(s)[k].pos == at + k
  {
    if s.Branch? {
      NumberedOrder(s.left, at);
      NumberedOrder(s.right, at + Size(s.left) + 1);
    }
  }

  /** The part `s` of the tree, stored below `n` and numbered from `at` on, has its place in the sequence. */
  ghost predicate Placed(t: Tree, s: Shape, n: Node?, parent: Node?, at: nat)
    reads t, NodesOf(s), parent
  {
    && Stored(s, n, parent) && Numbered(s, at) && NodesOf(s) <= t.nodes
    && at + Size(s) <= |t.order|
    && |InOrder(s)| == Size(s) && InOrder(s) == t.order[at..at + Size(s)]
    && (n != null ==> if parent == null then n == t.root
                      else parent in t.nodes && (parent.left == n || parent.right == n))
  }

  lemma PlacedParts(t: Tree, s: Shape, n: Node, parent: Node?, at: nat)
    requires Placed(t, s, n, parent, at)
    ensures s.Branch? && s.node == n
    ensures Placed(t, s.left, n.left, n, at) && Placed(t, s.right, n.right, n, at + Size(s.left) + 1)
    ensures at + Size(s.left) < |t.order| && t.order[at + Size(s.left)] == n
  {
    PartsInOrder(s, t.order, at);
  }

  lemma {:induction false} PartsInOrder(s: Shape, order: seq<Node>, at: nat)
    requires s.Branch? && at + Size(s) <= |order|
    requires InOrder(s) == order[at..at + Size(s)]
    ensures |InOrder(s.left)| == Size(s.left) && |InOrder(s.right)| == Size(s.right)
    ensures var m := at + Size(s.left);
            && order[at..m] == InOrder(s.left) && order[m] == s.node
            && order[m + 1..m + 1 + Size(s.right)] == InOrder(s.right)
  {
    SizeOfOrder(s.left);
    SizeOfOrder(s.right);
    var l, r := InOrder(s.left), InOrder(s.right);
    assert InOrder(s) == l + [s.node] + r;
    hide InOrder;
    SliceParts(order, at, at + Size(s), l, s.node, r);
  }

  lemma SliceParts(order: seq<Node>, at: nat, end: nat, l: seq<Node>, n: Node, r: seq<Node>)
    requires at <= end <= |order| && order[at..end] == l + [n] + r
    ensures end == at + |l| + 1 + |r|
    ensures order[at..at + |l|] == l && order[at + |l|] == n
    ensures order[at + |l| + 1..at + |l| + 1 + |r|] == r
  {
    var part := order[at..end];
    assert |part| == |l| + 1 + |r|;
    assert part[..|l|] == l && part[|l|] == n && part[|l| + 1..] == r;
  }

  lemma PlacedLinked(t: Tree, s: Shape, n: Node, parent: Node?, at: nat)
    requires Placed(t, s, n, parent, at)
    ensures t.LinkedAt(n)
  {
    PlacedParts(t, s, n, parent, at);
  }

  lemma PlacedRedBlack(t: Tree, s: Shape, n: Node, parent: Node?, at: nat, h: int)
    requires Placed(t, s, n, parent, at) && NoRedRed(s) && BlackCounts(s) == {h}
    ensures t.RedBlackAt(n, null)
  {
    PlacedParts(t, s, n, parent, at);
    PlacedLinked(t, s, n, parent, at);
    EqualCounts(s, h);
    EqualCounts(s.left, h - Weight(s.color));
    EqualCounts(s.right, h - Weight(s.color));
  }

  lemma {:induction false} AllPlaced(t: Tree, s: Shape, n: Node?, parent: Node?, at: nat, h: int)
    requires Placed(t, s, n, parent, at) && NoRedRed(s) && BlackCounts(s) == {h}
    ensures forall m :: m in NodesOf(s) ==> t.LinkedAt(m) && t.RedBlackAt(m, null)
  {
    assert s.Branch? <==> n != null;
    if n != null {
      hide Placed;
      PlacedParts(t, s, n, parent, at);
      PlacedLinked(t, s, n, parent, at);
      PlacedRedBlack(t, s, n, parent, at, h);
      EqualCounts(s, h);
      AllPlaced(t, s.left, n.left, n, at, h - Weight(s.color));
      AllPlaced(t, s.right, n.right, n, at + Size(s.left) + 1, h - Weight(s.color));
    }
  }

  /** Whatever red-black tree lies below `t.root`: with its ghost fields set, `t` is valid, and its sequence is
      the in-order sequence of the tree.  No pointer and no colour changes. */
  ghost method Adopt(t: Tree, s: Shape, all: set<Node>)
    requires all == NodesOf(s)
    requires Stored(s, t.root, null) && Unshared(s) && RedBlackShape(s)
    modifies t`order, t`nodes, NodesOf(s)`lo, NodesOf(s)`pos, NodesOf(s)`hi, NodesOf(s)`bh
    ensures t.Valid() && t.order == InOrder(s) && t.nodes == NodesOf(s)
  {
    Number(s, 0, all);
    StoredStill(s, t.root, null, all);
    t.order, t.nodes := InOrder(s), all;
    NumberedOrder(s, 0);
    assert Stored(s, t.root, null);
    var h :| BlackCounts(s) == {h};
    AllPlaced(t, s, t.root, null, 0, h);
  }

  twostate lemma {:induction false} StoredStill(s: Shape, new n: Node?, new parent: Node?, new all: set<Node>)
    requires (n != null ==> old(allocated(n))) && (parent != null ==> old(allocated(parent)))
    requires old(Stored(s, n, parent)) && NodesOf(s) <= all
    requires forall m :: m in all ==> old(allocated(m))
    requires forall m :: m in NodesOf(s) ==>
               && old(allocated(m)) && m.left == old(m.left) && m.right == old(m.right)
               && m.parent == old(m.parent) && m.color == old(m.color)
    ensures Stored(s, n, parent)
  {
    if s.Branch? {
      StoredStill(s.left, s.node.left, s.node, all);
      StoredStill(s.right, s.node.right, s.node, all);
    }
  }
}
