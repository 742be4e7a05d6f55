/** The intrusive red-black tree of jni/rbtree.c.

    Nodes carry parent pointers and colours and are relinked in place.  Every node also carries
    ghost fields that make the tree's global shape a local matter: `pos` is the node's index in the
    tree's in-order sequence, `lo` and `hi` delimit the stretch of that sequence its subtree holds,
    and `bh` is the number of black nodes on a path from the node down to a leaf.  RbShape.dfy shows
    that the local conditions below say exactly what a reader expects of the whole tree. */
module RbTree {

  datatype Color = Red | Black

  /** A uint32_t key. */
  type Key = k: int | 0 <= k < 0x1_0000_0000

  /** struct Data with its embedded struct rb_node. */
  class Node {
    const v: Key
    var left: Node?
    var right: Node?
    var parent: Node?
    var color: Color
    ghost var lo: int
    ghost var pos: int
    ghost var hi: int
    ghost var bh: int

    constructor (v: Key)
      ensures this.v == v
    {
      this.v := v;
    }
  }

  predicate IsRed(n: Node?)
    reads n
  {
    n != null && n.color == Red
  }

  /** Black height of a possibly empty subtree. */
  ghost function BlackHeight(n: Node?): int
    reads n
  {
    if n == null then 0 else n.bh
  }

  ghost function Weight(c: Color): int {
    if c == Black then 1 else 0
  }

  class Tree {
    var root: Node?
    ghost var order: seq<Node>
    ghost var nodes: set<Node>
    /** How often a node of this tree has been rotated. */
    ghost var rotations: nat

    /** Child and parent pointers of `n` agree with each other and with the in-order sequence. */
    ghost predicate LinkedAt(n: Node)
      reads this, nodes
    {
      && n in nodes
      && 0 <= n.lo <= n.pos < n.hi <= |order|
      && order[n.pos] == n
      && (n.left == null ==> n.lo == n.pos)
      && (n.left != null ==>
            n.left in nodes && n.left.parent == n && n.left.lo == n.lo && n.left.hi == n.pos)
      && (n.right == null ==> n.hi == n.pos + 1)
      && (n.right != null ==>
            n.right in nodes && n.right.parent == n && n.right.lo == n.pos + 1 && n.right.hi == n.hi)
      && (n.parent == null ==> n == root)
      && (n.parent != null ==> n.parent in nodes && (n.parent.left == n || n.parent.right == n))
    }

    /** All links agree, and following them from the root yields `order`. */
    ghost predicate Linked()
      reads this, nodes
    {
      && (forall i :: 0 <= i < |order| ==> order[i] in nodes && order[i].pos == i)
      && (forall n {:trigger LinkedAt(n)} :: n in nodes ==> LinkedAt(n))
      && (root == null ==> order == [])
      && (root != null ==> root in nodes && root.parent == null && root.lo == 0 && root.hi == |order|)
    }

    /** The colour and black-height rules at `n`, where a red child of a red node must be `bad`. */
    ghost predicate RedBlackAt(n: Node, bad: Node?)
      reads this, nodes
    {
      && LinkedAt(n)
      && n.bh >= 0
      && (n.color == Red ==> (IsRed(n.left) ==> n.left == bad) && (IsRed(n.right) ==> n.right == bad))
      && BlackHeight(n.left) == BlackHeight(n.right)
      && n.bh == Weight(n.color) + BlackHeight(n.left)
    }

    /** The rules hold at every node, and the root is black unless it is `bad`. */
    ghost predicate RedBlack(bad: Node?)
      reads this, nodes
    {
      && (root != null ==> root in nodes)
      && (IsRed(root) ==> root == bad)
      && (forall n {:trigger RedBlackAt(n, bad)} :: n in nodes ==> RedBlackAt(n, bad))
    }

    /** A well-formed red-black tree. */
    ghost predicate Valid()
      reads this, nodes
    {
      Linked() && RedBlack(null)
    }

    constructor ()
      ensures Valid() && order == [] && nodes == {} && root == null
    {
      root := null;
      order := [];
      nodes := {};
    }

    // ---------- local facts ----------

    /** A child's stretch of the sequence lies properly inside its parent's. */
    lemma Nested(n: Node)
      requires Linked() && n in nodes
      ensures n.parent != n
      ensures n.parent != null ==>
                && n.parent in nodes && n.parent.left != n.parent.right
                && n.parent.lo <= n.lo && n.hi <= n.parent.hi && n.hi - n.lo < n.parent.hi - n.parent.lo
    {
      assert LinkedAt(n);
      if n.parent != null {
        assert LinkedAt(n.parent);
      }
    }

    lemma NeighbourOf(i: int)
      requires Linked() && 0 <= i < |order|
      ensures order[i] in nodes && order[i].pos == i && order[i].parent != order[i]
    {
      assert LinkedAt(order[i]);
      Nested(order[i]);
    }

    /** Nothing but colours and ghost heights has changed at `n`. */
    twostate predicate SameLinksAt(n: Node)
      reads n
    {
      && n.left == old(n.left) && n.right == old(n.right) && n.parent == old(n.parent)
      && n.lo == old(n.lo) && n.pos == old(n.pos) && n.hi == old(n.hi)
    }

    twostate lemma SameLinks()
      requires old(Linked()) && root == old(root) && order == old(order) && nodes == old(nodes)
      requires forall n :: n in nodes ==> SameLinksAt(n)
      ensures Linked()
    {
      forall n {:trigger LinkedAt(n)} | n in nodes
        ensures LinkedAt(n)
      {
        assert old(LinkedAt(n));
      }
    }

    // ---------- __rb_rotate_left ----------

    lemma RotateLeftFacts(x: Node)
      requires Linked() && x in nodes && x.right != null
      ensures x.right in nodes && x.right != x
      ensures x.parent != null ==>
                x.parent in nodes && x.parent != x && x.parent != x.right && x.parent != x.right.left
      ensures x.right.left != null ==>
                x.right.left in nodes && x.right.left != x && x.right.left != x.right
    {
      assert LinkedAt(x);
      assert LinkedAt(x.right);
      Nested(x);
      if x.right.left != null {
        assert LinkedAt(x.right.left);
      }
    }

    /** What a left rotation at `x`, whose right child was `y`, does to the links of node `n`. */
    twostate predicate RotatedLeftAt(x: Node, y: Node, n: Node)
      reads n
    {
      && n.left == (if n == y then x else if n == old(x.parent) && old(n.left) == x then y else old(n.left))
      && n.right == (if n == x then old(y.left)
                     else if n == old(x.parent) && old(n.left) != x then y else old(n.right))
      && n.parent == (if n == x then y else if n == y then old(x.parent)
                      else if n == old(y.left) then x else old(n.parent))
      && n.lo == (if n == y then old(x.lo) else old(n.lo))
      && n.hi == (if n == y then old(x.hi) else if n == x then old(y.pos) else old(n.hi))
      && n.pos == old(n.pos)
    }

    twostate predicate RotatedLeft(x: Node, y: Node)
      reads this, nodes
    {
      && root == (if old(x.parent) == null then y else old(root))
      && order == old(order) && nodes == old(nodes)
      && forall n {:trigger RotatedLeftAt(x, y, n)} :: n in old(nodes) ==> RotatedLeftAt(x, y, n)
    }

    twostate lemma RotatedLeftLinked(new x: Node, new y: Node)
      requires old(Linked()) && x in old(nodes) && old(x.right) == y
      requires RotatedLeft(x, y)
      ensures Linked()
    {
      assert old(LinkedAt(x));
      assert old(LinkedAt(y));
      assert RotatedLeftAt(x, y, x);
      assert RotatedLeftAt(x, y, y);
      forall n {:trigger LinkedAt(n)} | n in nodes
        ensures LinkedAt(n)
      {
        assert old(LinkedAt(n));
        assert RotatedLeftAt(x, y, n);
        if n.left != null {
          assert RotatedLeftAt(x, y, n.left);
        }
        if n.right != null {
          assert RotatedLeftAt(x, y, n.right);
        }
        if n.parent != null {
          assert RotatedLeftAt(x, y, n.parent);
        }
      }
      forall i | 0 <= i < |order|
        ensures order[i] in nodes && order[i].pos == i
      {
        assert RotatedLeftAt(x, y, order[i]);
      }
      assert RotatedLeftAt(x, y, root);
    }

    /** Rotation as the code does it, pointer by pointer. */
    method TurnLeft(x: Node)
      requires Linked() && x in nodes && x.right != null
      modifies this`root, nodes`left, nodes`right, nodes`parent, nodes`lo, nodes`hi
      ensures RotatedLeft(x, old(x.right))
    {
      var right := x.right;
      var parent := x.parent;
      RotateLeftFacts(x);
      x.right := right.left;
      if x.right != null {
        right.left.parent := x;
      }
      right.left := x;
      right.parent := parent;
      if parent != null {
        if x == parent.left {
          parent.left := right;
        } else {
          parent.right := right;
        }
      } else {
        root := right;
      }
      x.parent := right;
      right.lo, right.hi, x.hi := x.lo, x.hi, right.pos;
    }

    /** __rb_rotate_left, which keeps the links consistent and the in-order sequence unchanged. */
    method RotateLeft(x: Node)
      requires Linked() && x in nodes && x.right != null
      modifies this`root, this`rotations
      modifies nodes`left, nodes`right, nodes`parent, nodes`lo, nodes`hi
      ensures rotations == old(rotations) + 1
      ensures Linked() && RotatedLeft(x, old(x.right))
    {
      assert LinkedAt(x);
      TurnLeft(x);
      rotations := rotations + 1;
      RotatedLeftLinked(x, old(x.right));
    }

    // ---------- __rb_rotate_right ----------

    lemma RotateRightFacts(x: Node)
      requires Linked() && x in nodes && x.left != null
      ensures x.left in nodes && x.left != x
      ensures x.parent != null ==>
                x.parent in nodes && x.parent != x && x.parent != x.left && x.parent != x.left.right
      ensures x.left.right != null ==>
                x.left.right in nodes && x.left.right != x && x.left.right != x.left
    {
      assert LinkedAt(x);
      assert LinkedAt(x.left);
      Nested(x);
      if x.left.right != null {
        assert LinkedAt(x.left.right);
      }
    }

    /** What a right rotation at `x`, whose left child was `y`, does to the links of node `n`. */
    twostate predicate RotatedRightAt(x: Node, y: Node, n: Node)
      reads n
    {
      && n.right == (if n == y then x else if n == old(x.parent) && old(n.right) == x then y else old(n.right))
      && n.left == (if n == x then old(y.right)
                     else if n == old(x.parent) && old(n.right) != x then y else old(n.left))
      && n.parent == (if n == x then y else if n == y then old(x.parent)
                      else if n == old(y.right) then x else old(n.parent))
      && n.lo == (if n == y then old(x.lo) else if n == x then old(y.pos) + 1 else old(n.lo))
      && n.hi == (if n == y then old(x.hi) else old(n.hi))
      && n.pos == old(n.pos)
    }

    twostate predicate RotatedRight(x: Node, y: Node)
      reads this, nodes
    {
      && root == (if old(x.parent) == null then y else old(root))
      && order == old(order) && nodes == old(nodes)
      && forall n {:trigger RotatedRightAt(x, y, n)} :: n in old(nodes) ==> RotatedRightAt(x, y, n)
    }

    twostate lemma RotatedRightLinked(new x: Node, new y: Node)
      requires old(Linked()) && x in old(nodes) && old(x.left) == y
      requires RotatedRight(x, y)
      ensures Linked()
    {
      assert old(LinkedAt(x));
      assert old(LinkedAt(y));
      assert RotatedRightAt(x, y, x);
      assert RotatedRightAt(x, y, y);
      forall n {:trigger LinkedAt(n)} | n in nodes
        ensures LinkedAt(n)
      {
        assert old(LinkedAt(n));
        assert RotatedRightAt(x, y, n);
        if n.right != null {
          assert RotatedRightAt(x, y, n.right);
        }
        if n.left != null {
          assert RotatedRightAt(x, y, n.left);
        }
        if n.parent != null {
          assert RotatedRightAt(x, y, n.parent);
        }
      }
      forall i | 0 <= i < |order|
        ensures order[i] in nodes && order[i].pos == i
      {
        assert RotatedRightAt(x, y, order[i]);
      }
      assert RotatedRightAt(x, y, root);
    }

    /** Rotation as the code does it, pointer by pointer. */
    method TurnRight(x: Node)
      requires Linked() && x in nodes && x.left != null
      modifies this`root, nodes`right, nodes`left, nodes`parent, nodes`lo, nodes`hi
      ensures RotatedRight(x, old(x.left))
    {
      var left := x.left;
      var parent := x.parent;
      RotateRightFacts(x);
      x.left := left.right;
      if x.left != null {
        left.right.parent := x;
      }
      left.right := x;
      left.parent := parent;
      if parent != null {
        if x == parent.right {
          parent.right := left;
        } else {
          parent.left := left;
        }
      } else {
        root := left;
      }
      x.parent := left;
      left.lo, left.hi, x.lo := x.lo, x.hi, left.pos + 1;
    }

    /** __rb_rotate_right, which keeps the links consistent and the in-order sequence unchanged. */
    method RotateRight(x: Node)
      requires Linked() && x in nodes && x.left != null
      modifies this`root, this`rotations
      modifies nodes`right, nodes`left, nodes`parent, nodes`lo, nodes`hi
      ensures rotations == old(rotations) + 1
      ensures Linked() && RotatedRight(x, old(x.left))
    {
      assert LinkedAt(x);
      TurnRight(x);
      rotations := rotations + 1;
      RotatedRightLinked(x, old(x.left));
    }

    // ---------- rb_insert_color ----------

    /** Every colour rule holds, except that the red node `n` may be the root or a red node's child. */
    ghost predicate OneRedRed(n: Node)
      reads this, nodes
    {
      Linked() && RedBlack(n) && n in nodes && n.color == Red
    }

    /** `n`, its red parent `p` and its black grandparent `g`. */
    ghost predicate RedRedUnder(n: Node, p: Node, g: Node)
      reads this, nodes
    {
      && OneRedRed(n) && p in nodes && g in nodes
      && n.parent == p && p.color == Red && p.parent == g && g.color == Black
      && (p.left == n || p.right == n) && (g.left == p || g.right == p)
      && n != p && n != g && p != g && g.left != g.right
      && (g.left != null ==> g.left in nodes && g.left != n && g.left != g)
      && (g.right != null ==> g.right in nodes && g.right != n && g.right != g)
      && n.hi - n.lo < g.hi - g.lo
    }

    /** A violating node's parent is not the root, so the grandparent exists, and it is black. */
    lemma RedRedHasGrandparent(n: Node)
      requires OneRedRed(n) && IsRed(n.parent)
      ensures n.parent.parent != null && RedRedUnder(n, n.parent, n.parent.parent)
    {
      var p := n.parent;
      Nested(n);
      assert LinkedAt(n);
      assert LinkedAt(p);
      assert p != n && p != root;
      Nested(p);
      var g := p.parent;
      assert LinkedAt(g);
      assert RedBlackAt(g, n);
      if g.left != null {
        Nested(g.left);
      }
      if g.right != null {
        Nested(g.right);
      }
    }

    /** The uncle is red: the grandparent `g` hands its blackness to both its children. */
    twostate predicate PushedDownAt(g: Node, n: Node)
      reads n
    {
      && SameLinksAt(n)
      && n.color == (if n == g then Red else if n == old(g.left) || n == old(g.right) then Black else old(n.color))
      && n.bh == old(n.bh) + (if n == old(g.left) || n == old(g.right) then 1 else 0)
    }

    twostate lemma PushedDown(new n: Node, new p: Node, new g: Node)
      requires n in old(nodes) && p in old(nodes) && g in old(nodes) && old(RedRedUnder(n, p, g))
      requires old(IsRed(g.left)) && old(IsRed(g.right))
      requires root == old(root) && order == old(order) && nodes == old(nodes)
      requires forall m {:trigger PushedDownAt(g, m)} :: m in old(nodes) ==> PushedDownAt(g, m)
      ensures OneRedRed(g)
    {
      assert old(LinkedAt(g));
      assert PushedDownAt(g, g);
      forall m | m in nodes
        ensures SameLinksAt(m)
      {
        assert PushedDownAt(g, m);
      }
      SameLinks();
      forall m {:trigger RedBlackAt(m, g)} | m in nodes
        ensures RedBlackAt(m, g)
      {
        assert old(RedBlackAt(m, n));
        assert LinkedAt(m);
        assert PushedDownAt(g, m);
        if m.left != null {
          assert PushedDownAt(g, m.left);
        }
        if m.right != null {
          assert PushedDownAt(g, m.right);
        }
      }
      assert PushedDownAt(g, root);
    }

    /** A rotation between two red nodes moves the violation from `n` to its former parent `p`. */
    twostate lemma TurnedUnderLeft(new n: Node, new p: Node, new g: Node)
      requires n in old(nodes) && p in old(nodes) && g in old(nodes) && old(RedRedUnder(n, p, g))
      requires old(p.right) == n && old(g.left) == p
      requires Linked() && RotatedLeft(p, n)
      requires forall m :: m in nodes ==> m.color == old(m.color) && m.bh == old(m.bh)
      ensures RedRedUnder(p, n, g) && n.left == p && g.left == n && g.right == old(g.right)
    {
      assert RotatedLeftAt(p, n, n);
      assert RotatedLeftAt(p, n, p);
      assert RotatedLeftAt(p, n, g);
      assert old(RedBlackAt(p, n));
      assert old(RedBlackAt(n, n));
      forall m {:trigger RedBlackAt(m, p)} | m in nodes
        ensures RedBlackAt(m, p)
      {
        assert old(RedBlackAt(m, n));
        assert LinkedAt(m);
        assert RotatedLeftAt(p, n, m);
      }
      Nested(p);
      Nested(n);
    }

    twostate lemma TurnedUnderRight(new n: Node, new p: Node, new g: Node)
      requires n in old(nodes) && p in old(nodes) && g in old(nodes) && old(RedRedUnder(n, p, g))
      requires old(p.left) == n && old(g.right) == p
      requires Linked() && RotatedRight(p, n)
      requires forall m :: m in nodes ==> m.color == old(m.color) && m.bh == old(m.bh)
      ensures RedRedUnder(p, n, g) && n.right == p && g.right == n && g.left == old(g.left)
    {
      assert RotatedRightAt(p, n, n);
      assert RotatedRightAt(p, n, p);
      assert RotatedRightAt(p, n, g);
      assert old(RedBlackAt(p, n));
      assert old(RedBlackAt(n, n));
      forall m {:trigger RedBlackAt(m, p)} | m in nodes
        ensures RedBlackAt(m, p)
      {
        assert old(RedBlackAt(m, n));
        assert LinkedAt(m);
        assert RotatedRightAt(p, n, m);
      }
      Nested(p);
      Nested(n);
    }

    /** The final recolouring of `p`, which turns black, and `g`, which turns red. */
    twostate predicate PromotedAt(p: Node, g: Node, n: Node)
      reads n
    {
      && n.color == (if n == p then Black else if n == g then Red else old(n.color))
      && n.bh == old(n.bh) + (if n == p then 1 else if n == g then -1 else 0)
    }

    twostate lemma PromotedLeft(new n: Node, new p: Node, new g: Node)
      requires n in old(nodes) && p in old(nodes) && g in old(nodes) && old(RedRedUnder(n, p, g))
      requires old(p.left) == n && old(g.left) == p && old(!IsRed(g.right))
      requires Linked() && RotatedRight(g, p)
      requires forall m {:trigger PromotedAt(p, g, m)} :: m in nodes ==> PromotedAt(p, g, m)
      ensures RedBlack(null)
    {
      assert old(RedBlackAt(p, n));
      assert old(RedBlackAt(g, n));
      assert RotatedRightAt(g, p, p);
      assert RotatedRightAt(g, p, g);
      forall m {:trigger RedBlackAt(m, null)} | m in nodes
        ensures RedBlackAt(m, null)
      {
        assert old(RedBlackAt(m, n));
        assert LinkedAt(m);
        assert RotatedRightAt(g, p, m);
        assert PromotedAt(p, g, m);
        if m.left != null {
          assert PromotedAt(p, g, m.left);
        }
        if m.right != null {
          assert PromotedAt(p, g, m.right);
        }
      }
      assert PromotedAt(p, g, root);
    }

    twostate lemma PromotedRight(new n: Node, new p: Node, new g: Node)
      requires n in old(nodes) && p in old(nodes) && g in old(nodes) && old(RedRedUnder(n, p, g))
      requires old(p.right) == n && old(g.right) == p && old(!IsRed(g.left))
      requires Linked() && RotatedLeft(g, p)
      requires forall m {:trigger PromotedAt(p, g, m)} :: m in nodes ==> PromotedAt(p, g, m)
      ensures RedBlack(null)
    {
      assert old(RedBlackAt(p, n));
      assert old(RedBlackAt(g, n));
      assert RotatedLeftAt(g, p, p);
      assert RotatedLeftAt(g, p, g);
      forall m {:trigger RedBlackAt(m, null)} | m in nodes
        ensures RedBlackAt(m, null)
      {
        assert old(RedBlackAt(m, n));
        assert LinkedAt(m);
        assert RotatedLeftAt(g, p, m);
        assert PromotedAt(p, g, m);
        if m.right != null {
          assert PromotedAt(p, g, m.right);
        }
        if m.left != null {
          assert PromotedAt(p, g, m.left);
        }
      }
      assert PromotedAt(p, g, root);
    }

    /** How far a violation at `n` can still climb. */
    ghost function Climb(n: Node): int
      reads this, n, n.parent
    {
      if IsRed(n.parent) then 1 + |order| - (n.hi - n.lo) else 0
    }

    /** rb_insert_color: recolours on the way up, then rotates at most twice. */
    method InsertColor(n: Node)
      requires OneRedRed(n)
      modifies this`root, this`rotations
      modifies nodes`left, nodes`right, nodes`parent, nodes`color, nodes`lo, nodes`hi, nodes`bh
      ensures Valid() && old(rotations) <= rotations <= old(rotations) + 2
    {
      var cur: Node := n;
      while cur.parent != null && cur.parent.color == Red
        invariant OneRedRed(cur)
        invariant old(rotations) <= rotations <= old(rotations) + 2
        invariant rotations > old(rotations) ==> !IsRed(cur.parent)
        decreases Climb(cur)
      {
        var parent := cur.parent;
        var gparent := parent.parent;
        RedRedHasGrandparent(cur);
        assert LinkedAt(gparent);
        if parent == gparent.left {
          var uncle := gparent.right;
          if uncle != null && uncle.color == Red {
            cur := PushDown(cur, parent, gparent, uncle);
          } else {
            if parent.right == cur {
              label turnLeft:
              RotateLeft(parent);
              TurnedUnderLeft@turnLeft(cur, parent, gparent);
              cur, parent := parent, cur;
            }
            PromoteLeft(cur, parent, gparent);
            Tolerate(cur);
          }
        } else {
          var uncle := gparent.left;
          if uncle != null && uncle.color == Red {
            cur := PushDown(cur, parent, gparent, uncle);
          } else {
            if parent.left == cur {
              label turnRight:
              RotateRight(parent);
              TurnedUnderRight@turnRight(cur, parent, gparent);
              cur, parent := parent, cur;
            }
            PromoteRight(cur, parent, gparent);
            Tolerate(cur);
          }
        }
      }
      BlackenRoot(cur);
    }

    /** A tree without any violation has none but at `n`. */
    lemma Tolerate(n: Node)
      requires Valid() && n in nodes && n.color == Red
      ensures OneRedRed(n)
    {
      forall m {:trigger RedBlackAt(m, n)} | m in nodes
        ensures RedBlackAt(m, n)
      {
        assert RedBlackAt(m, null);
      }
    }

    /** The branch for a red uncle. */
    method PushDown(n: Node, parent: Node, gparent: Node, uncle: Node) returns (cur: Node)
      requires RedRedUnder(n, parent, gparent) && IsRed(gparent.left) && IsRed(gparent.right)
      requires {gparent.left, gparent.right} == {parent, uncle}
      modifies nodes`color, nodes`bh
      ensures cur == gparent && OneRedRed(cur)
    {
      uncle.color := Black;
      parent.color := Black;
      gparent.color := Red;
      uncle.bh, parent.bh := uncle.bh + 1, parent.bh + 1;
      PushedDown(n, parent, gparent);
      cur := gparent;
    }

    /** The end of the left branch: recolour and rotate right at the grandparent. */
    method PromoteLeft(n: Node, parent: Node, gparent: Node)
      requires RedRedUnder(n, parent, gparent)
      requires parent.left == n && gparent.left == parent && !IsRed(gparent.right)
      modifies this`root, this`rotations
      modifies nodes`left, nodes`right, nodes`parent, nodes`color, nodes`lo, nodes`hi, nodes`bh
      ensures rotations == old(rotations) + 1
      ensures Valid() && n.parent == parent && parent.color == Black && n.color == Red
    {
      assert LinkedAt(gparent);
      Nested(n);
      parent.color := Black;
      gparent.color := Red;
      parent.bh, gparent.bh := parent.bh + 1, gparent.bh - 1;
      SameLinks();
      label recoloured:
      RotateRight(gparent);
      forall m | m in nodes
        ensures RotatedRightAt(gparent, parent, m)
      {
        assert RotatedRightAt@recoloured(gparent, parent, m);
      }
      assert RotatedRightAt(gparent, parent, n);
      PromotedLeft(n, parent, gparent);
    }

    /** The end of the right branch: recolour and rotate left at the grandparent. */
    method PromoteRight(n: Node, parent: Node, gparent: Node)
      requires RedRedUnder(n, parent, gparent)
      requires parent.right == n && gparent.right == parent && !IsRed(gparent.left)
      modifies this`root, this`rotations
      modifies nodes`right, nodes`left, nodes`parent, nodes`color, nodes`lo, nodes`hi, nodes`bh
      ensures rotations == old(rotations) + 1
      ensures Valid() && n.parent == parent && parent.color == Black && n.color == Red
    {
      assert LinkedAt(gparent);
      Nested(n);
      parent.color := Black;
      gparent.color := Red;
      parent.bh, gparent.bh := parent.bh + 1, gparent.bh - 1;
      SameLinks();
      label recoloured:
      RotateLeft(gparent);
      forall m | m in nodes
        ensures RotatedLeftAt(gparent, parent, m)
      {
        assert RotatedLeftAt@recoloured(gparent, parent, m);
      }
      assert RotatedLeftAt(gparent, parent, n);
      PromotedRight(n, parent, gparent);
    }

    /** The last statement of rb_insert_color. */
    method BlackenRoot(ghost bad: Node)
      requires OneRedRed(bad) && !IsRed(bad.parent)
      modifies nodes`color, nodes`bh
      ensures Valid()
    {
      assert LinkedAt(bad);
      if root.color == Red {
        root.bh := root.bh + 1;
      }
      root.color := Black;
      SameLinks();
      forall m {:trigger RedBlackAt(m, null)} | m in nodes
        ensures RedBlackAt(m, null)
      {
        assert old(RedBlackAt(m, bad));
        assert LinkedAt(m);
      }
    }

    // ---------- rb_link_node ----------

    /** The gap in the sequence that a null child pointer of `p` stands for. */
    ghost function GapAt(p: Node?, left: bool): int
      reads p
    {
      if p == null then 0 else if left then p.pos else p.pos + 1
    }

    /** The child pointer that `p` and `left` designate, or the root pointer, is null. */
    ghost predicate FreeLink(p: Node?, left: bool)
      reads this, nodes
    {
      if p == null then root == null else p in nodes && (if left then p.left == null else p.right == null)
    }

    /** Positions at or after gap `d` move up by one. */
    twostate predicate MadeRoomAt(d: int, left: bool, m: Node)
      reads m
    {
      && m.pos == old(m.pos) + (if old(m.pos) >= d then 1 else 0)
      && m.lo == old(m.lo) + (if old(m.lo) > d || (old(m.lo) == d && !left) then 1 else 0)
      && m.hi == old(m.hi) + (if old(m.hi) > d || (old(m.hi) == d && !left) then 1 else 0)
    }

    /** What linking the new node `n` at gap `d` does to the node `m`. */
    twostate predicate OpenedAt(new n: Node, new p: Node?, left: bool, d: int, m: Node)
      reads m
    {
      && m.left == (if m == p && left then n else old(m.left))
      && m.right == (if m == p && !left then n else old(m.right))
      && m.parent == old(m.parent)
      && m.color == old(m.color) && m.bh == old(m.bh)
      && MadeRoomAt(d, left, m)
    }

    twostate predicate Opened(new n: Node, new p: Node?, left: bool, d: int)
      reads this, nodes, n
    {
      && 0 <= d <= |old(order)|
      && root == (if p == null then n else old(root))
      && order == old(order)[..d] + [n] + old(order)[d..] && nodes == old(nodes) + {n}
      && n.left == null && n.right == null && n.parent == p && n.color == Red
      && n.lo == d && n.pos == d && n.hi == d + 1 && n.bh == 0
      && forall m {:trigger OpenedAt(n, p, left, d, m)} :: m in old(nodes) ==> OpenedAt(n, p, left, d, m)
    }

    twostate lemma OpenedOrder(new n: Node, new p: Node?, new left: bool, new d: int)
      requires old(Linked()) && n !in old(nodes)
      requires Opened(n, p, left, d)
      ensures forall i :: 0 <= i < |order| ==> order[i] in nodes && order[i].pos == i
    {
      forall i | 0 <= i < |order|
        ensures order[i] in nodes && order[i].pos == i
      {
        if i != d {
          var j := if i < d then i else i - 1;
          assert order[i] == old(order)[j];
          assert OpenedAt(n, p, left, d, old(order)[j]);
        }
      }
    }

    twostate lemma OpenedLinkedAt(new n: Node, new p: Node?, new left: bool, new d: int, new m: Node)
      requires old(Linked()) && n !in old(nodes) && (p != null ==> p in old(nodes)) && old(FreeLink(p, left))
      requires d == old(GapAt(p, left))
      requires Opened(n, p, left, d) && m in old(nodes)
      ensures LinkedAt(m)
    {
      if p != null {
        assert old(LinkedAt(p));
      }
      assert old(LinkedAt(m));
      assert OpenedAt(n, p, left, d, m);
      assert order[m.pos] == m;
      if old(m.left) != null {
        assert OpenedAt(n, p, left, d, old(m.left));
      }
      if old(m.right) != null {
        assert OpenedAt(n, p, left, d, old(m.right));
      }
      if m.parent != null {
        assert OpenedAt(n, p, left, d, m.parent);
      }
    }

    twostate lemma OpenedLinked(new n: Node, new p: Node?, new left: bool, new d: int)
      requires old(Linked()) && n !in old(nodes) && (p != null ==> p in old(nodes)) && old(FreeLink(p, left))
      requires d == old(GapAt(p, left))
      requires Opened(n, p, left, d)
      ensures Linked()
    {
      if p != null {
        assert old(LinkedAt(p));
        assert OpenedAt(n, p, left, d, p);
        assert OpenedAt(n, p, left, d, root);
      }
      forall m {:trigger LinkedAt(m)} | m in nodes
        ensures LinkedAt(m)
      {
        if m != n {
          OpenedLinkedAt(n, p, left, d, m);
        }
      }
      OpenedOrder(n, p, left, d);
    }

    /** Shifts the ghost positions for a new node at gap `d`. */
    ghost method MakeRoom(d: int, left: bool)
      modifies nodes`lo, nodes`pos, nodes`hi
      ensures forall m {:trigger MadeRoomAt(d, left, m)} :: m in nodes ==> MadeRoomAt(d, left, m)
    {
      forall m | m in nodes {
        m.pos := m.pos + (if m.pos >= d then 1 else 0);
      }
      forall m | m in nodes {
        m.lo := m.lo + (if m.lo > d || (m.lo == d && !left) then 1 else 0);
      }
      forall m | m in nodes {
        m.hi := m.hi + (if m.hi > d || (m.hi == d && !left) then 1 else 0);
      }
    }

    ghost function Link(p: Node?): set<Node> {
      if p == null then {} else {p}
    }

    /** rb_link_node: `p` and `left` name the link that `*rb_link` points to. */
    method LinkNode(n: Node, p: Node?, left: bool)
      requires n != p
      modifies this`root, Link(p)`left, Link(p)`right, n`parent, n`color, n`left, n`right
      ensures n.parent == p && n.color == Red && n.left == null && n.right == null
      ensures root == if p == null then n else old(root)
      ensures p != null ==>
                p.left == (if left then n else old(p.left)) && p.right == (if left then old(p.right) else n)
    {
      n.parent := p;
      n.color := Red;
      n.left, n.right := null, null;
      if p == null {
        root := n;
      } else if left {
        p.left := n;
      } else {
        p.right := n;
      }
    }

    /** Gives the node `n`, just linked at gap `d`, its place in the in-order sequence. */
    ghost method Enroll(n: Node, d: int, left: bool)
      requires n !in nodes && 0 <= d <= |order|
      modifies this`order, this`nodes, nodes`lo, nodes`pos, nodes`hi, n`lo, n`pos, n`hi, n`bh
      ensures forall m {:trigger MadeRoomAt(d, left, m)} :: m in old(nodes) ==> MadeRoomAt(d, left, m)
      ensures n.lo == d && n.pos == d && n.hi == d + 1 && n.bh == 0
      ensures order == old(order)[..d] + [n] + old(order)[d..] && nodes == old(nodes) + {n}
      ensures forall m :: m in old(nodes) ==> m.bh == old(m.bh)
    {
      MakeRoom(d, left);
      n.lo, n.pos, n.hi, n.bh := d, d, d + 1, 0;
      order := order[..d] + [n] + order[d..];
      nodes := nodes + {n};
    }

    /** rb_link_node, with the ghost state brought up to date. */
    method AddLeaf(n: Node, p: Node?, left: bool)
      requires Linked() && n !in nodes && FreeLink(p, left)
      modifies this`root, this`order, this`nodes, nodes, n
      ensures Opened(n, p, left, old(GapAt(p, left)))
    {
      if p != null {
        assert LinkedAt(p);
      }
      ghost var d := GapAt(p, left);
      LinkNode(n, p, left);
      label linked:
      Enroll(n, d, left);
      forall m | m in old(nodes)
        ensures OpenedAt(n, p, left, d, m)
      {
        assert MadeRoomAt@linked(d, left, m);
      }
    }

    twostate lemma OpenedRedBlack(new n: Node, new p: Node?, new left: bool, new d: int)
      requires old(Valid()) && n !in old(nodes) && (p != null ==> p in old(nodes)) && old(FreeLink(p, left))
      requires Opened(n, p, left, d) && Linked()
      ensures OneRedRed(n)
    {
      assert LinkedAt(n);
      forall m {:trigger RedBlackAt(m, n)} | m in nodes
        ensures RedBlackAt(m, n)
      {
        assert LinkedAt(m);
        if m != n {
          assert old(RedBlackAt(m, null));
          assert OpenedAt(n, p, left, d, m);
          if old(m.left) != null {
            assert OpenedAt(n, p, left, d, old(m.left));
          }
          if old(m.right) != null {
            assert OpenedAt(n, p, left, d, old(m.right));
          }
        }
      }
      if p != null {
        assert OpenedAt(n, p, left, d, root);
      }
    }

    /** rb_link_node followed by rb_insert_color. */
    method Insert(n: Node, p: Node?, left: bool)
      requires Valid() && n !in nodes && FreeLink(p, left)
      modifies this, nodes, n
      ensures Valid() && old(rotations) <= rotations <= old(rotations) + 2
      ensures var d := old(GapAt(p, left));
              && 0 <= d <= |old(order)|
              && order == old(order)[..d] + [n] + old(order)[d..] && nodes == old(nodes) + {n}
    {
      ghost var d := GapAt(p, left);
      AddLeaf(n, p, left);
      OpenedLinked(n, p, left, d);
      OpenedRedBlack(n, p, left, d);
      InsertColor(n);
    }

    // ---------- __rb_erase_color ----------

    /** The rules at `n` while the subtree `node` under `parent` lacks `gap` black nodes.  `node` may break
        the colour rules, as it is painted black in the end; `parent.bh` counts the other side. */
    ghost predicate ShortAt(n: Node, node: Node?, parent: Node?, gap: int)
      reads this, nodes
    {
      && LinkedAt(n)
      && n.bh >= 0
      && (n.color == Red && n != node ==>
            (IsRed(n.left) ==> n.left == node) && (IsRed(n.right) ==> n.right == node))
      && var l, r := BlackHeight(n.left), BlackHeight(n.right);
      && (n != parent ==> l == r && n.bh == Weight(n.color) + l)
      && (n == parent && n.left == node ==> l + gap == r && n.bh == Weight(n.color) + r)
      && (n == parent && n.left != node ==> r + gap == l && n.bh == Weight(n.color) + l)
    }

    /** Everything is in order except that the subtree `node` under `parent` lacks `gap` black nodes. */
    ghost predicate Short(node: Node?, parent: Node?, gap: int)
      reads this, nodes
    {
      && Linked()
      && (IsRed(root) ==> root == node)
      && (parent == null ==> node == root)
      && (parent != null ==> parent in nodes && (parent.left == node || parent.right == node))
      && (node != null ==> node in nodes && node.parent == parent)
      && (forall n {:trigger ShortAt(n, node, parent, gap)} :: n in nodes ==> ShortAt(n, node, parent, gap))
    }

    /** The black or absent `node` is a left child lacking a black node; its sibling `other` exists. */
    ghost predicate SiblingRight(node: Node?, parent: Node, other: Node)
      reads this, nodes
    {
      && Short(node, parent, 1) && !IsRed(node)
      && parent in nodes && other in nodes && parent.left == node && parent.right == other
      && other.parent == parent && other != parent && other != node && parent != node
    }

    lemma HasSiblingRight(node: Node?, parent: Node)
      requires Short(node, parent, 1) && !IsRed(node) && parent.left == node
      ensures parent.right != null && SiblingRight(node, parent, parent.right)
    {
      assert ShortAt(parent, node, parent, 1);
      assert LinkedAt(parent);
      if node != null {
        assert ShortAt(node, node, parent, 1);
        Nested(node);
      }
      Nested(parent.right);
    }

    /** The black or absent `node` is a right child lacking a black node; its sibling `other` exists. */
    ghost predicate SiblingLeft(node: Node?, parent: Node, other: Node)
      reads this, nodes
    {
      && Short(node, parent, 1) && !IsRed(node)
      && parent in nodes && other in nodes && parent.right == node && parent.left == other
      && other.parent == parent && other != parent && other != node && parent != node
    }

    lemma HasSiblingLeft(node: Node?, parent: Node)
      requires Short(node, parent, 1) && !IsRed(node) && parent.right == node
      ensures parent.left != null && SiblingLeft(node, parent, parent.left)
    {
      assert ShortAt(parent, node, parent, 1);
      assert LinkedAt(parent);
      if node != null {
        assert ShortAt(node, node, parent, 1);
        Nested(node);
      }
      Nested(parent.left);
    }

    /** Case 1: a red sibling `o` turns black and `p` red before a rotation at `p`. */
    twostate predicate LiftedAt(p: Node, o: Node, n: Node)
      reads n
    {
      && n.color == (if n == o then Black else if n == p then Red else old(n.color))
      && n.bh == old(n.bh) + (if n == o then 1 else if n == p then -1 else 0)
    }

    twostate lemma LiftedRight(new c: Node?, new p: Node, new o: Node)
      requires (c != null ==> c in old(nodes)) && p in old(nodes) && o in old(nodes)
      requires old(SiblingRight(c, p, o)) && old(o.color) == Red
      requires Linked() && RotatedLeft(p, o)
      requires forall m {:trigger LiftedAt(p, o, m)} :: m in nodes ==> LiftedAt(p, o, m)
      ensures Short(c, p, 1) && p.left == c && p.color == Red
      ensures p.right == old(o.left) && p.right != null && !IsRed(p.right)
    {
      assert old(ShortAt(p, c, p, 1));
      assert old(ShortAt(o, c, p, 1));
      assert RotatedLeftAt(p, o, p);
      assert RotatedLeftAt(p, o, o);
      if c != null {
        assert RotatedLeftAt(p, o, c);
        assert old(ShortAt(c, c, p, 1));
      }
      forall m {:trigger ShortAt(m, c, p, 1)} | m in nodes
        ensures ShortAt(m, c, p, 1)
      {
        assert old(ShortAt(m, c, p, 1));
        assert LinkedAt(m);
        assert RotatedLeftAt(p, o, m);
        assert LiftedAt(p, o, m);
        if m.left != null {
          assert LiftedAt(p, o, m.left);
        }
        if m.right != null {
          assert LiftedAt(p, o, m.right);
        }
      }
      assert LiftedAt(p, o, p);
      assert LiftedAt(p, o, p.right);
      assert LiftedAt(p, o, root);
    }

    twostate lemma LiftedLeft(new c: Node?, new p: Node, new o: Node)
      requires (c != null ==> c in old(nodes)) && p in old(nodes) && o in old(nodes)
      requires old(SiblingLeft(c, p, o)) && old(o.color) == Red
      requires Linked() && RotatedRight(p, o)
      requires forall m {:trigger LiftedAt(p, o, m)} :: m in nodes ==> LiftedAt(p, o, m)
      ensures Short(c, p, 1) && p.right == c && p.color == Red
      ensures p.left == old(o.right) && p.left != null && !IsRed(p.left)
    {
      assert old(ShortAt(p, c, p, 1));
      assert old(ShortAt(o, c, p, 1));
      assert RotatedRightAt(p, o, p);
      assert RotatedRightAt(p, o, o);
      if c != null {
        assert RotatedRightAt(p, o, c);
        assert old(ShortAt(c, c, p, 1));
      }
      forall m {:trigger ShortAt(m, c, p, 1)} | m in nodes
        ensures ShortAt(m, c, p, 1)
      {
        assert old(ShortAt(m, c, p, 1));
        assert LinkedAt(m);
        assert RotatedRightAt(p, o, m);
        assert LiftedAt(p, o, m);
        if m.right != null {
          assert LiftedAt(p, o, m.right);
        }
        if m.left != null {
          assert LiftedAt(p, o, m.left);
        }
      }
      assert LiftedAt(p, o, p);
      assert LiftedAt(p, o, p.left);
      assert LiftedAt(p, o, root);
    }

    /** Case 2: the sibling `o` has no red child and turns red, so both sides of `p` are equally short. */
    twostate predicate SharedAt(p: Node, o: Node, n: Node)
      reads n
    {
      && SameLinksAt(n)
      && n.color == (if n == o then Red else old(n.color))
      && n.bh == old(n.bh) + (if n == o || n == p then -1 else 0)
    }

    twostate lemma SharedRight(new c: Node?, new p: Node, new o: Node)
      requires (c != null ==> c in old(nodes)) && p in old(nodes) && o in old(nodes)
      requires old(SiblingRight(c, p, o))
      requires old(o.color) == Black && old(!IsRed(o.left)) && old(!IsRed(o.right))
      requires root == old(root) && order == old(order) && nodes == old(nodes)
      requires forall m {:trigger SharedAt(p, o, m)} :: m in nodes ==> SharedAt(p, o, m)
      ensures Short(p, p.parent, 1)
    {
      forall m | m in nodes
        ensures SameLinksAt(m)
      {
        assert SharedAt(p, o, m);
      }
      SameLinks();
      assert old(ShortAt(p, c, p, 1));
      assert old(ShortAt(o, c, p, 1));
      if c != null {
        assert old(ShortAt(c, c, p, 1));
      }
      assert LinkedAt(p);
      assert LinkedAt(o);
      Nested(p);
      forall m {:trigger ShortAt(m, p, p.parent, 1)} | m in nodes
        ensures ShortAt(m, p, p.parent, 1)
      {
        assert old(ShortAt(m, c, p, 1));
        assert LinkedAt(m);
        assert SharedAt(p, o, m);
        if m.left != null {
          assert SharedAt(p, o, m.left);
        }
        if m.right != null {
          assert SharedAt(p, o, m.right);
        }
      }
      assert SharedAt(p, o, root);
    }

    twostate lemma SharedLeft(new c: Node?, new p: Node, new o: Node)
      requires (c != null ==> c in old(nodes)) && p in old(nodes) && o in old(nodes)
      requires old(SiblingLeft(c, p, o))
      requires old(o.color) == Black && old(!IsRed(o.right)) && old(!IsRed(o.left))
      requires root == old(root) && order == old(order) && nodes == old(nodes)
      requires forall m {:trigger SharedAt(p, o, m)} :: m in nodes ==> SharedAt(p, o, m)
      ensures Short(p, p.parent, 1)
    {
      forall m | m in nodes
        ensures SameLinksAt(m)
      {
        assert SharedAt(p, o, m);
      }
      SameLinks();
      assert old(ShortAt(p, c, p, 1));
      assert old(ShortAt(o, c, p, 1));
      if c != null {
        assert old(ShortAt(c, c, p, 1));
      }
      assert LinkedAt(p);
      assert LinkedAt(o);
      Nested(p);
      forall m {:trigger ShortAt(m, p, p.parent, 1)} | m in nodes
        ensures ShortAt(m, p, p.parent, 1)
      {
        assert old(ShortAt(m, c, p, 1));
        assert LinkedAt(m);
        assert SharedAt(p, o, m);
        if m.right != null {
          assert SharedAt(p, o, m.right);
        }
        if m.left != null {
          assert SharedAt(p, o, m.left);
        }
      }
      assert SharedAt(p, o, root);
    }

    /** Case 3: the sibling `o` turns red and its inner child `i` black before a rotation at `o`. */
    twostate predicate LeanedAt(o: Node, i: Node, n: Node)
      reads n
    {
      && n.color == (if n == i then Black else if n == o then Red else old(n.color))
      && n.bh == old(n.bh) + (if n == i then 1 else if n == o then -1 else 0)
    }

    twostate lemma LeanedRight(new c: Node?, new p: Node, new o: Node, new i: Node)
      requires (c != null ==> c in old(nodes)) && p in old(nodes) && o in old(nodes) && i in old(nodes)
      requires old(SiblingRight(c, p, o)) && old(o.color) == Black
      requires old(o.left) == i && old(i.color) == Red && old(!IsRed(o.right))
      requires Linked() && RotatedRight(o, i)
      requires forall m {:trigger LeanedAt(o, i, m)} :: m in nodes ==> LeanedAt(o, i, m)
      ensures SiblingRight(c, p, i) && i.color == Black && IsRed(i.right)
    {
      assert old(ShortAt(p, c, p, 1));
      assert old(ShortAt(o, c, p, 1));
      assert old(ShortAt(i, c, p, 1));
      assert RotatedRightAt(o, i, p);
      assert RotatedRightAt(o, i, o);
      assert RotatedRightAt(o, i, i);
      if c != null {
        assert RotatedRightAt(o, i, c);
        assert LeanedAt(o, i, c);
        assert old(ShortAt(c, c, p, 1));
      }
      forall m {:trigger ShortAt(m, c, p, 1)} | m in nodes
        ensures ShortAt(m, c, p, 1)
      {
        assert old(ShortAt(m, c, p, 1));
        assert LinkedAt(m);
        assert RotatedRightAt(o, i, m);
        assert LeanedAt(o, i, m);
        if m.left != null {
          assert LeanedAt(o, i, m.left);
        }
        if m.right != null {
          assert LeanedAt(o, i, m.right);
        }
      }
      assert LeanedAt(o, i, i);
      assert LeanedAt(o, i, o);
      assert LeanedAt(o, i, root);
    }

    twostate lemma LeanedLeft(new c: Node?, new p: Node, new o: Node, new i: Node)
      requires (c != null ==> c in old(nodes)) && p in old(nodes) && o in old(nodes) && i in old(nodes)
      requires old(SiblingLeft(c, p, o)) && old(o.color) == Black
      requires old(o.right) == i && old(i.color) == Red && old(!IsRed(o.left))
      requires Linked() && RotatedLeft(o, i)
      requires forall m {:trigger LeanedAt(o, i, m)} :: m in nodes ==> LeanedAt(o, i, m)
      ensures SiblingLeft(c, p, i) && i.color == Black && IsRed(i.left)
    {
      assert old(ShortAt(p, c, p, 1));
      assert old(ShortAt(o, c, p, 1));
      assert old(ShortAt(i, c, p, 1));
      assert RotatedLeftAt(o, i, p);
      assert RotatedLeftAt(o, i, o);
      assert RotatedLeftAt(o, i, i);
      if c != null {
        assert RotatedLeftAt(o, i, c);
        assert LeanedAt(o, i, c);
        assert old(ShortAt(c, c, p, 1));
      }
      forall m {:trigger ShortAt(m, c, p, 1)} | m in nodes
        ensures ShortAt(m, c, p, 1)
      {
        assert old(ShortAt(m, c, p, 1));
        assert LinkedAt(m);
        assert RotatedLeftAt(o, i, m);
        assert LeanedAt(o, i, m);
        if m.right != null {
          assert LeanedAt(o, i, m.right);
        }
        if m.left != null {
          assert LeanedAt(o, i, m.left);
        }
      }
      assert LeanedAt(o, i, i);
      assert LeanedAt(o, i, o);
      assert LeanedAt(o, i, root);
    }

    /** Case 4: the sibling `o` takes over the colour of `p`; `p` and the red outer child `x` turn black. */
    twostate predicate RepaidAt(p: Node, o: Node, x: Node, n: Node)
      reads n
    {
      && n.color == (if n == o then old(p.color) else if n == p || n == x then Black else old(n.color))
      && n.bh == (if n == o then old(p.bh) else if n == p then old(o.bh)
                  else if n == x then old(x.bh) + 1 else old(n.bh))
    }

    twostate lemma RepaidRight(new c: Node?, new p: Node, new o: Node, new x: Node)
      requires (c != null ==> c in old(nodes)) && p in old(nodes) && o in old(nodes) && x in old(nodes)
      requires old(SiblingRight(c, p, o)) && old(o.color) == Black
      requires old(o.right) == x && old(x.color) == Red
      requires Linked() && RotatedLeft(p, o)
      requires forall m {:trigger RepaidAt(p, o, x, m)} :: m in nodes ==> RepaidAt(p, o, x, m)
      ensures RedBlack(null)
    {
      assert old(ShortAt(p, c, p, 1));
      assert old(ShortAt(o, c, p, 1));
      assert old(ShortAt(x, c, p, 1));
      assert RotatedLeftAt(p, o, p);
      assert RotatedLeftAt(p, o, o);
      forall m {:trigger RedBlackAt(m, null)} | m in nodes
        ensures RedBlackAt(m, null)
      {
        assert old(ShortAt(m, c, p, 1));
        assert LinkedAt(m);
        assert RotatedLeftAt(p, o, m);
        assert RepaidAt(p, o, x, m);
        if m.left != null {
          assert RepaidAt(p, o, x, m.left);
        }
        if m.right != null {
          assert RepaidAt(p, o, x, m.right);
        }
      }
      assert RepaidAt(p, o, x, root);
    }

    twostate lemma RepaidLeft(new c: Node?, new p: Node, new o: Node, new x: Node)
      requires (c != null ==> c in old(nodes)) && p in old(nodes) && o in old(nodes) && x in old(nodes)
      requires old(SiblingLeft(c, p, o)) && old(o.color) == Black
      requires old(o.left) == x && old(x.color) == Red
      requires Linked() && RotatedRight(p, o)
      requires forall m {:trigger RepaidAt(p, o, x, m)} :: m in nodes ==> RepaidAt(p, o, x, m)
      ensures RedBlack(null)
    {
      assert old(ShortAt(p, c, p, 1));
      assert old(ShortAt(o, c, p, 1));
      assert old(ShortAt(x, c, p, 1));
      assert RotatedRightAt(p, o, p);
      assert RotatedRightAt(p, o, o);
      forall m {:trigger RedBlackAt(m, null)} | m in nodes
        ensures RedBlackAt(m, null)
      {
        assert old(ShortAt(m, c, p, 1));
        assert LinkedAt(m);
        assert RotatedRightAt(p, o, m);
        assert RepaidAt(p, o, x, m);
        if m.right != null {
          assert RepaidAt(p, o, x, m.right);
        }
        if m.left != null {
          assert RepaidAt(p, o, x, m.left);
        }
      }
      assert RepaidAt(p, o, x, root);
    }

    /** A subtree that lacks no black node is not short. */
    lemma NotShort(node: Node?, parent: Node?, gap: int)
      requires Short(node, parent, gap) && !IsRed(node) && (parent == null || gap == 0)
      ensures RedBlack(null)
    {
      forall m {:trigger RedBlackAt(m, null)} | m in nodes
        ensures RedBlackAt(m, null)
      {
        assert ShortAt(m, node, parent, gap);
      }
    }

    /** The last statement of __rb_erase_color. */
    method Blacken(node: Node, ghost parent: Node?)
      requires Short(node, parent, 1) && (node.color == Red || parent == null)
      modifies node`color, node`bh
      ensures Valid()
    {
      if node.color == Red {
        node.bh := node.bh + 1;
      }
      node.color := Black;
      SameLinks();
      forall m {:trigger RedBlackAt(m, null)} | m in nodes
        ensures RedBlackAt(m, null)
      {
        assert old(ShortAt(m, node, parent, 1));
        assert LinkedAt(m);
      }
    }

    /** Case 1 of __rb_erase_color for a left child. */
    method LiftRight(node: Node?, parent: Node, other: Node)
      requires SiblingRight(node, parent, other) && other.color == Red
      modifies this`root, this`rotations
      modifies nodes`left, nodes`right, nodes`parent, nodes`color, nodes`lo, nodes`hi, nodes`bh
      ensures rotations == old(rotations) + 1
      ensures parent.right != null && SiblingRight(node, parent, parent.right) && !IsRed(parent.right)
      ensures parent.color == Red
      ensures node != null ==> node.lo == old(node.lo) && node.hi == old(node.hi)
    {
      assert LinkedAt(parent);
      other.color := Black;
      parent.color := Red;
      other.bh, parent.bh := other.bh + 1, parent.bh - 1;
      SameLinks();
      label recoloured:
      RotateLeft(parent);
      forall m | m in nodes
        ensures RotatedLeftAt(parent, other, m)
      {
        assert RotatedLeftAt@recoloured(parent, other, m);
      }
      LiftedRight(node, parent, other);
      if node != null {
        assert RotatedLeftAt(parent, other, node);
        assert LiftedAt(parent, other, node);
      }
      HasSiblingRight(node, parent);
    }

    /** Case 3 of __rb_erase_color for a left child. */
    method LeanRight(node: Node?, parent: Node, other: Node) returns (newOther: Node)
      requires SiblingRight(node, parent, other) && other.color == Black
      requires IsRed(other.left) && !IsRed(other.right)
      modifies this`root, this`rotations
      modifies nodes`left, nodes`right, nodes`parent, nodes`color, nodes`lo, nodes`hi, nodes`bh
      ensures rotations == old(rotations) + 1
      ensures SiblingRight(node, parent, newOther) && newOther.color == Black && IsRed(newOther.right)
    {
      assert LinkedAt(other);
      var inner := other.left;
      inner.color := Black;
      other.color := Red;
      inner.bh, other.bh := inner.bh + 1, other.bh - 1;
      SameLinks();
      label recoloured:
      RotateRight(other);
      forall m | m in nodes
        ensures RotatedRightAt(other, inner, m)
      {
        assert RotatedRightAt@recoloured(other, inner, m);
      }
      LeanedRight(node, parent, other, inner);
      newOther := parent.right;
    }

    /** Case 4 of __rb_erase_color for a left child. */
    method RepayRight(node: Node?, parent: Node, other: Node)
      requires SiblingRight(node, parent, other) && other.color == Black && IsRed(other.right)
      modifies this`root, this`rotations
      modifies nodes`left, nodes`right, nodes`parent, nodes`color, nodes`lo, nodes`hi, nodes`bh
      ensures rotations == old(rotations) + 1
      ensures Valid()
    {
      assert LinkedAt(other);
      var outer := other.right;
      Nested(outer);
      Nested(other);
      other.color := parent.color;
      parent.color := Black;
      outer.color := Black;
      other.bh, parent.bh, outer.bh := parent.bh, other.bh, outer.bh + 1;
      SameLinks();
      label recoloured:
      RotateLeft(parent);
      forall m | m in nodes
        ensures RotatedLeftAt(parent, other, m)
      {
        assert RotatedLeftAt@recoloured(parent, other, m);
      }
      RepaidRight(node, parent, other, outer);
    }

    /** Case 2 of __rb_erase_color for a left child. */
    method ShareRight(node: Node?, parent: Node, other: Node)
      requires SiblingRight(node, parent, other) && other.color == Black
      requires !IsRed(other.left) && !IsRed(other.right)
      modifies nodes`color, nodes`bh
      ensures Short(parent, parent.parent, 1) && parent.color == old(parent.color)
      ensures parent.left == node && parent in nodes && (node != null ==> node in nodes && node.parent == parent)
    {
      other.color := Red;
      other.bh, parent.bh := other.bh - 1, parent.bh - 1;
      SharedRight(node, parent, other);
    }

    /** Case 1 of __rb_erase_color for a right child. */
    method LiftLeft(node: Node?, parent: Node, other: Node)
      requires SiblingLeft(node, parent, other) && other.color == Red
      modifies this`root, this`rotations
      modifies nodes`right, nodes`left, nodes`parent, nodes`color, nodes`lo, nodes`hi, nodes`bh
      ensures rotations == old(rotations) + 1
      ensures parent.left != null && SiblingLeft(node, parent, parent.left) && !IsRed(parent.left)
      ensures parent.color == Red
      ensures node != null ==> node.lo == old(node.lo) && node.hi == old(node.hi)
    {
      assert LinkedAt(parent);
      other.color := Black;
      parent.color := Red;
      other.bh, parent.bh := other.bh + 1, parent.bh - 1;
      SameLinks();
      label recoloured:
      RotateRight(parent);
      forall m | m in nodes
        ensures RotatedRightAt(parent, other, m)
      {
        assert RotatedRightAt@recoloured(parent, other, m);
      }
      LiftedLeft(node, parent, other);
      if node != null {
        assert RotatedRightAt(parent, other, node);
        assert LiftedAt(parent, other, node);
      }
      HasSiblingLeft(node, parent);
    }

    /** Case 3 of __rb_erase_color for a right child. */
    method LeanLeft(node: Node?, parent: Node, other: Node) returns (newOther: Node)
      requires SiblingLeft(node, parent, other) && other.color == Black
      requires IsRed(other.right) && !IsRed(other.left)
      modifies this`root, this`rotations
      modifies nodes`right, nodes`left, nodes`parent, nodes`color, nodes`lo, nodes`hi, nodes`bh
      ensures rotations == old(rotations) + 1
      ensures SiblingLeft(node, parent, newOther) && newOther.color == Black && IsRed(newOther.left)
    {
      assert LinkedAt(other);
      var inner := other.right;
      inner.color := Black;
      other.color := Red;
      inner.bh, other.bh := inner.bh + 1, other.bh - 1;
      SameLinks();
      label recoloured:
      RotateLeft(other);
      forall m | m in nodes
        ensures RotatedLeftAt(other, inner, m)
      {
        assert RotatedLeftAt@recoloured(other, inner, m);
      }
      LeanedLeft(node, parent, other, inner);
      newOther := parent.left;
    }

    /** Case 4 of __rb_erase_color for a right child. */
    method RepayLeft(node: Node?, parent: Node, other: Node)
      requires SiblingLeft(node, parent, other) && other.color == Black && IsRed(other.left)
      modifies this`root, this`rotations
      modifies nodes`right, nodes`left, nodes`parent, nodes`color, nodes`lo, nodes`hi, nodes`bh
      ensures rotations == old(rotations) + 1
      ensures Valid()
    {
      assert LinkedAt(other);
      var outer := other.left;
      Nested(outer);
      Nested(other);
      other.color := parent.color;
      parent.color := Black;
      outer.color := Black;
      other.bh, parent.bh, outer.bh := parent.bh, other.bh, outer.bh + 1;
      SameLinks();
      label recoloured:
      RotateRight(parent);
      forall m | m in nodes
        ensures RotatedRightAt(parent, other, m)
      {
        assert RotatedRightAt@recoloured(parent, other, m);
      }
      RepaidLeft(node, parent, other, outer);
    }

    /** Case 2 of __rb_erase_color for a right child. */
    method ShareLeft(node: Node?, parent: Node, other: Node)
      requires SiblingLeft(node, parent, other) && other.color == Black
      requires !IsRed(other.right) && !IsRed(other.left)
      modifies nodes`color, nodes`bh
      ensures Short(parent, parent.parent, 1) && parent.color == old(parent.color)
      ensures parent.right == node && parent in nodes && (node != null ==> node in nodes && node.parent == parent)
    {
      other.color := Red;
      other.bh, parent.bh := other.bh - 1, parent.bh - 1;
      SharedLeft(node, parent, other);
    }

    /** Moving from a node to its parent enlarges the subtree. */
    lemma ClimbsFrom(node: Node?, parent: Node)
      requires Linked() && parent in nodes && (node != null ==> node in nodes && node.parent == parent)
      ensures 0 <= (if node == null then 0 else node.hi - node.lo) < parent.hi - parent.lo <= |order|
    {
      assert LinkedAt(parent);
      if node != null {
        assert LinkedAt(node);
        Nested(node);
      }
    }

    lemma RootNotShort()
      requires Valid()
      ensures Short(root, null, 1)
    {
      forall m {:trigger ShortAt(m, root, null, 1)} | m in nodes
        ensures ShortAt(m, root, null, 1)
      {
        assert RedBlackAt(m, null);
      }
    }

    /** One round of the loop when `node` is a left child.  `done` says that the loop breaks. */
    method MendRight(node: Node?, parent: Node) returns (node': Node?, parent': Node?, done: bool)
      requires Short(node, parent, 1) && !IsRed(node) && parent.left == node
      modifies this`root, this`rotations
      modifies nodes`left, nodes`right, nodes`parent, nodes`color, nodes`lo, nodes`hi, nodes`bh
      ensures done ==> Valid() && node' == root && old(rotations) <= rotations <= old(rotations) + 3
      ensures !done ==>
                && Short(node', parent', 1) && node' == parent
                && (rotations == old(rotations) || (rotations == old(rotations) + 1 && IsRed(node')))
                && old(if node == null then 0 else node.hi - node.lo) < parent.hi - parent.lo <= |order|
    {
      HasSiblingRight(node, parent);
      var other: Node := parent.right;
      if other.color == Red {
        LiftRight(node, parent, other);
        other := parent.right;
      }
      if (other.left == null || other.left.color == Black) && (other.right == null || other.right.color == Black) {
        ShareRight(node, parent, other);
        ClimbsFrom(node, parent);
        node', parent', done := parent, parent.parent, false;
      } else {
        if other.right == null || other.right.color == Black {
          other := LeanRight(node, parent, other);
        }
        RepayRight(node, parent, other);
        node', parent', done := root, parent, true;
      }
    }

    /** One round of the loop when `node` is a right child.  `done` says that the loop breaks. */
    method MendLeft(node: Node?, parent: Node) returns (node': Node?, parent': Node?, done: bool)
      requires Short(node, parent, 1) && !IsRed(node) && parent.right == node
      modifies this`root, this`rotations
      modifies nodes`right, nodes`left, nodes`parent, nodes`color, nodes`lo, nodes`hi, nodes`bh
      ensures done ==> Valid() && node' == root && old(rotations) <= rotations <= old(rotations) + 3
      ensures !done ==>
                && Short(node', parent', 1) && node' == parent
                && (rotations == old(rotations) || (rotations == old(rotations) + 1 && IsRed(node')))
                && old(if node == null then 0 else node.hi - node.lo) < parent.hi - parent.lo <= |order|
    {
      HasSiblingLeft(node, parent);
      var other: Node := parent.left;
      if other.color == Red {
        LiftLeft(node, parent, other);
        other := parent.left;
      }
      if (other.right == null || other.right.color == Black) && (other.left == null || other.left.color == Black) {
        ShareLeft(node, parent, other);
        ClimbsFrom(node, parent);
        node', parent', done := parent, parent.parent, false;
      } else {
        if other.left == null || other.left.color == Black {
          other := LeanLeft(node, parent, other);
        }
        RepayLeft(node, parent, other);
        node', parent', done := root, parent, true;
      }
    }

    /** __rb_erase_color: makes up for the black node missing under `parent0` on the side of `node0`. */
    method EraseColor(node0: Node?, parent0: Node?)
      requires Short(node0, parent0, 1)
      modifies this`root, this`rotations
      modifies nodes`left, nodes`right, nodes`parent, nodes`color, nodes`lo, nodes`hi, nodes`bh
      ensures Valid() && old(rotations) <= rotations <= old(rotations) + 3
    {
      var node: Node?, parent: Node? := node0, parent0;
      var done := false;
      while (node == null || node.color == Black) && node != root
        invariant Short(node, parent, 1) && !done
        invariant rotations == old(rotations) || (rotations == old(rotations) + 1 && IsRed(node))
        decreases |order| - (if node == null then 0 else node.hi - node.lo)
      {
        if parent.left == node {
          node, parent, done := MendRight(node, parent);
        } else {
          node, parent, done := MendLeft(node, parent);
        }
        if done {
          break;
        }
      }
      if done {
        RootNotShort();
      } else if parent != null {
        assert LinkedAt(parent);
      }
      if node != null {
        Blacken(node, if done then null else parent);
      } else {
        NotShort(node, if done then null else parent, 1);
      }
    }

    // ---------- rb_erase ----------

    /** The edges between `n` and the root, from below.  An edge is named by its lower end. */
    ghost function PathUp(n: Node): seq<Node>
      requires Linked() && n in nodes
      reads this, nodes
      decreases |order| - (n.hi - n.lo)
    {
      Nested(n);
      assert n.parent != null ==> LinkedAt(n.parent);
      if n.parent == null then [] else [n] + PathUp(n.parent)
    }

    /** Walks left from `n` as far as it goes.  `crossed` lists the edges, the last one first. */
    static method DescendLeft(ghost t: Tree, n: Node) returns (m: Node, ghost crossed: seq<Node>)
      requires t.Linked() && n in t.nodes
      ensures m in t.nodes && m.left == null && m.pos == n.lo && t.PathUp(m) == crossed + t.PathUp(n)
      ensures m != n ==>
                && m.parent in t.nodes && m.parent.left == m && n.right != m
                && n.lo <= m.parent.lo && m.parent.hi <= n.hi
    {
      m := n;
      crossed := [];
      assert t.LinkedAt(n);
      while m.left != null
        invariant m in t.nodes && m.lo == n.lo && m.hi <= n.hi && t.PathUp(m) == crossed + t.PathUp(n)
        invariant m == n || (m.parent in t.nodes && m.parent.left == m && m.parent.hi <= n.hi && m.parent.lo == n.lo)
        decreases m.hi - m.lo
      {
        assert t.LinkedAt(m);
        m := m.left;
        assert t.LinkedAt(m);
        assert [m] + (crossed + t.PathUp(n)) == [m] + crossed + t.PathUp(n);
        crossed := [m] + crossed;
      }
      assert t.LinkedAt(m);
    }

    /** Walks right from `n` as far as it goes.  `crossed` lists the edges, the last one first. */
    static method DescendRight(ghost t: Tree, n: Node) returns (m: Node, ghost crossed: seq<Node>)
      requires t.Linked() && n in t.nodes
      ensures m in t.nodes && m.right == null && m.pos == n.hi - 1 && t.PathUp(m) == crossed + t.PathUp(n)
      ensures m != n ==>
                && m.parent in t.nodes && m.parent.right == m && n.left != m
                && n.lo <= m.parent.lo && m.parent.hi <= n.hi
    {
      m := n;
      crossed := [];
      assert t.LinkedAt(n);
      while m.right != null
        invariant m in t.nodes && m.hi == n.hi && n.lo <= m.lo && t.PathUp(m) == crossed + t.PathUp(n)
        invariant m == n || (m.parent in t.nodes && m.parent.right == m && m.parent.hi == n.hi && n.lo <= m.parent.lo)
        decreases m.hi - m.lo
      {
        assert t.LinkedAt(m);
        m := m.right;
        assert t.LinkedAt(m);
        assert [m] + (crossed + t.PathUp(n)) == [m] + crossed + t.PathUp(n);
        crossed := [m] + crossed;
      }
      assert t.LinkedAt(m);
    }

    /** Positions after `d` move down by one. */
    twostate predicate ClosedAt(d: int, m: Node)
      reads m
    {
      && m.pos == old(m.pos) - (if old(m.pos) > d then 1 else 0)
      && m.lo == old(m.lo) - (if old(m.lo) > d then 1 else 0)
      && m.hi == old(m.hi) - (if old(m.hi) > d then 1 else 0)
    }

    /** Takes `z` out of the in-order sequence and closes the gap at position `d`. */
    ghost method Strike(z: Node, d: int)
      requires z in nodes && 0 <= z.pos < |order|
      modifies this`order, this`nodes, nodes`lo, nodes`pos, nodes`hi
      ensures forall m {:trigger ClosedAt(d, m)} :: m in old(nodes) ==> ClosedAt(d, m)
      ensures order == old(order)[..old(z.pos)] + old(order)[old(z.pos) + 1..] && nodes == old(nodes) - {z}
    {
      order := order[..z.pos] + order[z.pos + 1..];
      forall m | m in nodes {
        m.pos := m.pos - (if m.pos > d then 1 else 0);
      }
      forall m | m in nodes {
        m.lo := m.lo - (if m.lo > d then 1 else 0);
      }
      forall m | m in nodes {
        m.hi := m.hi - (if m.hi > d then 1 else 0);
      }
      nodes := nodes - {z};
    }

    /** What splicing out `z`, whose only child may be `c`, does to the node `m`. */
    twostate predicate SplicedAt(z: Node, c: Node?, m: Node)
      reads m
    {
      && m.left == (if m == old(z.parent) && old(m.left) == z then c else old(m.left))
      && m.right == (if m == old(z.parent) && old(m.left) != z then c else old(m.right))
      && m.parent == (if m == c then old(z.parent) else old(m.parent))
      && m.color == old(m.color) && m.bh == old(m.bh)
      && ClosedAt(old(z.pos), m)
    }

    twostate predicate Spliced(z: Node, c: Node?)
      reads this, nodes
    {
      && root == (if old(z.parent) == null then c else old(root))
      && 0 <= old(z.pos) < |old(order)|
      && order == old(order)[..old(z.pos)] + old(order)[old(z.pos) + 1..] && nodes == old(nodes) - {z}
      && forall m {:trigger SplicedAt(z, c, m)} :: m in nodes ==> SplicedAt(z, c, m)
    }

    /** `z` has at most one child, `c`. */
    ghost predicate OnlyChild(z: Node, c: Node?)
      reads this, nodes
    {
      Linked() && z in nodes && ((z.left == null && z.right == c) || (z.right == null && z.left == c))
    }

    lemma OnlyChildFacts(z: Node, c: Node?)
      requires OnlyChild(z, c)
      ensures c != z && z.parent != z && (c != null ==> c in nodes && c != z.parent && c.parent == z)
      ensures z.parent != null ==> z.parent in nodes && z.parent.left != z.parent.right
      ensures z.parent != null ==> z.parent.left == z || z.parent.right == z
    {
      assert LinkedAt(z);
      Nested(z);
      if c != null {
        Nested(c);
      }
    }

    twostate lemma SplicedLinkedAt(new z: Node, new c: Node?, new m: Node)
      requires z in old(nodes) && (c != null ==> c in old(nodes)) && old(OnlyChild(z, c))
      requires Spliced(z, c) && m in nodes && m in old(nodes)
      ensures LinkedAt(m)
    {
      assert old(LinkedAt(z));
      assert old(LinkedAt(m));
      assert SplicedAt(z, c, m);
      assert order[m.pos] == m;
      if c != null {
        assert old(LinkedAt(c));
        assert SplicedAt(z, c, c);
      }
      if m.left != null {
        assert SplicedAt(z, c, m.left);
      }
      if m.right != null {
        assert SplicedAt(z, c, m.right);
      }
      if m.parent != null {
        assert SplicedAt(z, c, m.parent);
      }
    }

    twostate lemma StruckOrder(new z: Node)
      requires old(Linked()) && z in old(nodes)
      requires 0 <= old(z.pos) < |old(order)|
      requires order == old(order)[..old(z.pos)] + old(order)[old(z.pos) + 1..] && nodes == old(nodes) - {z}
      requires forall m :: m in nodes ==> m.pos == old(m.pos) - (if old(m.pos) > old(z.pos) then 1 else 0)
      ensures forall i :: 0 <= i < |order| ==> order[i] in nodes && order[i].pos == i
    {
      assert old(LinkedAt(z));
      forall i | 0 <= i < |order|
        ensures order[i] in nodes && order[i].pos == i
      {
        var j := if i < old(z.pos) then i else i + 1;
        assert order[i] == old(order)[j];
      }
    }

    twostate lemma SplicedLinked(new z: Node, new c: Node?)
      requires z in old(nodes) && (c != null ==> c in old(nodes)) && old(OnlyChild(z, c))
      requires Spliced(z, c)
      ensures Linked()
    {
      assert old(LinkedAt(z));
      forall m {:trigger LinkedAt(m)} | m in nodes
        ensures LinkedAt(m)
      {
        SplicedLinkedAt(z, c, m);
      }
      forall m | m in nodes
        ensures m.pos == old(m.pos) - (if old(m.pos) > old(z.pos) then 1 else 0)
      {
        assert SplicedAt(z, c, m);
      }
      StruckOrder(z);
      if root != null {
        assert LinkedAt(root);
        assert SplicedAt(z, c, root);
      }
    }

    twostate lemma SplicedShortAt(new z: Node, new c: Node?, new m: Node)
      requires z in old(nodes) && (c != null ==> c in old(nodes)) && old(Valid()) && old(OnlyChild(z, c))
      requires Spliced(z, c) && LinkedAt(m) && m in old(nodes)
      ensures ShortAt(m, c, old(z.parent), Weight(old(z.color)))
    {
      assert old(RedBlackAt(z, null));
      assert old(RedBlackAt(m, null));
      assert SplicedAt(z, c, m);
      if m.left != null {
        assert SplicedAt(z, c, m.left);
        assert old(RedBlackAt(m.left, null));
      }
      if m.right != null {
        assert SplicedAt(z, c, m.right);
        assert old(RedBlackAt(m.right, null));
      }
    }

    twostate lemma SplicedShort(new z: Node, new c: Node?)
      requires z in old(nodes) && (c != null ==> c in old(nodes)) && old(Valid()) && old(OnlyChild(z, c))
      requires Spliced(z, c) && Linked()
      ensures Short(c, old(z.parent), Weight(old(z.color)))
    {
      ghost var p := old(z.parent);
      assert old(LinkedAt(z));
      if c != null {
        assert old(LinkedAt(c));
        assert SplicedAt(z, c, c);
      }
      if p != null {
        assert old(LinkedAt(p));
        assert SplicedAt(z, c, p);
      }
      forall m {:trigger ShortAt(m, c, p, Weight(old(z.color)))} | m in nodes
        ensures ShortAt(m, c, p, Weight(old(z.color)))
      {
        assert LinkedAt(m);
        SplicedShortAt(z, c, m);
      }
      if root != null && p != null {
        assert SplicedAt(z, c, root);
      }
    }

    /** The pointer updates that splice out `z`. */
    method SpliceOut(z: Node, child: Node?, parent: Node?)
      requires child != parent || child == null
      requires parent == z.parent
      modifies this`root, Link(child)`parent, Link(parent)`left, Link(parent)`right
      ensures root == if parent == null then child else old(root)
      ensures child != null ==> child.parent == parent
      ensures parent != null ==>
                && parent.left == (if old(parent.left) == z then child else old(parent.left))
                && parent.right == (if old(parent.left) == z then old(parent.right) else child)
    {
      if child != null {
        child.parent := parent;
      }
      if parent != null {
        if parent.left == z {
          parent.left := child;
        } else {
          parent.right := child;
        }
      } else {
        root := child;
      }
    }

    /** rb_erase on a node with at most one child, up to the colour check. */
    method EraseSimple(z: Node, child: Node?) returns (parent: Node?, color: Color)
      requires Valid() && OnlyChild(z, child)
      modifies this`root, this`order, this`nodes, nodes
      ensures Short(child, parent, Weight(color)) && (color == Red ==> !IsRed(child))
      ensures 0 <= old(z.pos) < |old(order)|
      ensures order == old(order)[..old(z.pos)] + old(order)[old(z.pos) + 1..] && nodes == old(nodes) - {z}
    {
      assert RedBlackAt(z, null);
      OnlyChildFacts(z, child);
      ghost var d := z.pos;
      parent := z.parent;
      color := z.color;
      SpliceOut(z, child, parent);
      label spliced:
      Strike(z, d);
      forall m | m in nodes
        ensures SplicedAt(z, child, m)
      {
        assert ClosedAt@spliced(d, m);
      }
      SplicedLinked(z, child);
      SplicedShort(z, child);
    }

    /** `z` has two children; its successor `y` hangs under `q`, has no left child and right child `c`. */
    ghost predicate SuccessorOf(z: Node, y: Node, q: Node, c: Node?)
      reads this, nodes
    {
      && Linked() && z in nodes && y in nodes && q in nodes
      && z.left != null && z.right != null
      && y.pos == z.pos + 1 && y.left == null && y.right == c && y.parent == q
      && (q == z ==> z.right == y)
      && (q != z ==> q.left == y && z.right != y && z.lo < q.lo && q.hi <= z.hi)
    }

    /** No two of the nodes that the relinking touches coincide. */
    ghost predicate Apart(z: Node, y: Node, q: Node, c: Node?)
      reads z
    {
      && z != y && q != y && c != z && c != y && c != q
      && z.left != null && z.left != z && z.left != y && z.left != q && z.left != c
      && z.right != null && (q != z ==> z.right != z && z.right != y && z.right != c && z.right != z.left)
      && (z.parent != null ==>
            z.parent != z && z.parent != y && z.parent != q && z.parent != c
            && z.parent != z.left && z.parent != z.right)
    }

    lemma SuccessorFacts(z: Node, y: Node, q: Node, c: Node?)
      requires SuccessorOf(z, y, q, c)
      ensures Apart(z, y, q, c)
      ensures z.left in nodes && z.right in nodes && (c != null ==> c in nodes && c.parent == y)
      ensures z.parent != null ==> z.parent in nodes && (z.parent.left == z || z.parent.right == z)
    {
      assert LinkedAt(z);
      assert LinkedAt(y);
      assert LinkedAt(q);
      assert LinkedAt(z.left);
      assert LinkedAt(z.right);
      Nested(z);
      if c != null {
        assert LinkedAt(c);
      }
    }

    /** What putting `y` in the place of `z` does to the node `m`. */
    twostate predicate MovedAt(z: Node, y: Node, q: Node, c: Node?, m: Node)
      reads m
    {
      && m.left == (if m == y then old(z.left)
                    else if m == old(z.parent) && old(m.left) == z then y
                    else if m == q then c else old(m.left))
      && m.right == (if m == y then (if q == z then c else old(z.right))
                     else if m == old(z.parent) && old(m.left) != z then y else old(m.right))
      && m.parent == (if m == y then old(z.parent)
                      else if m == c then (if q == z then y else q)
                      else if m == old(z.left) || m == old(z.right) then y else old(m.parent))
      && m.color == (if m == y then old(z.color) else old(m.color))
      && m.bh == (if m == y then old(z.bh) else old(m.bh))
      && (m != y ==> ClosedAt(old(y.pos), m))
      && (m == y ==> m.lo == old(z.lo) && m.pos == old(z.pos) && m.hi == old(z.hi) - 1)
    }

    twostate predicate Moved(z: Node, y: Node, q: Node, c: Node?)
      reads this, nodes
    {
      && root == (if old(z.parent) == null then y else old(root))
      && 0 <= old(z.pos) < |old(order)|
      && order == old(order)[..old(z.pos)] + old(order)[old(z.pos) + 1..] && nodes == old(nodes) - {z}
      && forall m {:trigger MovedAt(z, y, q, c, m)} :: m in nodes ==> MovedAt(z, y, q, c, m)
    }

    twostate lemma MovedLinkedSelf(new z: Node, new y: Node, new q: Node, new c: Node?)
      requires z in old(nodes) && y in old(nodes) && q in old(nodes) && (c != null ==> c in old(nodes))
      requires old(SuccessorOf(z, y, q, c)) && old(Apart(z, y, q, c))
      requires Moved(z, y, q, c)
      ensures LinkedAt(y)
    {
      assert old(LinkedAt(z));
      assert old(LinkedAt(y));
      assert old(LinkedAt(z.left));
      assert old(LinkedAt(z.right));
      assert MovedAt(z, y, q, c, y);
      assert order[y.pos] == y;
      if y.left != null {
        assert MovedAt(z, y, q, c, y.left);
      }
      if y.right != null {
        assert MovedAt(z, y, q, c, y.right);
      }
      if y.parent != null {
        assert MovedAt(z, y, q, c, y.parent);
      }
    }

    twostate lemma MovedLinkedOther(new z: Node, new y: Node, new q: Node, new c: Node?, new m: Node)
      requires z in old(nodes) && y in old(nodes) && q in old(nodes) && (c != null ==> c in old(nodes))
      requires old(SuccessorOf(z, y, q, c)) && old(Apart(z, y, q, c))
      requires Moved(z, y, q, c)
      requires m in nodes && m in old(nodes) && m != y && m != q && m != old(z.parent)
      ensures LinkedAt(m)
    {
      assert old(LinkedAt(z));
      assert old(LinkedAt(y));
      assert old(LinkedAt(m));
      assert old(m.pos) != old(y.pos);
      assert MovedAt(z, y, q, c, m);
      assert MovedAt(z, y, q, c, y);
      assert order[m.pos] == m;
      if m.left != null {
        assert MovedAt(z, y, q, c, m.left);
      }
      if m.right != null {
        assert MovedAt(z, y, q, c, m.right);
      }
      if m.parent != null {
        assert MovedAt(z, y, q, c, m.parent);
      }
    }

    twostate lemma MovedLinkedUnder(new z: Node, new y: Node, new q: Node, new c: Node?)
      requires z in old(nodes) && y in old(nodes) && q in old(nodes) && (c != null ==> c in old(nodes))
      requires old(SuccessorOf(z, y, q, c)) && old(Apart(z, y, q, c))
      requires Moved(z, y, q, c) && q != z
      ensures LinkedAt(q)
    {
      assert old(LinkedAt(z));
      assert old(LinkedAt(y));
      assert old(LinkedAt(q));
      assert old(q.pos) != old(y.pos);
      assert MovedAt(z, y, q, c, q);
      assert MovedAt(z, y, q, c, y);
      assert order[q.pos] == q;
      if q.left != null {
        assert MovedAt(z, y, q, c, q.left);
      }
      if q.right != null {
        assert MovedAt(z, y, q, c, q.right);
      }
      if q.parent != null {
        assert MovedAt(z, y, q, c, q.parent);
      }
    }

    twostate lemma MovedLinkedAbove(new z: Node, new y: Node, new q: Node, new c: Node?, new p: Node)
      requires z in old(nodes) && y in old(nodes) && q in old(nodes) && (c != null ==> c in old(nodes))
      requires old(SuccessorOf(z, y, q, c)) && old(Apart(z, y, q, c))
      requires Moved(z, y, q, c)
      requires p == old(z.parent) && p in old(nodes)
      ensures LinkedAt(p)
    {
      assert old(LinkedAt(z));
      assert old(LinkedAt(z.right));
      assert old(LinkedAt(y));
      assert old(LinkedAt(p));
      assert old(p.pos) != old(y.pos);
      assert MovedAt(z, y, q, c, p);
      assert MovedAt(z, y, q, c, y);
      assert order[p.pos] == p;
      if p.left != null {
        assert MovedAt(z, y, q, c, p.left);
      }
      if p.right != null {
        assert MovedAt(z, y, q, c, p.right);
      }
      if p.parent != null {
        assert MovedAt(z, y, q, c, p.parent);
      }
    }

    /** The pointer updates that put the successor `y` of `z` in the place of `z`. */
    method Relink(z: Node, y: Node, q: Node, child: Node?) returns (parent: Node)
      requires Apart(z, y, q, child) && y.right == child
      modifies this`root, Link(child)`parent, q`left, q`right, y`left, y`right, y`parent, y`color
      modifies z.left`parent, z.right`parent, Link(z.parent)`left, Link(z.parent)`right
      ensures root == if old(z.parent) == null then y else old(root)
      ensures parent == if q == z then y else q
      ensures y.parent == old(z.parent) && y.color == old(z.color) && y.left == old(z.left)
      ensures y.right == if q == z then child else old(z.right)
      ensures q != z ==> q.left == child && old(z.right).parent == y && q.right == old(q.right)
      ensures child != null ==> child.parent == if q == z then y else q
      ensures old(z.left).parent == y
      ensures var p := old(z.parent); p != null ==>
                && p.left == (if old(p.left) == z then y else old(p.left))
                && p.right == (if old(p.left) == z then old(p.right) else y)
    {
      parent := q;
      if child != null {
        child.parent := parent;
      }
      if parent == z {
        parent.right := child;
        parent := y;
      } else {
        parent.left := child;
      }
      y.parent, y.color := z.parent, z.color;
      y.right := z.right;
      y.left := z.left;
      if z.parent != null {
        if z.parent.left == z {
          z.parent.left := y;
        } else {
          z.parent.right := y;
        }
      } else {
        root := y;
      }
      z.left.parent := y;
      if z.right != null {
        z.right.parent := y;
      }
    }

    twostate lemma MovedLinked(new z: Node, new y: Node, new q: Node, new c: Node?)
      requires z in old(nodes) && y in old(nodes) && q in old(nodes) && (c != null ==> c in old(nodes))
      requires old(SuccessorOf(z, y, q, c)) && old(Apart(z, y, q, c))
      requires Moved(z, y, q, c)
      ensures Linked()
    {
      assert old(LinkedAt(z));
      assert old(LinkedAt(y));
      forall m {:trigger LinkedAt(m)} | m in nodes
        ensures LinkedAt(m)
      {
        if m == y {
          MovedLinkedSelf(z, y, q, c);
        } else if m == q {
          MovedLinkedUnder(z, y, q, c);
        } else if m == old(z.parent) {
          MovedLinkedAbove(z, y, q, c, m);
        } else {
          MovedLinkedOther(z, y, q, c, m);
        }
      }
      forall m | m in nodes
        ensures m.pos == old(m.pos) - (if old(m.pos) > old(z.pos) then 1 else 0)
      {
        assert old(LinkedAt(m));
        assert MovedAt(z, y, q, c, m);
      }
      StruckOrder(z);
      assert root != null;
      assert LinkedAt(root);
      assert MovedAt(z, y, q, c, root);
    }

    twostate lemma MovedShortAt(new z: Node, new y: Node, new q: Node, new c: Node?, new m: Node)
      requires z in old(nodes) && y in old(nodes) && q in old(nodes) && (c != null ==> c in old(nodes))
      requires old(Valid()) && old(SuccessorOf(z, y, q, c)) && old(Apart(z, y, q, c))
      requires Moved(z, y, q, c) && LinkedAt(m) && m in old(nodes) && m != y && m != q
      ensures ShortAt(m, c, if q == z then y else q, Weight(old(y.color)))
    {
      assert old(RedBlackAt(z, null));
      assert old(RedBlackAt(m, null));
      assert MovedAt(z, y, q, c, m);
      assert MovedAt(z, y, q, c, y);
      if m.left != null {
        assert MovedAt(z, y, q, c, m.left);
      }
      if m.right != null {
        assert MovedAt(z, y, q, c, m.right);
      }
    }

    twostate lemma MovedShortSelf(new z: Node, new y: Node, new q: Node, new c: Node?)
      requires z in old(nodes) && y in old(nodes) && q in old(nodes) && (c != null ==> c in old(nodes))
      requires old(Valid()) && old(SuccessorOf(z, y, q, c)) && old(Apart(z, y, q, c))
      requires Moved(z, y, q, c) && LinkedAt(y)
      ensures ShortAt(y, c, if q == z then y else q, Weight(old(y.color)))
    {
      assert old(RedBlackAt(z, null));
      assert old(RedBlackAt(y, null));
      assert MovedAt(z, y, q, c, y);
      assert MovedAt(z, y, q, c, y.left);
      if y.right != null {
        assert MovedAt(z, y, q, c, y.right);
      }
    }

    twostate lemma MovedShortUnder(new z: Node, new y: Node, new q: Node, new c: Node?)
      requires z in old(nodes) && y in old(nodes) && q in old(nodes) && (c != null ==> c in old(nodes))
      requires old(Valid()) && old(SuccessorOf(z, y, q, c)) && old(Apart(z, y, q, c))
      requires Moved(z, y, q, c) && q != z && LinkedAt(q)
      ensures ShortAt(q, c, q, Weight(old(y.color)))
    {
      assert old(RedBlackAt(q, null));
      assert old(RedBlackAt(y, null));
      assert MovedAt(z, y, q, c, q);
      assert MovedAt(z, y, q, c, y);
      if q.left != null {
        assert MovedAt(z, y, q, c, q.left);
      }
      if q.right != null {
        assert MovedAt(z, y, q, c, q.right);
      }
    }

    twostate lemma MovedShort(new z: Node, new y: Node, new q: Node, new c: Node?)
      requires z in old(nodes) && y in old(nodes) && q in old(nodes) && (c != null ==> c in old(nodes))
      requires old(Valid()) && old(SuccessorOf(z, y, q, c)) && old(Apart(z, y, q, c))
      requires Moved(z, y, q, c) && Linked()
      ensures Short(c, if q == z then y else q, Weight(old(y.color)))
    {
      ghost var parent := if q == z then y else q;
      assert old(LinkedAt(z));
      assert MovedAt(z, y, q, c, parent);
      if c != null {
        assert MovedAt(z, y, q, c, c);
      }
      forall m {:trigger ShortAt(m, c, parent, Weight(old(y.color)))} | m in nodes
        ensures ShortAt(m, c, parent, Weight(old(y.color)))
      {
        assert LinkedAt(m);
        if m == y {
          MovedShortSelf(z, y, q, c);
        } else if m == q {
          MovedShortUnder(z, y, q, c);
        } else {
          MovedShortAt(z, y, q, c, m);
        }
      }
      assert LinkedAt(y);
      assert MovedAt(z, y, q, c, root);
    }

    /** Puts `y` in the place of `z`, in the links and in the in-order sequence. */
    method MoveUp(z: Node, y: Node, q: Node, child: Node?) returns (parent: Node)
      requires SuccessorOf(z, y, q, child) && Apart(z, y, q, child)
      requires z.left in nodes && z.right in nodes && (child != null ==> child in nodes)
      requires z.parent != null ==> z.parent in nodes
      requires 0 <= z.lo <= z.pos && z.pos + 1 < z.hi <= |order|
      modifies this`root, this`order, this`nodes, nodes
      ensures Moved(z, y, q, child) && parent == if q == z then y else q
    {
      ghost var d := y.pos;
      parent := Relink(z, y, q, child);
      label relinked:
      Strike(z, d);
      assert ClosedAt@relinked(d, z);
      y.lo, y.pos, y.hi, y.bh := z.lo, z.pos, z.hi, z.bh;
      forall m | m in nodes
        ensures MovedAt(z, y, q, child, m)
      {
        if m != y {
          assert ClosedAt@relinked(d, m);
        }
      }
    }

    /** rb_erase on a node with two children, up to the colour check. */
    method EraseWithSuccessor(z: Node) returns (child: Node?, parent: Node, color: Color)
      requires Valid() && z in nodes && z.left != null && z.right != null
      modifies this`root, this`order, this`nodes, nodes
      ensures Short(child, parent, Weight(color)) && (color == Red ==> !IsRed(child))
      ensures 0 <= old(z.pos) < |old(order)|
      ensures order == old(order)[..old(z.pos)] + old(order)[old(z.pos) + 1..] && nodes == old(nodes) - {z}
    {
      assert LinkedAt(z);
      assert LinkedAt(z.right);
      var y, _ := DescendLeft(this, z.right);
      assert RedBlackAt(y, null);
      child := y.right;
      parent := y.parent;
      color := y.color;
      ghost var q := parent;
      SuccessorFacts(z, y, q, child);
      label found:
      parent := MoveUp(z, y, parent, child);
      MovedLinked@found(z, y, q, child);
      MovedShort@found(z, y, q, child);
      if child != null {
        assert MovedAt@found(z, y, q, child, child);
      }
    }

    /** rb_erase: the tree stays a red-black tree and its sequence loses exactly `z`. */
    method Erase(z: Node)
      requires Valid() && z in nodes
      modifies this, nodes
      ensures Valid() && old(rotations) <= rotations <= old(rotations) + 3
      ensures 0 <= old(z.pos) < |old(order)| && old(order)[old(z.pos)] == z
      ensures order == old(order)[..old(z.pos)] + old(order)[old(z.pos) + 1..] && nodes == old(nodes) - {z}
    {
      assert LinkedAt(z);
      var child: Node?, parent: Node?, color;
      if z.left == null {
        child := z.right;
        parent, color := EraseSimple(z, child);
      } else if z.right == null {
        child := z.left;
        parent, color := EraseSimple(z, child);
      } else {
        child, parent, color := EraseWithSuccessor(z);
      }
      if color == Black {
        EraseColor(child, parent);
      } else {
        NotShort(child, parent, 0);
      }
    }
  }
}
