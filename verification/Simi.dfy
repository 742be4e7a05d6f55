/** The multiset of page hashes of jni/simi.c, kept in a red-black tree that admits equal keys. */
module Simi {
  import opened RbTree
  import opened RbShape
  import RbWalk

  function Keys(order: seq<Node>): (k: seq<Key>)
    ensures |k| == |order| && forall i :: 0 <= i < |k| ==> k[i] == order[i].v
  {
    seq(|order|, i requires 0 <= i < |order| => order[i].v)
  }

  predicate Sorted(keys: seq<Key>) {
    forall i, j :: 0 <= i < j < |keys| ==> keys[i] <= keys[j]
  }

  // ---------- rb_search_data ----------

  /** Equal keys may sit on either side of a node, so the loop only knows that a node it looks for lies
      inside the current subtree if it exists at all.  `path` lists the values of the pointer `node`. */
  method SearchData(t: Tree, v: Key) returns (data: Node?, ghost path: seq<Node?>)
    requires t.Valid() && Sorted(Keys(t.order))
    ensures data != null ==> data in t.nodes && data.v == v
    ensures data == null ==> v !in Keys(t.order)
    ensures path != [] && path[0] == t.root && path[|path| - 1] == data
    ensures forall i :: 0 <= i < |path| - 1 ==>
              && path[i] != null && path[i].v != v
              && path[i + 1] == if v < path[i].v then path[i].left else path[i].right
    ensures Pow2(if data == null then |path| - 1 else |path|) <= (|t.order| + 1) * (|t.order| + 1)
  {
    var node := t.root;
    ghost var keys := Keys(t.order);
    ghost var lo, hi := 0, |keys|;
    path := [node];
    if node != null {
      SizeFromHeight(t, node);
    }
    while node != null
      invariant node != null ==> node in t.nodes && node.lo == lo && node.hi == hi && node.bh >= 0
      invariant node == null ==> lo == hi
      invariant 0 <= lo <= hi <= |keys|
      invariant forall i :: 0 <= i < |keys| && keys[i] == v ==> lo <= i < hi
      invariant path != [] && path[0] == t.root && path[|path| - 1] == node
      invariant forall i :: 0 <= i < |path| - 1 ==>
                  && path[i] != null && path[i].v != v
                  && path[i + 1] == if v < path[i].v then path[i].left else path[i].right
      invariant |path| - 1 + Reach(node) <= Reach(t.root)
      decreases hi - lo
    {
      assert t.RedBlackAt(node, null);
      assert keys[node.pos] == node.v;
      if v < node.v {
        hi := node.pos;
        node := node.left;
      } else if v > node.v {
        lo := node.pos + 1;
        node := node.right;
      } else {
        if node.left != null {
          assert t.RedBlackAt(node.left, null);
        }
        ReachBound(|path|, t.root.bh, |t.order|);
        return node, path;
      }
      path := path + [node];
      if node != null {
        assert t.RedBlackAt(node, null);
      }
    }
    if t.root != null {
      ReachBound(|path| - 1, t.root.bh, |t.order|);
    }
    data := null;
  }

  // ---------- rb_insert_data ----------

  /** How many keys of a sorted sequence are at most `v`. */
  function UpperBound(keys: seq<Key>, v: Key): (u: nat)
    ensures u <= |keys|
  {
    if keys == [] || keys[0] > v then 0 else 1 + UpperBound(keys[1..], v)
  }

  lemma {:induction false} UpperBoundIs(keys: seq<Key>, v: Key, d: nat)
    requires d <= |keys|
    requires forall i :: 0 <= i < d ==> keys[i] <= v
    requires forall i :: d <= i < |keys| ==> keys[i] > v
    ensures UpperBound(keys, v) == d
  {
    if d > 0 {
      UpperBoundIs(keys[1..], v, d - 1);
    }
  }

  /** `order` with `n` put directly after the last node whose key is at most that of `n`. */
  function Placed(order: seq<Node>, n: Node): seq<Node> {
    var u := UpperBound(Keys(order), n.v);
    order[..u] + [n] + order[u..]
  }

  function InsertAt(keys: seq<Key>, u: nat, v: Key): (r: seq<Key>)
    requires u <= |keys|
  {
    keys[..u] + [v] + keys[u..]
  }

  lemma InsertAtSorted(keys: seq<Key>, u: nat, v: Key)
    requires u <= |keys| && Sorted(keys)
    requires forall i :: 0 <= i < u ==> keys[i] <= v
    requires forall i :: u <= i < |keys| ==> keys[i] > v
    ensures Sorted(InsertAt(keys, u, v))
  {
    var r := InsertAt(keys, u, v);
    forall i, j | 0 <= i < j < |r|
      ensures r[i] <= r[j]
    {
      assert r[i] == if i < u then keys[i] else if i == u then v else keys[i - 1];
      assert r[j] == if j < u then keys[j] else if j == u then v else keys[j - 1];
    }
  }

  lemma InsertAtBag(keys: seq<Key>, u: nat, v: Key)
    requires u <= |keys|
    ensures multiset(InsertAt(keys, u, v)) == multiset(keys) + multiset{v}
  {
    assert keys == keys[..u] + keys[u..];
  }

  lemma PlacedKeys(order: seq<Node>, n: Node)
    ensures Keys(Placed(order, n)) == InsertAt(Keys(order), UpperBound(Keys(order), n.v), n.v)
  {
  }

  lemma PlacedSorted(order: seq<Node>, n: Node)
    requires Sorted(Keys(order))
    ensures Sorted(Keys(Placed(order, n)))
    ensures multiset(Keys(Placed(order, n))) == multiset(Keys(order)) + multiset{n.v}
  {
    var u := UpperBound(Keys(order), n.v);
    PlacedKeys(order, n);
    UpperBoundSplits(Keys(order), n.v);
    InsertAtSorted(Keys(order), u, n.v);
    InsertAtBag(Keys(order), u, n.v);
  }

  lemma {:induction false} UpperBoundSplits(keys: seq<Key>, v: Key)
    requires Sorted(keys)
    ensures forall i :: 0 <= i < UpperBound(keys, v) ==> keys[i] <= v
    ensures forall i :: UpperBound(keys, v) <= i < |keys| ==> keys[i] > v
  {
    if keys != [] && keys[0] <= v {
      UpperBoundSplits(keys[1..], v);
      assert forall i :: 1 <= i < |keys| ==> keys[i] == keys[1..][i - 1];
    }
  }

  /** Equal keys keep the order in which they were inserted: the new node comes after every node whose key is at
      most its own, and before every other. */
  lemma PlacedAfterEquals(order: seq<Node>, n: Node)
    requires Sorted(Keys(order))
    ensures exists d {:trigger order[..d]} ::
              && 0 <= d <= |order| && Placed(order, n) == order[..d] + [n] + order[d..]
              && (forall i :: 0 <= i < d ==> order[i].v <= n.v)
              && (forall i :: d <= i < |order| ==> order[i].v > n.v)
  {
    var d := UpperBound(Keys(order), n.v);
    UpperBoundSplits(Keys(order), n.v);
    assert forall i :: 0 <= i < |order| ==> Keys(order)[i] == order[i].v;
    assert Placed(order, n) == order[..d] + [n] + order[d..];
  }

  /** The C loop moves `link`, the address of a child pointer; here `parent` and `left` name that pointer
      and `cur` is what it holds. */
  method InsertData(t: Tree, data: Node)
    requires t.Valid() && Sorted(Keys(t.order)) && data !in t.nodes
    modifies t, t.nodes, data
    ensures t.Valid() && old(t.rotations) <= t.rotations <= old(t.rotations) + 2
    ensures t.order == Placed(old(t.order), data) && t.nodes == old(t.nodes) + {data}
  {
    var cur, parent: Node?, left := t.root, null, true;
    var value := data.v;
    ghost var keys := Keys(t.order);
    ghost var lo, hi := 0, |keys|;
    while cur != null
      invariant parent != null ==> parent in t.nodes && cur == if left then parent.left else parent.right
      invariant parent == null ==> cur == t.root
      invariant cur != null ==> cur in t.nodes && cur.lo == lo && cur.hi == hi
      invariant cur == null ==> lo == hi == t.GapAt(parent, left)
      invariant 0 <= lo <= hi <= |keys|
      invariant forall i :: 0 <= i < lo ==> keys[i] <= value
      invariant forall i :: hi <= i < |keys| ==> keys[i] > value
      decreases hi - lo
    {
      assert t.LinkedAt(cur);
      assert keys[cur.pos] == cur.v;
      parent := cur;
      if cur.v > value {
        hi := cur.pos;
        left := true;
        cur := parent.left;
      } else {
        lo := cur.pos + 1;
        left := false;
        cur := parent.right;
      }
    }
    UpperBoundIs(keys, value, lo);
    t.Insert(data, parent, left);
  }

  // ---------- counting ----------

  function Support(keys: seq<Key>): set<Key> {
    set k | k in keys
  }

  /** How many elements of `keys`, duplicates included, lie in `s`. */
  function CountIn(keys: seq<Key>, s: set<Key>): (n: nat)
    ensures n <= |keys|
  {
    if keys == [] then 0 else CountIn(keys[..|keys| - 1], s) + if keys[|keys| - 1] in s then 1 else 0
  }

  lemma CountInNext(keys: seq<Key>, i: nat, s: set<Key>)
    requires i < |keys|
    ensures CountIn(keys[..i + 1], s) == CountIn(keys[..i], s) + if keys[i] in s then 1 else 0
  {
    assert keys[..i + 1][..i] == keys[..i];
  }

  /** The result of a C division of two counts: 0.0 / 0.0 is not a number. */
  datatype Double = NotANumber | Number(value: real)

  function Divide(num: int, den: int): Double
    requires den != 0 || num == 0
  {
    if den == 0 then NotANumber else Number(num as real / den as real)
  }

  function JaccardOf(a: seq<Key>, b: seq<Key>): Double {
    var y := CountIn(a, Support(b));
    Divide(y, |a| + (|b| - CountIn(b, Support(a))))
  }

  // ---------- struct Set ----------

  class Set {
    const root: Tree
    var size: int

    ghost predicate Valid()
      reads this, root, root.nodes
    {
      root.Valid() && Sorted(Keys(root.order)) && size == |root.order|
    }

    ghost function Repr(): set<object>
      reads this, root
    {
      {this, root} + root.nodes
    }

    /** The keys in the order in which rb_first and rb_next visit them. */
    ghost function Elements(): seq<Key>
      reads this, root
    {
      Keys(root.order)
    }

    ghost function Bag(): multiset<Key>
      reads this, root
    {
      multiset(Elements())
    }

    constructor ()
      ensures Valid() && Elements() == [] && Bag() == multiset{} && fresh(Repr())
    {
      root := new Tree();
      size := 0;
    }

    method Add(data: Node)
      requires Valid() && data !in root.nodes
      modifies this, root, root.nodes, data
      ensures Valid() && Repr() == old(Repr()) + {data}
      ensures root.order == Placed(old(root.order), data)
      ensures Bag() == old(Bag()) + multiset{data.v}
    {
      size := size + 1;
      PlacedSorted(root.order, data);
      InsertData(root, data);
    }

    method In(data: Node) returns (found: bool)
      requires Valid()
      ensures found <==> data.v in Elements()
    {
      var d, _ := SearchData(root, data.v);
      if d != null {
        assert root.LinkedAt(d);
        assert Elements()[d.pos] == data.v;
      }
      return d != null;
    }

    method Size() returns (n: int)
      requires Valid()
      ensures n == |Elements()|
    {
      return size;
    }

    /** The loop body of set_free: what remains is a valid tree with no pointer to the released node. */
    method FreeRoot() returns (data: Node)
      requires root.Valid() && root.root != null
      modifies root, root.nodes
      ensures root.Valid()
      ensures data == old(root.root) && data in old(root.nodes) && root.nodes == old(root.nodes) - {data}
      ensures 0 <= old(data.pos) < |old(root.order)|
      ensures root.order == old(root.order)[..old(data.pos)] + old(root.order)[old(data.pos) + 1..]
      ensures root.root != data
      ensures forall n :: n in root.nodes ==> n.left != data && n.right != data && n.parent != data
    {
      data := root.root;
      root.Erase(data);
      forall n | n in root.nodes
        ensures n.left != data && n.right != data && n.parent != data
      {
        assert root.LinkedAt(n);
      }
    }

    /** Erases the root until none is left.  `released` lists the nodes in the order they are freed. */
    method Free() returns (ghost released: seq<Node>)
      requires Valid()
      modifies root, root.nodes
      ensures root.Valid() && root.root == null && root.order == [] && root.nodes == {}
      ensures |released| == old(|root.order|)
      ensures forall n :: n in released <==> n in old(root.nodes)
      ensures forall i, j :: 0 <= i < j < |released| ==> released[i] != released[j]
    {
      released := [];
      while root.root != null
        invariant root.Valid() && root.nodes <= old(root.nodes)
        invariant |released| + |root.order| == old(|root.order|)
        invariant forall n :: n in released <==> n in old(root.nodes) && n !in root.nodes
        invariant forall i, j :: 0 <= i < j < |released| ==> released[i] != released[j]
        decreases |root.order|
      {
        var data := FreeRoot();
        released := released + [data];
      }
      NoNodes(root);
    }

    /** set_print: the values in the order in which they are written.  `moves` lists the tree edges that each
        step of the walk crosses. */
    method Print() returns (printed: seq<Key>, ghost moves: seq<seq<Node>>)
      requires Valid()
      ensures printed == Elements()
      ensures root.order != [] ==>
                && RbWalk.EachEdgeTwice(root, moves) && RbWalk.TotalLength(moves) == 2 * (|root.order| - 1)
    {
      printed, moves := [], [];
      ghost var crossed, mine := [], Elements();
      assert RbWalk.MovesFrom(root, 0, moves);
      hide RbWalk.Crosses, RbWalk.MovesFrom, RbWalk.EachEdgeTwice, RbWalk.Straight;
      var p: Node?;
      p, crossed := RbWalk.First(root);
      if p != null {
        RbWalk.MoveOn(root, 0, moves, crossed);
        moves := moves + [crossed];
      }
      while p != null
        invariant |printed| <= |mine| && printed == mine[..|printed|]
        invariant if |printed| < |mine| then p == root.order[|printed|] else p == null
        invariant mine != [] ==> |moves| == |printed| + 1 && RbWalk.MovesFrom(root, 0, moves)
        decreases |mine| - |printed|
      {
        root.NeighbourOf(|printed|);
        printed := printed + [p.v];
        p, crossed := RbWalk.Next(root, p);
        RbWalk.MoveOn(root, 0, moves, crossed);
        moves := moves + [crossed];
      }
      if mine != [] {
        RbWalk.WholeWalk(root, moves);
      }
    }

    /** set_first.  On an empty set the C code computes an address from NULL; here that is null. */
    method FirstData() returns (d: Node?)
      requires Valid()
      ensures d == if root.order == [] then null else root.order[0]
    {
      ghost var crossed;
      d, crossed := RbWalk.First(root);
    }

    method NextData(d: Node?) returns (next: Node?)
      requires Valid() && (d != null ==> d in root.nodes)
      ensures d == null ==> next == null
      ensures d != null ==>
                && 0 <= d.pos < |root.order| && root.order[d.pos] == d
                && next == if d.pos == |root.order| - 1 then null else root.order[d.pos + 1]
    {
      if d == null {
        return null;
      }
      assert root.LinkedAt(d);
      root.Nested(d);
      ghost var crossed;
      next, crossed := RbWalk.Next(root, d);
    }

    /** One turn of the loop `for (p = rb_first; p; p = rb_next(p))`. */
    method Advance(p: Node, ghost i: nat) returns (next: Node?)
      requires root.Linked() && i < |root.order| && p == root.order[i]
      ensures if i + 1 < |root.order| then next == root.order[i + 1] else next == null
    {
      root.NeighbourOf(i);
      ghost var crossed;
      next, crossed := RbWalk.Next(root, p);
    }

    /** How many elements of this set can be found in `b`. */
    method FoundIn(b: Set) returns (cnt: int)
      requires Valid() && b.Valid()
      ensures cnt == CountIn(Elements(), Support(b.Elements()))
    {
      cnt := 0;
      ghost var i, mine, theirs := 0, Elements(), Support(b.Elements());
      var p := FirstData();
      while p != null
        invariant 0 <= i <= |root.order|
        invariant if i < |root.order| then p == root.order[i] else p == null
        invariant cnt == CountIn(mine[..i], theirs)
        decreases |root.order| - i
      {
        var found := b.In(p);
        if found {
          cnt := cnt + 1;
        }
        CountInNext(mine, i, theirs);
        p := Advance(p, i);
        i := i + 1;
      }
      assert mine[..i] == mine;
    }

    /** The second loop of set_jaccard: how many elements of this set cannot be found in `b`. */
    method NotIn(b: Set) returns (z: int)
      requires Valid() && b.Valid()
      ensures z == |Elements()| - CountIn(Elements(), Support(b.Elements()))
    {
      z := 0;
      ghost var i, mine, theirs := 0, Elements(), Support(b.Elements());
      var p := FirstData();
      while p != null
        invariant 0 <= i <= |root.order|
        invariant if i < |root.order| then p == root.order[i] else p == null
        invariant z == i - CountIn(mine[..i], theirs)
        decreases |root.order| - i
      {
        var found := b.In(p);
        if !found {
          z := z + 1;
        }
        CountInNext(mine, i, theirs);
        p := Advance(p, i);
        i := i + 1;
      }
      assert mine[..i] == mine;
    }

    method Jaccard(b: Set) returns (j: Double)
      requires Valid() && b.Valid()
      ensures j == JaccardOf(Elements(), b.Elements())
    {
      hide Tree.RedBlack, Tree.RedBlackAt, Tree.Linked, Tree.LinkedAt;
      var x, y := 0, 0;
      ghost var i, mine, theirs := 0, Elements(), b.Elements();
      var p := FirstData();
      while p != null
        invariant 0 <= i <= |root.order|
        invariant if i < |root.order| then p == root.order[i] else p == null
        invariant y == CountIn(mine[..i], Support(theirs)) && x + y == i
        decreases |root.order| - i
      {
        var found := b.In(p);
        if found {
          y := y + 1;
        } else {
          x := x + 1;
        }
        CountInNext(mine, i, Support(theirs));
        p := Advance(p, i);
        i := i + 1;
      }
      assert mine[..i] == mine;
      var z := b.NotIn(this);
      j := Divide(y, x + y + z);
    }
  }

  lemma NoNodes(t: Tree)
    requires t.Linked()
    ensures t.nodes == {} <==> t.order == []
  {
    if t.nodes != {} {
      var n :| n in t.nodes;
      assert t.LinkedAt(n);
    }
  }

  /** set_add(s, data_init(v)). */
  method AddKey(s: Set, v: Key)
    requires s.Valid()
    modifies s.Repr()
    ensures s.Valid() && fresh(s.Repr() - old(s.Repr()))
    ensures s.Bag() == old(s.Bag()) + multiset{v}
  {
    var d := new Node(v);
    s.Add(d);
  }
}
