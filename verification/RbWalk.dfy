/** rb_first, rb_last, rb_next and rb_prev of jni/rbtree.c: stepping through a tree in order by parent
    pointers.  Each method also returns, as a ghost result, the tree edges it crosses. */
module RbWalk {
  import opened RbTree

  // ---------- the edges between two positions ----------

  /** The subtree of `c` contains position `i` of the in-order sequence. */
  ghost predicate Contains(c: Node, i: int)
    reads c
  {
    c.lo <= i < c.hi
  }

  ghost predicate NoRepeats(s: seq<Node>) {
    forall i, j :: 0 <= i < j < |s| ==> s[i] != s[j]
  }

  /** `crossed` lists, each once, the edges that separate positions `i` and `j`.  An edge is named by its lower
      end; positions -1 and |order| lie outside of the tree, above the root. */
  ghost predicate Crosses(t: Tree, crossed: seq<Node>, i: int, j: int)
    reads t, t.nodes
  {
    && NoRepeats(crossed)
    && (forall c :: c in crossed ==> c in t.nodes)
    && (forall c {:trigger Contains(c, i)} {:trigger Contains(c, j)} {:trigger c in crossed} ::
          c in t.nodes ==> (c in crossed <==> c != t.root && Contains(c, i) != Contains(c, j)))
  }

  /** A subtree that contains the position of `n` lies on the way from `n` to the root. */
  lemma {:induction false} OnPath(t: Tree, c: Node, n: Node)
    requires t.Linked() && c in t.nodes && n in t.nodes && c != t.root && Contains(c, n.pos)
    ensures c in t.PathUp(n)
    decreases c.hi - c.lo
  {
    assert t.LinkedAt(c);
    assert t.LinkedAt(n);
    if n.pos == c.pos {
      assert c == n;
    } else {
      var child: Node := if n.pos < c.pos then c.left else c.right;
      assert t.LinkedAt(child);
      OnPath(t, child, n);
      PathGoesOn(t, n, child);
    }
  }

  lemma {:induction false} PathGoesOn(t: Tree, n: Node, c: Node)
    requires t.Linked() && n in t.nodes && c in t.PathUp(n) && c.parent != null && c.parent.parent != null
    ensures c.parent in t.PathUp(n)
    decreases |t.order| - (n.hi - n.lo)
  {
    t.Nested(n);
    assert n.parent != null ==> t.LinkedAt(n.parent);
    if c != n {
      PathGoesOn(t, n.parent, c);
    }
  }

  /** Every subtree on the way from `n` to the root contains that of `n`. */
  lemma {:induction false} PathContains(t: Tree, n: Node)
    requires t.Linked() && n in t.nodes
    ensures NoRepeats(t.PathUp(n))
    ensures forall c :: c in t.PathUp(n) ==> c in t.nodes && c != t.root && c.lo <= n.lo <= n.pos < n.hi <= c.hi
    decreases |t.order| - (n.hi - n.lo)
  {
    t.Nested(n);
    assert t.LinkedAt(n);
    if n.parent != null {
      assert t.LinkedAt(n.parent);
      PathContains(t, n.parent);
    }
  }

  /** Going straight up or down between two nodes, or between a node and the outside, crosses just the edges
      that separate them. */
  lemma StraightCrosses(t: Tree, low: Node, high: Node?, crossed: seq<Node>, j: int)
    requires t.Linked() && low in t.nodes && (high != null ==> high in t.nodes)
    requires t.PathUp(low) == crossed + if high == null then [] else t.PathUp(high)
    requires if high == null then !(0 <= j < |t.order|) else j == high.pos
    ensures Crosses(t, crossed, low.pos, j) && Crosses(t, crossed, j, low.pos)
  {
    var up := if high == null then [] else t.PathUp(high);
    PathContains(t, low);
    assert forall k :: 0 <= k < |crossed| ==> crossed[k] == t.PathUp(low)[k];
    assert forall c :: c in crossed ==> c in t.PathUp(low);
    if high != null {
      PathContains(t, high);
    }
    forall c | c in t.nodes
      ensures c in crossed <==> c != t.root && Contains(c, low.pos) != Contains(c, j)
    {
      PathSplits(t.PathUp(low), crossed, up, c);
      assert t.LinkedAt(c);
      if c != t.root && Contains(c, low.pos) {
        OnPath(t, c, low);
      }
      if c != t.root && high != null && Contains(c, j) {
        OnPath(t, c, high);
      }
    }
  }

  lemma PathSplits(path: seq<Node>, a: seq<Node>, b: seq<Node>, c: Node)
    requires path == a + b && NoRepeats(path)
    ensures c in path <==> c in a || c in b
    ensures !(c in a && c in b)
  {
    forall i, j | 0 <= i < |a| && 0 <= j < |b|
      ensures a[i] != b[j]
    {
      assert path[i] == a[i] && path[|a| + j] == b[j];
    }
  }

  // ---------- rb_first, rb_last ----------

  method First(t: Tree) returns (n: Node?, ghost crossed: seq<Node>)
    requires t.Linked()
    ensures n == if t.order == [] then null else t.order[0]
    ensures n != null ==> n in t.nodes && crossed == t.PathUp(n) && Crosses(t, crossed, -1, 0)
  {
    n, crossed := t.root, [];
    if n == null {
      return;
    }
    n, crossed := Tree.DescendLeft(t, n);
    assert t.LinkedAt(n);
    StraightCrosses(t, n, null, crossed, -1);
  }

  method Last(t: Tree) returns (n: Node?, ghost crossed: seq<Node>)
    requires t.Linked()
    ensures n == if t.order == [] then null else t.order[|t.order| - 1]
    ensures n != null ==> n in t.nodes && crossed == t.PathUp(n) && Crosses(t, crossed, |t.order|, |t.order| - 1)
  {
    n, crossed := t.root, [];
    if n == null {
      return;
    }
    n, crossed := Tree.DescendRight(t, n);
    assert t.LinkedAt(n);
    StraightCrosses(t, n, null, crossed, |t.order|);
  }

  // ---------- rb_next, rb_prev ----------

  /** `crossed` leads straight up or straight down from `a` to `b`, or out of the tree. */
  ghost predicate Straight(t: Tree, a: Node, crossed: seq<Node>, b: Node?)
    requires t.Linked() && a in t.nodes && (b != null ==> b in t.nodes)
    reads t, t.nodes
  {
    if b == null then t.PathUp(a) == crossed
    else t.PathUp(a) == crossed + t.PathUp(b) || t.PathUp(b) == crossed + t.PathUp(a)
  }

  lemma StepUp(t: Tree, low: Node, crossed: seq<Node>, cur: Node)
    requires t.Linked() && low in t.nodes && cur in t.nodes && cur.parent != null
    requires t.PathUp(low) == crossed + t.PathUp(cur)
    ensures cur.parent in t.nodes && cur.hi - cur.lo < cur.parent.hi - cur.parent.lo
    ensures t.PathUp(low) == crossed + [cur] + t.PathUp(cur.parent)
  {
    t.Nested(cur);
    assert crossed + ([cur] + t.PathUp(cur.parent)) == crossed + [cur] + t.PathUp(cur.parent);
  }

  lemma PathFromRoot(t: Tree, n: Node)
    requires t.Linked() && n in t.nodes && n.parent == null
    ensures t.PathUp(n) == []
  {
  }

  /** A node that is its own parent belongs to no tree (RB_EMPTY_NODE) and has no neighbours. */
  method Next(ghost t: Tree, node: Node) returns (next: Node?, ghost crossed: seq<Node>)
    requires node.parent == node || (t.Linked() && node in t.nodes)
    ensures node.parent == node ==> next == null
    ensures node.parent != node ==>
              && 0 <= node.pos < |t.order|
              && next == (if node.pos == |t.order| - 1 then null else t.order[node.pos + 1])
              && (next != null ==> next in t.nodes)
              && Straight(t, node, crossed, next) && Crosses(t, crossed, node.pos, node.pos + 1)
  {
    hide Crosses, Tree.PathUp;
    crossed := [];
    if node.parent == node {
      return null, [];
    }
    assert t.LinkedAt(node);
    if node.right != null {
      assert t.LinkedAt(node.right);
      next, crossed := Tree.DescendLeft(t, node.right);
      assert t.LinkedAt(next);
      StepUp(t, next, crossed, node.right);
      crossed := crossed + [node.right];
      StraightCrosses(t, next, node, crossed, node.pos);
      return;
    }
    var cur := node;
    var parent := cur.parent;
    while parent != null && cur == parent.right
      invariant cur in t.nodes && parent == cur.parent && cur.hi == node.pos + 1
      invariant t.PathUp(node) == crossed + t.PathUp(cur)
      decreases |t.order| - (cur.hi - cur.lo)
    {
      StepUp(t, node, crossed, cur);
      assert t.LinkedAt(parent);
      crossed := crossed + [cur];
      cur := parent;
      parent := cur.parent;
    }
    assert t.LinkedAt(cur);
    if parent != null {
      StepUp(t, node, crossed, cur);
      assert t.LinkedAt(parent);
      crossed := crossed + [cur];
    } else {
      PathFromRoot(t, cur);
    }
    StraightCrosses(t, node, parent, crossed, node.pos + 1);
    return parent, crossed;
  }

  method Prev(ghost t: Tree, node: Node) returns (prev: Node?, ghost crossed: seq<Node>)
    requires node.parent == node || (t.Linked() && node in t.nodes)
    ensures node.parent == node ==> prev == null
    ensures node.parent != node ==>
              && 0 <= node.pos < |t.order|
              && prev == (if node.pos == 0 then null else t.order[node.pos - 1])
              && (prev != null ==> prev in t.nodes)
              && Straight(t, node, crossed, prev) && Crosses(t, crossed, node.pos, node.pos - 1)
  {
    hide Crosses, Tree.PathUp;
    crossed := [];
    if node.parent == node {
      return null, [];
    }
    assert t.LinkedAt(node);
    if node.left != null {
      assert t.LinkedAt(node.left);
      prev, crossed := Tree.DescendRight(t, node.left);
      assert t.LinkedAt(prev);
      StepUp(t, prev, crossed, node.left);
      crossed := crossed + [node.left];
      StraightCrosses(t, prev, node, crossed, node.pos);
      return;
    }
    var cur := node;
    var parent := cur.parent;
    while parent != null && cur == parent.left
      invariant cur in t.nodes && parent == cur.parent && cur.lo == node.pos
      invariant t.PathUp(node) == crossed + t.PathUp(cur)
      decreases |t.order| - (cur.hi - cur.lo)
    {
      StepUp(t, node, crossed, cur);
      assert t.LinkedAt(parent);
      crossed := crossed + [cur];
      cur := parent;
      parent := cur.parent;
    }
    assert t.LinkedAt(cur);
    if parent != null {
      StepUp(t, node, crossed, cur);
      assert t.LinkedAt(parent);
      crossed := crossed + [cur];
    } else {
      PathFromRoot(t, cur);
    }
    StraightCrosses(t, node, parent, crossed, node.pos - 1);
    return parent, crossed;
  }

  // ---------- whole walks ----------

  /** Moves of a walk in or against the order: the one at index k lies between positions from + k - 1 and
      from + k. */
  ghost predicate MovesFrom(t: Tree, from: int, moves: seq<seq<Node>>)
    reads t, t.nodes
  {
    forall k :: 0 <= k < |moves| ==> Crosses(t, moves[k], from + k - 1, from + k)
  }

  /** The moves of a walk through the whole tree, from NULL to NULL. */
  ghost predicate Moves(t: Tree, moves: seq<seq<Node>>)
    reads t, t.nodes
  {
    |moves| == |t.order| + 1 && MovesFrom(t, 0, moves)
  }

  lemma MoveOn(t: Tree, from: int, moves: seq<seq<Node>>, move: seq<Node>)
    requires MovesFrom(t, from, moves) && Crosses(t, move, from + |moves| - 1, from + |moves|)
    ensures MovesFrom(t, from, moves + [move])
  {
    hide Crosses;
  }

  lemma MoveBack(t: Tree, from: int, moves: seq<seq<Node>>, move: seq<Node>)
    requires MovesFrom(t, from, moves) && Crosses(t, move, from - 1, from - 2)
    ensures MovesFrom(t, from - 1, [move] + moves)
  {
    assert Crosses(t, move, from - 2, from - 1);
    hide Crosses;
    forall k | 0 <= k < |moves| + 1
      ensures Crosses(t, ([move] + moves)[k], from - 1 + k - 1, from - 1 + k)
    {
      if k > 0 {
        assert Crosses(t, moves[k - 1], from + (k - 1) - 1, from + (k - 1));
      }
    }
  }

  function TotalLength(moves: seq<seq<Node>>): nat {
    if moves == [] then 0 else TotalLength(moves[..|moves| - 1]) + |moves[|moves| - 1]|
  }

  lemma {:induction false} SizeWithoutRepeats(s: seq<Node>)
    requires NoRepeats(s)
    ensures |set c | c in s| == |s|
  {
    if s != [] {
      var init, last := s[..|s| - 1], s[|s| - 1];
      SizeWithoutRepeats(init);
      assert (set c | c in s) == (set c | c in init) + {last};
    }
  }

  lemma CountNodes(t: Tree)
    requires t.Linked()
    ensures |t.nodes| == |t.order|
  {
    forall c | c in t.nodes
      ensures c in t.order
    {
      assert t.LinkedAt(c);
    }
    assert t.nodes == set c | c in t.order;
    SizeWithoutRepeats(t.order);
  }

  /** The edges whose subtree starts, or ends, before position `k`. */
  ghost function StartedBefore(t: Tree, k: int): set<Node>
    reads t, t.nodes
  {
    set c | c in t.nodes && c != t.root && c.lo < k
  }

  ghost function EndedBefore(t: Tree, k: int): set<Node>
    reads t, t.nodes
  {
    set c | c in t.nodes && c != t.root && c.hi < k
  }

  lemma MoveLength(t: Tree, move: seq<Node>, k: nat)
    requires t.Linked() && k <= |t.order| && Crosses(t, move, k - 1, k)
    ensures |StartedBefore(t, k + 1)| + |EndedBefore(t, k + 1)| ==
            |StartedBefore(t, k)| + |EndedBefore(t, k)| + |move|
  {
    var starting := set c | c in t.nodes && c != t.root && c.lo == k;
    var ending := set c | c in t.nodes && c != t.root && c.hi == k;
    assert StartedBefore(t, k + 1) == StartedBefore(t, k) + starting;
    assert EndedBefore(t, k + 1) == EndedBefore(t, k) + ending;
    forall c | c in t.nodes
      ensures c in move <==> c in starting || c in ending
      ensures !(c in starting && c in ending)
    {
      assert t.LinkedAt(c);
      assert Contains(c, k) <==> c.lo <= k < c.hi;
    }
    assert (set c | c in move) == starting + ending;
    assert starting !! ending;
    SizeWithoutRepeats(move);
  }

  lemma {:induction false} LengthUpTo(t: Tree, moves: seq<seq<Node>>, k: nat)
    requires t.Linked() && Moves(t, moves) && k <= |moves|
    ensures TotalLength(moves[..k]) == |StartedBefore(t, k)| + |EndedBefore(t, k)|
  {
    if k == 0 {
      forall c | c in t.nodes
        ensures c.lo >= 0 && c.hi >= 0
      {
        assert t.LinkedAt(c);
      }
      assert StartedBefore(t, 0) == {} && EndedBefore(t, 0) == {};
    } else {
      LengthUpTo(t, moves, k - 1);
      MoveLength(t, moves[k - 1], k - 1);
      assert moves[..k][..k - 1] == moves[..k - 1];
    }
  }

  /** The edge above `c` is crossed exactly twice: by the move into the first node below it, and by the one
      out of the last. */
  ghost predicate EachEdgeTwice(t: Tree, moves: seq<seq<Node>>)
    reads t, t.nodes
  {
    && |moves| == |t.order| + 1
    && forall c :: c in t.nodes ==>
         && 0 <= c.lo < c.hi <= |t.order|
         && forall k :: 0 <= k < |moves| ==> (c in moves[k] <==> c != t.root && (k == c.lo || k == c.hi))
  }

  lemma EdgeInMove(t: Tree, c: Node, move: seq<Node>, k: int)
    requires t.Linked() && c in t.nodes && Crosses(t, move, k - 1, k)
    ensures c in move <==> c != t.root && (k == c.lo || k == c.hi)
  {
    assert t.LinkedAt(c);
    assert Contains(c, k) <==> c.lo <= k < c.hi;
  }

  lemma MovesCrossTwice(t: Tree, moves: seq<seq<Node>>)
    requires t.Linked() && Moves(t, moves)
    ensures EachEdgeTwice(t, moves)
  {
    hide Crosses, Contains;
    forall c | c in t.nodes
      ensures 0 <= c.lo < c.hi <= |t.order|
      ensures forall k :: 0 <= k < |moves| ==> (c in moves[k] <==> c != t.root && (k == c.lo || k == c.hi))
    {
      assert t.LinkedAt(c);
      forall k | 0 <= k < |moves|
        ensures c in moves[k] <==> c != t.root && (k == c.lo || k == c.hi)
      {
        EdgeInMove(t, c, moves[k], 0 + k);
      }
    }
  }

  lemma MovesLength(t: Tree, moves: seq<seq<Node>>)
    requires t.Linked() && t.order != [] && Moves(t, moves)
    ensures TotalLength(moves) == 2 * (|t.order| - 1)
  {
    var n := |t.order|;
    LengthUpTo(t, moves, n + 1);
    assert moves[..n + 1] == moves;
    CountNodes(t);
    forall c | c in t.nodes
      ensures c.lo < n + 1 && c.hi < n + 1
    {
      assert t.LinkedAt(c);
    }
    assert StartedBefore(t, n + 1) == EndedBefore(t, n + 1) == t.nodes - {t.root};
  }

  /** In a walk from NULL to NULL, in either direction, no move crosses an edge twice, and each edge is crossed
      by exactly two moves.  With n - 1 edges, that makes 2(n - 1) crossings. */
  lemma WholeWalk(t: Tree, moves: seq<seq<Node>>)
    requires t.Linked() && t.order != [] && Moves(t, moves)
    ensures EachEdgeTwice(t, moves)
    ensures forall c, k :: c in t.nodes && 0 <= k < |moves| ==>
              (c in moves[k] <==> c != t.root && (k == c.lo || k == c.hi))
    ensures forall k, i, j :: 0 <= k < |moves| && 0 <= i < j < |moves[k]| ==> moves[k][i] != moves[k][j]
    ensures TotalLength(moves) == 2 * (|t.order| - 1)
  {
    MovesCrossTwice(t, moves);
    MovesLength(t, moves);
    forall k | 0 <= k < |moves|
      ensures NoRepeats(moves[k])
    {
      assert Crosses(t, moves[k], 0 + k - 1, 0 + k);
    }
  }

  /** One turn of the loop below, at the node at index `i`. */
  method StepBack(ghost t: Tree, p: Node, ghost i: nat, ghost moves: seq<seq<Node>>)
    returns (prev: Node?, ghost moves': seq<seq<Node>>)
    requires t.Linked() && i < |t.order| && p == t.order[i] && MovesFrom(t, i + 1, moves)
    ensures if i > 0 then prev == t.order[i - 1] else prev == null
    ensures |moves'| == |moves| + 1 && MovesFrom(t, i, moves')
  {
    ghost var crossed;
    t.NeighbourOf(i);
    hide *;
    prev, crossed := Prev(t, p);
    MoveBack(t, i + 1, moves, crossed);
    moves' := [crossed] + moves;
  }

  /** rb_last, and rb_prev until NULL. */
  method WalkBack(t: Tree) returns (visited: seq<Node>, ghost moves: seq<seq<Node>>)
    requires t.Linked()
    ensures |visited| == |t.order| && forall i :: 0 <= i < |visited| ==> visited[i] == t.order[|t.order| - 1 - i]
    ensures t.order != [] ==> EachEdgeTwice(t, moves) && TotalLength(moves) == 2 * (|t.order| - 1)
  {
    visited, moves := [], [];
    ghost var crossed, end := [], |t.order|;
    assert MovesFrom(t, end + 1, moves);
    hide *;
    var p: Node?;
    p, crossed := Last(t);
    if p != null {
      MoveBack(t, end + 1, moves, crossed);
      moves := [crossed] + moves;
    }
    ghost var i := end;
    while p != null
      invariant 0 <= i <= end && |visited| == end - i
      invariant forall k :: 0 <= k < |visited| ==> visited[k] == t.order[end - 1 - k]
      invariant if i > 0 then p == t.order[i - 1] else p == null
      invariant end > 0 ==> |moves| == |visited| + 1 && MovesFrom(t, i, moves)
      decreases i
    {
      i := i - 1;
      visited := visited + [p];
      p, moves := StepBack(t, p, i, moves);
    }
    if end > 0 {
      WholeWalk(t, moves);
    }
  }
}
