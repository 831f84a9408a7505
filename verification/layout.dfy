/**
 * The placement arithmetic of the display pass `update_display`: walking the
 * tree in pre-order, each child gets its parent's depth plus one and an x
 * position one offset to the left or right of its parent. The per-depth
 * tables `depth_x_diff` and `depth_size` are parameters (`dx` and `ds`);
 * the labels, colours and y positions are not modelled.
 */
module Display {
  import opened TreeSpec
  import opened TreeEdit
  import opened Bst

  /** A node's depth and x position as the display pass assigns them. */
  datatype Place = Place(depth: nat, x: int)

  /** Every depth the walk reaches from `depth` over `t` indexes both tables. */
  predicate Fits<N>(t: Tree<N>, depth: nat, dx: seq<int>, ds: seq<int>)
  {
    depth + Height(t) <= |dx| && depth + Height(t) <= |ds|
  }

  /** How far a child of a node at `depth` sits from it: the next depth's gap plus the node's label size. */
  function Offset(depth: nat, dx: seq<int>, ds: seq<int>): int
    requires depth + 1 < |dx| && depth < |ds|
  {
    dx[depth + 1] + 50 * ds[depth]
  }

  /**
   * The place of node `n` of `t` when the top node of `t` sits at depth
   * `depth` and x position `x`: the walk goes down to `n`, each step one
   * level deeper and one offset to the left or to the right.
   */
  function PlaceOf<N(==)>(t: Tree<N>, depth: nat, x: int, dx: seq<int>, ds: seq<int>, n: N): (p: Place)
    requires Fits(t, depth, dx, ds) && n in Ids(t)
  {
    var size := 50 * ds[depth];
    if t.node == n then Place(depth, x)
    else if n in Ids(t.left) then PlaceOf(t.left, depth + 1, x - dx[depth + 1] - size, dx, ds, n)
    else PlaceOf(t.right, depth + 1, x + dx[depth + 1] + size, dx, ds, n)
  }

  /** Every node is placed at a depth the tables cover, no shallower than the top node. */
  lemma {:induction false} PlaceOfRange<N>(t: Tree<N>, depth: nat, x: int, dx: seq<int>, ds: seq<int>, n: N)
    requires Fits(t, depth, dx, ds) && n in Ids(t)
    ensures depth <= PlaceOf(t, depth, x, dx, ds, n).depth < depth + Height(t)
    ensures PlaceOf(t, depth, x, dx, ds, n).depth < |dx| && PlaceOf(t, depth, x, dx, ds, n).depth < |ds|
  {
    if t.node != n {
      var size := 50 * ds[depth];
      if n in Ids(t.left) {
        PlaceOfRange(t.left, depth + 1, x - dx[depth + 1] - size, dx, ds, n);
      } else {
        PlaceOfRange(t.right, depth + 1, x + dx[depth + 1] + size, dx, ds, n);
      }
    }
  }

  /** One step of the walk: a node below the top is placed within the child subtree that holds it. */
  lemma PlaceOfStep<N>(t: Tree<N>, depth: nat, x: int, dx: seq<int>, ds: seq<int>, n: N)
    requires Fits(t, depth, dx, ds) && n in Ids(t) && n != t.node
    ensures n in Ids(t.left) ==>
      depth + 1 < |dx| &&
      PlaceOf(t, depth, x, dx, ds, n) == PlaceOf(t.left, depth + 1, x - dx[depth + 1] - 50 * ds[depth], dx, ds, n)
    ensures n !in Ids(t.left) ==>
      n in Ids(t.right) && depth + 1 < |dx| &&
      PlaceOf(t, depth, x, dx, ds, n) == PlaceOf(t.right, depth + 1, x + dx[depth + 1] + 50 * ds[depth], dx, ds, n)
  {
  }

  /** Every child is one level below its parent. */
  lemma {:induction false} PlaceOfChildDepth<N>(t: Tree<N>, depth: nat, x: int, dx: seq<int>, ds: seq<int>, n: N, p: N)
    requires Fits(t, depth, dx, ds) && Distinct(t) && ParentAt(t, n) == Some(p)
    ensures n in Ids(t) && p in Ids(t)
    ensures PlaceOf(t, depth, x, dx, ds, n).depth == PlaceOf(t, depth, x, dx, ds, p).depth + 1
    ensures PlaceOf(t, depth, x, dx, ds, p).depth + 1 < |dx| && PlaceOf(t, depth, x, dx, ds, p).depth < |ds|
  {
    ParentIn(t, n);
    ParentNone(t, n);
    var l, r := t.left, t.right;
    var size := 50 * ds[depth];
    if Top(l) == Some(n) || Top(r) == Some(n) {
      assert p == t.node;
      PlaceOfRange(t, depth, x, dx, ds, n);
    } else if n in Ids(l) {
      PlaceOfChildDepth(l, depth + 1, x - dx[depth + 1] - size, dx, ds, n, p);
    } else {
      ParentNone(l, n);
      PlaceOfChildDepth(r, depth + 1, x + dx[depth + 1] + size, dx, ds, n, p);
    }
  }

  /**
   * Every child sits one offset away from its parent: to the left for a
   * left child, to the right for a right child.
   */
  lemma {:induction false} PlaceOfChild<N>(t: Tree<N>, depth: nat, x: int, dx: seq<int>, ds: seq<int>, n: N, p: N)
    requires Fits(t, depth, dx, ds) && Distinct(t) && ParentAt(t, n) == Some(p)
    ensures n in Ids(t) && p in Ids(t)
    ensures PlaceOf(t, depth, x, dx, ds, p).depth + 1 < |dx| && PlaceOf(t, depth, x, dx, ds, p).depth < |ds|
    ensures PlaceOf(t, depth, x, dx, ds, n).x ==
      var q := PlaceOf(t, depth, x, dx, ds, p);
      if Top(Find(t, p).left) == Some(n) then q.x - Offset(q.depth, dx, ds) else q.x + Offset(q.depth, dx, ds)
  {
    PlaceOfChildDepth(t, depth, x, dx, ds, n, p);
    ParentNone(t, n);
    var l, r := t.left, t.right;
    var size := 50 * ds[depth];
    if Top(l) == Some(n) || Top(r) == Some(n) {
      assert p == t.node;
    } else if n in Ids(l) {
      PlaceOfChild(l, depth + 1, x - dx[depth + 1] - size, dx, ds, n, p);
    } else {
      ParentNone(l, n);
      PlaceOfChild(r, depth + 1, x + dx[depth + 1] + size, dx, ds, n, p);
    }
  }

  /**
   * Giving a node a new key (the successor copy of a two-children deletion)
   * moves no node: the layout depends on the shape only, never on the keys.
   */
  lemma {:induction false} RekeyPlaceOf<N>(t: Tree<N>, d: N, k: int, depth: nat, x: int, dx: seq<int>, ds: seq<int>, n: N)
    requires Fits(t, depth, dx, ds) && n in Ids(t)
    ensures Fits(Rekey(t, d, k), depth, dx, ds) && n in Ids(Rekey(t, d, k))
    ensures PlaceOf(Rekey(t, d, k), depth, x, dx, ds, n) == PlaceOf(t, depth, x, dx, ds, n)
  {
    RekeyHeight(t, d, k);
    RekeyIds(t, d, k);
    if t.node != d && t.node != n {
      var size := 50 * ds[depth];
      RekeyIds(t.left, d, k);
      if n in Ids(t.left) {
        RekeyPlaceOf(t.left, d, k, depth + 1, x - dx[depth + 1] - size, dx, ds, n);
      } else {
        RekeyPlaceOf(t.right, d, k, depth + 1, x + dx[depth + 1] + size, dx, ds, n);
      }
    }
  }

  lemma {:induction false} RekeyHeight<N>(t: Tree<N>, d: N, k: int)
    ensures Height(Rekey(t, d, k)) == Height(t)
  {
    if t.Br? && t.node != d {
      RekeyHeight(t.left, d, k);
      RekeyHeight(t.right, d, k);
    }
  }

  /**
   * `update_display`, restricted to its placement arithmetic: starting from
   * `node`'s own depth and x position, every node below it is placed as
   * `PlaceOf` says, and no node outside its subtree is touched.
   */
  method UpdateDisplay(bst: BinarySearchTree, node: Node?, dx: seq<int>, ds: seq<int>)
    requires bst.Valid()
    requires node != null ==> node in bst.Repr && node.depth.Some? && node.xPos.Some?
    requires node != null ==> Fits(Find(bst.tree, node), node.depth.value, dx, ds)
    modifies bst.Repr`depth, bst.Repr`xPos
    ensures bst.Valid()
    ensures node != null ==> forall m :: m in Ids(Find(bst.tree, node)) ==>
      m.depth == Some(PlaceOf(Find(bst.tree, node), old(node.depth).value, old(node.xPos).value, dx, ds, m).depth) && m.xPos == Some(PlaceOf(Find(bst.tree, node), old(node.depth).value, old(node.xPos).value, dx, ds, m).x)
    ensures forall m :: m in bst.Repr && (node == null || m !in Ids(Find(bst.tree, node))) ==>
      unchanged(m`depth, m`xPos)
  {
    if node != null {
      PlaceBelow(bst, node, Find(bst.tree, node), node.depth.value, node.xPos.value, dx, ds);
    }
  }

  /** The body of `update_display` for a node already placed at `depth` and `x`. */
  method PlaceBelow(bst: BinarySearchTree, node: Node, ghost t: Tree<Node>, depth: nat, x: int, dx: seq<int>, ds: seq<int>)
    requires bst.Valid() && node in bst.Repr && t == Find(bst.tree, node) && Fits(t, depth, dx, ds)
    requires node.depth == Some(depth) && node.xPos == Some(x)
    modifies bst.Repr`depth, bst.Repr`xPos
    ensures bst.Valid()
    ensures forall m :: m in Ids(t) ==> m.depth == Some(PlaceOf(t, depth, x, dx, ds, m).depth) && m.xPos == Some(PlaceOf(t, depth, x, dx, ds, m).x)
    ensures forall m :: m in bst.Repr && m !in Ids(t) ==> unchanged(m`depth, m`xPos)
    decreases Size(t), 0
  {
    assert bst.Agrees(node);
    FindChild(bst.tree, node);
    FindDistinct(bst.tree, node);
    var nodeSize := 50 * ds[depth];
    if node.left != null {
      PlaceSubtree(bst, node.left, t.left, depth + 1, x - dx[depth + 1] - nodeSize, dx, ds);
    }
    forall m | m in Ids(t.left)
      ensures m.depth == Some(PlaceOf(t, depth, x, dx, ds, m).depth) && m.xPos == Some(PlaceOf(t, depth, x, dx, ds, m).x)
    {
      PlaceOfStep(t, depth, x, dx, ds, m);
    }
    if node.right != null {
      PlaceSubtree(bst, node.right, t.right, depth + 1, x + dx[depth + 1] + nodeSize, dx, ds);
    }
    forall m | m in Ids(t.right)
      ensures m.depth == Some(PlaceOf(t, depth, x, dx, ds, m).depth) && m.xPos == Some(PlaceOf(t, depth, x, dx, ds, m).x)
    {
      PlaceOfStep(t, depth, x, dx, ds, m);
    }
  }

  /** One child's two assignments in `update_display`, followed by the recursive call on it. */
  method PlaceSubtree(bst: BinarySearchTree, child: Node, ghost sub: Tree<Node>, depth: nat, x: int, dx: seq<int>, ds: seq<int>)
    requires bst.Valid() && child in bst.Repr && sub == Find(bst.tree, child) && Fits(sub, depth, dx, ds)
    modifies bst.Repr`depth, bst.Repr`xPos
    ensures bst.Valid()
    ensures forall m :: m in Ids(sub) ==> m.depth == Some(PlaceOf(sub, depth, x, dx, ds, m).depth) && m.xPos == Some(PlaceOf(sub, depth, x, dx, ds, m).x)
    ensures forall m :: m in bst.Repr && m !in Ids(sub) ==> unchanged(m`depth, m`xPos)
    decreases Size(sub), 1
  {
    child.depth := Some(depth);
    child.xPos := Some(x);
    PlaceBelow(bst, child, sub, depth, x, dx, ds);
  }
}
