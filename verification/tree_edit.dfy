/**
 * Insertion and deletion on the abstract tree, written to follow
 * `insert_node` and `delete_node`, together with the facts the heap model
 * needs: what happens to the key set and the ordering, and how every node's
 * children and parent change.
 */
module TreeEdit {
  import opened TreeSpec

  /** `insert_node`: descend by comparison and hang a new leaf in the empty slot; a present key changes nothing. */
  function Insert<N>(t: Tree<N>, v: int, n: N): Tree<N>
  {
    match t
    case Nil => Br(Nil, n, v, Nil)
    case Br(l, x, k, r) =>
      if v < k then Br(Insert(l, v, n), x, k, r)
      else if v > k then Br(l, x, k, Insert(r, v, n))
      else t
  }

  /** The node `insert_node` hangs the new leaf under (None for an empty tree or a present key). */
  function AttachPoint<N>(t: Tree<N>, v: int): Option<N>
  {
    match t
    case Nil => None
    case Br(l, x, k, r) =>
      if v < k then (if l.Nil? then Some(x) else AttachPoint(l, v))
      else if v > k then (if r.Nil? then Some(x) else AttachPoint(r, v))
      else None
  }

  /**
   * `delete_node`: a leaf disappears; a node with two children keeps its place
   * and takes the smallest key of its right subtree, which is deleted there; a
   * node with one child is replaced by that child. An absent key changes nothing.
   */
  function Delete<N>(t: Tree<N>, v: int): Tree<N>
  {
    match t
    case Nil => Nil
    case Br(l, x, k, r) =>
      if v < k then Br(Delete(l, v), x, k, r)
      else if v > k then Br(l, x, k, Delete(r, v))
      else if l.Nil? && r.Nil? then Nil
      else if l.Br? && r.Br? then Br(l, x, MinKey(r), Delete(r, MinKey(r)))
      else Promoted(t)
  }

  /** The child that takes a deleted node's place: its left one if present, else its right one. */
  function Promoted<N>(t: Tree<N>): Tree<N>
    requires t.Br?
  {
    if t.left.Br? then t.left else t.right
  }

  /** Whether the node holding `v` has both children (the successor-copy case). */
  predicate TwoChildren<N>(t: Tree<N>, v: int)
  {
    Search(t, v).Br? && Search(t, v).left.Br? && Search(t, v).right.Br?
  }

  /** The subtree at node `d` replaced by `s`. */
  function ReplaceSub<N(==)>(t: Tree<N>, d: N, s: Tree<N>): Tree<N>
  {
    match t
    case Nil => Nil
    case Br(l, x, k, r) => if x == d then s else Br(ReplaceSub(l, d, s), x, k, ReplaceSub(r, d, s))
  }

  /** Node `d` given key `k` in place: the `to_delete.data = successor_data` step. */
  function Rekey<N(==)>(t: Tree<N>, d: N, k: int): Tree<N>
  {
    match t
    case Nil => Nil
    case Br(l, x, k0, r) => if x == d then Br(l, x, k, r) else Br(Rekey(l, d, k), x, k0, Rekey(r, d, k))
  }

  /** The one-child or leaf replacement: `s` is the only child of `dt`, or `dt` is a leaf. */
  predicate IsPromotion<N(==)>(dt: Tree<N>, s: Tree<N>)
  {
    dt.Br? && ((dt.left.Nil? && s == dt.right) || (dt.right.Nil? && s == dt.left))
  }

  // ---------------------------------------------------------------------------
  // Insertion

  /** Inserting a present key changes nothing. */
  lemma {:induction false} InsertPresent<N>(t: Tree<N>, v: int, n: N)
    requires Ordered(t) && v in Keys(t)
    ensures Insert(t, v, n) == t
  {
    if t.key != v {
      if v < t.key { InsertPresent(t.left, v, n); } else { InsertPresent(t.right, v, n); }
    }
  }

  /** Inserting an absent key adds exactly that key and node, and keeps the tree ordered and distinct. */
  lemma {:induction false} InsertAbsent<N>(t: Tree<N>, v: int, n: N)
    requires Ordered(t) && v !in Keys(t)
    ensures Keys(Insert(t, v, n)) == Keys(t) + {v}
    ensures Ids(Insert(t, v, n)) == Ids(t) + {n}
    ensures Size(Insert(t, v, n)) == Size(t) + 1
    ensures Ordered(Insert(t, v, n))
    ensures Distinct(t) && n !in Ids(t) ==> Distinct(Insert(t, v, n))
  {
    if t.Br? {
      if v < t.key { InsertAbsent(t.left, v, n); } else { InsertAbsent(t.right, v, n); }
    }
  }

  /** The attachment point of an absent key in a non-empty tree is one of its nodes. */
  lemma {:induction false} AttachPointIn<N>(t: Tree<N>, v: int)
    requires t.Br? && v !in Keys(t)
    ensures AttachPoint(t, v).Some? && AttachPoint(t, v).value in Ids(t)
  {
    if v < t.key && t.left.Br? { AttachPointIn(t.left, v); }
    if v > t.key && t.right.Br? { AttachPointIn(t.right, v); }
  }

  /**
   * Node by node, insertion changes one link only: the attachment point's
   * left (new key smaller) or right slot now holds the new leaf. Keys and
   * the other links stay.
   */
  lemma {:induction false} InsertAt<N>(t: Tree<N>, v: int, n: N, m: N)
    requires Ordered(t) && Distinct(t) && v !in Keys(t) && n !in Ids(t) && m in Ids(t)
    ensures Find(Insert(t, v, n), m).Br?
    ensures Find(Insert(t, v, n), m).key == Find(t, m).key
    ensures Top(Find(Insert(t, v, n), m).left) ==
      if AttachPoint(t, v) == Some(m) && v < Find(t, m).key then Some(n) else Top(Find(t, m).left)
    ensures Top(Find(Insert(t, v, n), m).right) ==
      if AttachPoint(t, v) == Some(m) && v > Find(t, m).key then Some(n) else Top(Find(t, m).right)
  {
    InsertAbsent(t, v, n);
    var l, x, k, r := t.left, t.node, t.key, t.right;
    if v < k {
      InsertAbsent(l, v, n);
      if l.Br? { AttachPointIn(l, v); }
      if m != x {
        if m in Ids(l) { InsertAt(l, v, n, m); } else { assert m !in Ids(Insert(l, v, n)); }
      }
    } else {
      InsertAbsent(r, v, n);
      if r.Br? { AttachPointIn(r, v); }
      if m != x {
        if m in Ids(r) { InsertAt(r, v, n, m); } else { assert Find(Insert(t, v, n), m) == Find(l, m); }
      }
    }
  }

  /** Insertion leaves the parent of every existing node as it was. */
  lemma {:induction false} InsertParent<N>(t: Tree<N>, v: int, n: N, m: N)
    requires Ordered(t) && Distinct(t) && v !in Keys(t) && n !in Ids(t) && m in Ids(t)
    ensures ParentAt(Insert(t, v, n), m) == ParentAt(t, m)
  {
    var l, x, k, r := t.left, t.node, t.key, t.right;
    if v < k {
      InsertAbsent(l, v, n);
      assert Top(Insert(l, v, n)) != Some(m) || Top(l) == Some(m);
      assert Top(l) == Some(m) ==> Top(Insert(l, v, n)) == Some(m);
      if m in Ids(l) { InsertParent(l, v, n, m); }
    } else {
      InsertAbsent(r, v, n);
      assert Top(Insert(r, v, n)) != Some(m) || Top(r) == Some(m);
      assert Top(r) == Some(m) ==> Top(Insert(r, v, n)) == Some(m);
      if m in Ids(r) { InsertParent(r, v, n, m); }
      ParentNone(r, m);
      ParentNone(Insert(r, v, n), m);
    }
  }

  /** The new node is a leaf holding the new key, and its parent is the attachment point. */
  lemma {:induction false} InsertNew<N>(t: Tree<N>, v: int, n: N)
    requires Ordered(t) && Distinct(t) && v !in Keys(t) && n !in Ids(t)
    ensures Find(Insert(t, v, n), n) == Br(Nil, n, v, Nil)
    ensures ParentAt(Insert(t, v, n), n) == AttachPoint(t, v)
  {
    InsertAbsent(t, v, n);
    if t.Br? {
      if v < t.key {
        InsertAbsent(t.left, v, n);
        InsertNew(t.left, v, n);
        ParentNone(t.right, n);
      } else {
        InsertAbsent(t.right, v, n);
        InsertNew(t.right, v, n);
      }
    }
  }

  // ---------------------------------------------------------------------------
  // Deletion

  lemma {:induction false} ReplaceSubSame<N>(t: Tree<N>, d: N, s: Tree<N>)
    requires d !in Ids(t)
    ensures ReplaceSub(t, d, s) == t
  {
    if t.Br? { ReplaceSubSame(t.left, d, s); ReplaceSubSame(t.right, d, s); }
  }

  lemma {:induction false} RekeySame<N>(t: Tree<N>, d: N, k: int)
    requires d !in Ids(t)
    ensures Rekey(t, d, k) == t
  {
    if t.Br? { RekeySame(t.left, d, k); RekeySame(t.right, d, k); }
  }

  /**
   * Deleting removes exactly the key, keeps the ordering and the distinct
   * nodes, and removes one node; an absent key leaves the tree as it was.
   */
  lemma {:induction false} DeleteSpec<N>(t: Tree<N>, v: int)
    requires Ordered(t)
    ensures Keys(Delete(t, v)) == Keys(t) - {v}
    ensures Ordered(Delete(t, v))
    ensures Ids(Delete(t, v)) <= Ids(t)
    ensures Distinct(t) ==> Distinct(Delete(t, v))
    ensures Size(Delete(t, v)) == if v in Keys(t) then Size(t) - 1 else Size(t)
    ensures v !in Keys(t) ==> Delete(t, v) == t
  {
    DeleteKeys(t, v);
    DeleteShape(t, v);
  }

  lemma {:induction false} DeleteKeys<N>(t: Tree<N>, v: int)
    requires Ordered(t)
    ensures Keys(Delete(t, v)) == Keys(t) - {v}
    ensures Ordered(Delete(t, v))
  {
    if t.Br? {
      var l, k, r := t.left, t.key, t.right;
      if v < k {
        DeleteKeys(l, v);
      } else if v > k {
        DeleteKeys(r, v);
      } else if l.Br? && r.Br? {
        MinKeySpec(r);
        DeleteKeys(r, MinKey(r));
      }
    }
  }

  lemma {:induction false} DeleteShape<N>(t: Tree<N>, v: int)
    requires Ordered(t)
    ensures Ids(Delete(t, v)) <= Ids(t)
    ensures Distinct(t) ==> Distinct(Delete(t, v))
    ensures Size(Delete(t, v)) == if v in Keys(t) then Size(t) - 1 else Size(t)
    ensures v !in Keys(t) ==> Delete(t, v) == t
  {
    if t.Br? {
      var l, k, r := t.left, t.key, t.right;
      if v < k {
        DeleteShape(l, v);
      } else if v > k {
        DeleteShape(r, v);
      } else if l.Br? && r.Br? {
        MinKeySpec(r);
        DeleteShape(r, MinKey(r));
      }
    }
  }

  /** After deletion the key is gone: searching for it finds nothing. */
  lemma DeleteThenSearch<N>(t: Tree<N>, v: int)
    requires Ordered(t)
    ensures Search(Delete(t, v), v) == Nil
  {
    DeleteSpec(t, v);
    SearchSpec(Delete(t, v), v);
  }

  /** Leaf and one-child deletion is replacing the node's subtree by the promoted child. */
  lemma {:induction false} DeleteReplace<N>(t: Tree<N>, v: int)
    requires Ordered(t) && Distinct(t) && Search(t, v).Br? && !TwoChildren(t, v)
    ensures Delete(t, v) == ReplaceSub(t, Search(t, v).node, Promoted(Search(t, v)))
  {
    var d := Search(t, v).node;
    SearchFind(t, v);
    if t.key != v {
      if v < t.key {
        SearchFind(t.left, v);
        DeleteReplace(t.left, v);
        ReplaceSubSame(t.right, d, Promoted(Search(t, v)));
      } else {
        SearchFind(t.right, v);
        DeleteReplace(t.right, v);
        ReplaceSubSame(t.left, d, Promoted(Search(t, v)));
      }
    }
  }

  /**
   * The source deletes the successor key from the whole tree and then writes
   * it into the node being deleted; that is the same tree as `Delete`.
   */
  lemma {:induction false} DeleteTwoChildren<N>(t: Tree<N>, v: int)
    requires Ordered(t) && Distinct(t) && TwoChildren(t, v)
    ensures Delete(t, v) ==
      Rekey(Delete(t, MinKey(Search(t, v).right)), Search(t, v).node, MinKey(Search(t, v).right))
  {
    var s := Search(t, v);
    var m := MinKey(s.right);
    SearchSpec(t, v);
    MinKeySpec(s.right);
    if t.key == v {
      DeleteSpec(t.right, m);
      RekeySame(t.left, t.node, m);
      RekeySame(Delete(t.right, m), t.node, m);
    } else {
      SearchFind(t, v);
      assert m in Keys(s);
      if v < t.key {
        assert m < t.key;
        DeleteTwoChildren(t.left, v);
        RekeySame(t.right, s.node, m);
      } else {
        assert m > t.key;
        DeleteTwoChildren(t.right, v);
        RekeySame(t.left, s.node, m);
      }
    }
  }

  /** Deleting the successor key of a node with two children never removes the top node. */
  lemma DeleteSuccessorTop<N>(t: Tree<N>, v: int)
    requires Ordered(t) && TwoChildren(t, v)
    ensures Top(Delete(t, MinKey(Search(t, v).right))) == Top(t)
  {
    var s := Search(t, v);
    SearchSpec(t, v);
    MinKeySpec(s.right);
    if t.key != v {
      if v < t.key { SearchSpec(t.left, v); } else { SearchSpec(t.right, v); }
    }
  }

  /** In the two-children case the node stays, keeps its left subtree, and holds the successor key. */
  lemma {:induction false} DeleteKeepsNode<N>(t: Tree<N>, v: int)
    requires Ordered(t) && Distinct(t) && TwoChildren(t, v)
    ensures Find(Delete(t, v), Search(t, v).node) ==
      Br(Search(t, v).left, Search(t, v).node, MinKey(Search(t, v).right),
         Delete(Search(t, v).right, MinKey(Search(t, v).right)))
  {
    var s := Search(t, v);
    SearchFind(t, v);
    if t.key != v {
      if v < t.key {
        DeleteKeepsNode(t.left, v);
        DeleteSpec(t.left, v);
      } else {
        DeleteKeepsNode(t.right, v);
        DeleteSpec(t.right, v);
      }
    }
  }

  lemma {:induction false} ReplaceIds<N>(t: Tree<N>, d: N, s: Tree<N>)
    requires Distinct(t) && d in Ids(t) && IsPromotion(Find(t, d), s)
    ensures Ids(ReplaceSub(t, d, s)) == Ids(t) - {d}
  {
    if t.node != d {
      if d in Ids(t.left) {
        ReplaceIds(t.left, d, s);
        ReplaceSubSame(t.right, d, s);
      } else {
        ReplaceIds(t.right, d, s);
        ReplaceSubSame(t.left, d, s);
      }
    }
  }

  /** Replacing a node by its promoted subtree keeps the tree ordered and its nodes distinct, and adds no key. */
  lemma {:induction false} ReplaceKeeps<N>(t: Tree<N>, d: N, s: Tree<N>)
    requires Ordered(t) && Distinct(t) && d in Ids(t) && IsPromotion(Find(t, d), s)
    ensures Ordered(ReplaceSub(t, d, s)) && Distinct(ReplaceSub(t, d, s))
    ensures Keys(ReplaceSub(t, d, s)) <= Keys(t)
  {
    if t.node != d {
      if d in Ids(t.left) {
        ReplaceKeeps(t.left, d, s);
        ReplaceIds(t.left, d, s);
        ReplaceSubSame(t.right, d, s);
      } else {
        ReplaceKeeps(t.right, d, s);
        ReplaceIds(t.right, d, s);
        ReplaceSubSame(t.left, d, s);
      }
    }
  }

  lemma {:induction false} ReplaceFind<N>(t: Tree<N>, d: N, s: Tree<N>, n: N)
    requires Distinct(t) && d in Ids(t) && IsPromotion(Find(t, d), s)
    requires n in Ids(ReplaceSub(t, d, s))
    ensures Find(ReplaceSub(t, d, s), n) == ReplaceSub(Find(t, n), d, s)
  {
    ReplaceIds(t, d, s);
    var l, x, r := t.left, t.node, t.right;
    if x == d {
      ReplaceSubSame(Find(s, n), d, s);
    } else if d in Ids(l) {
      ReplaceSubSame(r, d, s);
      ReplaceIds(l, d, s);
      if n in Ids(ReplaceSub(l, d, s)) {
        ReplaceFind(l, d, s, n);
      } else if n in Ids(r) {
        ReplaceSubSame(Find(r, n), d, s);
      }
    } else {
      ReplaceSubSame(l, d, s);
      ReplaceIds(r, d, s);
      if n in Ids(ReplaceSub(r, d, s)) {
        ReplaceFind(r, d, s, n);
      } else if n in Ids(l) {
        ReplaceSubSame(Find(l, n), d, s);
      }
    }
  }

  /** The node at the top of a tree never lies below another of its nodes. */
  lemma TopNotBelow<N>(t: Tree<N>, n: N)
    requires Distinct(t) && n in Ids(t) && n != t.node
    ensures t.node !in Ids(Find(t, n))
  {
  }

  lemma {:induction false} ReplaceParent<N>(t: Tree<N>, d: N, s: Tree<N>, n: N)
    requires Distinct(t) && d in Ids(t) && IsPromotion(Find(t, d), s)
    requires n in Ids(ReplaceSub(t, d, s))
    ensures ParentAt(ReplaceSub(t, d, s), n) ==
      if Top(s) == Some(n) then ParentAt(t, d) else ParentAt(t, n)
  {
    ReplaceIds(t, d, s);
    FindDistinct(t, d);
    var l, x, r := t.left, t.node, t.right;
    if x == d {
      ParentExists(t, d);
      if Top(s) == Some(n) { ParentExists(s, n); }
    } else if d in Ids(l) {
      ReplaceSubSame(r, d, s);
      ReplaceIds(l, d, s);
      if n in Ids(ReplaceSub(l, d, s)) { ReplaceParent(l, d, s, n); }
      if Top(l) == Some(d) {
        if Top(s) == Some(n) { ParentExists(s, n); }
      } else {
        TopNotBelow(l, d);
        assert Ids(s) <= Ids(Find(l, d));
      }
    } else {
      ReplaceSubSame(l, d, s);
      ReplaceIds(r, d, s);
      if n in Ids(ReplaceSub(r, d, s)) { ReplaceParent(r, d, s, n); }
      ParentNone(r, n);
      ParentNone(ReplaceSub(r, d, s), n);
      if Top(r) == Some(d) {
        if Top(s) == Some(n) { ParentExists(s, n); }
      } else {
        TopNotBelow(r, d);
        assert Ids(s) <= Ids(Find(r, d));
      }
    }
  }

  /**
   * Node by node, replacing node `d` by its promoted child changes one link:
   * whichever slot held `d` now holds the child, whose parent becomes `d`'s
   * parent. Keys and all other links and parents stay.
   */
  lemma ReplaceAt<N>(t: Tree<N>, d: N, s: Tree<N>, n: N)
    requires Distinct(t) && d in Ids(t) && IsPromotion(Find(t, d), s)
    requires n in Ids(ReplaceSub(t, d, s))
    ensures n in Ids(t) && n != d && Find(ReplaceSub(t, d, s), n).Br?
    ensures Find(ReplaceSub(t, d, s), n).key == Find(t, n).key
    ensures Top(Find(ReplaceSub(t, d, s), n).left) ==
      if Top(Find(t, n).left) == Some(d) then Top(s) else Top(Find(t, n).left)
    ensures Top(Find(ReplaceSub(t, d, s), n).right) ==
      if Top(Find(t, n).right) == Some(d) then Top(s) else Top(Find(t, n).right)
    ensures ParentAt(ReplaceSub(t, d, s), n) ==
      if Top(s) == Some(n) then ParentAt(t, d) else ParentAt(t, n)
  {
    ReplaceIds(t, d, s);
    ReplaceFind(t, d, s, n);
    ReplaceParent(t, d, s, n);
  }

  lemma {:induction false} RekeyFind<N>(t: Tree<N>, d: N, k: int, n: N)
    requires Distinct(t) && n in Ids(t)
    ensures Ids(Rekey(t, d, k)) == Ids(t)
    ensures Find(Rekey(t, d, k), n) == Rekey(Find(t, n), d, k)
    ensures ParentAt(Rekey(t, d, k), n) == ParentAt(t, n)
  {
    RekeyIds(t, d, k);
    if t.node == d {
      RekeySame(t.left, d, k);
      RekeySame(t.right, d, k);
      if n != d { RekeySame(Find(t, n), d, k); }
    } else {
      RekeyIds(t.left, d, k);
      RekeyIds(t.right, d, k);
      assert Top(Rekey(t.left, d, k)) == Top(t.left);
      assert Top(Rekey(t.right, d, k)) == Top(t.right);
      if n in Ids(t.left) { RekeyFind(t.left, d, k, n); }
      if n in Ids(t.right) { RekeyFind(t.right, d, k, n); }
      ParentNone(t.right, n);
      ParentNone(Rekey(t.right, d, k), n);
    }
  }

  lemma {:induction false} RekeyIds<N>(t: Tree<N>, d: N, k: int)
    ensures Ids(Rekey(t, d, k)) == Ids(t)
  {
    if t.Br? { RekeyIds(t.left, d, k); RekeyIds(t.right, d, k); }
  }

  lemma {:induction false} RekeyDistinct<N>(t: Tree<N>, d: N, k: int)
    requires Distinct(t)
    ensures Distinct(Rekey(t, d, k))
  {
    if t.Br? {
      RekeyIds(t.left, d, k);
      RekeyIds(t.right, d, k);
      RekeyDistinct(t.left, d, k);
      RekeyDistinct(t.right, d, k);
    }
  }

  /** Node by node, giving `d` a new key changes that key only: every link and parent stays. */
  lemma RekeyAt<N>(t: Tree<N>, d: N, k: int, n: N)
    requires Distinct(t) && n in Ids(t)
    ensures Find(Rekey(t, d, k), n).Br?
    ensures Find(Rekey(t, d, k), n).key == if n == d then k else Find(t, n).key
    ensures Top(Find(Rekey(t, d, k), n).left) == Top(Find(t, n).left)
    ensures Top(Find(Rekey(t, d, k), n).right) == Top(Find(t, n).right)
    ensures ParentAt(Rekey(t, d, k), n) == ParentAt(t, n)
  {
    RekeyFind(t, d, k, n);
    var f := Find(t, n);
    if f.node != d {
      assert Top(Rekey(f.left, d, k)) == Top(f.left);
      assert Top(Rekey(f.right, d, k)) == Top(f.right);
    }
  }
}
