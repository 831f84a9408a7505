/**
 * The abstract value of a binary search tree: a finite tree whose branches
 * carry the heap node that holds them (`node`) and that node's key. The heap
 * model in module Bst is tied to this value node by node, and every query the
 * tree answers is stated here as a function over it.
 */
module TreeSpec {

  datatype Option<T> = None | Some(value: T)

  datatype Tree<N> = Nil | Br(left: Tree<N>, node: N, key: int, right: Tree<N>)

  /** The key set of a tree. */
  function Keys<N>(t: Tree<N>): set<int>
  {
    match t
    case Nil => {}
    case Br(l, _, k, r) => Keys(l) + {k} + Keys(r)
  }

  /** The nodes of a tree. */
  function Ids<N(==)>(t: Tree<N>): set<N>
  {
    match t
    case Nil => {}
    case Br(l, n, _, r) => Ids(l) + {n} + Ids(r)
  }

  function Size<N>(t: Tree<N>): nat
  {
    match t
    case Nil => 0
    case Br(l, _, _, r) => Size(l) + 1 + Size(r)
  }

  /** Number of levels: 0 for the empty tree, 1 for a single node. */
  function Height<N>(t: Tree<N>): (h: nat)
    ensures t.Br? ==> 1 <= h
  {
    match t
    case Nil => 0
    case Br(l, _, _, r) => 1 + if Height(l) < Height(r) then Height(r) else Height(l)
  }

  /** The node at the top of a tree, if any. */
  function Top<N>(t: Tree<N>): Option<N>
  {
    if t.Nil? then None else Some(t.node)
  }

  /** The BST ordering invariant: left keys < node key < right keys, everywhere. */
  predicate Ordered<N>(t: Tree<N>)
  {
    t.Br? ==>
      (forall k :: k in Keys(t.left) ==> k < t.key) &&
      (forall k :: k in Keys(t.right) ==> t.key < k) &&
      Ordered(t.left) && Ordered(t.right)
  }

  /** No node occurs twice: the structure really is a tree of distinct nodes. */
  predicate Distinct<N(==)>(t: Tree<N>)
  {
    t.Br? ==>
      t.node !in Ids(t.left) && t.node !in Ids(t.right) && Ids(t.left) !! Ids(t.right) &&
      Distinct(t.left) && Distinct(t.right)
  }

  /** The subtree rooted at node `n`, or Nil when `n` is not in `t`. */
  function Find<N(==)>(t: Tree<N>, n: N): (s: Tree<N>)
    ensures n in Ids(t) ==> s.Br? && s.node == n
    ensures n !in Ids(t) ==> s == Nil
    ensures Ids(s) <= Ids(t) && Keys(s) <= Keys(t)
  {
    match t
    case Nil => Nil
    case Br(l, x, _, r) => if x == n then t else if n in Ids(l) then Find(l, n) else Find(r, n)
  }

  /** The node whose `left` or `right` is `n`; None for the top node or an absent one. */
  function ParentAt<N(==)>(t: Tree<N>, n: N): Option<N>
  {
    match t
    case Nil => None
    case Br(l, x, _, r) =>
      if Top(l) == Some(n) || Top(r) == Some(n) then Some(x)
      else if n in Ids(l) then ParentAt(l, n)
      else ParentAt(r, n)
  }

  /** The descent of `search_for_node`: the subtree whose top key is `v`, or Nil. */
  function Search<N>(t: Tree<N>, v: int): Tree<N>
  {
    match t
    case Nil => Nil
    case Br(l, _, k, r) => if k == v then t else if v < k then Search(l, v) else Search(r, v)
  }

  /** The node reached from the top by following only left links. */
  function Leftmost<N>(t: Tree<N>): (s: Tree<N>)
    requires t.Br?
    ensures s.Br? && s.left.Nil?
  {
    if t.left.Nil? then t else Leftmost(t.left)
  }

  /** The node reached from the top by following only right links. */
  function Rightmost<N>(t: Tree<N>): (s: Tree<N>)
    requires t.Br?
    ensures s.Br? && s.right.Nil?
  {
    if t.right.Nil? then t else Rightmost(t.right)
  }

  function MinKey<N>(t: Tree<N>): int
    requires t.Br?
  {
    Leftmost(t).key
  }

  function MaxKey<N>(t: Tree<N>): int
    requires t.Br?
  {
    Rightmost(t).key
  }

  /** What `print_inorder` prints, as a sequence. */
  function Inorder<N>(t: Tree<N>): seq<int>
  {
    match t
    case Nil => []
    case Br(l, _, k, r) => Inorder(l) + [k] + Inorder(r)
  }

  /**
   * What `print_preorder` prints: the top key, then the children printed by
   * `print_inorder` (not by a recursive pre-order walk).
   */
  function PreorderAsWritten<N>(t: Tree<N>): seq<int>
  {
    match t
    case Nil => []
    case Br(l, _, k, r) => [k] + Inorder(l) + Inorder(r)
  }

  /** What `print_postorder` prints: the children printed in order, then the top key. */
  function PostorderAsWritten<N>(t: Tree<N>): seq<int>
  {
    match t
    case Nil => []
    case Br(l, _, k, r) => Inorder(l) + Inorder(r) + [k]
  }

  predicate StrictlyIncreasing(s: seq<int>)
  {
    forall i, j :: 0 <= i < j < |s| ==> s[i] < s[j]
  }

  /** No key is printed twice. */
  predicate NoRepeat(s: seq<int>)
  {
    forall i, j :: 0 <= i < j < |s| ==> s[i] != s[j]
  }

  // ---------------------------------------------------------------------------
  // Subtrees, nodes and parents

  lemma {:induction false} FindDistinct<N>(t: Tree<N>, n: N)
    requires Distinct(t)
    ensures Distinct(Find(t, n))
  {
    if t.Br? && t.node != n {
      if n in Ids(t.left) { FindDistinct(t.left, n); } else { FindDistinct(t.right, n); }
    }
  }

  lemma {:induction false} FindOrdered<N>(t: Tree<N>, n: N)
    requires Ordered(t)
    ensures Ordered(Find(t, n))
  {
    if t.Br? && t.node != n {
      if n in Ids(t.left) { FindOrdered(t.left, n); } else { FindOrdered(t.right, n); }
    }
  }

  /** The children of a node found in `t` are themselves found in `t` at their own nodes. */
  lemma {:induction false} FindChild<N>(t: Tree<N>, n: N)
    requires Distinct(t) && n in Ids(t)
    ensures Find(t, n).left.Br? ==> Find(t, Find(t, n).left.node) == Find(t, n).left
    ensures Find(t, n).right.Br? ==> Find(t, Find(t, n).right.node) == Find(t, n).right
  {
    if t.node != n {
      if n in Ids(t.left) { FindChild(t.left, n); } else { FindChild(t.right, n); }
    }
  }

  /** A node's parent is exactly the node that has it as its left or right child. */
  lemma {:induction false} ParentChild<N>(t: Tree<N>, p: N, c: N)
    requires Distinct(t)
    ensures ParentAt(t, c) == Some(p) <==>
      p in Ids(t) && (Top(Find(t, p).left) == Some(c) || Top(Find(t, p).right) == Some(c))
  {
    if t.Br? {
      var l, x, r := t.left, t.node, t.right;
      ParentIn(l, c);
      ParentIn(r, c);
      if p in Ids(l) {
        ParentChild(l, p, c);
        if l.Br? { ParentExists(l, l.node); }
        assert Ids(Find(l, p).left) <= Ids(l) && Ids(Find(l, p).right) <= Ids(l);
      } else if p in Ids(r) {
        ParentChild(r, p, c);
        if r.Br? { ParentExists(r, r.node); }
        assert Ids(Find(r, p).left) <= Ids(r) && Ids(Find(r, p).right) <= Ids(r);
      }
      ParentNone(l, c);
      ParentNone(r, c);
    }
  }

  lemma {:induction false} ParentNone<N>(t: Tree<N>, c: N)
    ensures c !in Ids(t) ==> ParentAt(t, c) == None
  {
    if t.Br? { ParentNone(t.left, c); ParentNone(t.right, c); }
  }

  lemma {:induction false} ParentIn<N>(t: Tree<N>, c: N)
    ensures ParentAt(t, c).Some? ==> ParentAt(t, c).value in Ids(t)
  {
    if t.Br? { ParentIn(t.left, c); ParentIn(t.right, c); }
  }

  /** Every node except the top one has a parent, and the top one has none. */
  lemma {:induction false} ParentExists<N>(t: Tree<N>, c: N)
    requires Distinct(t) && c in Ids(t)
    ensures ParentAt(t, c).Some? <==> c != t.node
  {
    if t.node != c {
      if c in Ids(t.left) {
        if Top(t.left) != Some(c) { ParentExists(t.left, c); }
      } else {
        if Top(t.right) != Some(c) { ParentExists(t.right, c); }
      }
    } else {
      ParentNone(t.left, c);
      ParentNone(t.right, c);
    }
  }

  // ---------------------------------------------------------------------------
  // Search

  /** `search_for_node` finds a node exactly when the key is present, and it holds that key. */
  lemma {:induction false} SearchSpec<N>(t: Tree<N>, v: int)
    requires Ordered(t)
    ensures Search(t, v).Br? <==> v in Keys(t)
    ensures Search(t, v).Br? ==> Search(t, v).key == v
    ensures Keys(Search(t, v)) <= Keys(t) && Ordered(Search(t, v))
  {
    if t.Br? && t.key != v {
      if v < t.key { SearchSpec(t.left, v); } else { SearchSpec(t.right, v); }
    }
  }

  lemma {:induction false} SearchFind<N>(t: Tree<N>, v: int)
    requires Distinct(t) && Search(t, v).Br?
    ensures Search(t, v).node in Ids(t) && Find(t, Search(t, v).node) == Search(t, v)
  {
    if t.key != v {
      var c := if v < t.key then t.left else t.right;
      SearchFind(c, v);
    }
  }

  /** Searching for the key a node holds leads back to that very node. */
  lemma {:induction false} SearchFindKey<N>(t: Tree<N>, n: N)
    requires Ordered(t) && Distinct(t) && n in Ids(t)
    ensures Search(t, Find(t, n).key) == Find(t, n)
  {
    if t.node != n {
      var k := Find(t, n).key;
      if n in Ids(t.left) {
        assert k in Keys(t.left);
        SearchFindKey(t.left, n);
      } else {
        assert k in Keys(t.right);
        SearchFindKey(t.right, n);
      }
    }
  }

  // ---------------------------------------------------------------------------
  // Minimum and maximum

  /** `min_value`: the leftmost node holds the smallest key of the subtree. */
  lemma {:induction false} MinKeySpec<N>(t: Tree<N>)
    requires Ordered(t) && t.Br?
    ensures MinKey(t) in Keys(t)
    ensures forall k :: k in Keys(t) ==> MinKey(t) <= k
  {
    if t.left.Br? { MinKeySpec(t.left); }
  }

  /** `max_value`: the rightmost node holds the largest key of the subtree. */
  lemma {:induction false} MaxKeySpec<N>(t: Tree<N>)
    requires Ordered(t) && t.Br?
    ensures MaxKey(t) in Keys(t)
    ensures forall k :: k in Keys(t) ==> k <= MaxKey(t)
  {
    if t.right.Br? { MaxKeySpec(t.right); }
  }

  lemma {:induction false} LeftmostIds<N>(t: Tree<N>)
    requires t.Br?
    ensures Ids(Leftmost(t)) <= Ids(t) && Keys(Leftmost(t)) <= Keys(t)
  {
    if t.left.Br? { LeftmostIds(t.left); }
  }

  lemma {:induction false} RightmostIds<N>(t: Tree<N>)
    requires t.Br?
    ensures Ids(Rightmost(t)) <= Ids(t) && Keys(Rightmost(t)) <= Keys(t)
  {
    if t.right.Br? { RightmostIds(t.right); }
  }

  lemma {:induction false} LeftmostFind<N>(t: Tree<N>, s: Tree<N>)
    requires Distinct(t) && s.Br? && Find(t, s.node) == s
    ensures Find(t, Leftmost(s).node) == Leftmost(s)
    decreases s
  {
    if s.left.Br? {
      FindChild(t, s.node);
      LeftmostFind(t, s.left);
    }
  }

  lemma {:induction false} RightmostFind<N>(t: Tree<N>, s: Tree<N>)
    requires Distinct(t) && s.Br? && Find(t, s.node) == s
    ensures Find(t, Rightmost(s).node) == Rightmost(s)
    decreases s
  {
    if s.right.Br? {
      FindChild(t, s.node);
      RightmostFind(t, s.right);
    }
  }

  // ---------------------------------------------------------------------------
  // Traversals

  lemma {:induction false} InorderKeys<N>(t: Tree<N>)
    ensures |Inorder(t)| == Size(t)
    ensures forall x :: x in Inorder(t) <==> x in Keys(t)
  {
    if t.Br? { InorderKeys(t.left); InorderKeys(t.right); }
  }

  /** In-order traversal of an ordered tree is strictly ascending and lists exactly its keys. */
  lemma {:induction false} InorderSorted<N>(t: Tree<N>)
    requires Ordered(t)
    ensures StrictlyIncreasing(Inorder(t))
    ensures |Inorder(t)| == Size(t)
    ensures forall x :: x in Inorder(t) <==> x in Keys(t)
  {
    InorderKeys(t);
    if t.Br? {
      InorderSorted(t.left);
      InorderSorted(t.right);
      var a, b := Inorder(t.left), Inorder(t.right);
      var s := a + [t.key] + b;
      forall i, j | 0 <= i < j < |s| ensures s[i] < s[j] {
        if j < |a| {
        } else if i < |a| {
          assert s[i] in a;
          if j > |a| { assert s[j] in b; }
        } else if i == |a| {
          assert s[j] in b;
        } else {
          assert s[i] == b[i - |a| - 1] && s[j] == b[j - |a| - 1];
        }
      }
    }
  }

  /** Two walks with no repeats and no key in common joined together still repeat no key. */
  lemma JoinNoRepeat(a: seq<int>, b: seq<int>)
    requires NoRepeat(a) && NoRepeat(b)
    requires forall x :: x in a ==> x !in b
    ensures NoRepeat(a + b)
  {
    var s := a + b;
    forall i, j | 0 <= i < j < |s| ensures s[i] != s[j] {
      if i < |a| && j >= |a| {
        assert s[i] in a && s[j] == b[j - |a|];
      } else if i >= |a| {
        assert s[i] == b[i - |a|] && s[j] == b[j - |a|];
      }
    }
  }

  /**
   * Every traversal `print_helper` offers prints each node once: its length
   * is the node count, it lists exactly the keys, and in an ordered tree no
   * key is printed twice.
   */
  lemma {:induction false} TraversalLengths<N>(t: Tree<N>)
    ensures |Inorder(t)| == Size(t)
    ensures |PreorderAsWritten(t)| == Size(t)
    ensures |PostorderAsWritten(t)| == Size(t)
    ensures forall x :: x in PreorderAsWritten(t) <==> x in Keys(t)
    ensures forall x :: x in PostorderAsWritten(t) <==> x in Keys(t)
    ensures Ordered(t) ==>
      NoRepeat(Inorder(t)) && NoRepeat(PreorderAsWritten(t)) && NoRepeat(PostorderAsWritten(t))
  {
    InorderKeys(t);
    if t.Br? {
      InorderKeys(t.left);
      InorderKeys(t.right);
      if Ordered(t) {
        var a, k, b := Inorder(t.left), [t.key], Inorder(t.right);
        InorderSorted(t);
        InorderSorted(t.left);
        InorderSorted(t.right);
        JoinNoRepeat(k, a);
        JoinNoRepeat(k + a, b);
        JoinNoRepeat(a, b);
        JoinNoRepeat(a + b, k);
      }
    }
  }
}
