/**
 * The pre-order and post-order walks `print_preorder` and `print_postorder`
 * are evidently meant to be, next to the walks as written (which print both
 * subtrees with `print_inorder`). What tells the two apart: inserting the
 * keys of a true pre-order walk into an empty tree, one by one, rebuilds the
 * tree's shape exactly, and so does the reverse of a true post-order walk;
 * the walks as written do not.
 */
module Traversals {
  import opened TreeSpec
  import opened TreeEdit

  /** Pre-order: the top key, then the left subtree in pre-order, then the right one. */
  function Preorder<N>(t: Tree<N>): seq<int>
  {
    match t
    case Nil => []
    case Br(l, _, k, r) => [k] + Preorder(l) + Preorder(r)
  }

  /** Post-order: the left subtree in post-order, then the right one, then the top key. */
  function Postorder<N>(t: Tree<N>): seq<int>
  {
    match t
    case Nil => []
    case Br(l, _, k, r) => Postorder(l) + Postorder(r) + [k]
  }

  function Reverse(s: seq<int>): seq<int>
  {
    if |s| == 0 then [] else Reverse(s[1..]) + [s[0]]
  }

  /** A tree with its nodes forgotten: keys and shape only. */
  function Shape<N>(t: Tree<N>): Tree<()>
  {
    match t
    case Nil => Nil
    case Br(l, _, k, r) => Br(Shape(l), (), k, Shape(r))
  }

  /** `insert_node` applied to each key in turn, on node-less trees. */
  function InsertKeys(t: Tree<()>, keys: seq<int>): Tree<()>
    decreases |keys|
  {
    if |keys| == 0 then t else InsertKeys(Insert(t, keys[0], ()), keys[1..])
  }

  /** The pre-order walk lists exactly the keys, one per node, and in an ordered tree repeats none. */
  lemma {:induction false} PreorderKeys<N>(t: Tree<N>)
    ensures forall x :: x in Preorder(t) <==> x in Keys(t)
    ensures |Preorder(t)| == Size(t)
    ensures Ordered(t) ==> NoRepeat(Preorder(t))
  {
    if t.Br? {
      PreorderKeys(t.left);
      PreorderKeys(t.right);
      if Ordered(t) {
        var a, k, b := Preorder(t.left), [t.key], Preorder(t.right);
        JoinNoRepeat(k, a);
        JoinNoRepeat(k + a, b);
      }
    }
  }

  /** The post-order walk lists exactly the keys, one per node, and in an ordered tree repeats none. */
  lemma {:induction false} PostorderKeys<N>(t: Tree<N>)
    ensures forall x :: x in Postorder(t) <==> x in Keys(t)
    ensures |Postorder(t)| == Size(t)
    ensures Ordered(t) ==> NoRepeat(Postorder(t))
  {
    if t.Br? {
      PostorderKeys(t.left);
      PostorderKeys(t.right);
      if Ordered(t) {
        var a, k, b := Postorder(t.left), [t.key], Postorder(t.right);
        JoinNoRepeat(a, b);
        JoinNoRepeat(a + b, k);
      }
    }
  }

  lemma {:induction false} ReverseAppend(a: seq<int>, b: seq<int>)
    ensures Reverse(a + b) == Reverse(b) + Reverse(a)
  {
    if |a| == 0 {
      assert a + b == b;
    } else {
      assert (a + b)[1..] == a[1..] + b;
      ReverseAppend(a[1..], b);
    }
  }

  lemma {:induction false} ReverseKeys(s: seq<int>)
    ensures forall x :: x in Reverse(s) <==> x in s
    ensures |Reverse(s)| == |s|
  {
    if |s| > 0 {
      ReverseKeys(s[1..]);
      assert s == [s[0]] + s[1..];
    }
  }

  lemma {:induction false} InsertKeysAppend(t: Tree<()>, a: seq<int>, b: seq<int>)
    ensures InsertKeys(t, a + b) == InsertKeys(InsertKeys(t, a), b)
    decreases |a|
  {
    if |a| == 0 {
      assert a + b == b;
    } else {
      assert (a + b)[0] == a[0] && (a + b)[1..] == a[1..] + b;
      InsertKeysAppend(Insert(t, a[0], ()), a[1..], b);
    }
  }

  /** Keys below the top key all go into the left subtree. */
  lemma {:induction false} InsertKeysLeft(l: Tree<()>, k: int, r: Tree<()>, keys: seq<int>)
    requires forall x :: x in keys ==> x < k
    ensures InsertKeys(Br(l, (), k, r), keys) == Br(InsertKeys(l, keys), (), k, r)
    decreases |keys|
  {
    if |keys| > 0 {
      assert keys[0] in keys;
      assert forall x :: x in keys[1..] ==> x in keys;
      InsertKeysLeft(Insert(l, keys[0], ()), k, r, keys[1..]);
    }
  }

  /** Keys above the top key all go into the right subtree. */
  lemma {:induction false} InsertKeysRight(l: Tree<()>, k: int, r: Tree<()>, keys: seq<int>)
    requires forall x :: x in keys ==> x > k
    ensures InsertKeys(Br(l, (), k, r), keys) == Br(l, (), k, InsertKeys(r, keys))
    decreases |keys|
  {
    if |keys| > 0 {
      assert keys[0] in keys;
      assert forall x :: x in keys[1..] ==> x in keys;
      InsertKeysRight(l, k, Insert(r, keys[0], ()), keys[1..]);
    }
  }

  /** Inserting the keys of a pre-order walk into an empty tree rebuilds the tree. */
  lemma {:induction false} PreorderRebuilds<N>(t: Tree<N>)
    requires Ordered(t)
    ensures InsertKeys(Nil, Preorder(t)) == Shape(t)
  {
    if t.Br? {
      var l, k, r := t.left, t.key, t.right;
      var pl, pr := Preorder(l), Preorder(r);
      PreorderKeys(l);
      PreorderKeys(r);
      PreorderRebuilds(l);
      PreorderRebuilds(r);
      assert Preorder(t) == [k] + (pl + pr);
      assert InsertKeys(Nil, Preorder(t)) == InsertKeys(Br(Nil, (), k, Nil), pl + pr);
      InsertKeysAppend(Br(Nil, (), k, Nil), pl, pr);
      InsertKeysLeft(Nil, k, Nil, pl);
      InsertKeysRight(Shape(l), k, Nil, pr);
    }
  }

  /** Inserting the keys of a post-order walk, last first, into an empty tree rebuilds the tree. */
  lemma {:induction false} PostorderRebuilds<N>(t: Tree<N>)
    requires Ordered(t)
    ensures InsertKeys(Nil, Reverse(Postorder(t))) == Shape(t)
  {
    if t.Br? {
      var l, k, r := t.left, t.key, t.right;
      var ql, qr := Reverse(Postorder(l)), Reverse(Postorder(r));
      PostorderKeys(l);
      PostorderKeys(r);
      ReverseKeys(Postorder(l));
      ReverseKeys(Postorder(r));
      PostorderRebuilds(l);
      PostorderRebuilds(r);
      ReverseAppend(Postorder(l) + Postorder(r), [k]);
      ReverseAppend(Postorder(l), Postorder(r));
      assert Reverse([k]) == [k];
      assert Reverse(Postorder(t)) == [k] + (qr + ql);
      assert InsertKeys(Nil, Reverse(Postorder(t))) == InsertKeys(Br(Nil, (), k, Nil), qr + ql);
      InsertKeysAppend(Br(Nil, (), k, Nil), qr, ql);
      InsertKeysRight(Nil, k, Nil, qr);
      InsertKeysLeft(Nil, k, Shape(r), ql);
    }
  }

  /** The tree 3 with left child 1, which has children 0 and 2. */
  function Sample(): Tree<()>
  {
    Br(Br(Br(Nil, (), 0, Nil), (), 1, Br(Nil, (), 2, Nil)), (), 3, Nil)
  }

  /**
   * `print_preorder` as written prints 3, 0, 1, 2 for the sample tree, where
   * a pre-order walk prints 3, 1, 0, 2; inserting what it prints does not
   * rebuild the tree.
   */
  lemma PreorderAsWrittenDiffers()
    ensures Ordered(Sample())
    ensures PreorderAsWritten(Sample()) == [3, 0, 1, 2]
    ensures Preorder(Sample()) == [3, 1, 0, 2]
    ensures InsertKeys(Nil, PreorderAsWritten(Sample())) != Shape(Sample())
  {
    var s := PreorderAsWritten(Sample());
    assert s == [3, 0, 1, 2];
    assert s[1..] == [0, 1, 2] && s[1..][1..] == [1, 2] && s[1..][1..][1..] == [2];
    var built := InsertKeys(Nil, s);
    assert built.left.key == 0;
  }

  /**
   * `print_postorder` as written prints 0, 1, 2, 3 for the sample tree, where
   * a post-order walk prints 0, 2, 1, 3; its reverse does not rebuild the tree.
   */
  lemma PostorderAsWrittenDiffers()
    ensures PostorderAsWritten(Sample()) == [0, 1, 2, 3]
    ensures Postorder(Sample()) == [0, 2, 1, 3]
    ensures InsertKeys(Nil, Reverse(PostorderAsWritten(Sample()))) != Shape(Sample())
  {
    var s := PostorderAsWritten(Sample());
    assert s == [0, 1, 2, 3];
    var rs := Reverse(s);
    assert rs == [3, 2, 1, 0] by {
      assert s[1..] == [1, 2, 3] && s[1..][1..] == [2, 3] && s[1..][1..][1..] == [3];
    }
    var leaf0 := Br(Nil, (), 0, Nil);
    var t1 := Br(Nil, (), 3, Nil);
    var t2 := Br(Br(Nil, (), 2, Nil), (), 3, Nil);
    var t3 := Br(Br(Br(Nil, (), 1, Nil), (), 2, Nil), (), 3, Nil);
    var t4 := Br(Br(Br(leaf0, (), 1, Nil), (), 2, Nil), (), 3, Nil);
    assert InsertKeys(Nil, rs) == InsertKeys(t1, [2, 1, 0]);
    assert InsertKeys(t1, [2, 1, 0]) == InsertKeys(t2, [1, 0]) by { assert [2, 1, 0][1..] == [1, 0]; }
    assert InsertKeys(t2, [1, 0]) == InsertKeys(t3, [0]) by { assert [1, 0][1..] == [0]; }
    assert InsertKeys(t3, [0]) == t4 by { assert [0][1..] == []; }
  }
}
