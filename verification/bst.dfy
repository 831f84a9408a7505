/**
 * The heap model of `Node` and `BinarySearchTree`: nodes linked by `left`,
 * `right` and `parent` references, mutated in place. A ghost abstract tree
 * (module TreeSpec) is tied to the heap node by node by `Valid()`, and every
 * operation is proved against the pure functions over that tree.
 */
module Bst {
  import opened TreeSpec
  import opened TreeEdit

  /** A tree element: a key, its links, and the layout fields the display pass fills in. */
  class Node {
    var data: int
    var parent: Node?
    var right: Node?
    var xPos: Option<int>
    var depth: Option<nat>
    var left: Node?

    constructor (passedValue: int)
      ensures data == passedValue
      ensures parent == null && right == null && left == null
      ensures xPos == None && depth == None
    {
      data := passedValue;
      parent := null;
      right := null;
      xPos := None;
      depth := None;
      left := null;
    }
  }

  function Ref(o: Option<Node>): Node?
  {
    if o.Some? then o.value else null
  }

  /**
   * Node `m` of tree `t`, stored with key `data`, children `left` and `right`
   * and parent `parent`, agrees with `t`: the key and children are the ones
   * `t` gives it, and so is the parent unless `m` is the top node.
   */
  ghost predicate Linked(t: Tree<Node>, m: Node, data: int, left: Node?, right: Node?, parent: Node?)
  {
    var s := Find(t, m);
    s.Br? && data == s.key && left == Ref(Top(s.left)) && right == Ref(Top(s.right)) &&
    (Top(t) != Some(m) ==> parent == Ref(ParentAt(t, m)))
  }

  /** Inserting a leaf under the attachment point: every old node keeps its links except that one slot. */
  lemma InsertLinked(t: Tree<Node>, v: int, n: Node, m: Node, data: int, left: Node?, right: Node?, parent: Node?)
    requires Ordered(t) && Distinct(t) && v !in Keys(t) && n !in Ids(t)
    requires Linked(t, m, data, left, right, parent)
    ensures Linked(Insert(t, v, n), m, data,
      if AttachPoint(t, v) == Some(m) && v < data then n else left,
      if AttachPoint(t, v) == Some(m) && v > data then n else right,
      parent)
  {
    InsertAt(t, v, n, m);
    InsertParent(t, v, n, m);
  }

  /** The inserted leaf is linked to its attachment point and has no children. */
  lemma NewLinked(t: Tree<Node>, v: int, n: Node)
    requires Ordered(t) && Distinct(t) && v !in Keys(t) && n !in Ids(t) && t.Br?
    ensures Linked(Insert(t, v, n), n, v, null, null, Ref(AttachPoint(t, v)))
  {
    InsertNew(t, v, n);
    InsertAbsent(t, v, n);
  }

  /**
   * Replacing node `d` by its promoted subtree `s`: a node keeps its links,
   * except that a slot that held `d` now holds the top of `s`, and that top
   * takes over `d`'s parent (a new top node may keep any parent).
   */
  lemma ReplaceLinked(t: Tree<Node>, d: Node, s: Tree<Node>, m: Node,
                      data: int, left: Node?, right: Node?, parent: Node?, newParent: Node?)
    requires Distinct(t) && d in Ids(t) && IsPromotion(Find(t, d), s) && m in Ids(ReplaceSub(t, d, s))
    requires Linked(t, m, data, left, right, parent)
    requires Top(s) == Some(m) && Top(t) != Some(d) ==> newParent == Ref(ParentAt(t, d))
    requires Top(s) != Some(m) ==> newParent == parent
    ensures Linked(ReplaceSub(t, d, s), m, data,
      if left == d then Ref(Top(s)) else left,
      if right == d then Ref(Top(s)) else right,
      newParent)
  {
    ReplaceAt(t, d, s, m);
  }

  /** Giving node `d` a new key changes only the key stored at `d`. */
  lemma RekeyLinked(t: Tree<Node>, d: Node, k: int, m: Node,
                    data: int, left: Node?, right: Node?, parent: Node?)
    requires Distinct(t) && m in Ids(t) && Linked(t, m, data, left, right, parent)
    ensures Linked(Rekey(t, d, k), m, if m == d then k else data, left, right, parent)
  {
    RekeyAt(t, d, k, m);
  }

  /** What `print_helper` prints, before its closing blank line. */
  datatype Report =
    | Silent                    // empty tree: nothing at all is printed
    | Printed(values: seq<int>) // one key per line
    | CountLine(count: int)     // "The number of nodes is: <count>"
    | BlankLine                 // an unknown print type: only the blank line

  /** The x position the first inserted node gets. */
  const InsertRootX := 420
  /** The x position a child promoted to the root by a one-child deletion gets. */
  const PromotedRootX := 380

  class BinarySearchTree {
    var root: Node?
    var nodeCount: Option<int>
    ghost var tree: Tree<Node>
    ghost var Repr: set<Node>

    /** Node `m` holds the key, children and (below the root) the parent that the abstract tree gives it. */
    ghost predicate Agrees(m: Node)
      reads this`tree, m`data, m`left, m`right, m`parent
    {
      Linked(tree, m, m.data, m.left, m.right, m.parent)
    }

    /**
     * The object invariant: the nodes form the ordered tree `tree`, rooted at
     * `root`. The root's own `parent` is not constrained: a one-child deletion
     * of the root leaves it pointing at the removed node. Only the links and
     * keys are constrained: depth and x position belong to the display pass.
     */
    ghost predicate Valid()
      reads this`root, this`tree, this`Repr, Repr`data, Repr`left, Repr`right, Repr`parent
    {
      Repr == Ids(tree) && Ordered(tree) && Distinct(tree) &&
      root == Ref(Top(tree)) &&
      (forall m {:trigger Agrees(m)} :: m in Repr ==> Agrees(m))
    }

    /** The root sits at depth 0 and at one of the two x positions a root is ever given. */
    ghost predicate RootPlaced()
      reads this`root, root
    {
      root != null ==> root.depth == Some(0) && (root.xPos == Some(InsertRootX) || root.xPos == Some(PromotedRootX))
    }

    constructor ()
      ensures Valid() && tree == Nil && nodeCount == None && RootPlaced()
    {
      root := null;
      nodeCount := None;
      tree := Nil;
      Repr := {};
    }

    /** `search_for_node`: an iterative descent from the root. */
    method SearchForNode(value: int) returns (found: Node?)
      requires Valid()
      ensures found == Ref(Top(Search(tree, value)))
      ensures found != null <==> value in Keys(tree)
      ensures found != null ==> found in Repr && found.data == value
    {
      SearchSpec(tree, value);
      var temp := root;
      ghost var sub := tree;
      while temp != null
        invariant temp == Ref(Top(sub))
        invariant sub.Br? ==> Find(tree, sub.node) == sub
        invariant Search(tree, value) == Search(sub, value)
        decreases Size(sub)
      {
        assert Agrees(temp);
        FindChild(tree, temp);
        if temp.data == value {
          SearchFind(tree, value);
          return temp;
        } else if value < temp.data {
          temp := temp.left;
          sub := sub.left;
        } else if value > temp.data {
          temp := temp.right;
          sub := sub.right;
        }
      }
      return null;
    }

    /** `min_value`: follow left links from `node` to the smallest key of its subtree. */
    method MinValue(node: Node) returns (r: Node)
      requires Valid() && node in Repr
      ensures r in Repr && r == Leftmost(Find(tree, node)).node && r.left == null
      ensures r.data == MinKey(Find(tree, node))
      ensures forall k :: k in Keys(Find(tree, node)) ==> r.data <= k
    {
      FindOrdered(tree, node);
      MinKeySpec(Find(tree, node));
      r := node;
      ghost var sub := Find(tree, node);
      while r.left != null
        invariant r in Repr && sub == Find(tree, r)
        invariant Leftmost(sub) == Leftmost(Find(tree, node))
        decreases Size(sub)
      {
        assert Agrees(r);
        FindChild(tree, r);
        r := r.left;
        sub := sub.left;
      }
      assert Agrees(r);
    }

    /** `max_value`: follow right links from `node` to the largest key of its subtree. */
    method MaxValue(node: Node) returns (r: Node)
      requires Valid() && node in Repr
      ensures r in Repr && r == Rightmost(Find(tree, node)).node && r.right == null
      ensures r.data == MaxKey(Find(tree, node))
      ensures forall k :: k in Keys(Find(tree, node)) ==> k <= r.data
    {
      FindOrdered(tree, node);
      MaxKeySpec(Find(tree, node));
      r := node;
      ghost var sub := Find(tree, node);
      while r.right != null
        invariant r in Repr && sub == Find(tree, r)
        invariant Rightmost(sub) == Rightmost(Find(tree, node))
        decreases Size(sub)
      {
        assert Agrees(r);
        FindChild(tree, r);
        r := r.right;
        sub := sub.right;
      }
      assert Agrees(r);
    }

    /** `count_nodes`: adds the number of nodes of `node`'s subtree to `nodeCount`. */
    method CountNodes(node: Node)
      requires Valid() && node in Repr && nodeCount.Some?
      modifies this`nodeCount
      ensures nodeCount == Some(old(nodeCount).value + Size(Find(tree, node)))
      decreases Size(Find(tree, node))
    {
      assert Agrees(node);
      FindChild(tree, node);
      if node.left != null {
        CountNodes(node.left);
      }
      nodeCount := Some(nodeCount.value + 1);
      if node.right != null {
        CountNodes(node.right);
      }
    }

    /** `print_inorder`: the keys of `node`'s subtree, left subtree first. */
    method PrintInorder(node: Node) returns (printed: seq<int>)
      requires Valid() && node in Repr
      ensures printed == Inorder(Find(tree, node))
      decreases Size(Find(tree, node))
    {
      assert Agrees(node);
      FindChild(tree, node);
      printed := [];
      if node.left != null {
        var l := PrintInorder(node.left);
        printed := printed + l;
      }
      printed := printed + [node.data];
      if node.right != null {
        var r := PrintInorder(node.right);
        printed := printed + r;
      }
    }

    /** `print_preorder`: the key of `node`, then each child subtree printed in order. */
    method PrintPreorder(node: Node) returns (printed: seq<int>)
      requires Valid() && node in Repr
      ensures printed == PreorderAsWritten(Find(tree, node))
    {
      assert Agrees(node);
      FindChild(tree, node);
      printed := [node.data];
      if node.left != null {
        var l := PrintInorder(node.left);
        printed := printed + l;
      }
      if node.right != null {
        var r := PrintInorder(node.right);
        printed := printed + r;
      }
    }

    /** `print_postorder`: each child subtree printed in order, then the key of `node`. */
    method PrintPostorder(node: Node) returns (printed: seq<int>)
      requires Valid() && node in Repr
      ensures printed == PostorderAsWritten(Find(tree, node))
    {
      ghost var t := Find(tree, node);
      assert Agrees(node);
      FindChild(tree, node);
      printed := [];
      if node.left != null {
        var l := PrintInorder(node.left);
        printed := printed + l;
      }
      assert printed == Inorder(t.left);
      if node.right != null {
        var r := PrintInorder(node.right);
        printed := printed + r;
      }
      assert printed == Inorder(t.left) + Inorder(t.right);
      printed := printed + [node.data];
    }

    /** `print_helper`: dispatch on the print type; nothing is printed for an empty tree. */
    method PrintHelper(printType: string) returns (report: Report)
      requires Valid()
      modifies this`nodeCount
      ensures tree == Nil ==> report == Silent && nodeCount == old(nodeCount)
      ensures tree.Br? && printType == "inorder" ==> report == Printed(Inorder(tree))
      ensures tree.Br? && printType == "preorder" ==> report == Printed(PreorderAsWritten(tree))
      ensures tree.Br? && printType == "postorder" ==> report == Printed(PostorderAsWritten(tree))
      ensures tree.Br? && printType == "min" ==> report == Printed([MinKey(tree)])
      ensures tree.Br? && printType == "max" ==> report == Printed([MaxKey(tree)])
      ensures tree.Br? && printType == "count" ==>
        report == CountLine(Size(tree)) && nodeCount == Some(Size(tree))
      ensures tree.Br? && printType !in {"inorder", "preorder", "postorder", "min", "max", "count"} ==>
        report == BlankLine
      ensures printType != "count" ==> nodeCount == old(nodeCount)
    {
      if root == null {
        return Silent;
      }
      assert Find(tree, root) == tree;
      if printType == "inorder" {
        var s := PrintInorder(root);
        report := Printed(s);
      } else if printType == "preorder" {
        var s := PrintPreorder(root);
        report := Printed(s);
      } else if printType == "postorder" {
        var s := PrintPostorder(root);
        report := Printed(s);
      } else if printType == "min" {
        var n := MinValue(root);
        report := Printed([n.data]);
      } else if printType == "max" {
        var n := MaxValue(root);
        report := Printed([n.data]);
      } else if printType == "count" {
        nodeCount := Some(0);
        CountNodes(root);
        report := CountLine(nodeCount.value);
      } else {
        report := BlankLine;
      }
    }

    /**
     * `insert_node`: a present key is refused; into an empty tree the new node
     * goes as the root at depth 0 and x position 420; otherwise the loop
     * descends and hangs it in the free slot of the attachment point.
     */
    method InsertNode(value: int) returns (inserted: bool, ghost added: Node?)
      requires Valid()
      modifies this`root, this`tree, this`Repr, Repr
      ensures Valid()
      ensures inserted <==> value !in Keys(old(tree))
      ensures Keys(tree) == Keys(old(tree)) + {value}
      ensures !inserted ==> added == null && tree == old(tree) && Repr == old(Repr) && root == old(root)
      ensures inserted ==> added != null && fresh(added)
      ensures inserted ==> Repr == old(Repr) + {added} && tree == Insert(old(tree), value, added)
      ensures inserted && old(root) == null ==>
        root == added && added.depth == Some(0) && added.xPos == Some(InsertRootX) && added.parent == null
      ensures inserted && old(root) != null ==>
        root == old(root) && added.depth == None && added.xPos == None
      ensures inserted && old(root) != null ==> added.parent == Ref(AttachPoint(old(tree), value))
      ensures forall m :: m in old(Repr) ==> unchanged(m`data, m`parent, m`depth, m`xPos)
      ensures old(RootPlaced()) ==> RootPlaced()
    {
      var existing := SearchForNode(value);
      if existing != null {
        return false, null;
      }
      var newNode := new Node(value);
      if root == null {
        newNode.xPos := Some(InsertRootX);
        newNode.depth := Some(0);
        root := newNode;
        tree := Br(Nil, newNode, value, Nil);
        Repr := {newNode};
        return true, newNode;
      }
      InsertAbsent(tree, value, newNode);
      var temp := FindAttachment(value);
      Attach(temp, newNode);
      return true, newNode;
    }

    /**
     * The two links `insert_node` sets once the descent stops at `temp`: the
     * free slot on the new key's side gets the new node, whose parent becomes
     * `temp`. The ghost tree grows by the new leaf.
     */
    method Attach(temp: Node, newNode: Node)
      requires Valid() && newNode !in Repr && newNode.data !in Keys(tree)
      requires Some(temp) == AttachPoint(tree, newNode.data)
      requires newNode.data < temp.data ==> temp.left == null
      requires newNode.data > temp.data ==> temp.right == null
      requires newNode.left == null && newNode.right == null
      modifies this`tree, this`Repr, temp`left, temp`right, newNode`parent
      ensures Valid() && Repr == old(Repr) + {newNode}
      ensures tree == Insert(old(tree), newNode.data, newNode)
      ensures newNode.parent == temp
    {
      var value := newNode.data;
      AttachPointIn(tree, value);
      assert Agrees(temp);
      newNode.parent := temp;
      if value < temp.data {
        temp.left := newNode;
      } else {
        temp.right := newNode;
      }
      tree := Insert(tree, value, newNode);
      Repr := Repr + {newNode};
      InsertAbsent(old(tree), value, newNode);
      NewLinked(old(tree), value, newNode);
      forall m | m in Repr
        ensures Agrees(m)
      {
        if m != newNode {
          assert old(Agrees(m));
          InsertLinked(old(tree), value, newNode, m, old(m.data), old(m.left), old(m.right), old(m.parent));
        }
      }
    }

    /**
     * The descent loop of `insert_node`: from the root, go left or right by
     * comparison until the slot on that side is free. It ends at the node the
     * new leaf is hung under, whose slot on the new key's side is empty.
     */
    method FindAttachment(value: int) returns (temp: Node)
      requires Valid() && root != null && value !in Keys(tree)
      ensures Some(temp) == AttachPoint(tree, value) && temp in Repr
      ensures value < temp.data ==> temp.left == null
      ensures value > temp.data ==> temp.right == null
      ensures value != temp.data
    {
      AttachPointIn(tree, value);
      temp := root;
      ghost var sub := tree;
      while true
        invariant temp in Repr && sub.Br? && temp == sub.node && Find(tree, temp) == sub
        invariant AttachPoint(sub, value) == AttachPoint(tree, value)
        decreases Size(sub)
      {
        assert Agrees(temp);
        FindChild(tree, temp);
        if value < temp.data {
          if temp.left == null {
            return;
          } else {
            temp := temp.left;
            sub := sub.left;
          }
        } else if value > temp.data {
          if temp.right == null {
            return;
          } else {
            temp := temp.right;
            sub := sub.right;
          }
        }
      }
    }

    /**
     * `delete_node`: an absent key is refused. A leaf is unlinked from its
     * parent (or the tree becomes empty); a node with two children first has
     * its in-order successor's key deleted, recursively, and then takes that
     * key; a node with one child is bypassed: the child takes its slot in the
     * parent, or becomes the root with depth 0 and x position 380 (its own
     * `parent` then still names the removed node).
     */
    method DeleteNode(value: int) returns (deleted: bool)
      requires Valid()
      modifies this`root, this`tree, this`Repr, Repr
      ensures Valid()
      ensures deleted <==> value in Keys(old(tree))
      ensures tree == Delete(old(tree), value) && Repr <= old(Repr)
      ensures Keys(tree) == Keys(old(tree)) - {value}
      ensures !deleted ==> Repr == old(Repr) && root == old(root) && unchanged(Repr)
      ensures PlacementKept()
      ensures old(RootPlaced()) ==> RootPlaced()
      decreases if TwoChildren(tree, value) then 1 else 0, 1
    {
      DeleteSpec(tree, value);
      var toDelete := SearchForNode(value);
      if toDelete == null {
        return false;
      }
      SearchFind(tree, value);
      assert Agrees(toDelete);
      if toDelete.left == null && toDelete.right == null {
        RemoveLeaf(toDelete, value);
      } else if toDelete.left != null && toDelete.right != null {
        RemoveWithSuccessor(toDelete, value);
      } else {
        RemoveWithChild(toDelete, value);
      }
      return true;
    }

    /**
     * What deletion does to placements: no node other than the root has its
     * depth or x position changed, a root that stays keeps its placement and
     * parent, and a new root has depth 0, x position 380 and, as its parent,
     * the root it replaced.
     */
    twostate predicate PlacementKept()
      reads this, Repr, root
    {
      (forall m :: m in old(Repr) && m in Repr && m != root ==> unchanged(m`depth, m`xPos)) &&
      (root != null && root == old(root) ==> unchanged(root`depth, root`xPos, root`parent)) &&
      (root != null && root != old(root) ==>
        root.depth == Some(0) && root.xPos == Some(PromotedRootX) && root.parent == old(root))
    }

    /** The leaf case: the tree becomes empty, or the leaf's parent slot is cleared. */
    method RemoveLeaf(d: Node, value: int)
      requires Valid() && d in Repr && Find(tree, d) == Search(tree, value)
      requires d.left == null && d.right == null
      modifies this`root, this`tree, this`Repr, Repr
      ensures Valid()
      ensures tree == Delete(old(tree), value) && Repr <= old(Repr)
      ensures PlacementKept()
    {
      assert Agrees(d);
      DeleteReplace(tree, value);
      if d == root {
        root := null;
        tree := Nil;
        Repr := {};
      } else {
        ParentExists(tree, d);
        ParentSlot(d.parent, d);
        UnlinkLeaf(d.parent, d);
      }
    }

    /** The one-child case: the child becomes the root, or takes the node's slot in its parent. */
    method RemoveWithChild(d: Node, value: int)
      requires Valid() && d in Repr && Find(tree, d) == Search(tree, value)
      requires (d.left == null) != (d.right == null)
      modifies this`root, this`tree, this`Repr, Repr
      ensures Valid()
      ensures tree == Delete(old(tree), value) && Repr <= old(Repr)
      ensures PlacementKept()
    {
      assert Agrees(d);
      DeleteReplace(tree, value);
      FindChild(tree, d);
      var child := if d.left != null then d.left else d.right;
      if d == root {
        PromoteToRoot(d, child);
      } else {
        ParentExists(tree, d);
        ParentSlot(d.parent, d);
        Bypass(d.parent, d, child);
      }
    }

    /**
     * The two-children case: the smallest key of the right subtree is deleted
     * from the whole tree (a recursive `delete_node`) and then written into `d`.
     */
    method RemoveWithSuccessor(d: Node, value: int)
      requires Valid() && d in Repr && Find(tree, d) == Search(tree, value)
      requires d.left != null && d.right != null
      modifies this`root, this`tree, this`Repr, Repr
      ensures Valid()
      ensures tree == Delete(old(tree), value) && Repr <= old(Repr)
      ensures PlacementKept()
      decreases 1, 0
    {
      assert Agrees(d);
      FindChild(tree, d);
      var successor := MinValue(d.right);
      var successorData := successor.data;
      assert Agrees(successor);
      SearchFindKey(tree, successor);
      DeleteTwoChildren(tree, value);
      DeleteSuccessorTop(tree, value);
      DeleteKeepsNode(tree, value);
      DeleteSpec(tree, value);
      RekeyIds(Delete(tree, successorData), d, successorData);
      var _ := DeleteNode(successor.data);
      CopyKey(d, successorData);
    }

    /** A node below the root sits in exactly one slot of its parent. */
    lemma ParentSlot(p: Node, d: Node)
      requires Valid() && d in Repr && Top(tree) != Some(d) && p == d.parent
      ensures p in Repr && (p.left == d) != (p.right == d)
      ensures p != d && p != d.left && p != d.right
      ensures root != d.left && root != d.right
    {
      assert Agrees(d);
      ParentExists(tree, d);
      ParentChild(tree, p, d);
      assert Agrees(p);
      FindDistinct(tree, p);
      FindDistinct(tree, d);
      FindChild(tree, d);
      FindChild(tree, p);
      if d.left != null {
        ParentChild(tree, d, d.left);
        ParentExists(tree, d.left);
      }
      if d.right != null {
        ParentChild(tree, d, d.right);
        ParentExists(tree, d.right);
      }
    }

    /** A leaf below the root leaves its parent's slot (only the slot that held it). */
    method UnlinkLeaf(p: Node, d: Node)
      requires Valid() && d in Repr && Top(tree) != Some(d) && p == d.parent
      requires d.left == null && d.right == null
      modifies this`tree, this`Repr, p`left, p`right
      ensures Valid() && Repr == old(Repr) - {d}
      ensures tree == ReplaceSub(old(tree), d, Nil)
    {
      assert Agrees(d);
      ParentSlot(p, d);
      if p.left == d {
        p.left := null;
      } else if p.right == d {
        p.right := null;
      }
      tree := ReplaceSub(tree, d, Nil);
      ReplaceIds(old(tree), d, Nil);
      ReplaceKeeps(old(tree), d, Nil);
      Repr := Repr - {d};
      forall m | m in Repr
        ensures Agrees(m)
      {
        assert old(Agrees(m));
        ParentChild(old(tree), m, d);
        ReplaceLinked(old(tree), d, Nil, m, old(m.data), old(m.left), old(m.right), old(m.parent), old(m.parent));
      }
    }

    /** A node with one child, below the root: the child takes its slot in the parent, and the parent becomes the child's. */
    method Bypass(p: Node, d: Node, child: Node)
      requires Valid() && d in Repr && Top(tree) != Some(d) && p == d.parent
      requires (d.left == null) != (d.right == null)
      requires child == if d.left != null then d.left else d.right
      modifies this`tree, this`Repr, p`left, p`right, child`parent
      ensures Valid() && Repr == old(Repr) - {d}
      ensures tree == ReplaceSub(old(tree), d, Promoted(Find(old(tree), d)))
      ensures child.parent == p
    {
      assert Agrees(d);
      ParentSlot(p, d);
      ghost var s := Promoted(Find(tree, d));
      assert Ref(Top(s)) == child && Top(s).Some?;
      assert p == Ref(ParentAt(tree, d));
      if p.left == d {
        p.left := child;
      } else if p.right == d {
        p.right := child;
      }
      child.parent := p;
      tree := ReplaceSub(tree, d, s);
      ReplaceIds(old(tree), d, s);
      ReplaceKeeps(old(tree), d, s);
      Repr := Repr - {d};
      forall m | m in Repr
        ensures Agrees(m)
      {
        assert old(Agrees(m));
        ParentChild(old(tree), m, d);
        assert m.left == if old(m.left) == d then child else old(m.left);
        assert m.right == if old(m.right) == d then child else old(m.right);
        assert m.parent == if m == child then p else old(m.parent);
        ReplaceLinked(old(tree), d, s, m, old(m.data), old(m.left), old(m.right), old(m.parent), m.parent);
      }
    }

    /** A root with one child: the child becomes the root, with depth 0 and x position 380; its `parent` is left as it was. */
    method PromoteToRoot(d: Node, child: Node)
      requires Valid() && d == root
      requires (d.left == null) != (d.right == null)
      requires child == if d.left != null then d.left else d.right
      modifies this`root, this`tree, this`Repr, child`xPos, child`depth
      ensures Valid() && Repr == old(Repr) - {d}
      ensures tree == ReplaceSub(old(tree), d, Promoted(old(tree)))
      ensures root == child && child.depth == Some(0) && child.xPos == Some(PromotedRootX)
      ensures child.parent == d
    {
      assert Agrees(d);
      FindChild(tree, d);
      ParentChild(tree, d, child);
      assert Agrees(child);
      ghost var s := Promoted(tree);
      child.xPos := Some(PromotedRootX);
      child.depth := Some(0);
      root := child;
      tree := ReplaceSub(tree, d, s);
      ReplaceIds(old(tree), d, s);
      ReplaceKeeps(old(tree), d, s);
      Repr := Repr - {d};
      forall m | m in Repr
        ensures Agrees(m)
      {
        assert old(Agrees(m));
        ReplaceLinked(old(tree), d, s, m, old(m.data), old(m.left), old(m.right), old(m.parent), old(m.parent));
      }
    }

    /** The successor's key written into the node that keeps its place. */
    method CopyKey(d: Node, k: int)
      requires Valid() && d in Repr && Ordered(Rekey(tree, d, k))
      modifies this`tree, d`data
      ensures Valid() && tree == Rekey(old(tree), d, k) && d.data == k
    {
      d.data := k;
      tree := Rekey(tree, d, k);
      RekeyIds(old(tree), d, k);
      RekeyDistinct(old(tree), d, k);
      forall m | m in Repr
        ensures Agrees(m)
      {
        assert old(Agrees(m));
        RekeyLinked(old(tree), d, k, m, old(m.data), old(m.left), old(m.right), old(m.parent));
      }
    }
  }
}
