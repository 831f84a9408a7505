# Binary search tree of `bst_visualization.py`, in Dafny

This project models the binary search tree behind the BST visualiser:

- the `Node` record: a key, `parent`/`left`/`right` links, and the `depth` and `x_pos` layout fields;
- the `BinarySearchTree` class: insertion, search, the three-case deletion, minimum and maximum, node counting, the three printing walks and the `print_helper` dispatch;
- the arithmetic by which `update_display` gives every child its depth and x position.

The tree is modelled on the heap, the way the program keeps it:

- `Node` and `BinarySearchTree` are classes whose fields the methods update in place;
- the loops of `insert_node`, `search_for_node`, `min_value` and `max_value` are `while` loops over a cursor node.

A ghost abstract tree `Tree<Node>` (module `TreeSpec`) is attached to the heap node by node by `BinarySearchTree.Valid()`. For every node, `Valid()` requires:

- its key and children are the ones the abstract tree gives it;
- unless it is the root, its `parent` is the abstract parent.

Every method is proved against pure functions on that tree:

- `Search`, `Insert`, `Delete`, `Inorder`, ... (modules `TreeSpec` and `TreeEdit`) for the tree operations;
- `PlaceOf` (module `Display`) for the layout.

The properties of those functions are lemmas: key sets, ordering, the in-order walk being sorted, and where each node is placed.

Modules:

- `TreeSpec`: the abstract tree, the functions over it, and the facts about search, minimum and maximum, in-order walks and parents.
- `TreeEdit`: insertion and deletion on the abstract tree, and how each node's links change under them.
- `Bst`: the `Node` and `BinarySearchTree` classes and their methods.
- `Display`: the placement arithmetic of `update_display`.
- `Traversals`: the pre-order and post-order walks `print_preorder` and `print_postorder` are evidently meant to be, next to the walks as written (see Findings).

Behaviours of the code that the model keeps as written:

- **Pre-order and post-order printing.** The docstrings of `print_preorder` and `print_postorder` (lines 133 and 141) name pre-order and post-order walks. Both methods print the two child subtrees with `print_inorder` (lines 136, 138, 143 and 145). `PrintPreorder` and `PrintPostorder` return exactly what the code prints, `PreorderAsWritten` and `PostorderAsWritten`. The walks the docstrings name are in `Traversals` (see Findings).
- **Stale `parent` after a root deletion.** When a root with one child is deleted, the child becomes the root (lines 99-102), but nothing resets its `parent`, which still names the removed node. `Valid()` therefore leaves the root's `parent` unconstrained, and `PlacementKept` states that this parent is the old root.
- **Two root x positions.** The root has no single anchor position:
  - a first node inserted into an empty tree is placed at depth 0 and x position 420 (line 42, `InsertRootX`);
  - a child promoted to the root by a one-child deletion is placed at depth 0 and x position 380 (line 100, `PromotedRootX`).

  `RootPlaced()` states that the root always sits at depth 0 and at one of these two positions. Insertion and deletion both preserve it.
- **Identity comparisons.** Nodes are compared by identity (lines 74, 78, 80, 105 and 107), which is reference equality on the Dafny objects.

## Model

| member | source | states |
|---|---|---|
| Bst.Node.constructor | bst_visualization.py:13-20 | a new node holds the given key, has no links, and has no depth or x position |
| Bst.BinarySearchTree.constructor | bst_visualization.py:25-28 | a new tree is empty, valid, and has no node count |
| Bst.BinarySearchTree.SearchForNode | bst_visualization.py:112-122 | the iterative descent returns a node exactly when the key is present; that node holds the key and is the top of the abstract `Search` result |
| Bst.BinarySearchTree.MinValue | bst_visualization.py:148-152 | following left links ends at the leftmost node of the subtree; it has no left child and holds the smallest key of the subtree |
| Bst.BinarySearchTree.MaxValue | bst_visualization.py:154-158 | following right links ends at the rightmost node of the subtree; it has no right child and holds the largest key of the subtree |
| Bst.BinarySearchTree.CountNodes | bst_visualization.py:160-166 | `node_count` grows by exactly the number of nodes in the subtree |
| Bst.BinarySearchTree.PrintInorder | bst_visualization.py:124-130 | the printed keys are the in-order walk of the subtree |
| Bst.BinarySearchTree.PrintPreorder | bst_visualization.py:132-138 | the printed keys are the node's key followed by the in-order walks of its two children, as the code is written |
| Bst.BinarySearchTree.PrintPostorder | bst_visualization.py:140-146 | the printed keys are the in-order walks of the two children followed by the node's key, as the code is written |
| Bst.BinarySearchTree.PrintHelper | bst_visualization.py:168-187 | an empty tree prints nothing; otherwise each print type prints its walk, the minimum, the maximum or the count line, and an unknown type prints only the blank line; only "count" changes `node_count`, setting it to the tree's size |
| Bst.BinarySearchTree.InsertNode | bst_visualization.py:30-63 | inserts exactly when the key is absent, adding exactly that key and one fresh node, and keeps the tree ordered and linked; a present key changes nothing; the first node becomes the root at depth 0 and x 420 with no parent; a later node is a leaf whose parent is the attachment point and gets no placement; no existing node's key, parent or placement changes |
| Bst.BinarySearchTree.FindAttachment | bst_visualization.py:47-63 | the insertion loop stops at the attachment point, whose slot on the new key's side is free |
| Bst.BinarySearchTree.Attach | bst_visualization.py:50-61 | hanging the new leaf in that slot and setting its parent gives a valid tree that is the abstract `Insert` |
| Bst.BinarySearchTree.DeleteNode | bst_visualization.py:65-110 | deletes exactly when the key is present, removing exactly that key and keeping the tree ordered and linked; an absent key changes nothing; no node except a promoted root changes placement; a root stays placed at depth 0 and x 420 or 380 |
| Bst.BinarySearchTree.RemoveLeaf | bst_visualization.py:72-82 | a leaf root empties the tree; any other leaf is unlinked from its parent's slot; the result is the abstract `Delete` |
| Bst.BinarySearchTree.RemoveWithSuccessor | bst_visualization.py:84-94 | deleting the successor's key recursively and then writing it into the node gives the abstract `Delete` and moves no node |
| Bst.BinarySearchTree.RemoveWithChild | bst_visualization.py:96-110 | the only child takes the node's slot in its parent, or becomes the root; the result is the abstract `Delete` |
| Bst.BinarySearchTree.ParentSlot | bst_visualization.py:78-81 | a node below the root sits in exactly one of its parent's two slots, so exactly one branch of the identity test rewires it |
| Bst.BinarySearchTree.UnlinkLeaf | bst_visualization.py:77-82 | clearing the parent's slot removes exactly the leaf from the tree and keeps it valid |
| Bst.BinarySearchTree.Bypass | bst_visualization.py:104-109 | the child takes the node's slot and its parent becomes the grandparent; the tree is the old one with the node's subtree replaced by the child's |
| Bst.BinarySearchTree.PromoteToRoot | bst_visualization.py:99-102 | the child becomes the root at depth 0 and x 380, and its parent still names the removed node |
| Bst.BinarySearchTree.CopyKey | bst_visualization.py:93-94 | writing the successor's key changes only that node's key, and the tree stays valid |
| Bst.InsertLinked | bst_visualization.py:50-61 | under insertion every old node keeps its key, links and parent, except the attachment point's free slot, which now holds the new leaf |
| Bst.NewLinked | bst_visualization.py:50-61 | the new leaf holds its key, has no children, and its parent is the attachment point |
| Bst.ReplaceLinked | bst_visualization.py:104-109 | under the one-child or leaf removal, every remaining node keeps its links, except that the slot that held the removed node holds its child, whose parent becomes the removed node's parent |
| Bst.RekeyLinked | bst_visualization.py:93-94 | giving a node a new key changes no node's links or parent |
| TreeSpec.Search | bst_visualization.py:112-122 | the descent of `search_for_node` on the abstract tree: the subtree whose top key is the searched key, or empty; its meaning is proved by `SearchSpec` |
| TreeSpec.Inorder | bst_visualization.py:124-130 | what `print_inorder` prints: the left subtree, then the key, then the right subtree; its meaning is proved by `InorderSorted` |
| TreeSpec.PreorderAsWritten | bst_visualization.py:132-138 | what `print_preorder` prints: the key, then both children printed in order; its meaning is proved by `TraversalLengths` |
| TreeSpec.PostorderAsWritten | bst_visualization.py:140-146 | what `print_postorder` prints: both children printed in order, then the key; its meaning is proved by `TraversalLengths` |
| TreeSpec.SearchSpec | bst_visualization.py:112-122 | the search finds a subtree exactly when the key is present, and its top key is the searched key |
| TreeSpec.SearchFind | bst_visualization.py:112-122 | the node found is in the tree, and its subtree is the one found |
| TreeSpec.SearchFindKey | bst_visualization.py:87-91 | searching for the key a node holds leads back to that node, so the recursive deletion of the successor's key removes the successor |
| TreeSpec.MinKeySpec | bst_visualization.py:148-152 | the leftmost key is in the subtree and is no larger than any of its keys |
| TreeSpec.MaxKeySpec | bst_visualization.py:154-158 | the rightmost key is in the subtree and is no smaller than any of its keys |
| TreeSpec.InorderKeys | bst_visualization.py:124-130 | the in-order walk lists each key of the tree, one per node |
| TreeSpec.InorderSorted | bst_visualization.py:124-130 | the in-order walk of an ordered tree is strictly ascending, has one entry per node, and lists exactly its keys |
| TreeSpec.TraversalLengths | bst_visualization.py:124-146 | each of the three printing walks has one entry per node and lists exactly the tree's keys; in an ordered tree none of them prints a key twice |
| TreeSpec.ParentChild | bst_visualization.py:52-60 | a node's parent is exactly the node holding it in its left or right slot |
| TreeSpec.ParentExists | bst_visualization.py:74-81 | every node except the root has a parent, and the root has none |
| TreeEdit.Insert | bst_visualization.py:30-63 | `insert_node` on the abstract tree: a new leaf in the free slot the descent reaches, and no change for a present key; its meaning is proved by `InsertAbsent` and `InsertPresent` |
| TreeEdit.AttachPoint | bst_visualization.py:47-63 | the node the descent of `insert_node` stops at; `AttachPointIn` and `InsertNew` prove it is in the tree and becomes the new leaf's parent |
| TreeEdit.Delete | bst_visualization.py:65-110 | `delete_node` on the abstract tree, case by case; its meaning is proved by `DeleteSpec`, `DeleteReplace` and `DeleteTwoChildren` |
| TreeEdit.InsertPresent | bst_visualization.py:33-35 | inserting a present key leaves the tree as it was |
| TreeEdit.InsertAbsent | bst_visualization.py:47-63 | inserting an absent key adds exactly that key and node, adds one to the size, and keeps the tree ordered with distinct nodes |
| TreeEdit.AttachPointIn | bst_visualization.py:47-63 | in a non-empty tree the descent for an absent key ends at a node of the tree |
| TreeEdit.InsertAt | bst_visualization.py:47-63 | insertion changes only the attachment point's slot on the new key's side; every node keeps its key and its other links |
| TreeEdit.InsertParent | bst_visualization.py:47-63 | insertion changes no old node's parent |
| TreeEdit.InsertNew | bst_visualization.py:50-61 | the inserted node is a leaf whose parent is the attachment point |
| TreeEdit.DeleteSpec | bst_visualization.py:65-110 | deletion removes exactly the key, keeps the tree ordered with distinct nodes, removes one node when the key is present, and changes nothing when it is absent |
| TreeEdit.DeleteKeys | bst_visualization.py:65-110 | deletion removes exactly the key and keeps the tree ordered |
| TreeEdit.DeleteShape | bst_visualization.py:65-110 | deletion adds no node, removes exactly one when the key is present, and changes nothing otherwise |
| TreeEdit.DeleteThenSearch | bst_visualization.py:65-110 | after deletion the key is no longer found |
| TreeEdit.DeleteReplace | bst_visualization.py:72-110 | a leaf or one-child deletion replaces the node's subtree by its only child, or removes it |
| TreeEdit.DeleteTwoChildren | bst_visualization.py:84-94 | a two-children deletion equals deleting the successor's key from the whole tree and then writing that key into the node |
| TreeEdit.DeleteSuccessorTop | bst_visualization.py:84-94 | deleting the successor's key leaves the root in place |
| TreeEdit.DeleteKeepsNode | bst_visualization.py:84-94 | in a two-children deletion the node keeps its identity and left subtree; its key becomes the smallest key of its right subtree, and that key is deleted from the right subtree |
| TreeEdit.ReplaceIds | bst_visualization.py:72-110 | replacing a node by its only child removes exactly that node |
| TreeEdit.ReplaceKeeps | bst_visualization.py:72-110 | replacing a node by its only child keeps the tree ordered with distinct nodes and adds no key |
| TreeEdit.ReplaceFind | bst_visualization.py:104-109 | after the replacement, each remaining node's subtree is its old subtree with the same replacement made inside |
| TreeEdit.ReplaceParent | bst_visualization.py:104-109 | after the replacement the promoted child's parent is the removed node's parent, and every other node keeps its parent |
| TreeEdit.ReplaceAt | bst_visualization.py:104-109 | after the replacement each remaining node keeps its key; a slot that held the removed node holds its child |
| TreeEdit.RekeyFind | bst_visualization.py:93-94 | writing a key into a node changes no node's set of descendants or parent |
| TreeEdit.RekeyIds | bst_visualization.py:93-94 | writing a key into a node keeps the set of nodes |
| TreeEdit.RekeyDistinct | bst_visualization.py:93-94 | writing a key into a node keeps the nodes distinct |
| TreeEdit.RekeyAt | bst_visualization.py:93-94 | writing a key into a node changes that node's key only |
| Display.PlaceOf | bst_visualization.py:328-337 | the depth and x position the display pass gives a node, found by walking down from the top node one level and one offset per step; its meaning is proved by `PlaceOfChildDepth`, `PlaceOfChild` and `PlaceOfRange` |
| Display.UpdateDisplay | bst_visualization.py:313-338 | starting from the node's own depth and x position, every node of its subtree is placed where `PlaceOf` says, and no other node's placement changes |
| Display.PlaceBelow | bst_visualization.py:318-338 | the same walk, for a node already placed at the given depth and x position |
| Display.PlaceSubtree | bst_visualization.py:328-332 | assigning one child's depth and x position and recursing places exactly that child's subtree |
| Display.PlaceOfRange | bst_visualization.py:328-337 | every node is placed no shallower than the top node, within the tree's height, and at a depth both tables cover |
| Display.PlaceOfChildDepth | bst_visualization.py:329-335 | every child is placed one level below its parent |
| Display.PlaceOfChild | bst_visualization.py:331-337 | a left child sits `depth_x_diff[child depth] + 50*depth_size[parent depth]` left of its parent, and a right child sits the same distance to the right |
| Display.RekeyPlaceOf | bst_visualization.py:93-94 | writing the successor's key into a node moves no node: the layout depends on the shape only |
| Traversals.PreorderKeys | bst_visualization.py:132-138 | the true pre-order walk has one entry per node and lists exactly the tree's keys; in an ordered tree it prints no key twice |
| Traversals.PostorderKeys | bst_visualization.py:140-146 | the true post-order walk has one entry per node and lists exactly the tree's keys; in an ordered tree it prints no key twice |
| Traversals.PreorderRebuilds | bst_visualization.py:132-138 | inserting the keys of a true pre-order walk of an ordered tree into an empty tree rebuilds its shape |
| Traversals.PostorderRebuilds | bst_visualization.py:140-146 | inserting the keys of a true post-order walk, last first, into an empty tree rebuilds its shape |
| Traversals.PreorderAsWrittenDiffers | bst_visualization.py:132-138 | on the tree 3(1(0,2)) the code prints 3,0,1,2 instead of 3,1,0,2, and reinserting what it prints does not rebuild the tree |
| Traversals.PostorderAsWrittenDiffers | bst_visualization.py:140-146 | on the same tree the code prints 0,1,2,3 instead of 0,2,1,3, and reinserting its reverse does not rebuild the tree |

## Left out

- The Tkinter display is not modelled: windows, frames, buttons, `reset_display`, `close_windows` and the label drawn for each node (bst_visualization.py:189-327 and 318-326). It is user interface. Of `update_display`, only the placement arithmetic is modelled.
- `logging` calls and `main` are not modelled (bst_visualization.py:7, 34, 69, 341-351). Their effects are output only. `InsertNode` and `DeleteNode` return a boolean instead of logging a warning.
- `print` is not modelled as output. The printing methods return the printed keys as a sequence. `PrintHelper` returns a `Report` that names what it prints before its closing blank line.
- Parsing of the text entry with `isnumeric` and `int` is not modelled (bst_visualization.py:287-293, 301-307). It is input handling; the core takes an `int` key.
- The tables of `helper_dictionaries` are left out (bst_visualization.py:9), because that file is not part of this model:
  - `depth_x_diff` and `depth_size` are sequence parameters `dx` and `ds`, indexed by depth;
  - the contents of both tables are not modelled;
  - `depth_colors` and `depth_y_position` are not modelled at all.
- Display.UpdateDisplay: requires the tables to cover every depth of the subtree (`Fits`). The code has an unchecked TODO at lines 330 and 336, so a deeper tree makes it fail with a lookup error. The requirement also covers `depth_x_diff` at the top node's own depth, which the code never looks up.
- Display.UpdateDisplay: requires the node to have a depth and an x position. The code would fail on a node that has none.
- Bst.BinarySearchTree.CountNodes: requires `node_count` to be set. The code adds to it, and that fails on `None`.
- The `del` statements (lines 75, 82 and 110) have no counterpart. A removed node just leaves the ghost `Repr` set, and its own fields are not described after removal.
- Keys are Dafny `int`, which is unbounded like a Python `int`. No other key type is modelled.

## Findings

| source | as written | input that shows it | evidently intended | confidence | as-written member | corrected member |
|---|---|---|---|---|---|---|
| bst_visualization.py:132-138 | `print_preorder` prints the node, then each child subtree with `print_inorder` | the ordered tree with root 3, left child 1, and 1's children 0 and 2: it prints 3, 0, 1, 2 | a pre-order walk printing 3, 1, 0, 2, whose keys, reinserted in order, rebuild the tree | not executed | Traversals.PreorderAsWrittenDiffers | Traversals.PreorderRebuilds |
| bst_visualization.py:140-146 | `print_postorder` prints each child subtree with `print_inorder`, then the node | the same tree: it prints 0, 1, 2, 3 | a post-order walk printing 0, 2, 1, 3, whose reverse, reinserted, rebuilds the tree | not executed | Traversals.PostorderAsWrittenDiffers | Traversals.PostorderRebuilds |

`PrintPreorder` and `PrintPostorder` keep the behaviour as written: they return `PreorderAsWritten` and `PostorderAsWritten`. The corrected walks are `Traversals.Preorder` and `Traversals.Postorder`.
