# LinkedBinarySearchTree in Dafny

A model of `LinkedBinarySearchTree`, an unbalanced binary search tree of
comparable elements. It covers insertion, single and bulk removal with the
in-order-successor splice, minimum lookup and extraction, and the two
maximum operations that always fail.

The tree keeps the BST property at every node. Elements in the left subtree are
strictly less than the node's element. Elements in the right subtree are greater
or equal, so duplicates go right.

Layout:

- `binary_trees.dfy`, module `BinaryTrees`. It holds the node datatype
  `Tree = Leaf | Node(left, elem, right)` over `int`, the element multiset
  `Elems`, the ordering `IsBST`, and the reference definitions of what the
  operations do:
  - `Leftmost` and `WithoutLeftmost`: the end of the left-child chain, and the
    tree with that node cut out;
  - `Spliced`: what replaces a removed node;
  - `OnSearchPath` and `RemoveFirst`: the removal search and its result;
  - `RemoveAll`: bulk removal.

  The lemmas about these definitions live here too.
- `linked_bst.dfy`, module `LinkedBst`. It holds the three exceptions as the
  `Error` cases of a `Result`, the private helpers, and the class
  `LinkedBinarySearchTree` with the fields `root` and `modCount`.
  - The class keeps `Valid()` (the BST property) as its invariant.
  - Every mutating method states the new `root` and `modCount` in terms of the
    old ones. For `RemoveAllOccurrences` the new root is `RemoveAll`, the
    single removal `RemoveFirst` repeated while the search still meets the
    target.
  - The walk that follows `parent`/`current` down the left children is one
    `while` loop, `DescendLeft`. It records the ancestors it passes.
    `parent.setLeftChild(x)` then becomes `Plug(path, x)`, which rebuilds the
    tree with `x` in that slot.

A node is a value: rewiring a node in place is modelled as rebuilding the
subtree that changes. The removal helper does not take a `parent` argument.
Instead it returns the rebuilt subtree, and the caller puts it in the parent's
child slot. The effect on the tree is the same.

`isEmpty` and `contains` come from the base class `LinkedBinaryTree`, which is
not part of this model. They are stand-ins:

- `IsEmpty` holds when the root is absent;
- `Contains` searches every node, which is the same as membership in the
  element multiset.

## Model

| member | source | states |
|---|---|---|
| `LinkedBst.LinkedBinarySearchTree.constructor` | LinkedBinarySearchTree.java:17-19 | the new tree is empty, valid, and has modCount 0 |
| `LinkedBst.LinkedBinarySearchTree.Singleton` | LinkedBinarySearchTree.java:21-25 | the new tree is a single childless root holding the element |
| `LinkedBst.LinkedBinarySearchTree.IsEmpty` | LinkedBinarySearchTree.java:91 | the tree is empty exactly when it stores no element |
| `LinkedBst.LinkedBinarySearchTree.Contains` | LinkedBinarySearchTree.java:172 | the containment check answers true exactly when the element is stored |
| `BinaryTrees.Find` | LinkedBinarySearchTree.java:172 | a search of every node finds x exactly when x is among the stored elements |
| `LinkedBst.LinkedBinarySearchTree.AddElement` | LinkedBinarySearchTree.java:27-54 | on an empty tree the element becomes a childless root; otherwise it is placed below the root by the helper; the multiset grows by exactly that element; the BST property is kept; modCount rises by 1 |
| `LinkedBst.AddBelow` | LinkedBinarySearchTree.java:56-74 | a strictly smaller element goes into the left subtree and leaves the right one untouched; any other element goes into the right subtree and leaves the left one untouched; the node keeps its element, and the subtree gains exactly one copy |
| `LinkedBst.AddBelowOrdered` | LinkedBinarySearchTree.java:58-71 | inserting below a node of a BST leaves a BST |
| `LinkedBst.AddThenRemove` | LinkedBinarySearchTree.java:56-74 | inserting an element that is not yet stored, then removing it, gives back the original tree: the removal search retraces the insertion path to the new leaf |
| `LinkedBst.InsertionScenario` | LinkedBinarySearchTree.java:56-74 | inserting 5, 3, 8, 1, 4 gives the in-order listing [1, 3, 4, 5, 8], with 1 at the end of the left chain |
| `BinaryTrees.InOrderSorted` | LinkedBinarySearchTree.java:58-71 | an in-order traversal of a BST lists every stored element in non-decreasing order |
| `LinkedBst.LinkedBinarySearchTree.RemoveElement` | LinkedBinarySearchTree.java:86-119 | fails with ElementNotFound exactly when the target is not stored, and then changes nothing; otherwise it returns the target, removes the first copy met on the search path, keeps the BST property and lowers modCount by 1 |
| `LinkedBst.RemoveBelow` | LinkedBinarySearchTree.java:130-157 | succeeds exactly when the search (equality first, then less goes left, else right) meets the target; on success it returns the target and the subtree with that node spliced out; on failure it reports ElementNotFound and leaves the subtree as it was; in a BST success means the target is stored |
| `BinaryTrees.SearchFindsMembers` | LinkedBinarySearchTree.java:136-151 | in a BST the removal search meets x exactly when x is stored, so the not-found error signals real absence |
| `BinaryTrees.SearchPathStored` | LinkedBinarySearchTree.java:136-151 | a node met by the search path holds a stored element, whether or not the tree is a BST |
| `BinaryTrees.RemoveFirstContents` | LinkedBinarySearchTree.java:136-151 | removing the first hit on the search path takes away exactly one copy of the target |
| `BinaryTrees.RemoveFirstMiss` | LinkedBinarySearchTree.java:133-134 | when the search reaches an absent child, the tree is unchanged |
| `BinaryTrees.RemoveFirstOrdered` | LinkedBinarySearchTree.java:136-151 | removing the first hit keeps the BST property |
| `BinaryTrees.RemoveFirstShrinks` | LinkedBinarySearchTree.java:136-151 | removal adds no element that was not stored before |
| `BinaryTrees.RemoveFirstFromBST` | LinkedBinarySearchTree.java:87-157 | in a BST: the search finds x iff it is stored; one copy goes when it is stored; nothing changes when it is not; the result is a BST |
| `LinkedBst.Replacement` | LinkedBinarySearchTree.java:186-213 | returns nothing for a leaf, the only child of a one-child node, and for a two-child node the leftmost node of the right subtree carrying the original left subtree and the rest of the right subtree; the result holds the node's subtree minus the node's own element, in BST order |
| `BinaryTrees.SplicedContents` | LinkedBinarySearchTree.java:186-213 | the replacement subtree holds exactly the removed node's subtree minus its own element |
| `BinaryTrees.SplicedOrdered` | LinkedBinarySearchTree.java:186-213 | replacing a node of a BST by its splice leaves a BST |
| `BinaryTrees.SuccessorBounds` | LinkedBinarySearchTree.java:195-211 | in a two-child node of a BST, the in-order successor is above every element of the left subtree and at or below every element left in the right subtree |
| `BinaryTrees.SuccessorContents` | LinkedBinarySearchTree.java:204-210 | the successor node carrying the left subtree and the rest of the right subtree holds exactly the elements of both subtrees |
| `BinaryTrees.ChildrenElems` | LinkedBinarySearchTree.java:186-213 | a node's subtree without the node's own element is the union of its two subtrees |
| `LinkedBst.TwoChildRootScenario` | LinkedBinarySearchTree.java:195-211 | inserting 3 and then 8 below a root 5, then removing 5, makes the successor 8 the new root with 3 as its left child |
| `LinkedBst.DescendLeft` | LinkedBinarySearchTree.java:196-202 | the parent/current walk stops at a node with no left child, which holds the leftmost element; it records the ancestors it passes, so plugging that node's right subtree in its place cuts exactly the leftmost node out |
| `LinkedBst.Plug` | LinkedBinarySearchTree.java:238 | re-linking a subtree below the recorded ancestors keeps every ancestor's element and right subtree: the rebuilt tree holds the subtree's elements plus the path's, and its root is the first ancestor |
| `LinkedBst.PlugStep` | LinkedBinarySearchTree.java:233-236 | one more step of the walk (parent becomes current, current its left child) is undone by giving the new parent the subtree as its left child |
| `LinkedBst.LinkedBinarySearchTree.RemoveAllOccurrences` | LinkedBinarySearchTree.java:167-179 | the first, unconditional removal fails with ElementNotFound when the target is absent and changes nothing; otherwise the new root is the single removal repeated until the target is gone (`RemoveAll`), every copy of the target goes, every other element stays, contains(target) ends false, and modCount drops by the number of copies |
| `BinaryTrees.RemoveAllFromBST` | LinkedBinarySearchTree.java:172-174 | in a BST, repeating the single removal while the search meets x removes every copy of x, keeps every other element and keeps the BST property |
| `BinaryTrees.LeftmostIsLeast` | LinkedBinarySearchTree.java:263-269 | in a BST the end of the left-child chain is stored and is at most every stored element |
| `BinaryTrees.WithoutLeftmostContents` | LinkedBinarySearchTree.java:231-238 | cutting out the leftmost node loses exactly its element |
| `BinaryTrees.WithoutLeftmostOrdered` | LinkedBinarySearchTree.java:231-238 | cutting out the leftmost node of a BST, with its right subtree taking its place, leaves a BST |
| `BinaryTrees.MinimumOfBST` | LinkedBinarySearchTree.java:227-239 | in a BST the leftmost element is a least stored element, and cutting its node out removes exactly that copy and keeps the BST property |
| `LinkedBst.LinkedBinarySearchTree.RemoveMin` | LinkedBinarySearchTree.java:221-245 | fails with EmptyCollection exactly on an empty tree, and then changes nothing; otherwise it returns the least element and removes exactly that node, whose right subtree takes its place; the BST property is kept and modCount drops by 1 |
| `LinkedBst.LinkedBinarySearchTree.FindMin` | LinkedBinarySearchTree.java:254-274 | fails with EmptyCollection exactly on an empty tree; otherwise it returns the element at the end of the left-child chain, which is stored and least; it changes nothing |
| `LinkedBst.LinkedBinarySearchTree.RemoveMax` | LinkedBinarySearchTree.java:276-280 | always fails with UnsupportedOperation and changes nothing |
| `LinkedBst.LinkedBinarySearchTree.FindMax` | LinkedBinarySearchTree.java:308-312 | always fails with UnsupportedOperation and changes nothing |

## Left out

- `getTreeAsList` and `toString` (lines 282-318) are not modelled. They build a
  level-order listing for display only and keep no invariant.
- Node identity and aliasing are not modelled, because nodes are values here.
  This covers the in-place `setLeftChild`/`setRightChild`/`setElement` calls,
  the overwrite of the root node's fields when the root is removed, and the
  reference test `parent.getRightChild() == node`. The model rebuilds the
  subtree that changes and keeps the same resulting contents and shape.
- Elements are `int` with its usual order. Java's raw `Comparable`, and any
  disagreement between `equals` and `compareTo`, are not modelled.
- `modCount` is an unbounded integer, so the wrap-around of Java's 32-bit `int`
  is not modelled.
- The base class `LinkedBinaryTree`, `BTNode`, `BinarySearchTreeADT` and the
  exception classes are not part of this model.
  - The initial `modCount` that the base-class constructors set is unknown.
    `LinkedBst.LinkedBinarySearchTree.constructor` and
    `LinkedBst.LinkedBinarySearchTree.Singleton` set it to 0.
  - The containment check is taken to be plain membership.
- The `catch (Exception ...)` in `removeAllOccurrences` is modelled only for the
  one exception the loop can raise: ElementNotFound ends the loop. While the
  BST property holds, this exception never happens once `contains` has reported
  the target present (`BinaryTrees.SearchFindsMembers`).
- The `NonComparableElementException` named in the Java doc comments is never
  thrown by the code, so it has no counterpart.
