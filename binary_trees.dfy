/**
  Binary trees over integers and the binary-search-tree ordering kept by
  LinkedBinarySearchTree: everything in a node's left subtree is strictly less
  than the node's element, everything in its right subtree is greater or equal
  (duplicates go right).

  A node is a value here: the Java node objects that the tree rewires in place
  are modelled by rebuilding the subtree that changes.
*/
module BinaryTrees {

  /** Leaf is the absent child (Java's null); a Node owns its element and both children. */
  datatype Tree = Leaf | Node(left: Tree, elem: int, right: Tree)

  /** The elements stored in `t`, with their multiplicities. */
  ghost function Elems(t: Tree): multiset<int>
  {
    match t
    case Leaf => multiset{}
    case Node(l, e, r) => Elems(l) + multiset{e} + Elems(r)
  }

  /** The BST property at every node: left strictly less, right greater or equal. */
  ghost predicate IsBST(t: Tree)
  {
    match t
    case Leaf => true
    case Node(l, e, r) =>
      IsBST(l) && IsBST(r) &&
      (forall x :: x in Elems(l) ==> x < e) &&
      (forall x :: x in Elems(r) ==> e <= x)
  }

  /** The in-order traversal: left subtree, node, right subtree. */
  ghost function InOrder(t: Tree): seq<int>
  {
    match t
    case Leaf => []
    case Node(l, e, r) => InOrder(l) + [e] + InOrder(r)
  }

  ghost predicate Sorted(s: seq<int>)
  {
    forall i, j :: 0 <= i < j < |s| ==> s[i] <= s[j]
  }

  /** A BST lists its elements, all of them, in non-decreasing order. */
  lemma {:induction false} InOrderSorted(t: Tree)
    requires IsBST(t)
    ensures multiset(InOrder(t)) == Elems(t)
    ensures Sorted(InOrder(t))
  {
    match t
    case Leaf =>
    case Node(l, e, r) =>
      InOrderSorted(l);
      InOrderSorted(r);
      SortedAround(InOrder(l), e, InOrder(r));
  }

  /** Two sorted runs, one strictly below `e` and one at or above it, sort around `e`. */
  lemma SortedAround(a: seq<int>, e: int, b: seq<int>)
    requires Sorted(a) && Sorted(b)
    requires forall x :: x in multiset(a) ==> x < e
    requires forall y :: y in multiset(b) ==> e <= y
    ensures Sorted(a + [e] + b)
  {
    var s := a + [e] + b;
    forall i, j | 0 <= i < j < |s| ensures s[i] <= s[j] {
      if i < |a| {
        assert s[i] == a[i] && a[i] in multiset(a);
      }
      if j > |a| {
        assert s[j] == b[j - |a| - 1] && b[j - |a| - 1] in multiset(b);
      }
    }
  }

  /** Containment as the generic binary tree answers it: a search of every node. */
  function Find(t: Tree, x: int): (found: bool)
    ensures found <==> x in Elems(t)
  {
    match t
    case Leaf => false
    case Node(l, e, r) => e == x || Find(l, x) || Find(r, x)
  }

  /** The element at the end of the left-child chain that starts at `t`. */
  ghost function Leftmost(t: Tree): int
    requires t.Node?
  {
    if t.left.Leaf? then t.elem else Leftmost(t.left)
  }

  /** `t` with the node at the end of its left-child chain replaced by that node's right subtree. */
  ghost function WithoutLeftmost(t: Tree): Tree
    requires t.Node?
  {
    if t.left.Leaf? then t.right else Node(WithoutLeftmost(t.left), t.elem, t.right)
  }

  /** In a BST the end of the left-child chain holds a least element. */
  lemma {:induction false} LeftmostIsLeast(t: Tree)
    requires t.Node? && IsBST(t)
    ensures Leftmost(t) in Elems(t)
    ensures forall x :: x in Elems(t) ==> Leftmost(t) <= x
  {
    if t.left.Node? {
      LeftmostIsLeast(t.left);
    }
  }

  /** Cutting out the leftmost node loses exactly its element. */
  lemma {:induction false} WithoutLeftmostContents(t: Tree)
    requires t.Node?
    ensures Elems(WithoutLeftmost(t)) + multiset{Leftmost(t)} == Elems(t)
  {
    if t.left.Node? {
      WithoutLeftmostContents(t.left);
    }
  }

  /** Cutting out the leftmost node of a BST leaves a BST. */
  lemma {:induction false} WithoutLeftmostOrdered(t: Tree)
    requires t.Node? && IsBST(t)
    ensures IsBST(WithoutLeftmost(t))
  {
    if t.left.Node? {
      WithoutLeftmostOrdered(t.left);
      WithoutLeftmostContents(t.left);
      var l' := WithoutLeftmost(t.left);
      assert forall x :: x in Elems(l') ==> x in Elems(t.left);
    }
  }

  /**
    Taking the minimum out of a BST: the leftmost element is a least stored
    element, and cutting its node out loses that one copy and keeps the order.
  */
  lemma MinimumOfBST(t: Tree)
    requires t.Node? && IsBST(t)
    ensures Leftmost(t) in Elems(t)
    ensures forall x :: x in Elems(t) ==> Leftmost(t) <= x
    ensures Elems(WithoutLeftmost(t)) == Elems(t) - multiset{Leftmost(t)}
    ensures IsBST(WithoutLeftmost(t))
  {
    LeftmostIsLeast(t);
    WithoutLeftmostContents(t);
    WithoutLeftmostOrdered(t);
  }

  /**
    What takes the place of a removed node: nothing for a leaf, the only child
    for a node with one child, and for a node with two children its in-order
    successor, the least element of the right subtree, carrying the node's left
    subtree and the rest of the right subtree.
  */
  ghost function Spliced(n: Tree): Tree
    requires n.Node?
  {
    if n.right.Leaf? then n.left
    else if n.left.Leaf? then n.right
    else Node(n.left, Leftmost(n.right), WithoutLeftmost(n.right))
  }

  /** The spliced subtree holds the node's subtree minus the node's own element. */
  lemma SplicedContents(n: Tree)
    requires n.Node?
    ensures Elems(Spliced(n)) == Elems(n) - multiset{n.elem}
  {
    ChildrenElems(n);
    if n.left.Node? && n.right.Node? {
      SuccessorContents(n.left, n.right);
    }
  }

  lemma ChildrenElems(n: Tree)
    requires n.Node?
    ensures Elems(n) - multiset{n.elem} == Elems(n.left) + Elems(n.right)
  {
  }

  lemma SuccessorContents(l: Tree, r: Tree)
    requires r.Node?
    ensures Elems(Node(l, Leftmost(r), WithoutLeftmost(r))) == Elems(l) + Elems(r)
  {
    WithoutLeftmostContents(r);
    var m, r' := Leftmost(r), WithoutLeftmost(r);
    calc {
      Elems(Node(l, m, r'));
      Elems(l) + multiset{m} + Elems(r');
      Elems(l) + (Elems(r') + multiset{m});
      Elems(l) + Elems(r);
    }
  }

  /** Splicing out a node of a BST leaves a BST. */
  lemma SplicedOrdered(n: Tree)
    requires n.Node? && IsBST(n)
    ensures IsBST(Spliced(n))
  {
    if n.left.Node? && n.right.Node? {
      SuccessorBounds(n);
      WithoutLeftmostOrdered(n.right);
    }
  }

  /**
    The in-order successor of a two-child node of a BST is above every element
    of the left subtree and at or below every element left in the right subtree.
  */
  lemma SuccessorBounds(n: Tree)
    requires n.Node? && n.left.Node? && n.right.Node? && IsBST(n)
    ensures forall x :: x in Elems(n.left) ==> x < Leftmost(n.right)
    ensures forall x :: x in Elems(WithoutLeftmost(n.right)) ==> Leftmost(n.right) <= x
  {
    WithoutLeftmostContents(n.right);
    LeftmostIsLeast(n.right);
    var r' := WithoutLeftmost(n.right);
    assert forall x :: x in Elems(r') ==> x in Elems(n.right);
  }

  /**
    Whether the removal search for `x` meets a node holding `x`: it tests
    equality first, then goes left when `x` is strictly less and right otherwise.
  */
  ghost predicate OnSearchPath(t: Tree, x: int)
  {
    match t
    case Leaf => false
    case Node(l, e, r) => x == e || (if x < e then OnSearchPath(l, x) else OnSearchPath(r, x))
  }

  /** In a BST the search path meets `x` exactly when `x` is stored somewhere. */
  lemma {:induction false} SearchFindsMembers(t: Tree, x: int)
    requires IsBST(t)
    ensures OnSearchPath(t, x) <==> x in Elems(t)
  {
    match t
    case Leaf =>
    case Node(l, e, r) =>
      SearchFindsMembers(l, x);
      SearchFindsMembers(r, x);
  }

  /** `t` with the first node holding `x` on the search path replaced by its splice. */
  ghost function RemoveFirst(t: Tree, x: int): Tree
  {
    match t
    case Leaf => Leaf
    case Node(l, e, r) =>
      if x == e then Spliced(t)
      else if x < e then Node(RemoveFirst(l, x), e, r)
      else Node(l, e, RemoveFirst(r, x))
  }

  /** Removing the first hit on the search path takes away exactly one copy of `x`. */
  lemma {:induction false} RemoveFirstContents(t: Tree, x: int)
    requires OnSearchPath(t, x)
    ensures Elems(RemoveFirst(t, x)) == Elems(t) - multiset{x}
  {
    var l, e, r := t.left, t.elem, t.right;
    if x == e {
      SplicedContents(t);
    } else if x < e {
      RemoveFirstContents(l, x);
      SearchPathStored(l, x);
      TakeFromLeft(Elems(l), multiset{e} + Elems(r), x);
    } else {
      RemoveFirstContents(r, x);
      SearchPathStored(r, x);
      TakeFromLeft(Elems(r), Elems(l) + multiset{e}, x);
    }
  }

  /** When the search misses, removal changes nothing. */
  lemma {:induction false} RemoveFirstMiss(t: Tree, x: int)
    requires !OnSearchPath(t, x)
    ensures RemoveFirst(t, x) == t
  {
    match t
    case Leaf =>
    case Node(l, e, r) =>
      if x < e {
        RemoveFirstMiss(l, x);
      } else {
        RemoveFirstMiss(r, x);
      }
  }

  /** A node met by the search path is stored in the tree, BST or not. */
  lemma {:induction false} SearchPathStored(t: Tree, x: int)
    requires OnSearchPath(t, x)
    ensures x in Elems(t)
  {
    match t
    case Node(l, e, r) =>
      if x != e {
        if x < e {
          SearchPathStored(l, x);
        } else {
          SearchPathStored(r, x);
        }
      }
  }

  lemma TakeFromLeft(a: multiset<int>, b: multiset<int>, x: int)
    requires x in a
    ensures (a - multiset{x}) + b == (a + b) - multiset{x}
    ensures b + (a - multiset{x}) == (b + a) - multiset{x}
  {
  }

  /** Removing the first hit keeps the BST property. */
  lemma {:induction false} RemoveFirstOrdered(t: Tree, x: int)
    requires IsBST(t)
    ensures IsBST(RemoveFirst(t, x))
  {
    match t
    case Leaf =>
    case Node(l, e, r) =>
      if x == e {
        SplicedOrdered(t);
      } else if x < e {
        RemoveFirstOrdered(l, x);
        RemoveFirstShrinks(l, x);
      } else {
        RemoveFirstOrdered(r, x);
        RemoveFirstShrinks(r, x);
      }
  }

  /** Whatever RemoveFirst keeps was already stored. */
  lemma RemoveFirstShrinks(t: Tree, x: int)
    ensures forall y :: y in Elems(RemoveFirst(t, x)) ==> y in Elems(t)
  {
    if OnSearchPath(t, x) {
      RemoveFirstContents(t, x);
    } else {
      RemoveFirstMiss(t, x);
    }
  }

  /**
    Removal from a BST: the search meets `x` exactly when it is stored, and then
    exactly one copy goes; the BST property survives either way.
  */
  lemma RemoveFirstFromBST(t: Tree, x: int)
    requires IsBST(t)
    ensures OnSearchPath(t, x) <==> x in Elems(t)
    ensures x in Elems(t) ==> Elems(RemoveFirst(t, x)) == Elems(t) - multiset{x}
    ensures x !in Elems(t) ==> RemoveFirst(t, x) == t
    ensures IsBST(RemoveFirst(t, x))
  {
    SearchFindsMembers(t, x);
    if x in Elems(t) {
      RemoveFirstContents(t, x);
    } else {
      RemoveFirstMiss(t, x);
    }
    RemoveFirstOrdered(t, x);
  }

  /**
    Bulk removal: the first hit on the search path is removed again and again
    until the search no longer meets `x`.
  */
  ghost function RemoveAll(t: Tree, x: int): Tree
    decreases |Elems(t)|
  {
    if OnSearchPath(t, x) then
      RemoveFirstContents(t, x);
      SearchPathStored(t, x);
      DropOneCopy(Elems(t), x);
      RemoveAll(RemoveFirst(t, x), x)
    else t
  }

  /** In a BST bulk removal takes away every copy of `x`, keeps every other element and keeps the order. */
  lemma {:induction false} RemoveAllFromBST(t: Tree, x: int)
    requires IsBST(t)
    ensures Elems(RemoveAll(t, x)) == Elems(t)[x := 0]
    ensures x !in Elems(RemoveAll(t, x))
    ensures IsBST(RemoveAll(t, x))
    decreases |Elems(t)|
  {
    SearchFindsMembers(t, x);
    if OnSearchPath(t, x) {
      var t' := RemoveFirst(t, x);
      RemoveFirstContents(t, x);
      RemoveFirstOrdered(t, x);
      DropOneCopy(Elems(t), x);
      RemoveAllFromBST(t', x);
    } else {
      NoCopyLeft(Elems(t), x);
    }
  }

  lemma DropOneCopy(m: multiset<int>, x: int)
    requires x in m
    ensures (m - multiset{x})[x := 0] == m[x := 0]
    ensures (m - multiset{x})[x] == m[x] - 1
    ensures |m - multiset{x}| == |m| - 1
  {
    assert m == (m - multiset{x}) + multiset{x};
  }

  lemma NoCopyLeft(m: multiset<int>, x: int)
    requires x !in m
    ensures m[x := 0] == m
  {
  }
}
