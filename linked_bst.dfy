/**
  LinkedBinarySearchTree: an unbalanced binary search tree holding its root and
  a modification counter. Insertion places an element by "strictly less goes
  left, otherwise right"; removal finds the first equal element on the search
  path and splices its node out; the minimum sits at the end of the left-child
  chain. The three Java exceptions become the Error cases of a Result.
*/
module LinkedBst {
  import opened BinaryTrees

  datatype Error = ElementNotFound | EmptyCollection | UnsupportedOperation

  datatype Result<T> = Ok(value: T) | Err(error: Error)

  /**
    One step of a descent along left children: the element and right subtree of
    the node that was left, whose left child is where the descent went on.
  */
  datatype LeftStep = LeftStep(elem: int, right: Tree)

  /**
    Reattaches `t` below the path it was reached by: the last step is its parent,
    which takes `t` as its left child. Plugging a new subtree is what
    `parent.setLeftChild(...)` does to the tree.
  */
  function Plug(path: seq<LeftStep>, t: Tree): (r: Tree)
    ensures Elems(r) == Elems(t) + PathElems(path)
    ensures path != [] ==> r.Node? && r.elem == path[0].elem && r.right == path[0].right
  {
    if path == [] then t
    else
      var parent := path[|path| - 1];
      Plug(path[..|path| - 1], Node(t, parent.elem, parent.right))
  }

  /** The elements the ancestors on a left-descent path hold, with their right subtrees. */
  ghost function PathElems(path: seq<LeftStep>): multiset<int>
  {
    if path == [] then multiset{}
    else PathElems(path[..|path| - 1]) + multiset{path[|path| - 1].elem} + Elems(path[|path| - 1].right)
  }

  lemma PlugStep(path: seq<LeftStep>, step: LeftStep, t: Tree)
    ensures Plug(path + [step], t) == Plug(path, Node(t, step.elem, step.right))
  {
    assert (path + [step])[..|path|] == path;
  }

  /**
    The parent/current walk down the left children of `start` until a node with
    no left child. The path records the ancestors passed, so that plugging the
    node's right subtree in its place cuts the leftmost node out.
  */
  method DescendLeft(start: Tree) returns (path: seq<LeftStep>, current: Tree)
    requires start.Node?
    ensures current.Node? && current.left.Leaf?
    ensures Plug(path, current) == start
    ensures current.elem == Leftmost(start)
    ensures Plug(path, current.right) == WithoutLeftmost(start)
  {
    path, current := [], start;
    while current.left.Node?
      invariant current.Node?
      invariant Plug(path, current) == start
      invariant Leftmost(current) == Leftmost(start)
      invariant Plug(path, WithoutLeftmost(current)) == WithoutLeftmost(start)
      decreases current
    {
      PlugStep(path, LeftStep(current.elem, current.right), current.left);
      PlugStep(path, LeftStep(current.elem, current.right), WithoutLeftmost(current.left));
      path := path + [LeftStep(current.elem, current.right)];
      current := current.left;
    }
  }

  /**
    The subtree that takes the place of a removed node: nothing, its only child,
    or its in-order successor carrying the node's left subtree and the rest of
    its right subtree.
  */
  method Replacement(node: Tree) returns (result: Tree)
    requires node.Node?
    ensures result == Spliced(node)
    ensures Elems(result) == Elems(node) - multiset{node.elem}
    ensures IsBST(node) ==> IsBST(result)
  {
    if node.left.Leaf? && node.right.Leaf? {
      result := Leaf;
    } else if node.left.Node? && node.right.Leaf? {
      result := node.left;
    } else if node.left.Leaf? && node.right.Node? {
      result := node.right;
    } else {
      var path, current := DescendLeft(node.right);
      if path == [] {
        // the successor is the node's own right child: it keeps its right subtree
        result := Node(node.left, current.elem, current.right);
      } else {
        // the successor's parent adopts the successor's right subtree, and the
        // successor takes the node's (so updated) right subtree
        result := Node(node.left, current.elem, Plug(path, current.right));
      }
    }
    SplicedContents(node);
    if IsBST(node) {
      SplicedOrdered(node);
    }
  }

  /**
    The recursive insertion below an existing node: strictly less goes to the
    left child, anything else to the right; an absent child becomes a new leaf
    node holding the element.
  */
  function AddBelow(element: int, node: Tree): (r: Tree)
    requires node.Node?
    ensures r.Node? && r.elem == node.elem
    ensures element < node.elem ==>
      r.right == node.right && Elems(r.left) == Elems(node.left) + multiset{element}
    ensures node.elem <= element ==>
      r.left == node.left && Elems(r.right) == Elems(node.right) + multiset{element}
    ensures Elems(r) == Elems(node) + multiset{element}
    decreases node
  {
    if element < node.elem then
      if node.left.Leaf? then Node(Node(Leaf, element, Leaf), node.elem, node.right)
      else Node(AddBelow(element, node.left), node.elem, node.right)
    else
      if node.right.Leaf? then Node(node.left, node.elem, Node(Leaf, element, Leaf))
      else Node(node.left, node.elem, AddBelow(element, node.right))
  }

  /** Insertion keeps the BST property: the new element lands on the side its comparison picks. */
  lemma {:induction false} AddBelowOrdered(element: int, node: Tree)
    requires node.Node? && IsBST(node)
    ensures IsBST(AddBelow(element, node))
  {
    var r := AddBelow(element, node);
    if element < node.elem {
      if node.left.Node? {
        AddBelowOrdered(element, node.left);
      }
      assert IsBST(r.left) && IsBST(r.right);
      assert forall x :: x in Elems(r.left) ==> x < node.elem by {
        assert forall x :: x in Elems(r.left) ==> x in Elems(node.left) || x == element;
      }
    } else {
      if node.right.Node? {
        AddBelowOrdered(element, node.right);
      }
      assert IsBST(r.left) && IsBST(r.right);
      assert forall x :: x in Elems(r.right) ==> node.elem <= x by {
        assert forall x :: x in Elems(r.right) ==> x in Elems(node.right) || x == element;
      }
    }
  }

  /**
    Inserting an element not yet stored and then removing it gives back the tree
    as it was: the removal search follows the insertion's path to the new leaf.
  */
  lemma {:induction false} AddThenRemove(t: Tree, x: int)
    requires t.Node? && x !in Elems(t)
    ensures OnSearchPath(AddBelow(x, t), x)
    ensures RemoveFirst(AddBelow(x, t), x) == t
  {
    if x < t.elem {
      if t.left.Node? {
        AddThenRemove(t.left, x);
      }
    } else {
      if t.right.Node? {
        AddThenRemove(t.right, x);
      }
    }
  }

  /** Inserting 5, 3, 8, 1, 4 into an empty tree lists them in order, with 1 at the end of the left chain. */
  lemma InsertionScenario()
    ensures var t := AddBelow(4, AddBelow(1, AddBelow(8, AddBelow(3, Node(Leaf, 5, Leaf)))));
      InOrder(t) == [1, 3, 4, 5, 8] && Leftmost(t) == 1
  {
  }

  /** Removing the two-child root 5 from the tree built from 5, 3, 8 promotes its successor 8. */
  lemma TwoChildRootScenario()
    ensures RemoveFirst(AddBelow(8, AddBelow(3, Node(Leaf, 5, Leaf))), 5)
         == Node(Node(Leaf, 3, Leaf), 8, Leaf)
  {
  }

  /**
    The recursive removal below the root: returns the removed element and the
    rebuilt subtree, which the caller puts in the parent's child slot; fails
    with ElementNotFound when the search reaches an absent child.
  */
  method RemoveBelow(target: int, node: Tree) returns (result: Result<int>, rebuilt: Tree)
    ensures result.Ok? <==> OnSearchPath(node, target)
    ensures result.Ok? ==> result.value == target && rebuilt == RemoveFirst(node, target)
    ensures result.Ok? ==> Elems(rebuilt) == Elems(node) - multiset{target}
    ensures result.Err? ==> result.error == ElementNotFound && rebuilt == node
    ensures IsBST(node) ==> (result.Ok? <==> target in Elems(node)) && IsBST(rebuilt)
    decreases node
  {
    if node.Leaf? {
      result, rebuilt := Err(ElementNotFound), node;
    } else if target == node.elem {
      result := Ok(node.elem);
      rebuilt := Replacement(node);
    } else if target < node.elem {
      var child;
      result, child := RemoveBelow(target, node.left);
      rebuilt := Node(child, node.elem, node.right);
    } else {
      var child;
      result, child := RemoveBelow(target, node.right);
      rebuilt := Node(node.left, node.elem, child);
    }
    if OnSearchPath(node, target) {
      RemoveFirstContents(node, target);
    }
    if IsBST(node) {
      RemoveFirstFromBST(node, target);
    }
  }

  class LinkedBinarySearchTree {
    var root: Tree
    /** Net count of insertions minus removals. */
    var modCount: int

    /** The BST property holds between public calls. */
    ghost predicate Valid()
      reads this
    {
      IsBST(root)
    }

    constructor ()
      ensures Valid() && root == Leaf && modCount == 0
    {
      root := Leaf;
      modCount := 0;
    }

    constructor Singleton(element: int)
      ensures Valid() && root == Node(Leaf, element, Leaf) && modCount == 0
    {
      root := Node(Leaf, element, Leaf);
      modCount := 0;
    }

    function IsEmpty(): (empty: bool)
      reads this
      ensures empty <==> Elems(root) == multiset{}
    {
      root.Leaf?
    }

    function Contains(target: int): (found: bool)
      reads this
      ensures found <==> target in Elems(root)
    {
      Find(root, target)
    }

    method AddElement(element: int)
      requires Valid()
      modifies this
      ensures Valid()
      ensures old(root).Leaf? ==> root == Node(Leaf, element, Leaf)
      ensures old(root).Node? ==> root == AddBelow(element, old(root))
      ensures Elems(root) == old(Elems(root)) + multiset{element}
      ensures modCount == old(modCount) + 1
    {
      if IsEmpty() {
        root := Node(Leaf, element, Leaf);
      } else {
        // the root's own comparison and child test are those of the helper
        AddBelowOrdered(element, root);
        root := AddBelow(element, root);
      }
      modCount := modCount + 1;
    }

    method RemoveElement(target: int) returns (result: Result<int>)
      requires Valid()
      modifies this
      ensures Valid()
      ensures result.Ok? <==> target in old(Elems(root))
      ensures result.Ok? ==>
        result.value == target &&
        root == RemoveFirst(old(root), target) &&
        Elems(root) == old(Elems(root)) - multiset{target} &&
        modCount == old(modCount) - 1
      ensures result.Err? ==>
        result.error == ElementNotFound && root == old(root) && modCount == old(modCount)
    {
      ghost var before := root;
      if IsEmpty() {
        return Err(ElementNotFound);
      }
      if target == root.elem {
        result := Ok(root.elem);
        // an absent replacement empties the tree; otherwise it takes the root's place
        root := Replacement(root);
        modCount := modCount - 1;
      } else {
        var child;
        if target < root.elem {
          result, child := RemoveBelow(target, root.left);
          if result.Ok? {
            root := Node(child, root.elem, root.right);
          }
        } else {
          result, child := RemoveBelow(target, root.right);
          if result.Ok? {
            root := Node(root.left, root.elem, child);
          }
        }
        if result.Ok? {
          modCount := modCount - 1;
        }
      }
      assert result.Ok? <==> OnSearchPath(before, target);
      assert result.Ok? ==> root == RemoveFirst(before, target);
      RemoveFirstFromBST(before, target);
    }

    method RemoveAllOccurrences(target: int) returns (result: Result<()>)
      requires Valid()
      modifies this
      ensures Valid()
      ensures result.Ok? <==> target in old(Elems(root))
      ensures result.Ok? ==>
        root == RemoveAll(old(root), target) &&
        !Contains(target) &&
        Elems(root) == old(Elems(root))[target := 0] &&
        modCount == old(modCount) - old(Elems(root))[target]
      ensures result.Err? ==>
        result.error == ElementNotFound && root == old(root) && modCount == old(modCount)
    {
      ghost var before, tree := Elems(root), root;
      var first := RemoveElement(target);
      if first.Err? {
        return Err(first.error);
      }
      DropOneCopy(before, target);
      SearchFindsMembers(tree, target);
      assert RemoveAll(tree, target) == RemoveAll(root, target);
      while Contains(target)
        invariant Valid()
        invariant RemoveAll(root, target) == RemoveAll(tree, target)
        invariant Elems(root)[target := 0] == before[target := 0]
        invariant modCount + before[target] == old(modCount) + Elems(root)[target]
        decreases |Elems(root)|
      {
        ghost var current, was := Elems(root), root;
        var again := RemoveElement(target);
        if again.Err? {
          // the exception the Java loop catches; the search finds every stored copy
          break;
        }
        DropOneCopy(current, target);
        SearchFindsMembers(was, target);
        assert RemoveAll(was, target) == RemoveAll(root, target);
      }
      NoCopyLeft(Elems(root), target);
      SearchFindsMembers(root, target);
      result := Ok(());
    }

    method RemoveMin() returns (result: Result<int>)
      requires Valid()
      modifies this
      ensures Valid()
      ensures result.Err? <==> old(root).Leaf?
      ensures result.Err? ==>
        result.error == EmptyCollection && root == old(root) && modCount == old(modCount)
      ensures result.Ok? ==>
        result.value == Leftmost(old(root)) &&
        root == WithoutLeftmost(old(root)) &&
        modCount == old(modCount) - 1
      ensures result.Ok? ==>
        result.value in old(Elems(root)) &&
        (forall x :: x in old(Elems(root)) ==> result.value <= x) &&
        Elems(root) == old(Elems(root)) - multiset{result.value}
    {
      if IsEmpty() {
        return Err(EmptyCollection);
      }
      ghost var before := root;
      if root.left.Leaf? {
        result := Ok(root.elem);
        root := root.right;
      } else {
        var path, current := DescendLeft(root);
        result := Ok(current.elem);
        root := Plug(path, current.right);
      }
      modCount := modCount - 1;
      MinimumOfBST(before);
    }

    method FindMin() returns (result: Result<int>)
      requires Valid()
      ensures result.Err? <==> root.Leaf?
      ensures result.Err? ==> result.error == EmptyCollection
      ensures result.Ok? ==>
        result.value == Leftmost(root) &&
        result.value in Elems(root) &&
        forall x :: x in Elems(root) ==> result.value <= x
    {
      if IsEmpty() {
        return Err(EmptyCollection);
      }
      if root.left.Leaf? {
        result := Ok(root.elem);
      } else {
        var _, current := DescendLeft(root);
        result := Ok(current.elem);
      }
      LeftmostIsLeast(root);
    }

    method RemoveMax() returns (result: Result<int>)
      ensures result == Err(UnsupportedOperation)
    {
      result := Err(UnsupportedOperation);
    }

    method FindMax() returns (result: Result<int>)
      ensures result == Err(UnsupportedOperation)
    {
      result := Err(UnsupportedOperation);
    }
  }
}
