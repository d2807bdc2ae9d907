/**
 * An unbalanced binary search tree of linked nodes (src/binary-search-tree.ts):
 * a value smaller than a node goes to its left, any other value, an equal
 * one included, to its right. Each node carries the shape of its subtree as
 * a ghost `Tree` value, and the traversals are stated on that value.
 */
module BinarySearchTrees {
  import opened Sequences

  datatype Tree = Leaf | Node(left: Tree, value: int, right: Tree)

  /** The values stored in a tree, with repetitions. */
  function Values(t: Tree): multiset<int> {
    match t
    case Leaf => multiset{}
    case Node(l, v, r) => Values(l) + multiset{v} + Values(r)
  }

  /** The search-tree order: left subtree < node <= right subtree, at every node. */
  ghost predicate Ordered(t: Tree) {
    match t
    case Leaf => true
    case Node(l, v, r) =>
      && Ordered(l) && Ordered(r)
      && (forall x :: x in Values(l) ==> x < v)
      && (forall x :: x in Values(r) ==> v <= x)
  }

  /** Where `insertNode` puts a value: the first empty place on its search path. */
  function Inserted(t: Tree, x: int): Tree {
    match t
    case Leaf => Node(Leaf, x, Leaf)
    case Node(l, v, r) => if x < v then Node(Inserted(l, x), v, r) else Node(l, v, Inserted(r, x))
  }

  /** Left, node, right. */
  function InOrder(t: Tree): seq<int> {
    match t
    case Leaf => []
    case Node(l, v, r) => InOrder(l) + [v] + InOrder(r)
  }

  /** Node, left, right. */
  function PreOrder(t: Tree): seq<int> {
    match t
    case Leaf => []
    case Node(l, v, r) => [v] + PreOrder(l) + PreOrder(r)
  }

  /** Left, right, node. */
  function PostOrder(t: Tree): seq<int> {
    match t
    case Leaf => []
    case Node(l, v, r) => PostOrder(l) + PostOrder(r) + [v]
  }

  /** Insertion adds exactly the inserted value. */
  lemma {:induction false} InsertValues(t: Tree, x: int)
    ensures Values(Inserted(t, x)) == Values(t) + multiset{x}
  {
    match t
    case Leaf =>
    case Node(l, v, r) =>
      if x < v {
        InsertValues(l, x);
      } else {
        InsertValues(r, x);
      }
  }

  /** Insertion keeps the search-tree order, equal values going right. */
  lemma {:induction false} InsertOrdered(t: Tree, x: int)
    requires Ordered(t)
    ensures Ordered(Inserted(t, x))
  {
    match t
    case Leaf =>
    case Node(l, v, r) =>
      if x < v {
        InsertOrdered(l, x);
        InsertValues(l, x);
        forall y | y in Values(Inserted(l, x))
          ensures y < v
        {
          assert y in Values(l) || y == x;
        }
      } else {
        InsertOrdered(r, x);
        InsertValues(r, x);
        forall y | y in Values(Inserted(r, x))
          ensures v <= y
        {
          assert y in Values(r) || y == x;
        }
      }
  }

  /** In-order lists each stored value as often as it is stored. */
  lemma {:induction false} InOrderValues(t: Tree)
    ensures multiset(InOrder(t)) == Values(t)
  {
    match t
    case Leaf =>
    case Node(l, v, r) =>
      InOrderValues(l);
      InOrderValues(r);
      assert InOrder(t) == InOrder(l) + [v] + InOrder(r);
  }

  /** So does pre-order. */
  lemma {:induction false} PreOrderValues(t: Tree)
    ensures multiset(PreOrder(t)) == Values(t)
  {
    match t
    case Leaf =>
    case Node(l, v, r) =>
      PreOrderValues(l);
      PreOrderValues(r);
      assert PreOrder(t) == [v] + PreOrder(l) + PreOrder(r);
  }

  /** And post-order. */
  lemma {:induction false} PostOrderValues(t: Tree)
    ensures multiset(PostOrder(t)) == Values(t)
  {
    match t
    case Leaf =>
    case Node(l, v, r) =>
      PostOrderValues(l);
      PostOrderValues(r);
      assert PostOrder(t) == PostOrder(l) + PostOrder(r) + [v];
  }

  /** On an ordered tree, in-order is ascending. */
  lemma {:induction false} InOrderSorted(t: Tree)
    requires Ordered(t)
    ensures Sorted(InOrder(t))
  {
    match t
    case Leaf =>
    case Node(l, v, r) =>
      InOrderSorted(l);
      InOrderSorted(r);
      InOrderValues(l);
      InOrderValues(r);
      var s := InOrder(t);
      var a := InOrder(l);
      var b := InOrder(r);
      assert s == a + [v] + b;
      forall i, j | 0 <= i < j < |s|
        ensures s[i] <= s[j]
      {
        if j < |a| {
        } else if i < |a| {
          assert s[i] in multiset(a);
          if j > |a| {
            assert s[j] == b[j - |a| - 1] && s[j] in multiset(b);
          }
        } else if i == |a| {
          assert s[j] == b[j - |a| - 1] && s[j] in multiset(b);
        } else {
          assert s[i] == b[i - |a| - 1] && s[j] == b[j - |a| - 1];
        }
      }
  }

  /** Pre-order starts at the root, post-order ends there. */
  lemma RootPlacement(t: Tree)
    requires t.Node?
    ensures PreOrder(t)[0] == t.value && PostOrder(t)[|PostOrder(t)| - 1] == t.value
  {
  }

  class TreeNode {
    const value: int
    var left: TreeNode?
    var right: TreeNode?
    ghost var Repr: set<object>
    /** The subtree rooted here. */
    ghost var Shape: Tree

    ghost predicate Valid()
      reads this, Repr
      decreases Repr
    {
      && this in Repr
      && (left != null ==>
            left in Repr && left.Repr <= Repr && this !in left.Repr && left.Valid())
      && (right != null ==>
            right in Repr && right.Repr <= Repr && this !in right.Repr && right.Valid())
      && (left != null && right != null ==> left.Repr !! right.Repr)
      && Shape == Node(ShapeOf(left), value, ShapeOf(right))
    }

    constructor (value: int)
      ensures Valid() && fresh(Repr) && Repr == {this}
      ensures this.value == value && left == null && right == null
      ensures Shape == Node(Leaf, value, Leaf)
    {
      this.value := value;
      left := null;
      right := null;
      Repr := {this};
      Shape := Node(Leaf, value, Leaf);
    }
  }

  /** The shape below a possibly missing node. */
  ghost function ShapeOf(n: TreeNode?): Tree
    reads n
  {
    if n == null then Leaf else n.Shape
  }

  /** The objects below a possibly missing node. */
  ghost function ReprOf(n: TreeNode?): set<object>
    reads n
  {
    if n == null then {} else n.Repr
  }

  /** `insertNode`: hangs `newNode` at the first empty place on its search path below `node`. */
  method InsertNode(node: TreeNode, newNode: TreeNode)
    requires node.Valid() && newNode.Valid() && newNode.Repr == {newNode} && newNode !in node.Repr
    requires newNode.Shape == Node(Leaf, newNode.value, Leaf)
    modifies node.Repr
    ensures node.Valid() && node.Repr == old(node.Repr) + {newNode}
    ensures node.Shape == Inserted(old(node.Shape), newNode.value)
    decreases node.Repr
  {
    if newNode.value < node.value {
      if node.left == null {
        node.left := newNode;
      } else {
        InsertNode(node.left, newNode);
      }
    } else {
      if node.right == null {
        node.right := newNode;
      } else {
        InsertNode(node.right, newNode);
      }
    }
    node.Repr := node.Repr + {newNode};
    node.Shape := Node(ShapeOf(node.left), node.value, ShapeOf(node.right));
  }

  /** `findNode`: follows the search path of `value`; on an ordered tree, membership. */
  function FindNode(node: TreeNode?, value: int): (r: bool)
    requires node != null ==> node.Valid()
    requires Ordered(ShapeOf(node))
    reads if node == null then {} else {node} + node.Repr
    ensures r <==> value in Values(ShapeOf(node))
    decreases ReprOf(node)
  {
    if node == null then false
    else if value < node.value then FindNode(node.left, value)
    else if value > node.value then FindNode(node.right, value)
    else true
  }

  /** `inOrder`: appends the subtree's values, left, node, right, to `result`. */
  method InOrderFrom(node: TreeNode?, result: seq<int>) returns (r: seq<int>)
    requires node != null ==> node.Valid()
    ensures r == result + InOrder(ShapeOf(node))
    decreases ReprOf(node)
  {
    r := result;
    if node != null {
      r := InOrderFrom(node.left, r);
      r := r + [node.value];
      r := InOrderFrom(node.right, r);
    }
  }

  /** `preOrder`: appends the subtree's values, node, left, right, to `result`. */
  method PreOrderFrom(node: TreeNode?, result: seq<int>) returns (r: seq<int>)
    requires node != null ==> node.Valid()
    ensures r == result + PreOrder(ShapeOf(node))
    decreases ReprOf(node)
  {
    r := result;
    if node != null {
      r := r + [node.value];
      r := PreOrderFrom(node.left, r);
      r := PreOrderFrom(node.right, r);
    }
  }

  /** `postOrder`: appends the subtree's values, left, right, node, to `result`. */
  method PostOrderFrom(node: TreeNode?, result: seq<int>) returns (r: seq<int>)
    requires node != null ==> node.Valid()
    ensures r == result + PostOrder(ShapeOf(node))
    decreases ReprOf(node)
  {
    r := result;
    if node != null {
      r := PostOrderFrom(node.left, r);
      r := PostOrderFrom(node.right, r);
      r := r + [node.value];
    }
  }

  class BinarySearchTree {
    var root: TreeNode?
    ghost var Repr: set<object>

    ghost predicate Valid()
      reads this, Repr
    {
      && this in Repr
      && (root != null ==> root in Repr && root.Repr <= Repr && this !in root.Repr && root.Valid())
      && Ordered(ShapeOf(root))
    }

    /** The tree as a value. */
    ghost function Shape(): Tree
      reads this, root
    {
      ShapeOf(root)
    }

    constructor ()
      ensures Valid() && fresh(Repr) && Shape() == Leaf
    {
      root := null;
      Repr := {this};
    }

    method Insert(value: int)
      requires Valid()
      modifies Repr
      ensures Valid() && fresh(Repr - old(Repr))
      ensures Shape() == Inserted(old(Shape()), value)
    {
      InsertOrdered(Shape(), value);
      var newNode := new TreeNode(value);
      if root == null {
        root := newNode;
      } else {
        InsertNode(root, newNode);
      }
      Repr := Repr + {newNode};
    }

    function Find(value: int): (r: bool)
      reads this, Repr
      requires Valid()
      ensures r <==> value in Values(Shape())
    {
      FindNode(root, value)
    }

    method InOrderTraversal() returns (r: seq<int>)
      requires Valid()
      ensures r == InOrder(Shape())
      ensures Sorted(r) && multiset(r) == Values(Shape())
    {
      r := InOrderFrom(root, []);
      InOrderSorted(Shape());
      InOrderValues(Shape());
    }

    method PreOrderTraversal() returns (r: seq<int>)
      requires Valid()
      ensures r == PreOrder(Shape()) && multiset(r) == Values(Shape())
    {
      r := PreOrderFrom(root, []);
      PreOrderValues(Shape());
    }

    method PostOrderTraversal() returns (r: seq<int>)
      requires Valid()
      ensures r == PostOrder(Shape()) && multiset(r) == Values(Shape())
    {
      r := PostOrderFrom(root, []);
      PostOrderValues(Shape());
    }
  }

  /** The first test of src/binary-search-tree.test.ts: 10, 5, 15, 3, 7 come out in order. */
  method InsertScenario() returns (sorted: seq<int>)
    ensures sorted == [3, 5, 7, 10, 15]
  {
    var bst := SampleTree();
    SampleInOrder();
    sorted := bst.InOrderTraversal();
  }

  /** The two find tests: after inserting 10, 5 and 15 those three are found, and 100, 1 and 12 are not. */
  method FindScenario() returns (ten: bool, five: bool, fifteen: bool, hundred: bool, one: bool, twelve: bool)
    ensures ten && five && fifteen
    ensures !hundred && !one && !twelve
  {
    var bst := SmallTree();
    assert Values(SmallShape()) == multiset{5, 10, 15};
    ten := bst.Find(10);
    five := bst.Find(5);
    fifteen := bst.Find(15);
    hundred := bst.Find(100);
    one := bst.Find(1);
    twelve := bst.Find(12);
  }

  /** The tree of the find tests: 10 at the root, 5 left of it and 15 right of it. */
  function SmallShape(): Tree {
    Node(Node(Leaf, 5, Leaf), 10, Node(Leaf, 15, Leaf))
  }

  /** The tree of the find tests, built by insertion. */
  method SmallTree() returns (bst: BinarySearchTree)
    ensures bst.Valid()
    ensures bst.Shape() == SmallShape()
  {
    bst := new BinarySearchTree();
    bst.Insert(10);
    bst.Insert(5);
    bst.Insert(15);
  }

  /** The tree of the first test: 10 at the root, 5 and 15 below it, 3 and 7 under 5. */
  function SampleShape(): Tree {
    Node(Node(Node(Leaf, 3, Leaf), 5, Node(Leaf, 7, Leaf)), 10, Node(Leaf, 15, Leaf))
  }

  lemma SampleInOrder()
    ensures InOrder(SampleShape()) == [3, 5, 7, 10, 15]
    ensures Values(SampleShape()) == multiset{3, 5, 7, 10, 15}
  {
    assert InOrder(Node(Leaf, 3, Leaf)) == [3];
    assert InOrder(Node(Leaf, 7, Leaf)) == [7];
    assert InOrder(Node(Leaf, 15, Leaf)) == [15];
    assert InOrder(Node(Node(Leaf, 3, Leaf), 5, Node(Leaf, 7, Leaf))) == [3, 5, 7];
  }

  /** The tree of the first test, built by insertion. */
  method SampleTree() returns (bst: BinarySearchTree)
    ensures bst.Valid()
    ensures bst.Shape() == SampleShape()
  {
    bst := new BinarySearchTree();
    bst.Insert(10);
    bst.Insert(5);
    bst.Insert(15);
    bst.Insert(3);
    bst.Insert(7);
  }

  /** A second 10 goes right of the first and both are listed. */
  method DuplicateScenario() returns (duplicates: seq<int>)
    ensures duplicates == [5, 10, 10]
  {
    var dup := DuplicateTree();
    assert InOrder(Node(Node(Leaf, 5, Leaf), 10, Node(Leaf, 10, Leaf))) == [5, 10, 10] by {
      assert InOrder(Node(Leaf, 5, Leaf)) == [5];
      assert InOrder(Node(Leaf, 10, Leaf)) == [10];
    }
    duplicates := dup.InOrderTraversal();
  }

  /** 10, 5 and 10 again, inserted in that order. */
  method DuplicateTree() returns (dup: BinarySearchTree)
    ensures dup.Valid() && dup.Shape() == Node(Node(Leaf, 5, Leaf), 10, Node(Leaf, 10, Leaf))
  {
    dup := new BinarySearchTree();
    dup.Insert(10);
    dup.Insert(5);
    dup.Insert(10);
  }

  /** An empty tree finds nothing and lists nothing. */
  method EmptyScenario() returns (empty: seq<int>, found: bool)
    ensures empty == [] && !found
  {
    var none := new BinarySearchTree();
    empty := none.InOrderTraversal();
    found := none.Find(10);
  }
}
