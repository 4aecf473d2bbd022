/** GenericBST: an unbalanced binary search tree without duplicates. The tree is a value;
    the class BST holds the root and replaces it on every insert and delete, as the public
    methods of GenericBST.java do with `root = insert(root, data)`. */
module GenericBST {

  datatype Tree = Empty | Node(left: Tree, data: int, right: Tree) {

    function Keys(): set<int> {
      match this
      case Empty => {}
      case Node(l, d, r) => l.Keys() + {d} + r.Keys()
    }

    /** Every key of a left subtree is below its root, every key of a right subtree above. */
    ghost predicate Ordered() {
      match this
      case Empty => true
      case Node(l, d, r) =>
        && l.Ordered() && r.Ordered()
        && (forall k :: k in l.Keys() ==> k < d)
        && (forall k :: k in r.Keys() ==> d < k)
    }

    /** The recursive insert: a new leaf where the search for x ends, nothing if x is found. */
    function Insert(x: int): (t: Tree)
      ensures t.Keys() == Keys() + {x}
      ensures Ordered() ==> t.Ordered()
      ensures Ordered() && x in Keys() ==> t == this
    {
      match this
      case Empty => Node(Empty, x, Empty)
      case Node(l, d, r) =>
        if x < d then Node(l.Insert(x), d, r)
        else if x > d then Node(l, d, r.Insert(x))
        else this
    }

    /** The recursive search; it only answers true on a node holding x. */
    function Contains(x: int): (found: bool)
      ensures found ==> x in Keys()
      ensures Ordered() ==> (found <==> x in Keys())
    {
      match this
      case Empty => false
      case Node(l, d, r) =>
        if x < d then l.Contains(x)
        else if x > d then r.Contains(x)
        else true
    }

    /** The key of the rightmost node, reached by following right children. */
    function Max(): (m: int)
      requires Node?
      ensures m in Keys()
      ensures Ordered() ==> forall k :: k in Keys() ==> k <= m
    {
      if right.Empty? then data else right.Max()
    }

    /** The recursive delete. A node with two children takes the largest key of its left
        subtree, which is then deleted from that subtree. */
    function Delete(x: int): (t: Tree)
      ensures t.Keys() <= Keys()
      ensures x !in Keys() ==> t == this
      ensures Ordered() ==> t.Ordered() && t.Keys() == Keys() - {x}
    {
      match this
      case Empty => Empty
      case Node(l, d, r) =>
        if x < d then Node(l.Delete(x), d, r)
        else if x > d then Node(l, d, r.Delete(x))
        else if l.Empty? && r.Empty? then Empty
        else if l.Empty? then r
        else if r.Empty? then l
        else
          var m := l.Max();
          Node(l.Delete(m), m, r)
    }

    function Inorder(): seq<int> {
      match this
      case Empty => []
      case Node(l, d, r) => l.Inorder() + [d] + r.Inorder()
    }

    function Preorder(): seq<int> {
      match this
      case Empty => []
      case Node(l, d, r) => [d] + l.Preorder() + r.Preorder()
    }

    function Postorder(): seq<int> {
      match this
      case Empty => []
      case Node(l, d, r) => l.Postorder() + r.Postorder() + [d]
    }
  }

  ghost predicate StrictlyIncreasing(s: seq<int>) {
    forall i, j :: 0 <= i < j < |s| ==> s[i] < s[j]
  }

  ghost predicate Distinct(s: seq<int>) {
    forall i, j :: 0 <= i < j < |s| ==> s[i] != s[j]
  }

  /** Deleting the key of a node with two children leaves the largest key of its left subtree
      in its place: the greatest key of the tree below the deleted one. */
  lemma DeleteTwoChildren(t: Tree)
    requires t.Ordered() && t.Node? && t.left.Node? && t.right.Node?
    ensures var r := t.Delete(t.data);
      && r.Node? && r.data == t.left.Max() && r.right == t.right
      && r.data in t.Keys() && r.data < t.data
      && forall k :: k in t.Keys() && k < t.data ==> k <= r.data
  {
  }

  lemma {:induction false} InorderSortedKeys(t: Tree)
    requires t.Ordered()
    ensures StrictlyIncreasing(t.Inorder())
    ensures forall k :: k in t.Inorder() <==> k in t.Keys()
  {
    match t
    case Empty =>
    case Node(l, d, r) =>
      InorderSortedKeys(l);
      InorderSortedKeys(r);
      var s := t.Inorder();
      assert s == l.Inorder() + [d] + r.Inorder();
      forall i, j | 0 <= i < j < |s|
        ensures s[i] < s[j]
      {
        var a, b := |l.Inorder()|, |l.Inorder()| + 1;
        if j < a {
        } else if i >= b {
          assert s[i] == r.Inorder()[i - b] && s[j] == r.Inorder()[j - b];
        } else {
          assert i < a ==> s[i] in l.Inorder();
          assert j >= b ==> s[j] in r.Inorder();
        }
      }
  }

  lemma {:induction false} PreorderKeys(t: Tree)
    ensures forall k :: k in t.Preorder() <==> k in t.Keys()
  {
    if t.Node? {
      PreorderKeys(t.left);
      PreorderKeys(t.right);
    }
  }

  lemma {:induction false} PostorderKeys(t: Tree)
    ensures forall k :: k in t.Postorder() <==> k in t.Keys()
  {
    if t.Node? {
      PostorderKeys(t.left);
      PostorderKeys(t.right);
    }
  }

  lemma DistinctConcat(a: seq<int>, b: seq<int>)
    requires Distinct(a) && Distinct(b)
    requires forall k :: k in a ==> k !in b
    ensures Distinct(a + b)
  {
    var s := a + b;
    forall i, j | 0 <= i < j < |s|
      ensures s[i] != s[j]
    {
      if i < |a| && j >= |a| {
        assert s[i] in a && s[j] == b[j - |a|];
      } else if i >= |a| {
        assert s[i] == b[i - |a|] && s[j] == b[j - |a|];
      }
    }
  }

  /** Pre-order lists every key of an ordered tree exactly once, the root first. */
  lemma {:induction false} PreorderOnce(t: Tree)
    requires t.Ordered()
    ensures Distinct(t.Preorder())
    ensures forall k :: k in t.Preorder() <==> k in t.Keys()
    ensures t.Node? ==> t.Preorder()[0] == t.data
  {
    PreorderKeys(t);
    match t
    case Empty =>
    case Node(l, d, r) =>
      PreorderOnce(l);
      PreorderOnce(r);
      DistinctConcat(l.Preorder(), r.Preorder());
      DistinctConcat([d], l.Preorder() + r.Preorder());
      assert t.Preorder() == [d] + (l.Preorder() + r.Preorder());
  }

  /** Post-order lists every key of an ordered tree exactly once, the root last. */
  lemma {:induction false} PostorderOnce(t: Tree)
    requires t.Ordered()
    ensures Distinct(t.Postorder())
    ensures forall k :: k in t.Postorder() <==> k in t.Keys()
    ensures t.Node? ==> t.Postorder()[|t.Postorder()| - 1] == t.data
  {
    PostorderKeys(t);
    match t
    case Empty =>
    case Node(l, d, r) =>
      PostorderOnce(l);
      PostorderOnce(r);
      DistinctConcat(l.Postorder(), r.Postorder());
      DistinctConcat(l.Postorder() + r.Postorder(), [d]);
  }

  /** The tree built by inserting 5, 3, 8, 1, 4 in that order, and the same tree with 5 deleted. */
  lemma Example()
    ensures var t := Empty.Insert(5).Insert(3).Insert(8).Insert(1).Insert(4);
      && t.Inorder() == [1, 3, 4, 5, 8]
      && t.Delete(5) == Node(Node(Node(Empty, 1, Empty), 3, Empty), 4, Node(Empty, 8, Empty))
  {
  }

  /** The tree object: its root is replaced by every insert and delete. */
  class BST {
    var root: Tree

    ghost predicate Valid()
      reads this
    {
      root.Ordered()
    }

    constructor ()
      ensures Valid() && root == Empty
    {
      root := Empty;
    }

    method Insert(x: int)
      requires Valid()
      modifies this
      ensures Valid()
      ensures root.Keys() == old(root.Keys()) + {x}
      ensures x in old(root.Keys()) ==> root == old(root)
    {
      root := root.Insert(x);
    }

    method Delete(x: int)
      requires Valid()
      modifies this
      ensures Valid()
      ensures root.Keys() == old(root.Keys()) - {x}
      ensures x !in old(root.Keys()) ==> root == old(root)
    {
      root := root.Delete(x);
    }

    method Contains(x: int) returns (found: bool)
      requires Valid()
      ensures found <==> x in root.Keys()
    {
      found := root.Contains(x);
    }

    /** In-order traversal: the keys in ascending order. */
    method InorderTraversal() returns (s: seq<int>)
      requires Valid()
      ensures StrictlyIncreasing(s)
      ensures forall k :: k in s <==> k in root.Keys()
    {
      InorderSortedKeys(root);
      s := root.Inorder();
    }

    /** Pre-order traversal: every key once, each node before its subtrees. */
    method PreorderTraversal() returns (s: seq<int>)
      requires Valid()
      ensures s == root.Preorder()
      ensures Distinct(s) && forall k :: k in s <==> k in root.Keys()
    {
      PreorderOnce(root);
      s := root.Preorder();
    }

    /** Post-order traversal: every key once, each node after its subtrees. */
    method PostorderTraversal() returns (s: seq<int>)
      requires Valid()
      ensures s == root.Postorder()
      ensures Distinct(s) && forall k :: k in s <==> k in root.Keys()
    {
      PostorderOnce(root);
      s := root.Postorder();
    }
  }

  /** findMax: walks down the right children of a non-empty tree. */
  method FindMax(root: Tree) returns (m: int)
    requires root.Node?
    ensures m == root.Max()
    ensures m in root.Keys()
    ensures root.Ordered() ==> forall k :: k in root.Keys() ==> k <= m
  {
    var t := root;
    while t.right.Node?
      invariant t.Node? && t.Max() == root.Max()
      decreases t
    {
      t := t.right;
    }
    m := t.data;
  }
}
