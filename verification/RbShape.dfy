/** The nodes of src/rbtree.c and the finite trees their child links spell out. */
module RbShape {
  import opened Basics

  /** A key is a block of bytes; its length is the length of the sequence. */
  type Key = seq<Byte>

  datatype Color = Black | Red

  class Node {
    var color: Color
    var left: Node?
    var right: Node?
    var parent: Node?
    const key: Key

    /** A fresh node is red and has no children (rb_node_alloc). */
    constructor Alloc(key: Key, parent: Node?)
      ensures this.key == key && this.parent == parent
      ensures color == Red && left == null && right == null
    {
      this.key := key;
      this.parent := parent;
      color, left, right := Red, null, null;
    }
  }

  /** The value a pointer to a node stands for: colours and node identities included. */
  datatype Tree = Leaf | Fork(color: Color, left: Tree, node: Node, right: Tree)

  class RbTree {
    var root: Node?
    const compare: (Key, Key) -> int
    ghost var shape: Tree

    constructor (compare: (Key, Key) -> int)
      ensures root == null && shape == Leaf && this.compare == compare
    {
      root, shape := null, Leaf;
      this.compare := compare;
    }
  }

  function Root(t: Tree): Node? {
    if t.Leaf? then null else t.node
  }

  ghost function Nodes(t: Tree): set<Node> {
    match t
    case Leaf => {}
    case Fork(_, l, n, r) => Nodes(l) + {n} + Nodes(r)
  }

  ghost function InOrder(t: Tree): seq<Node> {
    match t
    case Leaf => []
    case Fork(_, l, n, r) => InOrder(l) + [n] + InOrder(r)
  }

  function Size(t: Tree): nat {
    match t
    case Leaf => 0
    case Fork(_, l, _, r) => Size(l) + 1 + Size(r)
  }

  /** No node occurs twice. */
  ghost predicate Separate(t: Tree) {
    match t
    case Leaf => true
    case Fork(_, l, n, r) =>
      Separate(l) && Separate(r) && n !in Nodes(l) && n !in Nodes(r) && Nodes(l) !! Nodes(r)
  }

  /** The child links below p spell out t. */
  ghost predicate Shape(p: Node?, t: Tree)
    reads Nodes(t)
  {
    match t
    case Leaf => p == null
    case Fork(_, l, n, r) => p == n && Shape(n.left, l) && Shape(n.right, r)
  }

  /** As Shape, with colours and parent links as well; the topmost node's parent is `up`. */
  ghost predicate Linked(p: Node?, t: Tree, up: Node?)
    reads Nodes(t)
  {
    match t
    case Leaf => p == null
    case Fork(c, l, n, r) => p == n && n.color == c && n.parent == up && Linked(n.left, l, n) && Linked(n.right, r, n)
  }

  lemma {:induction false} LinkedShape(p: Node?, t: Tree, up: Node?)
    requires Linked(p, t, up)
    ensures Shape(p, t)
  {
    if t.Fork? {
      LinkedShape(p.left, t.left, p);
      LinkedShape(p.right, t.right, p);
    }
  }

  lemma {:induction false} InOrderIsNodes(t: Tree, n: Node)
    ensures n in InOrder(t) <==> n in Nodes(t)
  {
    if t.Fork? {
      InOrderIsNodes(t.left, n);
      InOrderIsNodes(t.right, n);
    }
  }

  lemma DistinctParts(a: seq<Node>, n: Node, b: seq<Node>)
    requires Distinct(a) && Distinct(b) && n !in a && n !in b
    requires forall x: Node :: x in a ==> x !in b
    ensures Distinct(a + [n] + b)
  {
    var s := a + [n] + b;
    forall i, j | 0 <= i < j < |s|
      ensures s[i] != s[j]
    {
      assert i < |a| ==> a[i] in a;
      assert j > |a| ==> b[j - |a| - 1] in b;
      assert s[i] == if i < |a| then a[i] else if i == |a| then n else b[i - |a| - 1];
      assert s[j] == if j < |a| then a[j] else if j == |a| then n else b[j - |a| - 1];
    }
  }

  /** An in-order sequence lists every node exactly once. */
  lemma {:induction false} InOrderDistinct(t: Tree)
    requires Separate(t)
    ensures Distinct(InOrder(t))
  {
    if t.Fork? {
      InOrderDistinct(t.left);
      InOrderDistinct(t.right);
      InOrderIsNodes(t.left, t.node);
      InOrderIsNodes(t.right, t.node);
      forall x: Node | x in InOrder(t.left)
        ensures x !in InOrder(t.right)
      {
        InOrderIsNodes(t.left, x);
        InOrderIsNodes(t.right, x);
      }
      DistinctParts(InOrder(t.left), t.node, InOrder(t.right));
    }
  }

  lemma DistinctSplit(a: seq<Node>, n: Node, b: seq<Node>)
    requires Distinct(a + [n] + b)
    ensures Distinct(a) && Distinct(b) && n !in a && n !in b
    ensures forall x :: x in a ==> x !in b
  {
    var s := a + [n] + b;
    assert s[|a|] == n;
    assert forall i :: 0 <= i < |a| ==> s[i] == a[i];
    assert forall i :: 0 <= i < |b| ==> b[i] == s[|a| + 1 + i];
  }

  lemma {:induction false} DistinctSeparate(t: Tree)
    requires Distinct(InOrder(t))
    ensures Separate(t)
  {
    if t.Fork? {
      DistinctSplit(InOrder(t.left), t.node, InOrder(t.right));
      DistinctSeparate(t.left);
      DistinctSeparate(t.right);
      InOrderIsNodes(t.left, t.node);
      InOrderIsNodes(t.right, t.node);
      forall x | x in Nodes(t.left)
        ensures x !in Nodes(t.right)
      {
        InOrderIsNodes(t.left, x);
        InOrderIsNodes(t.right, x);
      }
    }
  }

  /** Two trees with the same in-order sequence have the same nodes. */
  lemma SameOrder(t: Tree, u: Tree)
    requires InOrder(t) == InOrder(u)
    ensures Nodes(t) == Nodes(u) && (Separate(t) ==> Separate(u))
  {
    forall x | x in Nodes(t) + Nodes(u)
      ensures x in Nodes(t) && x in Nodes(u)
    {
      InOrderIsNodes(t, x);
      InOrderIsNodes(u, x);
    }
    if Separate(t) {
      InOrderDistinct(t);
      DistinctSeparate(u);
    }
  }
}
