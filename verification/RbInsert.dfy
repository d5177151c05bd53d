/**
 Insertion of src/rbtree.c on linked nodes. BstInsert follows the text. The rotations are
 repaired: they reset the parent link of the subtree they move (repair a), change that child
 link of the parent which leads to the node (b), and update the tree's root (c). RbAsWritten
 has the rotations and cases as the text has them.
 */
module RbInsert {
  import opened RbShape
  import opened RbSpec

  /** The nodes of c surround the place `hole` in the tree that starts at `root`. */
  ghost predicate Around(c: Ctx, hole: Node?, root: Node?)
    reads CtxNodes(c)
  {
    if c.Top? then hole == root
    else
      && c.node.color == c.color && c.node.parent == Parent(c.up) && Around(c.up, c.node, root)
      && if c.InLeft?
         then c.node.left == hole && Linked(c.node.right, c.right, c.node)
         else c.node.right == hole && Linked(c.node.left, c.left, c.node)
  }

  /** The tree is t plugged into c, seen from the node on top of t. */
  ghost predicate At(tree: RbTree, c: Ctx, p: Node?, t: Tree)
    reads tree, CtxNodes(c), Nodes(t)
  {
    Around(c, p, tree.root) && Linked(p, t, Parent(c)) && Apart(c, t)
  }

  ghost predicate Valid(tree: RbTree)
    reads tree, Nodes(tree.shape)
  {
    Linked(tree.root, tree.shape, null) && Separate(tree.shape) && RedBlack(tree.shape)
  }

  /** One level of a linked tree. */
  lemma Opened(p: Node?, t: Tree)
    requires Separate(t) && Linked(p, t, if p == null then null else p.parent)
    ensures p == Root(t)
    ensures t.Fork? ==>
      && Linked(p.left, t.left, p) && Linked(p.right, t.right, p) && p.color == t.color
      && Separate(t.left) && Separate(t.right)
      && Nodes(t) == Nodes(t.left) + {t.node} + Nodes(t.right)
      && t.node !in Nodes(t.left) && t.node !in Nodes(t.right) && Nodes(t.left) !! Nodes(t.right)
  {}

  lemma Closed(p: Node, t: Tree, up: Node?)
    requires t.Fork? && p == t.node && p.color == t.color && p.parent == up
    requires Linked(p.left, t.left, p) && Linked(p.right, t.right, p)
    ensures Linked(p, t, up)
  {}

  lemma {:induction false} PlugLinked(tree: RbTree, c: Ctx, p: Node?, t: Tree)
    requires At(tree, c, p, t)
    ensures Linked(tree.root, Plug(c, t), null)
  {
    if !c.Top? {
      OneUpInOrder(c, t);
      PlugLinked(tree, c.up, c.node, OneUp(c, t));
    }
  }

  /** From a node to its parent. */
  lemma StepUp(tree: RbTree, c: Ctx, p: Node?, t: Tree)
    requires !c.Top? && At(tree, c, p, t)
    ensures At(tree, c.up, c.node, OneUp(c, t)) && p == Root(t)
    ensures c.node in CtxNodes(c) && Nodes(Sibling(c)) <= CtxNodes(c) && CtxNodes(c.up) <= CtxNodes(c)
  {
    OneUpInOrder(c, t);
    Closed(c.node, OneUp(c, t), Parent(c.up));
  }

  /** From a node to its children. */
  lemma StepDown(tree: RbTree, c: Ctx, p: Node, t: Tree)
    requires t.Fork? && At(tree, c, p, t)
    ensures At(tree, InLeft(t.color, p, t.right, c), p.left, t.left) && p.left == Root(t.left)
    ensures At(tree, InRight(t.color, t.left, p, c), p.right, t.right) && p.right == Root(t.right)
  {
    Opened(p, t);
    Opened(p.left, t.left);
    Opened(p.right, t.right);
  }

  function Grandparent(node: Node): Node?
    reads node, node.parent
  {
    if node.parent != null then node.parent.parent else null
  }

  function Uncle(node: Node): Node?
    reads node, node.parent, Grandparent(node)
  {
    var gp := Grandparent(node);
    if gp == null then null else if node.parent == gp.left then gp.right else gp.left
  }

  lemma LeafAt(tree: RbTree, c: Ctx, n: Node)
    requires Around(c, n, tree.root) && CtxSeparate(c) && n !in CtxNodes(c)
    requires n.color == Red && n.left == null && n.right == null && n.parent == Parent(c)
    ensures At(tree, c, n, Fork(Red, Leaf, n, Leaf))
  {
    var leaf := Fork(Red, Leaf, n, Leaf);
    Closed(n, leaf, Parent(c));
    assert Nodes(leaf) == {n} && Separate(leaf);
  }

  // ---------- bst_insert, as written ----------

  /** The insertion of a new node at the empty link where the descent ended. */
  method Sprout(tree: RbTree, key: Key, parent: Node, toLeft: bool, alloc: bool, ghost c: Ctx) returns (curr: Node?)
    requires !c.Top? && Around(c, null, tree.root) && CtxSeparate(c) && c.node == parent && c.InLeft? == toLeft
    modifies parent`left, parent`right
    ensures !alloc ==> curr == null && Around(c, null, tree.root)
    ensures alloc ==> curr != null && fresh(curr) && curr.key == key && At(tree, c, curr, Fork(Red, Leaf, curr, Leaf))
  {
    assert allocated(CtxNodes(c)) && allocated(CtxNodes(c.up)) && allocated(Nodes(Sibling(c)));
    curr := null;
    if alloc { curr := new Node.Alloc(key, parent); }
    if toLeft {
      parent.left := curr;
    } else {
      parent.right := curr;
    }
    assert Around(c, curr, tree.root);
    if curr != null {
      LeafAt(tree, c, curr);
    }
  }

  /**
   `alloc` says whether the allocator has room. The new node is put in the place the descent
   finds, and that one empty link is all that changes.
   */
  method BstInsert(tree: RbTree, key: Key, alloc: bool) returns (ret: int, newNode: Node?)
    requires Linked(tree.root, tree.shape, null) && Separate(tree.shape)
    modifies tree`root, Nodes(tree.shape)`left, Nodes(tree.shape)`right
    ensures ret == if alloc then 1 else -1
    ensures !alloc ==> newNode == null && tree.root == old(tree.root) && Linked(tree.root, tree.shape, null)
    ensures alloc ==> newNode != null && fresh(newNode) && newNode.key == key
    ensures alloc ==>
      At(tree, Descend(tree.compare, key, tree.shape, Top), newNode, Fork(Red, Leaf, newNode, Leaf))
  {
    ghost var t, c := tree.shape, Top;
    var parent: Node?, curr := null, tree.root;
    if curr == null {
      if alloc { tree.root := new Node.Alloc(key, parent); } else { tree.root := null; }
      if tree.root == null {
        return -1, null;
      }
      newNode := tree.root;
      return 1, newNode;
    }
    while true
      invariant t.Fork? && At(tree, c, curr, t) && tree.root == old(tree.root)
      invariant CtxNodes(c) + Nodes(t) == Nodes(tree.shape)
      invariant Plug(c, t) == tree.shape
      invariant Descend(tree.compare, key, t, c) == Descend(tree.compare, key, tree.shape, Top)
      decreases t
    {
      parent := curr;
      var comp := tree.compare(key, curr.key);
      StepDown(tree, c, curr, t);
      assert allocated(CtxNodes(c)) && allocated(Nodes(t));
      if comp < 0 {
        t, c := t.left, InLeft(t.color, t.node, t.right, c);
        curr := curr.left;
        if curr == null {
          curr := Sprout(tree, key, parent, true, alloc, c);
          break;
        }
      } else {
        t, c := t.right, InRight(t.color, t.left, t.node, c);
        curr := curr.right;
        if curr == null {
          curr := Sprout(tree, key, parent, false, alloc, c);
          break;
        }
      }
    }
    if curr == null {
      PlugLinked(tree, c, null, Leaf);
    }
    newNode := curr;
    ret := if curr != null then 1 else -1;
  }

  // ---------- Repaired rotations and cases ----------

  /** Let the link that leads to node lead to child instead: repairs (b) and (c). */
  method ReplaceChild(tree: RbTree, node: Node, child: Node, ghost c: Ctx)
    requires Around(c, node, tree.root) && CtxSeparate(c) && node !in CtxNodes(c) && node.parent == Parent(c)
    modifies tree`root, (if c.Top? then {} else {c.node})`left, (if c.Top? then {} else {c.node})`right
    ensures Around(c, child, tree.root)
  {
    var parent := node.parent;
    if parent == null {
      tree.root := child;
    } else if parent.right == node {
      parent.right := child;
    } else {
      parent.left := child;
    }
  }

  ghost function Opt(p: Node?): set<Node> {
    if p == null then {} else {p}
  }

  /** A subtree gets a new parent: repair (a). */
  method Rehang(p: Node?, up: Node, ghost t: Tree)
    requires Separate(t) && Linked(p, t, if p == null then null else p.parent)
    modifies Opt(p)`parent
    ensures Linked(p, t, up)
  {
    if p != null {
      Opened(p, t);
      assert allocated(Nodes(t.left)) && allocated(Nodes(t.right));
      p.parent := up;
      Closed(p, t, up);
    }
  }

  /** Under the child, once that has its new parent: the subtree that moves gets its new parent too. */
  method SinkRight(node: Node, child: Node, ghost t: Tree)
    requires t.Fork? && t.left.Fork? && Separate(t) && node == t.node && child == t.left.node
    requires node.color == t.color && Linked(node.right, t.right, node)
    requires child.color == t.left.color && Linked(child.left, t.left.left, child) && Linked(child.right, t.left.right, child)
    modifies node`parent, node`left, child`right, Opt(child.right)`parent
    ensures Linked(child, RotatedRight(t), child.parent)
  {
    ghost var moved := t.left.right;
    assert Separate(t.left) && Separate(moved) && allocated(Nodes(t));
    Opened(child.right, moved);
    node.parent := child;
    node.left := child.right;
    Rehang(node.left, node, moved);
    child.right := node;
    Closed(node, RotatedRight(t).right, child);
    Closed(child, RotatedRight(t), child.parent);
  }

  /** The left child rises above node. */
  method TurnRight(node: Node, ghost t: Tree)
    requires t.Fork? && t.left.Fork? && Separate(t) && Linked(node, t, node.parent)
    modifies Nodes(t)
    ensures Linked(t.left.node, RotatedRight(t), old(node.parent))
  {
    var child, parent := node.left, node.parent;
    Opened(node, t);
    Opened(child, t.left);
    assert allocated(Nodes(t.left.left)) && allocated(Nodes(t.left.right)) && allocated(Nodes(t.right));
    child.parent := parent;
    SinkRight(node, child, t);
  }

  method RotateRight(tree: RbTree, node: Node, ghost c: Ctx, ghost t: Tree)
    requires t.Fork? && t.left.Fork? && At(tree, c, node, t)
    modifies tree`root, CtxNodes(c), Nodes(t)
    ensures At(tree, c, t.left.node, RotatedRight(t))
  {
    Opened(node, t);
    RotatedInOrder(t);
    SameOrder(t, RotatedRight(t));
    assert allocated(Nodes(t)) && allocated(CtxNodes(c));
    assert Nodes(t) !! CtxNodes(c) && (!c.Top? ==> c.node in CtxNodes(c));
    ReplaceChild(tree, node, node.left, c);
    assert Linked(node, t, node.parent) && Around(c, t.left.node, tree.root);
    TurnRight(node, t);
  }

  method SinkLeft(node: Node, child: Node, ghost t: Tree)
    requires t.Fork? && t.right.Fork? && Separate(t) && node == t.node && child == t.right.node
    requires node.color == t.color && Linked(node.left, t.left, node)
    requires child.color == t.right.color && Linked(child.left, t.right.left, child) && Linked(child.right, t.right.right, child)
    modifies node`parent, node`right, child`left, Opt(child.left)`parent
    ensures Linked(child, RotatedLeft(t), child.parent)
  {
    ghost var moved := t.right.left;
    assert Separate(t.right) && Separate(moved) && allocated(Nodes(t));
    Opened(child.left, moved);
    node.parent := child;
    node.right := child.left;
    Rehang(node.right, node, moved);
    child.left := node;
    Closed(node, RotatedLeft(t).left, child);
    Closed(child, RotatedLeft(t), child.parent);
  }

  method TurnLeft(node: Node, ghost t: Tree)
    requires t.Fork? && t.right.Fork? && Separate(t) && Linked(node, t, node.parent)
    modifies Nodes(t)
    ensures Linked(t.right.node, RotatedLeft(t), old(node.parent))
  {
    var child, parent := node.right, node.parent;
    Opened(node, t);
    Opened(child, t.right);
    assert allocated(Nodes(t.right.left)) && allocated(Nodes(t.right.right)) && allocated(Nodes(t.left));
    child.parent := parent;
    SinkLeft(node, child, t);
  }

  method RotateLeft(tree: RbTree, node: Node, ghost c: Ctx, ghost t: Tree)
    requires t.Fork? && t.right.Fork? && At(tree, c, node, t)
    modifies tree`root, CtxNodes(c), Nodes(t)
    ensures At(tree, c, t.right.node, RotatedLeft(t))
  {
    Opened(node, t);
    RotatedInOrder(t);
    SameOrder(t, RotatedLeft(t));
    assert allocated(Nodes(t)) && allocated(CtxNodes(c));
    assert Nodes(t) !! CtxNodes(c) && (!c.Top? ==> c.node in CtxNodes(c));
    ReplaceChild(tree, node, node.right, c);
    assert Linked(node, t, node.parent) && Around(c, t.right.node, tree.root);
    TurnLeft(node, t);
  }

  /** node->color = color. */
  method Paint(tree: RbTree, node: Node, color: Color, ghost c: Ctx, ghost t: Tree)
    requires t.Fork?
    modifies node`color
    ensures node.color == color
    ensures old(At(tree, c, node, t)) ==> At(tree, c, node, Painted(color, t))
  {
    ghost var at := At(tree, c, node, t);
    if at { Opened(node, t); }
    assert allocated(CtxNodes(c)) && allocated(Nodes(t.left)) && allocated(Nodes(t.right));
    node.color := color;
    if at { Closed(node, Painted(color, t), Parent(c)); }
  }

  /** The child of n on the side where c has its hole, and the one on the other side. */
  ghost function Near(n: Node, c: Ctx): Node?
    reads n
  {
    if c.InLeft? then n.left else n.right
  }

  ghost function Far(n: Node, c: Ctx): Node?
    reads n
  {
    if c.InLeft? then n.right else n.left
  }

  /** The child links around the hole, its parent and its grandparent. */
  ghost predicate Family(c: Ctx, p: Node?, t: Tree)
    requires !c.Top? && !c.up.Top?
    reads c.node, c.up.node, Nodes(t), Nodes(Sibling(c)), Nodes(Sibling(c.up))
  {
    && Near(c.node, c) == p && Near(c.up.node, c.up) == c.node
    && Shape(p, t) && Shape(Far(c.node, c), Sibling(c)) && Shape(Far(c.up.node, c.up), Sibling(c.up))
  }

  lemma FamilyShape(c: Ctx, t: Tree)
    requires !c.Top? && !c.up.Top?
    ensures Shape(c.up.node, OneUp(c.up, OneUp(c, t))) <==> Family(c, Root(t), t)
  {
    var p := OneUp(c, t);
    assert Shape(c.up.node, OneUp(c.up, p)) <==>
      Shape(Near(c.up.node, c.up), p) && Shape(Far(c.up.node, c.up), Sibling(c.up));
    assert Shape(c.node, p) <==> Shape(Near(c.node, c), t) && Shape(Far(c.node, c), Sibling(c));
  }

  /** The two colour changes of case 5. */
  method HoistColours(tree: RbTree, node: Node, g: Node, ghost c: Ctx, ghost t: Tree)
    requires !c.Top? && !c.up.Top? && t.Fork? && Apart(c, t) && Family(c, node, t)
    requires node.parent == c.node && g == c.up.node
    modifies node.parent`color, g`color
    ensures Shape(g, OneUp(Recoloured(c.up, Red), OneUp(Recoloured(c, Black), t)))
    ensures old(At(tree, c, node, t)) ==>
      At(tree, c.up.up, g, OneUp(Recoloured(c.up, Red), OneUp(Recoloured(c, Black), t)))
  {
    ghost var at, p := At(tree, c, node, t), OneUp(c, t);
    assert allocated(CtxNodes(c)) && allocated(Nodes(t)) && CtxSeparate(c.up);
    if at { StepUp(tree, c, node, t); }
    Paint(tree, node.parent, Black, c.up, p);
    if at { StepUp(tree, c.up, c.node, Painted(Black, p)); }
    Paint(tree, g, Red, c.up.up, OneUp(c.up, Painted(Black, p)));
    ghost var up := Recoloured(c.up, Red);
    ghost var cr := if c.InLeft? then InLeft(Black, c.node, c.right, up) else InRight(Black, c.left, c.node, up);
    assert Family(c, node, t) && Family(cr, node, t);
    FamilyShape(cr, t);
  }

  method InsertCase5(tree: RbTree, node: Node, ghost c: Ctx, ghost t: Tree)
    requires At(tree, c, node, t) && !c.Top? && !c.up.Top? && c.InLeft? == c.up.InLeft?
    modifies tree`root, CtxNodes(c), Nodes(t)
    ensures Linked(tree.root, Plug(c.up.up, Hoist(c, t)), null)
  {
    var g := Grandparent(node);
    ghost var t2 := OneUp(Recoloured(c.up, Red), OneUp(Recoloured(c, Black), t));
    StepUp(tree, c, node, t);
    StepUp(tree, c.up, c.node, OneUp(c, t));
    LinkedShape(g, OneUp(c.up, OneUp(c, t)), Parent(c.up.up));
    FamilyShape(c, t);
    HoistColours(tree, node, g, c, t);
    Opened(g, t2);
    if node.parent == g.left {
      RotateRight(tree, g, c.up.up, t2);
    } else {
      RotateLeft(tree, g, c.up.up, t2);
    }
    PlugLinked(tree, c.up.up, c.node, Hoist(c, t));
  }

  method InsertCase4(tree: RbTree, node: Node, ghost c: Ctx, ghost t: Tree)
    requires t.Fork? && At(tree, c, node, t) && !c.Top? && !c.up.Top?
    modifies tree`root, CtxNodes(c), Nodes(t)
    ensures Linked(tree.root, Plug(c.up.up, Hoist(Straighten(c, t).0, Straighten(c, t).1)), null)
  {
    var node, g := node, Grandparent(node);
    ghost var (c1, t1) := Straighten(c, t);
    ghost var p := OneUp(c, t);
    StepUp(tree, c, node, t);
    if node.parent.right == node && node.parent == g.left {
      RotateLeft(tree, node.parent, c.up, p);
      StepDown(tree, c.up, node, RotatedLeft(p));
      node := node.left;
    } else if node.parent.left == node && node.parent == g.right {
      RotateRight(tree, node.parent, c.up, p);
      StepDown(tree, c.up, node, RotatedRight(p));
      node := node.right;
    }
    if node != null {
      InsertCase5(tree, node, c1, t1);
    }
  }

  /** The three colour changes of case 3. */
  method PushUpColours(tree: RbTree, node: Node, u: Node, ghost c: Ctx, ghost t: Tree)
    requires t.Fork? && At(tree, c, node, t) && !c.Top? && !c.up.Top? && u == Root(Sibling(c.up))
    requires node.parent == c.node && c.node.parent == c.up.node
    modifies c.node`color, u`color, c.up.node`color
    ensures At(tree, c.up.up, c.up.node, PushUp(c, t))
  {
    ghost var p := Painted(Black, OneUp(c, t));
    ghost var cu := if c.up.InLeft? then InRight(c.up.color, p, c.up.node, c.up.up) else InLeft(c.up.color, c.up.node, p, c.up.up);
    StepUp(tree, c, node, t);
    Paint(tree, node.parent, Black, c.up, OneUp(c, t));
    StepUp(tree, c.up, c.node, p);
    StepDown(tree, c.up.up, c.up.node, OneUp(c.up, p));
    Paint(tree, u, Black, cu, Sibling(c.up));
    StepUp(tree, cu, u, Painted(Black, Sibling(c.up)));
    var g := Grandparent(node);
    Paint(tree, g, Red, c.up.up, OneUp(cu, Painted(Black, Sibling(c.up))));
  }

  method InsertCase3(tree: RbTree, node: Node, ghost c: Ctx, ghost t: Tree)
    requires t.Fork? && At(tree, c, node, t) && BlackTop(c) && HoleUnderRed(c)
    modifies tree`root, CtxNodes(c), Nodes(t)
    ensures Linked(tree.root, FixUp(c, t), null)
    decreases Depth(c), 0
  {
    var u := Uncle(node);
    StepUp(tree, c, node, t);
    StepUp(tree, c.up, c.node, OneUp(c, t));
    assert Linked(u, Sibling(c.up), c.up.node) && Depth(c) == Depth(c.up.up) + 2;
    Opened(u, Sibling(c.up));
    if u != null && u.color == Red {
      PushUpColours(tree, node, u, c, t);
      var g := Grandparent(node);
      LocalApart(c, t);
      assert FixUp(c, t) == FixUp(c.up.up, PushUp(c, t));
      InsertCase1(tree, g, c.up.up, PushUp(c, t));
    } else {
      assert FixUp(c, t) == Plug(c.up.up, Hoist(Straighten(c, t).0, Straighten(c, t).1));
      InsertCase4(tree, node, c, t);
    }
  }

  method InsertCase2(tree: RbTree, node: Node, ghost c: Ctx, ghost t: Tree)
    requires t.Fork? && At(tree, c, node, t) && BlackTop(c) && !c.Top?
    modifies tree`root, CtxNodes(c), Nodes(t)
    ensures Linked(tree.root, FixUp(c, t), null)
    decreases Depth(c), 1
  {
    if node.parent.color == Black {
      PlugLinked(tree, c, node, t);
      return;
    }
    InsertCase3(tree, node, c, t);
  }

  method InsertCase1(tree: RbTree, node: Node, ghost c: Ctx, ghost t: Tree)
    requires t.Fork? && At(tree, c, node, t) && BlackTop(c)
    modifies tree`root, CtxNodes(c), Nodes(t)
    ensures Linked(tree.root, FixUp(c, t), null)
    decreases Depth(c), 2
  {
    if node.parent == null {
      Opened(node, t);
      node.color := Black;
      Closed(node, Painted(Black, t), null);
    } else {
      InsertCase2(tree, node, c, t);
    }
  }

  /** _rb_tree_insert on a valid tree; without memory the tree stays as it was. */
  method Insert(tree: RbTree, key: Key, alloc: bool) returns (ret: int, ghost newNode: Node?)
    requires Valid(tree)
    modifies tree`root, tree`shape, Nodes(tree.shape)
    ensures Valid(tree) && ret == if alloc then 1 else -1
    ensures !alloc ==> tree.shape == old(tree.shape) && tree.root == old(tree.root)
    ensures alloc ==> newNode != null && fresh(newNode) && newNode.key == key
    ensures alloc ==> tree.shape == Inserted(tree.compare, old(tree.shape), newNode)
  {
    var n: Node?;
    ret, n := BstInsert(tree, key, alloc);
    newNode := n;
    if ret <= 0 {
      return;
    }
    ghost var t, leaf := tree.shape, Fork(Red, Leaf, n, Leaf);
    ghost var c := Descend(tree.compare, key, t, Top);
    DescendRedBlack(tree.compare, key, t, Top);
    DescendPlug(tree.compare, key, t, Top);
    InsertCase1(tree, n, c, leaf);
    InsertedFine(tree.compare, t, n);
    tree.shape := FixUp(c, leaf);
  }
}
