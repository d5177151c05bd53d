/**
 Rotations and cases 1 to 5 of src/rbtree.c exactly as the text has them, and the exact
 condition under which they do what the repaired ones in RbInsert do. A method returns
 `fault` where the text would follow a null pointer.
 */
module RbAsWritten {
  import opened RbShape
  import opened RbSpec
  import opened RbInsert

  // ---------- Rotations ----------

  /** The two nodes of a rotation have their colours, and the subtrees that stay with them are linked. */
  ghost predicate Halves(node: Node, child: Node, color: Color, childColor: Color, stays: Node?, kept: Tree, other: Node?, rest: Tree)
    reads node`color, child`color, Nodes(kept), Nodes(rest)
  {
    node.color == color && child.color == childColor && Linked(stays, kept, child) && Linked(other, rest, node)
  }

  /** The last three assignments of the rotations by the left child, which leave the moved subtree's parent link alone. */
  method LiftLeft(node: Node, child: Node, ghost t: Tree)
    requires t.Fork? && t.left.Fork? && Separate(t) && node == t.node && child == t.left.node
    requires Shape(child.left, t.left.left) && Shape(child.right, t.left.right) && Shape(node.right, t.right)
    modifies node`parent, node`left, child`right
    ensures node.parent == child && Shape(child, RotatedRight(t))
    ensures old(Halves(node, child, t.color, t.left.color, child.left, t.left.left, node.right, t.right)) && t.left.right.Leaf? ==>
      Linked(child, RotatedRight(t), child.parent)
  {
    ghost var linked := Halves(node, child, t.color, t.left.color, child.left, t.left.left, node.right, t.right);
    assert Separate(t.left) && allocated(Nodes(t));
    node.parent := child;
    node.left := child.right;
    child.right := node;
    if linked && t.left.right.Leaf? {
      Closed(node, RotatedRight(t).right, child);
      Closed(child, RotatedRight(t), child.parent);
    }
  }

  method LiftRight(node: Node, child: Node, ghost t: Tree)
    requires t.Fork? && t.right.Fork? && Separate(t) && node == t.node && child == t.right.node
    requires Shape(child.left, t.right.left) && Shape(child.right, t.right.right) && Shape(node.left, t.left)
    modifies node`parent, node`right, child`left
    ensures node.parent == child && Shape(child, RotatedLeft(t))
    ensures old(Halves(node, child, t.color, t.right.color, child.right, t.right.right, node.left, t.left)) && t.right.left.Leaf? ==>
      Linked(child, RotatedLeft(t), child.parent)
  {
    ghost var linked := Halves(node, child, t.color, t.right.color, child.right, t.right.right, node.left, t.left);
    assert Separate(t.right) && allocated(Nodes(t));
    node.parent := child;
    node.right := child.left;
    child.left := node;
    if linked && t.right.left.Leaf? {
      Closed(node, RotatedLeft(t).left, child);
      Closed(child, RotatedLeft(t), child.parent);
    }
  }

  /** The first two assignments of the rotations: the parent's link on that side leads to the child, and back. */
  method AdoptRight(tree: RbTree, parent: Node, node: Node, child: Node, ghost c: Ctx)
    requires !c.Top? && parent == c.node && child !in CtxNodes(c) && CtxSeparate(c)
    modifies parent`right, child`parent
    ensures parent.right == child && child.parent == parent
    ensures old(Around(c, node, tree.root)) && c.InRight? ==> Around(c, child, tree.root)
  {
    assert allocated(CtxNodes(c)) && allocated(CtxNodes(c.up)) && allocated(Nodes(Sibling(c)));
    parent.right := child;
    child.parent := parent;
  }

  method AdoptLeft(tree: RbTree, parent: Node, node: Node, child: Node, ghost c: Ctx)
    requires !c.Top? && parent == c.node && child !in CtxNodes(c) && CtxSeparate(c)
    modifies parent`left, child`parent
    ensures parent.left == child && child.parent == parent
    ensures old(Around(c, node, tree.root)) && c.InLeft? ==> Around(c, child, tree.root)
  {
    assert allocated(CtxNodes(c)) && allocated(CtxNodes(c.up)) && allocated(Nodes(Sibling(c)));
    parent.left := child;
    child.parent := parent;
  }

  method RotateRightSideRight(tree: RbTree, node: Node, ghost c: Ctx, ghost t: Tree) returns (fault: bool)
    requires t.Fork? && Shape(node, t) && Apart(c, t) && node.parent == Parent(c)
    modifies node`left, node`parent, Opt(node.left)`right, Opt(node.left)`parent, Opt(node.parent)`right
    ensures fault <==> t.left.Fork? && c.Top?
    ensures fault || t.left.Leaf? ==> node.parent == Parent(c) && Shape(node, t)
    ensures !fault && t.left.Fork? ==>
      && Shape(t.left.node, RotatedRight(t)) && InOrder(RotatedRight(t)) == InOrder(t)
      && c.node.right == t.left.node && t.left.node.parent == c.node && node.parent == t.left.node
    ensures old(At(tree, c, node, t)) && c.InRight? && t.left.Fork? && t.left.right.Leaf? ==>
      At(tree, c, t.left.node, RotatedRight(t))
  {
    if node.left != null {
      var child := node.left;
      var parent := node.parent;
      if parent == null {
        return true;
      }
      ghost var at := At(tree, c, node, t) && c.InRight? && t.left.right.Leaf?;
      assert Separate(t.left) && allocated(Nodes(t)) && allocated(CtxNodes(c));
      if at {
        Opened(node, t);
        Opened(child, t.left);
      }
      AdoptRight(tree, parent, node, child, c);
      LiftLeft(node, child, t);
      assert Nodes(RotatedRight(t)) == Nodes(t) && InOrder(RotatedRight(t)) == InOrder(t) && Separate(RotatedRight(t)) by {
        RotatedInOrder(t);
        SameOrder(t, RotatedRight(t));
      }
    }
    return false;
  }

  method RotateLeftSideRight(tree: RbTree, node: Node, ghost c: Ctx, ghost t: Tree) returns (fault: bool)
    requires t.Fork? && Shape(node, t) && Apart(c, t) && node.parent == Parent(c)
    modifies node`left, node`parent, Opt(node.left)`right, Opt(node.left)`parent, Opt(node.parent)`left
    ensures fault <==> t.left.Fork? && c.Top?
    ensures fault || t.left.Leaf? ==> node.parent == Parent(c) && Shape(node, t)
    ensures !fault && t.left.Fork? ==>
      && Shape(t.left.node, RotatedRight(t)) && InOrder(RotatedRight(t)) == InOrder(t)
      && c.node.left == t.left.node && t.left.node.parent == c.node && node.parent == t.left.node
    ensures old(At(tree, c, node, t)) && c.InLeft? && t.left.Fork? && t.left.right.Leaf? ==>
      At(tree, c, t.left.node, RotatedRight(t))
  {
    if node.left != null {
      var child := node.left;
      var parent := node.parent;
      if parent == null {
        return true;
      }
      ghost var at := At(tree, c, node, t) && c.InLeft? && t.left.right.Leaf?;
      assert Separate(t.left) && allocated(Nodes(t)) && allocated(CtxNodes(c));
      if at {
        Opened(node, t);
        Opened(child, t.left);
      }
      AdoptLeft(tree, parent, node, child, c);
      LiftLeft(node, child, t);
      assert Nodes(RotatedRight(t)) == Nodes(t) && InOrder(RotatedRight(t)) == InOrder(t) && Separate(RotatedRight(t)) by {
        RotatedInOrder(t);
        SameOrder(t, RotatedRight(t));
      }
    }
    return false;
  }

  method RotateRightSideLeft(tree: RbTree, node: Node, ghost c: Ctx, ghost t: Tree) returns (fault: bool)
    requires t.Fork? && Shape(node, t) && Apart(c, t) && node.parent == Parent(c)
    modifies node`right, node`parent, Opt(node.right)`left, Opt(node.right)`parent, Opt(node.parent)`right
    ensures fault <==> t.right.Fork? && c.Top?
    ensures fault || t.right.Leaf? ==> node.parent == Parent(c) && Shape(node, t)
    ensures !fault && t.right.Fork? ==>
      && Shape(t.right.node, RotatedLeft(t)) && InOrder(RotatedLeft(t)) == InOrder(t)
      && c.node.right == t.right.node && t.right.node.parent == c.node && node.parent == t.right.node
    ensures old(At(tree, c, node, t)) && c.InRight? && t.right.Fork? && t.right.left.Leaf? ==>
      At(tree, c, t.right.node, RotatedLeft(t))
  {
    if node.right != null {
      var child := node.right;
      var parent := node.parent;
      if parent == null {
        return true;
      }
      ghost var at := At(tree, c, node, t) && c.InRight? && t.right.left.Leaf?;
      assert Separate(t.right) && allocated(Nodes(t)) && allocated(CtxNodes(c));
      if at {
        Opened(node, t);
        Opened(child, t.right);
      }
      AdoptRight(tree, parent, node, child, c);
      LiftRight(node, child, t);
      assert Nodes(RotatedLeft(t)) == Nodes(t) && InOrder(RotatedLeft(t)) == InOrder(t) && Separate(RotatedLeft(t)) by {
        RotatedInOrder(t);
        SameOrder(t, RotatedLeft(t));
      }
    }
    return false;
  }

  method RotateLeftSideLeft(tree: RbTree, node: Node, ghost c: Ctx, ghost t: Tree) returns (fault: bool)
    requires t.Fork? && Shape(node, t) && Apart(c, t) && node.parent == Parent(c)
    modifies node`right, node`parent, Opt(node.right)`left, Opt(node.right)`parent, Opt(node.parent)`left
    ensures fault <==> t.right.Fork? && c.Top?
    ensures fault || t.right.Leaf? ==> node.parent == Parent(c) && Shape(node, t)
    ensures !fault && t.right.Fork? ==>
      && Shape(t.right.node, RotatedLeft(t)) && InOrder(RotatedLeft(t)) == InOrder(t)
      && c.node.left == t.right.node && t.right.node.parent == c.node && node.parent == t.right.node
    ensures old(At(tree, c, node, t)) && c.InLeft? && t.right.Fork? && t.right.left.Leaf? ==>
      At(tree, c, t.right.node, RotatedLeft(t))
  {
    if node.right != null {
      var child := node.right;
      var parent := node.parent;
      if parent == null {
        return true;
      }
      ghost var at := At(tree, c, node, t) && c.InLeft? && t.right.left.Leaf?;
      assert Separate(t.right) && allocated(Nodes(t)) && allocated(CtxNodes(c));
      if at {
        Opened(node, t);
        Opened(child, t.right);
      }
      AdoptLeft(tree, parent, node, child, c);
      LiftRight(node, child, t);
      assert Nodes(RotatedLeft(t)) == Nodes(t) && InOrder(RotatedLeft(t)) == InOrder(t) && Separate(RotatedLeft(t)) by {
        RotatedInOrder(t);
        SameOrder(t, RotatedLeft(t));
      }
    }
    return false;
  }

  // ---------- Cases 4 and 5 ----------

  /**
   Case 5 works when the grandparent has a parent, hangs on the same side of it as the hole's
   parent hangs on the grandparent, and the subtree to be moved is empty.
   */
  ghost predicate HoistSound(c: Ctx)
    requires !c.Top? && !c.up.Top?
  {
    !c.up.up.Top? && c.up.up.InLeft? == c.InLeft? && Sibling(c).Leaf?
  }

  /** For case 4 first, the subtree that its rotation moves must be empty as well. */
  ghost predicate RotationSound(c: Ctx, t: Tree)
    requires t.Fork? && !c.Top? && !c.up.Top?
  {
    HoistSound(Straighten(c, t).0) &&
    (c.InLeft? != c.up.InLeft? ==> Inner(c, t).Leaf?)
  }

  method InsertCase5(tree: RbTree, node: Node, ghost c: Ctx, ghost t: Tree) returns (fault: bool)
    requires t.Fork? && !c.Top? && !c.up.Top? && c.InLeft? == c.up.InLeft? && Apart(c, t)
    requires node == t.node && node.parent == c.node && c.node.parent == c.up.node && c.up.node.parent == Parent(c.up.up)
    requires Shape(c.up.node, OneUp(c.up, OneUp(c, t)))
    modifies c.node, c.up.node, Opt(Parent(c.up.up))`left, Opt(Parent(c.up.up))`right
    ensures fault <==> c.up.up.Top?
    ensures !fault ==>
      && Shape(c.node, Hoist(c, t)) && c.up.node.parent == c.node
      && Near(c.up.up.node, c) == c.node && Far(c.up.up.node, c) == old(Far(c.up.up.node, c))
    ensures old(At(tree, c, node, t)) && HoistSound(c) ==> Linked(tree.root, Plug(c.up.up, Hoist(c, t)), null)
  {
    ghost var wasAt, t2 := At(tree, c, node, t), OneUp(Recoloured(c.up, Red), OneUp(Recoloured(c, Black), t));
    var g := Grandparent(node);
    FamilyShape(c, t);
    OneUpInOrder(Recoloured(c, Black), t);
    OneUpInOrder(Recoloured(c.up, Red), OneUp(Recoloured(c, Black), t));
    HoistColours(tree, node, g, c, t);
    FamilyShape(c, t);
    assert Hoist(c, t) == if c.InLeft? then RotatedRight(t2) else RotatedLeft(t2);
    if node.parent.left == node {
      fault := RotateLeftSideRight(tree, g, c.up.up, t2);
    } else {
      fault := RotateRightSideLeft(tree, g, c.up.up, t2);
    }
    if wasAt && HoistSound(c) {
      PlugLinked(tree, c.up.up, c.node, Hoist(c, t));
    }
  }

  /** A link that a valid tree reaches leads to a valid subtree. */
  lemma {:induction false} Reached(c: Ctx, hole: Node?, root: Node?, u: Tree) returns (s: Tree)
    requires Around(c, hole, root) && Linked(root, u, null)
    ensures Linked(hole, s, Parent(c))
  {
    if c.Top? {
      s := u;
    } else {
      var s0 := Reached(c.up, c.node, root, u);
      s := if c.InLeft? then s0.left else s0.right;
    }
  }

  /** In a valid tree every child points back. */
  lemma PointsBack(p: Node?, s: Tree, up: Node?)
    requires p != null && Linked(p, s, up)
    ensures s.Fork? && p.parent == up && Linked(p.left, s.left, p) && Linked(p.right, s.right, p)
    ensures (p.left != null ==> p.left.parent == p) && (p.right != null ==> p.right.parent == p)
  {}

  /** The subtree that the rotation of case 4 moves. */
  function Inner(c: Ctx, t: Tree): Tree
    requires t.Fork? && !c.Top?
  {
    if c.InRight? then t.left else t.right
  }

  /**
   If a valid tree contains the place where cases 4 and 5 were applied, the sides agreed and
   nothing was moved: otherwise some reachable node has the wrong parent link.
   */
  lemma Broken(root: Node?, c: Ctx, t: Tree, c1: Ctx, t1: Tree, u: Tree)
    requires t.Fork? && !c.Top? && !c.up.Top? && !c.up.up.Top? && Straighten(c, t) == (c1, t1)
    requires Around(c.up.up.up, c.up.up.node, root) && Linked(root, u, null)
    requires Shape(c1.node, Hoist(c1, t1)) && c.up.node.parent == c1.node && c1.node != c.up.up.node
    requires Near(c.up.up.node, c1) == c1.node
    requires c.up.up.InLeft? != c1.InLeft? ==> Far(c.up.up.node, c1) == c.up.node
    requires Sibling(c1).Fork? ==> Sibling(c1).node.parent != c.up.node
    requires c.InLeft? != c.up.InLeft? && Inner(c, t).Fork? ==> Inner(c, t).node.parent != c.node
    ensures RotationSound(c, t)
  {
    var gg, g := c.up.up.node, c.up.node;
    var s := Reached(c.up.up.up, gg, root, u);
    PointsBack(gg, s, Parent(c.up.up.up));
    assert c.up.up.InLeft? == c1.InLeft?;
    var s1 := if c1.InLeft? then s.left else s.right;
    PointsBack(c1.node, s1, gg);
    var h := Hoist(c1, t1);
    assert Shape(c1.node.left, h.left) && Shape(c1.node.right, h.right);
    assert Shape(Near(g, c1), Sibling(c1)) && Shape(t1.node, t1);
    assert c.InLeft? != c.up.InLeft? ==> Shape(Far(t1.node, c1), Inner(c, t));
    PointsBack(g, if c1.InLeft? then s1.right else s1.left, c1.node);
    PointsBack(t1.node, if c1.InLeft? then s1.left else s1.right, c1.node);
  }

  lemma NoTree(root: Node?, c: Ctx, t: Tree, c1: Ctx, t1: Tree)
    requires t.Fork? && !c.Top? && !c.up.Top? && !c.up.up.Top? && Straighten(c, t) == (c1, t1) && !RotationSound(c, t)
    requires Around(c.up.up.up, c.up.up.node, root)
    requires Shape(c1.node, Hoist(c1, t1)) && c.up.node.parent == c1.node && c1.node != c.up.up.node
    requires Near(c.up.up.node, c1) == c1.node
    requires c.up.up.InLeft? != c1.InLeft? ==> Far(c.up.up.node, c1) == c.up.node
    requires Sibling(c1).Fork? ==> Sibling(c1).node.parent != c.up.node
    requires c.InLeft? != c.up.InLeft? && Inner(c, t).Fork? ==> Inner(c, t).node.parent != c.node
    ensures forall u: Tree :: !Linked(root, u, null)
  {
    forall u: Tree
      ensures !Linked(root, u, null)
    {
      if Linked(root, u, null) {
        Broken(root, c, t, c1, t1, u);
      }
    }
  }

  lemma UpTwice(tree: RbTree, c: Ctx, node: Node, t: Tree)
    requires t.Fork? && At(tree, c, node, t) && !c.Top? && !c.up.Top?
    ensures At(tree, c.up, c.node, OneUp(c, t)) && Shape(c.up.node, OneUp(c.up, OneUp(c, t)))
    ensures c.up.node.parent == Parent(c.up.up) && node.parent == c.node && c.node.parent == c.up.node
  {
    StepUp(tree, c, node, t);
    StepUp(tree, c.up, c.node, OneUp(c, t));
    LinkedShape(c.up.node, OneUp(c.up, OneUp(c, t)), c.up.node.parent);
  }

  /** The first half of case 4: afterwards the focus is on the outer side. */
  method TurnOutwards(tree: RbTree, node: Node, ghost c: Ctx, ghost t: Tree) returns (out: Node?)
    requires t.Fork? && At(tree, c, node, t) && !c.Top? && !c.up.Top?
    modifies node, c.node, c.up.node`left, c.up.node`right
    ensures var (c1, t1) := Straighten(c, t);
      && out == t1.node && out.parent == c1.node && c1.node.parent == c.up.node
      && Shape(c.up.node, OneUp(c1.up, OneUp(c1, t1)))
      && ((c.InLeft? != c.up.InLeft? ==> Inner(c, t).Leaf?) ==> At(tree, c1, out, t1))
  {
    var g := Grandparent(node);
    ghost var (c1, t1) := Straighten(c, t);
    ghost var p := OneUp(c, t);
    UpTwice(tree, c, node, t);
    StraightenApart(c, t);
    assert allocated(CtxNodes(c)) && allocated(Nodes(t));
    out := node;
    if node.parent.right == node && node.parent == g.left {
      var _ := RotateLeftSideLeft(tree, node.parent, c.up, p);
      out := node.left;
    } else if node.parent.left == node && node.parent == g.right {
      var _ := RotateRightSideRight(tree, node.parent, c.up, p);
      out := node.right;
    }
  }

  /** The nodes whose links cases 4 and 5 write to are not above the great-grandparent. */
  ghost predicate Clear(c: Ctx, root: Node?)
    requires !c.Top? && !c.up.Top?
    reads if c.up.up.Top? then {} else CtxNodes(c.up.up.up)
  {
    !c.up.up.Top? ==>
      && Around(c.up.up.up, c.up.up.node, root)
      && c.node !in CtxNodes(c.up.up.up) && c.up.node !in CtxNodes(c.up.up.up) && c.up.up.node !in CtxNodes(c.up.up.up)
      && c.node != c.up.up.node && c.up.node != c.up.up.node
  }

  /** The second half of case 4, on the outer side (c1, t1) of the place (c, t). */
  method HoistOrBreak(tree: RbTree, out: Node, ghost c: Ctx, ghost t: Tree, ghost c1: Ctx, ghost t1: Tree) returns (fault: bool)
    requires t.Fork? && !c.Top? && !c.up.Top? && Straighten(c, t) == (c1, t1) && t1.Fork? && Apart(c1, t1) && Clear(c1, tree.root)
    requires out == t1.node && out.parent == c1.node && c1.node.parent == c.up.node && c.up.node.parent == Parent(c.up.up)
    requires Shape(c.up.node, OneUp(c1.up, OneUp(c1, t1)))
    requires Sibling(c1).Fork? ==> Sibling(c1).node.parent != c.up.node && Sibling(c1).node !in {c1.node, c.up.node} + Opt(Parent(c.up.up))
    requires c.InLeft? != c.up.InLeft? && Inner(c, t).Fork? ==>
      Inner(c, t).node.parent != c.node && Inner(c, t).node !in {c1.node, c.up.node} + Opt(Parent(c.up.up))
    requires !c.up.up.Top? ==> Near(c.up.up.node, c.up.up) == c.up.node
    modifies c1.node, c.up.node, Opt(Parent(c.up.up))`left, Opt(Parent(c.up.up))`right
    ensures fault <==> c.up.up.Top?
    ensures RotationSound(c, t) && old(At(tree, c1, out, t1)) ==> Linked(tree.root, Plug(c.up.up, Hoist(c1, t1)), null)
    ensures !fault && !RotationSound(c, t) ==> forall u: Tree :: !Linked(tree.root, u, null)
  {
    ghost var above := if c.up.up.Top? then Top else c.up.up.up;
    assert allocated(CtxNodes(above));
    fault := InsertCase5(tree, out, c1, t1);
    if !fault && !RotationSound(c, t) {
      assert Around(above, c.up.up.node, tree.root) == old(Around(above, c.up.up.node, tree.root));
      NoTree(tree.root, c, t, c1, t1);
    }
  }

  /** Both directions: the text yields a valid tree if and only if RotationSound holds. */
  method InsertCase4(tree: RbTree, node: Node, ghost c: Ctx, ghost t: Tree) returns (fault: bool)
    requires t.Fork? && At(tree, c, node, t) && !c.Top? && !c.up.Top?
    modifies CtxNodes(c), Nodes(t)
    ensures fault <==> c.up.up.Top?
    ensures RotationSound(c, t) ==>
      Linked(tree.root, Plug(c.up.up, Hoist(Straighten(c, t).0, Straighten(c, t).1)), null)
    ensures !fault && !RotationSound(c, t) ==> forall u: Tree :: !Linked(tree.root, u, null)
  {
    ghost var (c1, t1) := Straighten(c, t);
    OutsideParents(tree, c, node, t);
    assert allocated(CtxNodes(c)) && allocated(Nodes(t)) && (!c.up.up.Top? ==> allocated(CtxNodes(c.up.up.up)));
    var node := TurnOutwards(tree, node, c, t);
    if node != null {
      fault := HoistOrBreak(tree, node, c, t, c1, t1);
    }
  }

  /** The subtrees that will move hang where they do, and every node around is a different one. */
  lemma OutsideParents(tree: RbTree, c: Ctx, node: Node, t: Tree)
    requires t.Fork? && At(tree, c, node, t) && !c.Top? && !c.up.Top?
    ensures var (c1, t1), g := Straighten(c, t), c.up.node;
      && (Sibling(c1).Fork? ==> Sibling(c1).node.parent == c1.node && Sibling(c1).node !in {node, c.node, g})
      && (Inner(c, t).Fork? ==> Inner(c, t).node.parent == node && Inner(c, t).node !in {node, c.node, g})
      && node != c.node && node != g && c.node != g
      && Apart(c1, t1) && g.parent == Parent(c.up.up)
      && node in Nodes(t) && c.node in CtxNodes(c) && g in CtxNodes(c) && (!c.up.up.Top? ==> c.up.up.node in CtxNodes(c))
      && (!c.up.up.Top? ==>
        && c.up.up.node !in {node, c.node, g} && c.up.up.node !in Nodes(t)
        && {node, c.node, g, c.up.up.node} !! CtxNodes(c.up.up.up)
        && (Sibling(c1).Fork? ==> Sibling(c1).node != c.up.up.node)
        && (Inner(c, t).Fork? ==> Inner(c, t).node != c.up.up.node)
        && Around(c.up.up.up, c.up.up.node, tree.root) && Near(c.up.up.node, c.up.up) == g)
  {
    StepUp(tree, c, node, t);
    StepUp(tree, c.up, c.node, OneUp(c, t));
    StepUp(tree, c.up, c.node, OneUp(c, t));
    assert Around(c.up, c.node, tree.root) && CtxSeparate(c.up);
    assert Around(c.up.up, c.up.node, tree.root) && CtxSeparate(c.up.up);
    Opened(node, t);
    StraightenApart(c, t);
  }

  // ---------- Cases 1 to 3, and the insertion ----------

  /** The text gets the insertion right: wherever the recolouring stops, a rotation is not needed or is sound. */
  ghost predicate TextSound(c: Ctx, t: Tree)
    requires t.Fork? && BlackTop(c)
  {
    var (c1, t1) := Settle(c, t);
    HoleUnderRed(c1) ==> RotationSound(c1, t1)
  }

  /** The text follows a null parent: wherever the recolouring stops, the rotation that is needed is at the root. */
  ghost predicate TextFaults(c: Ctx, t: Tree)
    requires t.Fork? && BlackTop(c)
  {
    var c1 := Settle(c, t).0;
    HoleUnderRed(c1) && c1.up.up.Top?
  }

  method InsertCase3(tree: RbTree, node: Node, ghost c: Ctx, ghost t: Tree) returns (fault: bool)
    requires t.Fork? && At(tree, c, node, t) && BlackTop(c) && HoleUnderRed(c)
    modifies CtxNodes(c), Nodes(t)
    ensures fault <==> TextFaults(c, t)
    ensures TextSound(c, t) ==> Linked(tree.root, FixUp(c, t), null)
    ensures !fault && !TextSound(c, t) ==> forall u: Tree :: !Linked(tree.root, u, null)
    decreases Depth(c), 0
  {
    var u := Uncle(node);
    StepUp(tree, c, node, t);
    StepUp(tree, c.up, c.node, OneUp(c, t));
    assert Linked(u, Sibling(c.up), c.up.node) && Depth(c) == Depth(c.up.up) + 2;
    Opened(u, Sibling(c.up));
    if u != null && u.color == Red {
      PushUpColours(tree, node, u, c, t);
      var g := Grandparent(node);
      LocalApart(c, t);
      assert Settle(c, t) == Settle(c.up.up, PushUp(c, t));
      fault := InsertCase1(tree, g, c.up.up, PushUp(c, t));
    } else {
      assert Settle(c, t) == (c, t);
      fault := InsertCase4(tree, node, c, t);
    }
  }

  method InsertCase2(tree: RbTree, node: Node, ghost c: Ctx, ghost t: Tree) returns (fault: bool)
    requires t.Fork? && At(tree, c, node, t) && BlackTop(c) && !c.Top?
    modifies CtxNodes(c), Nodes(t)
    ensures fault <==> TextFaults(c, t)
    ensures TextSound(c, t) ==> Linked(tree.root, FixUp(c, t), null)
    ensures !fault && !TextSound(c, t) ==> forall u: Tree :: !Linked(tree.root, u, null)
    decreases Depth(c), 1
  {
    if node.parent.color == Black {
      PlugLinked(tree, c, node, t);
      return false;
    }
    fault := InsertCase3(tree, node, c, t);
  }

  method InsertCase1(tree: RbTree, node: Node, ghost c: Ctx, ghost t: Tree) returns (fault: bool)
    requires t.Fork? && At(tree, c, node, t) && BlackTop(c)
    modifies CtxNodes(c), Nodes(t)
    ensures fault <==> TextFaults(c, t)
    ensures TextSound(c, t) ==> Linked(tree.root, FixUp(c, t), null)
    ensures !fault && !TextSound(c, t) ==> forall u: Tree :: !Linked(tree.root, u, null)
    decreases Depth(c), 2
  {
    if node.parent == null {
      Paint(tree, node, Black, c, t);
      fault := false;
    } else {
      fault := InsertCase2(tree, node, c, t);
    }
  }

  /** _rb_tree_insert as written: it faults exactly when TextFaults holds before, and else the tree is valid afterwards exactly when TextSound does. */
  method Insert(tree: RbTree, key: Key, alloc: bool) returns (ret: int, fault: bool, ghost newNode: Node?)
    requires Valid(tree)
    modifies tree`root, tree`shape, Nodes(tree.shape)
    ensures !alloc ==> ret == -1 && !fault && Valid(tree) && tree.shape == old(tree.shape)
    ensures alloc ==> newNode != null && fresh(newNode) && newNode.key == key
    ensures alloc ==>
      var c, leaf := Descend(tree.compare, key, old(tree.shape), Top), Fork(Red, Leaf, newNode, Leaf);
      && BlackTop(c) && (fault <==> TextFaults(c, leaf)) && (!fault ==> ret == 1)
      && (TextSound(c, leaf) ==> !fault && Valid(tree) && tree.shape == Inserted(tree.compare, old(tree.shape), newNode))
      && (!fault && !TextSound(c, leaf) ==> forall u: Tree :: !Linked(tree.root, u, null))
  {
    var n: Node?;
    ret, n := BstInsert(tree, key, alloc);
    newNode, fault := n, false;
    if ret <= 0 {
      return;
    }
    ghost var t, leaf := tree.shape, Fork(Red, Leaf, n, Leaf);
    ghost var c := Descend(tree.compare, key, t, Top);
    DescendRedBlack(tree.compare, key, t, Top);
    DescendPlug(tree.compare, key, t, Top);
    fault := InsertCase1(tree, n, c, leaf);
    if TextSound(c, leaf) {
      InsertedFine(tree.compare, t, n);
      tree.shape := FixUp(c, leaf);
    }
  }

  /**
   TextSound in the caller's terms, for a red-black tree: no rotation is needed, or nothing was
   recoloured and the parent's parent has a parent on the side that case 5 assumes.
   */
  lemma SoundExactly(compare: (Key, Key) -> int, t: Tree, n: Node)
    requires RedBlack(t)
    ensures var c, leaf := Descend(compare, n.key, t, Top), Fork(Red, Leaf, n, Leaf);
      BlackTop(c) && (TextSound(c, leaf) <==>
        (!HoleUnderRed(Settle(c, leaf).0) ||
         (!IsRed(Sibling(c.up)) && !c.up.up.Top? && c.up.up.InLeft? == c.up.InLeft?)))
  {
    DescendRedBlack(compare, n.key, t, Top);
    var c, leaf := Descend(compare, n.key, t, Top), Fork(Red, Leaf, n, Leaf);
    SettleLow(c, leaf);
    if HoleUnderRed(c) {
      assert BlackHeight(Sibling(c)) == 0 && Sibling(c).Leaf?;
      if IsRed(Sibling(c.up)) {
        assert Settle(c, leaf) == Settle(c.up.up, PushUp(c, leaf)) && Depth(c) == Depth(c.up.up) + 2;
      }
    }
  }

  /** After any recolouring, what a rotation moves is not empty, so that it leaves a wrong parent link. */
  lemma {:induction false} SettleLow(c: Ctx, t: Tree)
    requires IsRed(t) && Balanced(t) && BlackTop(c) && Calm(c) && Fits(c, BlackHeight(t))
    ensures HoleUnderRed(Settle(c, t).0) && (BlackHeight(t) > 0 || Settle(c, t) != (c, t)) ==>
      && Sibling(Straighten(Settle(c, t).0, Settle(c, t).1).0).Fork?
      && !RotationSound(Settle(c, t).0, Settle(c, t).1)
    decreases Depth(c)
  {
    if HoleUnderRed(c) && IsRed(Sibling(c.up)) {
      assert Calm(c.up) && Fits(c.up, BlackHeight(t)) && Depth(c) == Depth(c.up.up) + 2;
      SettleLow(c.up.up, PushUp(c, t));
    }
  }

  /** Three keys in increasing order are enough: the third insertion rotates at the root. */
  lemma ThirdIncreasing(compare: (Key, Key) -> int, a: Node, b: Node, d: Node)
    requires compare(b.key, a.key) >= 0 && compare(d.key, a.key) >= 0 && compare(d.key, b.key) >= 0
    ensures var t := Inserted(compare, Inserted(compare, Leaf, a), b);
      var c := Descend(compare, d.key, t, Top);
      BlackTop(c) && TextFaults(c, Fork(Red, Leaf, d, Leaf))
  {
    var one := Fork(Black, Leaf, a, Leaf);
    var two := Fork(Black, Leaf, a, Fork(Red, Leaf, b, Leaf));
    var c := InRight(Black, Leaf, a, Top);
    var c2 := InRight(Red, Leaf, b, c);
    assert Inserted(compare, Leaf, a) == one;
    assert Descend(compare, b.key, one, Top) == Descend(compare, b.key, Leaf, c) == c;
    assert Plug(c, two.right) == Plug(Top, two) == two;
    assert Inserted(compare, one, b) == two;
    assert Descend(compare, d.key, two, Top) == Descend(compare, d.key, two.right, c) == Descend(compare, d.key, Leaf, c2) == c2;
    var leaf := Fork(Red, Leaf, d, Leaf);
    assert BlackTop(c) && BlackTop(c2) && Settle(c2, leaf) == (c2, leaf);
  }

  /** A black grandparent to the left of its own parent, and a red-red pair to its right: case 5 writes to the wrong side. */
  lemma WrongSide(compare: (Key, Key) -> int, a: Node, b: Node, d: Node, e: Node, n: Node)
    requires compare(n.key, d.key) < 0 && compare(n.key, a.key) >= 0 && compare(n.key, b.key) >= 0
    ensures var t := Fork(Black, Fork(Black, Leaf, a, Fork(Red, Leaf, b, Leaf)), d, Fork(Black, Leaf, e, Leaf));
      var c, leaf := Descend(compare, n.key, t, Top), Fork(Red, Leaf, n, Leaf);
      RedBlack(t) && BlackTop(c) && !TextSound(c, leaf) && !TextFaults(c, leaf)
      && Settle(c, leaf) == (c, leaf) && HoleUnderRed(c) && Sibling(c).Leaf? && !c.up.up.Top?
  {
    var r := Fork(Red, Leaf, b, Leaf);
    var g := Fork(Black, Leaf, a, r);
    var u := Fork(Black, Leaf, e, Leaf);
    var c1 := InLeft(Black, d, u, Top);
    var c2 := InRight(Black, Leaf, a, c1);
    var c3 := InRight(Red, Leaf, b, c2);
    assert Descend(compare, n.key, Fork(Black, g, d, u), Top) == Descend(compare, n.key, g, c1) == Descend(compare, n.key, r, c2);
    assert Descend(compare, n.key, r, c2) == Descend(compare, n.key, Leaf, c3) == c3;
    assert BlackTop(c1) && BlackTop(c2) && BlackTop(c3);
  }

  /**
   The nodes of a tree whose left side reads, from the root down: gg black, g black, q red,
   x black, p red; with black trees of the right height on the other sides, and u red beside p.
   */
  datatype Chain = Chain(gg: Node, beyond: Tree, g: Node, uncle: Node, q: Node, s: Node, x: Node, u: Node, p: Node)

  function AtX(h: Chain): Ctx {
    InLeft(Red, h.q, Fork(Black, Leaf, h.s, Leaf),
           InLeft(Black, h.g, Fork(Black, Leaf, h.uncle, Leaf), InLeft(Black, h.gg, h.beyond, Top)))
  }

  function AtLeast(h: Chain): Ctx {
    InLeft(Red, h.p, Leaf, InLeft(Black, h.x, Fork(Red, Leaf, h.u, Leaf), AtX(h)))
  }

  lemma Fine(color: Color, l: Tree, n: Node, r: Tree)
    requires Balanced(l) && Balanced(r) && BlackHeight(l) == BlackHeight(r) && NoRedPair(l) && NoRedPair(r)
    requires color.Red? ==> !IsRed(l) && !IsRed(r)
    ensures var t := Fork(color, l, n, r);
      Balanced(t) && NoRedPair(t) && BlackHeight(t) == BlackHeight(l) + if color.Black? then 1 else 0
  {}

  /**
   A new least key under p is recoloured up to x, and case 5 there finds all sides as it assumes:
   but the subtree that the rotation moves, at s, keeps its old parent link, and that alone makes
   the result invalid.
   */
  lemma MovedSubtree(compare: (Key, Key) -> int, h: Chain, n: Node)
    requires RedBlack(h.beyond) && BlackHeight(h.beyond) == 2
    requires forall m: Node :: m in [h.gg, h.g, h.q, h.x, h.p] ==> compare(n.key, m.key) < 0
    ensures var t := Plug(AtLeast(h), Leaf);
      var c, leaf := Descend(compare, n.key, t, Top), Fork(Red, Leaf, n, Leaf);
      RedBlack(t) && c == AtLeast(h) && BlackTop(c) && !TextSound(c, leaf) && !TextFaults(c, leaf)
      && Settle(c, leaf) == (AtX(h), PushUp(c, leaf))
      && var c1 := AtX(h); c1.InLeft? && c1.up.InLeft? && c1.up.up.InLeft? && Sibling(c1).Fork?
  {
    var c, leaf := AtLeast(h), Fork(Red, Leaf, n, Leaf);
    var t5 := Fork(Red, Leaf, h.p, Leaf);
    var t4 := Fork(Black, t5, h.x, Fork(Red, Leaf, h.u, Leaf));
    var c3 := AtX(h);
    var t3 := OneUp(c3, t4);
    var t2 := OneUp(c3.up, t3);
    var t1 := OneUp(c3.up.up, t2);
    assert Plug(c, Leaf) == Plug(c.up, t5) == Plug(c3, t4) == Plug(c3.up, t3) == Plug(c3.up.up, t2) == Plug(Top, t1) == t1;
    assert Descend(compare, n.key, t1, Top) == Descend(compare, n.key, t2, c3.up.up) == Descend(compare, n.key, t3, c3.up);
    assert Descend(compare, n.key, t3, c3.up) == Descend(compare, n.key, t4, c3) == Descend(compare, n.key, t5, c.up);
    assert Descend(compare, n.key, t5, c.up) == Descend(compare, n.key, Leaf, c) == c;
    Fine(Red, Leaf, h.p, Leaf);
    Fine(Red, Leaf, h.u, Leaf);
    Fine(Black, t5, h.x, t4.right);
    Fine(Black, Leaf, h.s, Leaf);
    Fine(Red, t4, h.q, c3.right);
    Fine(Black, Leaf, h.uncle, Leaf);
    Fine(Black, t3, h.g, c3.up.right);
    Fine(Black, t2, h.gg, h.beyond);
    assert BlackTop(c3.up.up) && BlackTop(c3.up) && BlackTop(c3) && BlackTop(c.up) && BlackTop(c);
    assert Settle(c, leaf) == Settle(c3, PushUp(c, leaf)) == (c3, PushUp(c, leaf));
  }
}
