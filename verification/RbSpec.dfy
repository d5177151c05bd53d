/**
 Insertion into a red-black tree on values: the position found by the descent, and the
 five-case fix-up of src/rbtree.c as a function on a tree with a hole.
 */
module RbSpec {
  import opened Basics
  import opened RbShape

  /** A tree with a hole, from the hole's parent upwards. */
  datatype Ctx =
    | Top
    | InLeft(color: Color, node: Node, right: Tree, up: Ctx)
    | InRight(color: Color, left: Tree, node: Node, up: Ctx)

  function Parent(c: Ctx): Node? {
    if c.Top? then null else c.node
  }

  /** The subtree on the other side of the hole. */
  function Sibling(c: Ctx): Tree
    requires !c.Top?
  {
    if c.InLeft? then c.right else c.left
  }

  function OneUp(c: Ctx, t: Tree): Tree
    requires !c.Top?
  {
    if c.InLeft? then Fork(c.color, t, c.node, c.right) else Fork(c.color, c.left, c.node, t)
  }

  function Plug(c: Ctx, t: Tree): Tree {
    if c.Top? then t else Plug(c.up, OneUp(c, t))
  }

  function Depth(c: Ctx): nat {
    if c.Top? then 0 else 1 + Depth(c.up)
  }

  ghost function CtxNodes(c: Ctx): set<Node> {
    if c.Top? then {} else {c.node} + Nodes(Sibling(c)) + CtxNodes(c.up)
  }

  ghost function Before(c: Ctx): seq<Node> {
    match c
    case Top => []
    case InLeft(_, _, _, up) => Before(up)
    case InRight(_, l, n, up) => Before(up) + InOrder(l) + [n]
  }

  ghost function After(c: Ctx): seq<Node> {
    match c
    case Top => []
    case InLeft(_, n, r, up) => [n] + InOrder(r) + After(up)
    case InRight(_, _, _, up) => After(up)
  }

  ghost predicate CtxSeparate(c: Ctx) {
    !c.Top? ==>
      && Separate(Sibling(c)) && c.node !in Nodes(Sibling(c)) && c.node !in CtxNodes(c.up)
      && Nodes(Sibling(c)) !! CtxNodes(c.up) && CtxSeparate(c.up)
  }

  ghost predicate Apart(c: Ctx, t: Tree) {
    CtxSeparate(c) && Separate(t) && Nodes(t) !! CtxNodes(c)
  }

  lemma OneUpOrder(c: Ctx, t: Tree)
    requires !c.Top?
    ensures Before(c.up) + InOrder(OneUp(c, t)) + After(c.up) == Before(c) + InOrder(t) + After(c)
  {
    var a, b, x, y := Before(c.up), After(c.up), InOrder(t), InOrder(Sibling(c));
    if c.InLeft? {
      assert a + (x + [c.node] + y) + b == a + x + ([c.node] + y + b);
    } else {
      assert a + (y + [c.node] + x) + b == a + y + [c.node] + x + b;
    }
  }

  lemma OneUpApart(c: Ctx, t: Tree)
    requires !c.Top?
    ensures Nodes(OneUp(c, t)) + CtxNodes(c.up) == Nodes(t) + CtxNodes(c)
    ensures Apart(c, t) <==> Apart(c.up, OneUp(c, t))
  {
    assert Nodes(OneUp(c, t)) == Nodes(t) + {c.node} + Nodes(Sibling(c));
    assert CtxNodes(c) == {c.node} + Nodes(Sibling(c)) + CtxNodes(c.up);
  }

  lemma OneUpInOrder(c: Ctx, t: Tree)
    requires !c.Top?
    ensures Before(c.up) + InOrder(OneUp(c, t)) + After(c.up) == Before(c) + InOrder(t) + After(c)
    ensures Nodes(OneUp(c, t)) + CtxNodes(c.up) == Nodes(t) + CtxNodes(c)
    ensures Apart(c, t) <==> Apart(c.up, OneUp(c, t))
  {
    OneUpOrder(c, t);
    OneUpApart(c, t);
  }

  lemma {:induction false} PlugInOrder(c: Ctx, t: Tree)
    ensures InOrder(Plug(c, t)) == Before(c) + InOrder(t) + After(c)
    ensures Nodes(Plug(c, t)) == Nodes(t) + CtxNodes(c)
  {
    if !c.Top? {
      OneUpInOrder(c, t);
      PlugInOrder(c.up, OneUp(c, t));
    } else {
      assert Before(c) + InOrder(t) + After(c) == InOrder(t);
    }
  }

  lemma {:induction false} PlugSeparate(c: Ctx, t: Tree)
    requires Apart(c, t)
    ensures Separate(Plug(c, t))
  {
    if !c.Top? {
      OneUpInOrder(c, t);
      PlugSeparate(c.up, OneUp(c, t));
    }
  }

  // ---------- The descent of bst_insert ----------

  /** The empty place where a new key belongs below t. */
  function Descend(compare: (Key, Key) -> int, key: Key, t: Tree, c: Ctx): Ctx {
    match t
    case Leaf => c
    case Fork(col, l, n, r) =>
      if compare(key, n.key) < 0
      then Descend(compare, key, l, InLeft(col, n, r, c))
      else Descend(compare, key, r, InRight(col, l, n, c))
  }

  lemma {:induction false} DescendPlug(compare: (Key, Key) -> int, key: Key, t: Tree, c: Ctx)
    requires Apart(c, t)
    ensures Plug(Descend(compare, key, t, c), Leaf) == Plug(c, t)
    ensures CtxSeparate(Descend(compare, key, t, c))
    ensures CtxNodes(Descend(compare, key, t, c)) == CtxNodes(c) + Nodes(t)
    ensures Depth(Descend(compare, key, t, c)) <= Depth(c) + Height(t)
  {
    match t
    case Leaf =>
    case Fork(col, l, n, r) =>
      if compare(key, n.key) < 0 {
        OneUpApart(InLeft(col, n, r, c), l);
        DescendPlug(compare, key, l, InLeft(col, n, r, c));
      } else {
        OneUpApart(InRight(col, l, n, c), r);
        DescendPlug(compare, key, r, InRight(col, l, n, c));
      }
  }

  function Height(t: Tree): nat {
    if t.Leaf? then 0 else 1 + if Height(t.left) < Height(t.right) then Height(t.right) else Height(t.left)
  }

  /** On the keys in s, the sign of `compare` is a total preorder. */
  ghost predicate OrderOn(compare: (Key, Key) -> int, s: set<Key>) {
    && (forall a, b :: a in s && b in s ==> (compare(a, b) < 0 <==> compare(b, a) > 0))
    && (forall a, b, d :: a in s && b in s && d in s && compare(a, b) <= 0 && compare(b, d) <= 0 ==> compare(a, d) <= 0)
  }

  ghost predicate Sorted(compare: (Key, Key) -> int, s: seq<Node>) {
    forall i, j :: 0 <= i < j < |s| ==> compare(s[i].key, s[j].key) <= 0
  }

  ghost predicate KeysIn(s: seq<Node>, keys: set<Key>) {
    forall n: Node :: n in s ==> n.key in keys
  }

  ghost predicate AllAtMost(compare: (Key, Key) -> int, s: seq<Node>, key: Key) {
    forall n: Node :: n in s ==> compare(n.key, key) <= 0
  }

  ghost predicate AllAtLeast(compare: (Key, Key) -> int, s: seq<Node>, key: Key) {
    forall n: Node :: n in s ==> compare(key, n.key) <= 0
  }

  ghost predicate AllAbove(compare: (Key, Key) -> int, s: seq<Node>, key: Key) {
    forall n: Node :: n in s ==> compare(key, n.key) < 0
  }

  lemma SortedSplit(compare: (Key, Key) -> int, a: seq<Node>, n: Node, b: seq<Node>)
    requires Sorted(compare, a + [n] + b)
    ensures AllAtMost(compare, a, n.key) && AllAtLeast(compare, b, n.key)
  {
    var s := a + [n] + b;
    assert s[|a|] == n;
    forall m: Node | m in a
      ensures compare(m.key, n.key) <= 0
    {
      var i :| 0 <= i < |a| && a[i] == m;
      assert s[i] == m;
    }
    forall m: Node | m in b
      ensures compare(n.key, m.key) <= 0
    {
      var i :| 0 <= i < |b| && b[i] == m;
      assert s[|a| + 1 + i] == m;
    }
  }

  lemma SortedJoin(compare: (Key, Key) -> int, a: seq<Node>, n: Node, b: seq<Node>)
    requires Sorted(compare, a + b) && AllAtMost(compare, a, n.key) && AllAtLeast(compare, b, n.key)
    ensures Sorted(compare, a + [n] + b)
  {
    var s := a + [n] + b;
    forall i, j | 0 <= i < j < |s|
      ensures compare(s[i].key, s[j].key) <= 0
    {
      if j == |a| {
        assert s[i] == a[i];
      } else if i == |a| {
        assert s[j] == b[j - |a| - 1];
      } else {
        var i' := if i < |a| then i else i - 1;
        var j' := if j < |a| then j else j - 1;
        assert (a + b)[i'] == s[i] && (a + b)[j'] == s[j];
      }
    }
  }

  lemma Beyond(compare: (Key, Key) -> int, keys: set<Key>, key: Key, mid: Key, s: seq<Node>)
    requires OrderOn(compare, keys) && KeysIn(s, keys) && key in keys && mid in keys
    ensures compare(key, mid) < 0 && AllAtLeast(compare, s, mid) ==> AllAbove(compare, s, key)
    ensures compare(key, mid) >= 0 && AllAtMost(compare, s, mid) ==> AllAtMost(compare, s, key)
  {}

  /** The place found is after every entry not greater than the key and before every greater one. */
  lemma {:induction false} DescendPlace(compare: (Key, Key) -> int, keys: set<Key>, key: Key, t: Tree, c: Ctx)
    requires OrderOn(compare, keys) && KeysIn(InOrder(t), keys) && key in keys
    requires Sorted(compare, InOrder(t))
    requires AllAtMost(compare, Before(c), key) && AllAbove(compare, After(c), key)
    ensures Before(c) + InOrder(t) + After(c) == Before(Descend(compare, key, t, c)) + After(Descend(compare, key, t, c))
    ensures AllAtMost(compare, Before(Descend(compare, key, t, c)), key)
    ensures AllAbove(compare, After(Descend(compare, key, t, c)), key)
  {
    match t
    case Leaf =>
    case Fork(col, l, n, r) =>
      assert n in InOrder(t);
      OneUpInOrder(InLeft(col, n, r, c), l);
      OneUpInOrder(InRight(col, l, n, c), r);
      SortedSplit(compare, InOrder(l), n, InOrder(r));
      SortedParts(compare, InOrder(l), n, InOrder(r));
      if compare(key, n.key) < 0 {
        Beyond(compare, keys, key, n.key, InOrder(r));
        DescendPlace(compare, keys, key, l, InLeft(col, n, r, c));
      } else {
        Beyond(compare, keys, key, n.key, InOrder(l));
        DescendPlace(compare, keys, key, r, InRight(col, l, n, c));
      }
  }

  /** bst_insert puts a leaf in that place: in any sorted tree the new entry comes last among those not greater. */
  lemma BstInserted(compare: (Key, Key) -> int, keys: set<Key>, t: Tree, n: Node) returns (a: seq<Node>, b: seq<Node>)
    requires Separate(t) && Sorted(compare, InOrder(t))
    requires OrderOn(compare, keys) && KeysIn(InOrder(t), keys) && n.key in keys
    ensures InOrder(t) == a + b && InOrder(Plug(Descend(compare, n.key, t, Top), Fork(Red, Leaf, n, Leaf))) == a + [n] + b
    ensures AllAtMost(compare, a, n.key) && AllAbove(compare, b, n.key)
    ensures Sorted(compare, a + [n] + b)
  {
    var c, leaf := Descend(compare, n.key, t, Top), Fork(Red, Leaf, n, Leaf);
    a, b := Before(c), After(c);
    DescendPlace(compare, keys, n.key, t, Top);
    assert Before(Top) + InOrder(t) + After(Top) == InOrder(t);
    PlugInOrder(c, leaf);
    assert InOrder(leaf) == [] + [n] + [] == [n];
    SortedJoin(compare, a, n, b);
  }

  lemma SortedParts(compare: (Key, Key) -> int, a: seq<Node>, n: Node, b: seq<Node>)
    requires Sorted(compare, a + [n] + b)
    ensures Sorted(compare, a) && Sorted(compare, b)
  {
    var s := a + [n] + b;
    forall i, j | 0 <= i < j < |a|
      ensures compare(a[i].key, a[j].key) <= 0
    {
      assert s[i] == a[i] && s[j] == a[j];
    }
    forall i, j | 0 <= i < j < |b|
      ensures compare(b[i].key, b[j].key) <= 0
    {
      assert s[|a| + 1 + i] == b[i] && s[|a| + 1 + j] == b[j];
    }
  }

  // ---------- The fix-up of cases 1 to 5 ----------

  function Painted(color: Color, t: Tree): Tree {
    if t.Leaf? then Leaf else t.(color := color)
  }

  predicate IsRed(t: Tree) { t.Fork? && t.color.Red? }

  predicate HoleUnderRed(c: Ctx) { !c.Top? && c.color.Red? }

  /** The topmost node of the context is black. */
  predicate BlackTop(c: Ctx) {
    !c.Top? ==> (c.up.Top? ==> c.color.Black?) && BlackTop(c.up)
  }

  function Recoloured(c: Ctx, color: Color): Ctx
    requires !c.Top?
  {
    if c.InLeft? then InLeft(color, c.node, c.right, c.up) else InRight(color, c.left, c.node, c.up)
  }

  /** The left child takes the place of the top node, which takes its right subtree. */
  function RotatedRight(t: Tree): Tree
    requires t.Fork? && t.left.Fork?
  {
    Fork(t.left.color, t.left.left, t.left.node, Fork(t.color, t.left.right, t.node, t.right))
  }

  function RotatedLeft(t: Tree): Tree
    requires t.Fork? && t.right.Fork?
  {
    Fork(t.right.color, Fork(t.color, t.left, t.node, t.right.left), t.right.node, t.right.right)
  }

  lemma Regroup(a: seq<Node>, m: Node, b: seq<Node>, n: Node, d: seq<Node>)
    ensures (a + [m] + b) + [n] + d == a + [m] + (b + [n] + d)
  {}

  lemma RotatedInOrder(t: Tree)
    requires t.Fork?
    ensures t.left.Fork? ==> InOrder(RotatedRight(t)) == InOrder(t)
    ensures t.right.Fork? ==> InOrder(RotatedLeft(t)) == InOrder(t)
  {
    var a, b := InOrder(t.left), InOrder(t.right);
    if t.left.Fork? {
      Regroup(InOrder(t.left.left), t.left.node, InOrder(t.left.right), t.node, b);
    }
    if t.right.Fork? {
      Regroup(a, t.node, InOrder(t.right.left), t.right.node, InOrder(t.right.right));
    }
  }

  /** Case 3: parent and uncle turn black, the grandparent red. */
  function PushUp(c: Ctx, t: Tree): Tree
    requires !c.Top? && !c.up.Top?
  {
    var p := OneUp(Recoloured(c, Black), t);
    if c.up.InLeft?
    then Fork(Red, p, c.up.node, Painted(Black, c.up.right))
    else Fork(Red, Painted(Black, c.up.left), c.up.node, p)
  }

  /** Case 4: if the hole is on the inner side, rotate it outwards; the focus is then the old parent. */
  function Straighten(c: Ctx, t: Tree): (Ctx, Tree)
    requires !c.Top? && !c.up.Top? && t.Fork?
  {
    if c.InRight? && c.up.InLeft? then
      (InLeft(t.color, t.node, t.right, c.up), Fork(c.color, c.left, c.node, t.left))
    else if c.InLeft? && c.up.InRight? then
      (InRight(t.color, t.left, t.node, c.up), Fork(c.color, t.right, c.node, c.right))
    else (c, t)
  }

  /** Case 5: the parent takes the grandparent's place and turns black, the grandparent red. */
  function Hoist(c: Ctx, t: Tree): Tree
    requires !c.Top? && !c.up.Top? && c.InLeft? == c.up.InLeft?
  {
    if c.InLeft?
    then Fork(Black, t, c.node, Fork(Red, c.right, c.up.node, c.up.right))
    else Fork(Black, Fork(Red, c.up.left, c.up.node, c.left), c.node, t)
  }

  /** Where the recolouring of cases 1 to 3 stops. */
  function Settle(c: Ctx, t: Tree): (Ctx, Tree)
    requires t.Fork? && BlackTop(c)
    ensures Settle(c, t).1.Fork? && BlackTop(Settle(c, t).0) && Depth(Settle(c, t).0) <= Depth(c)
  {
    if HoleUnderRed(c) && IsRed(Sibling(c.up)) then
      assert BlackTop(c.up);
      Settle(c.up.up, PushUp(c, t))
    else (c, t)
  }

  /** What happens there: case 1, case 2, or cases 4 and 5. */
  function Finish(c: Ctx, t: Tree): Tree
    requires t.Fork? && BlackTop(c)
  {
    if c.Top? then Painted(Black, t)
    else if c.color.Black? then Plug(c, t)
    else
      var (c1, t1) := Straighten(c, t);
      Plug(c.up.up, Hoist(c1, t1))
  }

  function FixUp(c: Ctx, t: Tree): Tree
    requires t.Fork? && BlackTop(c)
  {
    Finish(Settle(c, t).0, Settle(c, t).1)
  }

  // ---------- What the fix-up keeps and what it restores ----------

  /** Cases 3, 4 and 5 keep the nodes below the grandparent, and their order. */
  lemma LocalInOrder(c: Ctx, t: Tree)
    requires t.Fork? && !c.Top? && !c.up.Top?
    ensures var whole, (c1, t1) := OneUp(c.up, OneUp(c, t)), Straighten(c, t);
      InOrder(PushUp(c, t)) == InOrder(whole) == InOrder(Hoist(c1, t1))
  {
    var s, u := InOrder(Sibling(c)), InOrder(Sibling(c.up));
    var p, g, l, r := c.node, c.up.node, InOrder(t.left), InOrder(t.right);
    assert InOrder(t) == l + [t.node] + r;
    if c.InLeft? && c.up.InLeft? {
      Regroup(InOrder(t), p, s, g, u);
    } else if c.InRight? && c.up.InRight? {
      Regroup(u, g, s, p, InOrder(t));
    } else if c.InRight? {
      RegroupInner(s, p, l, t.node, r, g, u);
    } else {
      RegroupInner(u, g, l, t.node, r, p, s);
    }
  }

  /** Where a rotation at the inner child takes its two subtrees apart. */
  lemma RegroupInner(a: seq<Node>, m: Node, b: seq<Node>, k: Node, c: seq<Node>, n: Node, d: seq<Node>)
    ensures (a + [m] + (b + [k] + c)) + [n] + d == (a + [m] + b) + [k] + (c + [n] + d) == a + [m] + ((b + [k] + c) + [n] + d)
  {}

  lemma StraightenApart(c: Ctx, t: Tree)
    requires t.Fork? && !c.Top? && !c.up.Top? && Apart(c, t)
    ensures var (c1, t1) := Straighten(c, t); Apart(c1, t1) && Nodes(t1) + CtxNodes(c1) == Nodes(t) + CtxNodes(c)
  {
    var (c1, t1) := Straighten(c, t);
    OneUpInOrder(c, t);
    OneUpInOrder(c1, t1);
    RotatedInOrder(OneUp(c, t));
    SameOrder(OneUp(c, t), OneUp(c1, t1));
  }

  lemma LocalApart(c: Ctx, t: Tree)
    requires t.Fork? && !c.Top? && !c.up.Top? && Apart(c, t)
    ensures var (c1, t1) := Straighten(c, t);
      Apart(c.up.up, PushUp(c, t)) && Apart(c.up.up, Hoist(c1, t1)) &&
      Nodes(PushUp(c, t)) + CtxNodes(c.up.up) == Nodes(t) + CtxNodes(c)
  {
    var (c1, t1) := Straighten(c, t);
    var whole := OneUp(c.up, OneUp(c, t));
    OneUpInOrder(c, t);
    OneUpInOrder(c.up, OneUp(c, t));
    LocalInOrder(c, t);
    SameOrder(whole, PushUp(c, t));
    SameOrder(whole, Hoist(c1, t1));
  }

  lemma {:induction false} FixUpInOrder(c: Ctx, t: Tree)
    requires t.Fork? && BlackTop(c)
    ensures InOrder(FixUp(c, t)) == InOrder(Plug(c, t))
    decreases Depth(c)
  {
    if HoleUnderRed(c) {
      var whole := OneUp(c.up, OneUp(c, t));
      var (c1, t1) := Straighten(c, t);
      LocalInOrder(c, t);
      PlugInOrder(c.up.up, whole);
      PlugInOrder(c.up.up, PushUp(c, t));
      PlugInOrder(c.up.up, Hoist(c1, t1));
      assert Plug(c, t) == Plug(c.up, OneUp(c, t)) == Plug(c.up.up, whole);
      assert Depth(c) == Depth(c.up.up) + 2;
      if IsRed(Sibling(c.up)) {
        FixUpInOrder(c.up.up, PushUp(c, t));
      }
    }
  }

  function BlackHeight(t: Tree): nat {
    if t.Leaf? then 0 else BlackHeight(t.left) + if t.color.Black? then 1 else 0
  }

  /** Every path down crosses the same number of black nodes. */
  predicate Balanced(t: Tree) {
    t.Fork? ==> Balanced(t.left) && Balanced(t.right) && BlackHeight(t.left) == BlackHeight(t.right)
  }

  predicate NoRedPair(t: Tree) {
    t.Fork? ==>
      && NoRedPair(t.left) && NoRedPair(t.right)
      && (t.color.Red? ==> !IsRed(t.left) && !IsRed(t.right))
  }

  predicate RedBlack(t: Tree) {
    !IsRed(t) && Balanced(t) && NoRedPair(t)
  }

  /** Any balanced tree of black height h balances the whole. */
  predicate Fits(c: Ctx, h: nat) {
    !c.Top? ==>
      Balanced(Sibling(c)) && BlackHeight(Sibling(c)) == h && Fits(c.up, h + if c.color.Black? then 1 else 0)
  }

  /** No red pair outside the hole. */
  predicate Calm(c: Ctx) {
    !c.Top? ==>
      && NoRedPair(Sibling(c)) && Calm(c.up)
      && (c.color.Red? ==> !IsRed(Sibling(c)) && !HoleUnderRed(c.up))
  }

  lemma {:induction false} PlugRedBlack(c: Ctx, t: Tree)
    requires Balanced(t) && Fits(c, BlackHeight(t))
    requires NoRedPair(t) && Calm(c) && BlackTop(c) && !(IsRed(t) && (c.Top? || c.color.Red?))
    ensures RedBlack(Plug(c, t))
  {
    if !c.Top? { PlugRedBlack(c.up, OneUp(c, t)); }
  }

  /** A red subtree whose only fault may be a red parent is repaired by the fix-up, and no black count changes. */
  lemma {:induction false} FixUpRedBlack(c: Ctx, t: Tree)
    requires IsRed(t) && Balanced(t) && NoRedPair(t)
    requires BlackTop(c) && Calm(c) && Fits(c, BlackHeight(t))
    ensures RedBlack(FixUp(c, t))
    decreases Depth(c)
  {
    if HoleUnderRed(c) && IsRed(Sibling(c.up)) {
      assert Calm(c.up) && Depth(c) == Depth(c.up.up) + 2;
      FixUpRedBlack(c.up.up, PushUp(c, t));
    } else if HoleUnderRed(c) {
      var (c1, t1) := Straighten(c, t);
      PlugRedBlack(c.up.up, Hoist(c1, t1));
    } else if !c.Top? {
      PlugRedBlack(c, t);
    }
  }

  lemma {:induction false} DescendRedBlack(compare: (Key, Key) -> int, key: Key, t: Tree, c: Ctx)
    requires Balanced(t) && NoRedPair(t) && !(IsRed(t) && HoleUnderRed(c))
    requires Fits(c, BlackHeight(t)) && Calm(c) && BlackTop(c) && !(IsRed(t) && c.Top?)
    ensures Fits(Descend(compare, key, t, c), 0) && Calm(Descend(compare, key, t, c))
    ensures BlackTop(Descend(compare, key, t, c))
  {
    match t
    case Leaf =>
    case Fork(col, l, n, r) =>
      DescendRedBlack(compare, key, l, InLeft(col, n, r, c));
      DescendRedBlack(compare, key, r, InRight(col, l, n, c));
  }

  /** The whole insertion of a node with no children. */
  function Inserted(compare: (Key, Key) -> int, t: Tree, n: Node): Tree
    requires RedBlack(t)
  {
    DescendRedBlack(compare, n.key, t, Top);
    FixUp(Descend(compare, n.key, t, Top), Fork(Red, Leaf, n, Leaf))
  }

  /** Insertion keeps the red-black invariants, for any comparator at all, and adds one entry. */
  lemma InsertedRedBlack(compare: (Key, Key) -> int, t: Tree, n: Node) returns (a: seq<Node>, b: seq<Node>)
    requires RedBlack(t) && Separate(t) && n !in Nodes(t)
    ensures RedBlack(Inserted(compare, t, n)) && Separate(Inserted(compare, t, n))
    ensures InOrder(t) == a + b && InOrder(Inserted(compare, t, n)) == a + [n] + b
    ensures a == Before(Descend(compare, n.key, t, Top)) && b == After(Descend(compare, n.key, t, Top))
  {
    var c, leaf := Descend(compare, n.key, t, Top), Fork(Red, Leaf, n, Leaf);
    a, b := Before(c), After(c);
    DescendRedBlack(compare, n.key, t, Top);
    FixUpRedBlack(c, leaf);
    DescendPlug(compare, n.key, t, Top);
    LeafPlugged(c, n);
    EmptyPlugged(c);
    FixUpInOrder(c, leaf);
    SameOrder(Plug(c, leaf), Inserted(compare, t, n));
  }

  lemma EmptyPlugged(c: Ctx)
    ensures InOrder(Plug(c, Leaf)) == Before(c) + After(c)
  {
    PlugInOrder(c, Leaf);
    assert Before(c) + [] + After(c) == Before(c) + After(c);
  }

  lemma LeafPlugged(c: Ctx, n: Node)
    requires CtxSeparate(c) && n !in CtxNodes(c)
    ensures var t := Plug(c, Fork(Red, Leaf, n, Leaf)); Separate(t) && InOrder(t) == Before(c) + [n] + After(c)
  {
    var leaf := Fork(Red, Leaf, n, Leaf);
    assert InOrder(leaf) == [] + [n] + [] == [n];
    assert Nodes(Leaf) == {} && Nodes(leaf) == Nodes(Leaf) + Nodes(Leaf) + {n};
    PlugInOrder(c, leaf);
    PlugSeparate(c, leaf);
  }

  lemma InsertedFine(compare: (Key, Key) -> int, t: Tree, n: Node)
    requires RedBlack(t) && Separate(t) && n !in Nodes(t)
    ensures RedBlack(Inserted(compare, t, n)) && Separate(Inserted(compare, t, n))
  {
    var a, b := InsertedRedBlack(compare, t, n);
  }

  /** With an ordering comparator and a sorted tree, the new entry comes last among those not greater. */
  lemma InsertedSorted(compare: (Key, Key) -> int, keys: set<Key>, t: Tree, n: Node) returns (a: seq<Node>, b: seq<Node>)
    requires RedBlack(t) && Separate(t) && n !in Nodes(t)
    requires OrderOn(compare, keys) && KeysIn(InOrder(t), keys) && n.key in keys
    requires Sorted(compare, InOrder(t))
    ensures InOrder(t) == a + b && InOrder(Inserted(compare, t, n)) == a + [n] + b
    ensures AllAtMost(compare, a, n.key) && AllAbove(compare, b, n.key)
    ensures Sorted(compare, InOrder(Inserted(compare, t, n)))
  {
    a, b := InsertedRedBlack(compare, t, n);
    DescendPlace(compare, keys, n.key, t, Top);
    SortedJoin(compare, a, n, b);
  }

  // ---------- Balance ----------

  lemma {:induction false} BlackHeightBounds(t: Tree)
    requires Balanced(t) && NoRedPair(t)
    ensures Pow(2, BlackHeight(t)) <= Size(t) + 1
    ensures Height(t) <= 2 * BlackHeight(t) + if IsRed(t) then 1 else 0
  {
    if t.Fork? {
      BlackHeightBounds(t.left);
      BlackHeightBounds(t.right);
    }
  }

  lemma {:induction false} PowMonotone(m: nat, n: nat)
    requires m <= n
    ensures Pow(2, m) <= Pow(2, n)
  {
    if m < n { PowMonotone(m, n - 1); }
  }

  /** A red-black tree is logarithmically high, so the descent of an insertion is logarithmically long. */
  lemma HeightBound(compare: (Key, Key) -> int, key: Key, t: Tree)
    requires RedBlack(t) && Separate(t)
    ensures Pow(2, Height(t) / 2) <= Size(t) + 1
    ensures Depth(Descend(compare, key, t, Top)) <= Height(t)
  {
    BlackHeightBounds(t);
    PowMonotone(Height(t) / 2, BlackHeight(t));
    DescendPlug(compare, key, t, Top);
  }
}
