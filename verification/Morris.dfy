/**
 The threaded in-order traversal of src/rbtree.c. It rewrites right links into
 cycles while it runs and takes every one of them back.
 */
module Morris {
  import opened RbShape

  type Links = map<Node, Node?>

  ghost function LeftLinks(s: set<Node>): Links
    reads s
  {
    map n: Node | n in s :: n.left
  }

  ghost function RightLinks(s: set<Node>): Links
    reads s
  {
    map n: Node | n in s :: n.right
  }

  /** The node at the end of the right spine. */
  ghost function Last(t: Tree): (n: Node)
    requires t.Fork?
    ensures n in Nodes(t)
    ensures Separate(t) ==> n !in Nodes(t.left)
  {
    if t.right.Leaf? then t.node else Last(t.right)
  }

  /** The number of nodes on the right spine. */
  function Spine(t: Tree): nat {
    if t.Leaf? then 0 else 1 + Spine(t.right)
  }

  /** The number of nodes that have a left child. */
  function Lefts(t: Tree): nat {
    if t.Leaf? then 0 else Lefts(t.left) + (if t.left.Fork? then 1 else 0) + Lefts(t.right)
  }

  /** Outer iterations spent on a subtree: one a node, and a second one if it has a left child. */
  function Turns(t: Tree): nat {
    if t.Leaf? then 0 else Turns(t.left) + (if t.left.Fork? then 2 else 1) + Turns(t.right)
  }

  /** Advances of `prev` spent on a subtree: each left child's right spine is walked twice. */
  function Walks(t: Tree): nat {
    if t.Leaf? then 0
    else Walks(t.left) + (if t.left.Fork? then 2 * (Spine(t.left) - 1) else 0) + Walks(t.right)
  }

  /** The recorded links agree with t. */
  ghost predicate Recorded(t: Tree, left: Links, right: Links)
    ensures Recorded(t, left, right) ==> Nodes(t) <= left.Keys
  {
    match t
    case Leaf => true
    case Fork(_, l, n, r) =>
      n in left && n in right && left[n] == Root(l) && right[n] == Root(r) &&
      Recorded(l, left, right) && Recorded(r, left, right)
  }

  /**
   What is still to be done: the innermost node `a` that was entered on the left and not yet
   finished, with its whole left subtree and its right subtree, then the rest.
   */
  datatype Cont = Done | Then(leftOf: Tree, a: Node, rightOf: Tree, rest: Cont)

  ghost function Pending(k: Cont): set<Node> {
    match k
    case Done => {}
    case Then(_, a, r, rest) => {a} + Nodes(r) + Pending(rest)
  }

  ghost function Unvisited(k: Cont): seq<Node> {
    match k
    case Done => []
    case Then(_, a, r, rest) => [a] + InOrder(r) + Unvisited(rest)
  }

  /** The right links that are threads at the moment, each with its target. */
  ghost function Threads(k: Cont): map<Node, Node>
    requires Open(k)
  {
    match k
    case Done => map[]
    case Then(l, a, _, rest) => Threads(rest)[Last(l) := a]
  }

  ghost predicate Open(k: Cont) {
    match k
    case Done => true
    case Then(l, _, _, rest) => l.Fork? && Open(rest)
  }

  ghost predicate Wf(k: Cont, left: Links, right: Links) {
    match k
    case Done => true
    case Then(l, a, r, rest) =>
      && l.Fork? && Separate(l) && Separate(r)
      && Recorded(l, left, right) && Recorded(r, left, right)
      && a in left && a in right && left[a] == Root(l) && right[a] == Root(r)
      && Nodes(l) !! Pending(k) && Nodes(r) !! Pending(rest)
      && a !in Nodes(r) && a !in Pending(rest)
      && (rest.Then? ==> rest.leftOf.Fork? && Last(rest.leftOf) == if r.Fork? then Last(r) else a)
      && Wf(rest, left, right)
  }

  function TurnsLeft(k: Cont): nat {
    if k.Done? then 0 else 1 + Turns(k.rightOf) + TurnsLeft(k.rest)
  }

  function WalksLeft(k: Cont): nat {
    if k.Done? then 0
    else (if k.leftOf.Fork? then Spine(k.leftOf) - 1 else 0) + Walks(k.rightOf) + WalksLeft(k.rest)
  }

  lemma {:induction false} WfIsOpen(k: Cont, left: Links, right: Links)
    requires Wf(k, left, right)
    ensures Open(k)
  {
    if k.Then? { WfIsOpen(k.rest, left, right); }
  }

  lemma {:induction false} LastHasNoRight(t: Tree, left: Links, right: Links)
    requires t.Fork? && Recorded(t, left, right)
    ensures Last(t) in right && right[Last(t)] == null
  {
    if t.right.Fork? { LastHasNoRight(t.right, left, right); }
  }

  /** Threads leave only from nodes without a right child, all but the innermost from pending nodes. */
  lemma {:induction false} ThreadSources(k: Cont, left: Links, right: Links)
    requires Wf(k, left, right)
    ensures Open(k)
    ensures forall n :: n in Threads(k) ==> n in right && right[n] == null
    ensures forall n :: n in Threads(k) ==> n == Last(k.leftOf) || n in Pending(k)
  {
    if k.Then? {
      ThreadSources(k.rest, left, right);
      LastHasNoRight(k.leftOf, left, right);
    }
  }

  lemma {:induction false} RecordShape(p: Node?, t: Tree, left: Links, right: Links)
    requires Shape(p, t)
    requires forall n :: n in Nodes(t) ==> n in left && n in right && left[n] == n.left && right[n] == n.right
    ensures Recorded(t, left, right) && p == Root(t)
  {
    if t.Fork? {
      RecordShape(t.node.left, t.left, left, right);
      RecordShape(t.node.right, t.right, left, right);
    }
  }

  lemma {:induction false} RestoredShape(p: Node?, t: Tree, left: Links, right: Links)
    requires Recorded(t, left, right) && p == Root(t)
    requires forall n :: n in Nodes(t) ==> n in right && n.left == left[n] && n.right == right[n]
    ensures Shape(p, t)
  {
    if t.Fork? {
      RestoredShape(t.node.left, t.left, left, right);
      RestoredShape(t.node.right, t.right, left, right);
    }
  }

  /** The heap in the middle of a traversal: the recorded links, overlaid with the threads. */
  ghost predicate Threaded(s: set<Node>, threads: map<Node, Node>, left: Links, right: Links)
    reads s
  {
    forall n :: n in s ==>
      n in left && n in right && n.left == left[n] &&
      n.right == if n in threads then threads[n] else right[n]
  }

  /** How the focus subtree, the continuation and `curr` fit together. */
  ghost predicate Focused(curr: Node?, focus: Tree, k: Cont, left: Links, right: Links) {
    && Wf(k, left, right)
    && Recorded(focus, left, right) && Separate(focus) && Nodes(focus) !! Pending(k)
    && (focus.Fork? ==> curr == focus.node)
    && (focus.Fork? && k.Then? ==> Last(focus) == Last(k.leftOf))
    && (focus.Leaf? ==> curr == if k.Then? then k.a else null)
  }

  ghost function Remaining(focus: Tree, k: Cont): seq<Node> {
    InOrder(focus) + Unvisited(k)
  }

  /** What the loop can read off its state before it moves. */
  lemma Arrive(s: set<Node>, curr: Node, focus: Tree, k: Cont, left: Links, right: Links)
    requires left.Keys == right.Keys == s && Open(k)
    requires Focused(curr, focus, k, left, right) && Threaded(s, Threads(k), left, right)
    ensures curr in s && Wf(k, left, right)
    ensures forall n: Node :: n in Threads(k) ==> n in right && right[n] == null
    ensures if focus.Fork? then curr == focus.node && curr.left == Root(focus.left) else k.Then? && curr == k.a && curr.left == k.leftOf.node
    ensures var below := if focus.Fork? then focus.left else k.leftOf;
      below.Fork? ==>
        && Recorded(below, left, right) && curr !in Nodes(below)
        && Last(below) in s && right[Last(below)] == null
        && (focus.Fork? ==> Last(below) !in Threads(k))
        && (focus.Leaf? ==> Last(below) in Threads(k) && Threads(k)[Last(below)] == curr)
    ensures focus.Leaf? ==> Turns(focus) == 0
  {
    ThreadSources(k, left, right);
    var below := if focus.Fork? then focus.left else k.leftOf;
    if below.Fork? { LastHasNoRight(below, left, right); }
  }

  /** What has been printed and spent so far, and what the focus and the continuation still owe. */
  ghost predicate Accounted(t: Tree, visited: seq<Node>, turns: nat, walks: nat, focus: Tree, k: Cont) {
    && visited + Remaining(focus, k) == InOrder(t)
    && turns + Turns(focus) + TurnsLeft(k) == Turns(t)
    && walks + Walks(focus) + WalksLeft(k) == Walks(t)
  }

  /** Right after a node is visited, its right link leads to the right subtree, or back along a thread. */
  lemma StepRight(n: Node, r: Tree, k: Cont, left: Links, right: Links)
    requires Wf(k, left, right) && Recorded(r, left, right) && Separate(r)
    requires n in right && right[n] == Root(r)
    requires n !in Pending(k) && Nodes(r) !! Pending(k)
    requires k.Then? ==> Last(k.leftOf) == if r.Fork? then Last(r) else n
    ensures Open(k)
    ensures Focused(if n in Threads(k) then Threads(k)[n] else right[n], r, k, left, right)
  {
    ThreadSources(k, left, right);
  }

  lemma TakeBack(threads: map<Node, Node>, from: Node, to: Node)
    requires from !in threads
    ensures threads == threads[from := to] - {from}
  {}

  lemma RemainingHead(visited: seq<Node>, focus: Tree, k: Cont)
    ensures focus.Fork? && focus.left.Leaf? ==>
      visited + Remaining(focus, k) == visited + [focus.node] + Remaining(focus.right, k)
    ensures focus.Leaf? && k.Then? ==>
      visited + Remaining(focus, k) == visited + [k.a] + Remaining(k.rightOf, k.rest)
  {
    if focus.Fork? && focus.left.Leaf? {
      assert InOrder(focus) == [focus.node] + InOrder(focus.right);
    }
  }

  /** Arrival at a node without a left child: visit it and go right. */
  lemma VisitFirst(t: Tree, visited: seq<Node>, turns: nat, walks: nat, focus: Tree, k: Cont, left: Links, right: Links)
    requires focus.Fork? && focus.left.Leaf? && Focused(focus.node, focus, k, left, right)
    requires Accounted(t, visited, turns, walks, focus, k)
    ensures Open(k)
    ensures Focused(if focus.node in Threads(k) then Threads(k)[focus.node] else right[focus.node], focus.right, k, left, right)
    ensures Accounted(t, visited + [focus.node], turns + 1, walks, focus.right, k)
  {
    StepRight(focus.node, focus.right, k, left, right);
    assert Turns(focus) == 1 + Turns(focus.right) && Walks(focus) == Walks(focus.right);
    RemainingHead(visited, focus, k);
  }

  /** First arrival at a node with a left child: lay a thread to it and go left. */
  lemma EnterLeft(t: Tree, visited: seq<Node>, turns: nat, walks: nat, focus: Tree, k: Cont, left: Links, right: Links)
    returns (k': Cont)
    requires focus.Fork? && focus.left.Fork? && Focused(focus.node, focus, k, left, right)
    requires Accounted(t, visited, turns, walks, focus, k)
    ensures k' == Then(focus.left, focus.node, focus.right, k) && Open(k) && Open(k')
    ensures Last(focus.left) !in Threads(k)
    ensures Threads(k') == Threads(k)[Last(focus.left) := focus.node]
    ensures Focused(focus.left.node, focus.left, k', left, right)
    ensures Accounted(t, visited, turns + 1, walks + Spine(focus.left) - 1, focus.left, k')
  {
    ThreadSources(k, left, right);
    k' := Then(focus.left, focus.node, focus.right, k);
    assert Remaining(focus, k) == Remaining(focus.left, k');
  }

  /** Second arrival, along the thread: take the thread back and go right. */
  lemma Resume(t: Tree, visited: seq<Node>, turns: nat, walks: nat, k: Cont, left: Links, right: Links)
    requires k.Then? && Wf(k, left, right)
    requires Accounted(t, visited, turns, walks, Leaf, k)
    ensures Open(k) && Open(k.rest) && Threads(k.rest) == Threads(k) - {Last(k.leftOf)}
    ensures Focused(if k.a in Threads(k.rest) then Threads(k.rest)[k.a] else right[k.a], k.rightOf, k.rest, left, right)
    ensures Accounted(t, visited + [k.a], turns + 1, walks + Spine(k.leftOf) - 1, k.rightOf, k.rest)
  {
    ThreadSources(k.rest, left, right);
    StepRight(k.a, k.rightOf, k.rest, left, right);
    RemainingHead(visited, Leaf, k);
    TakeBack(Threads(k.rest), Last(k.leftOf), k.a);
  }

  /** Both costs in closed form: the walks stay below 2n because right spines of left children are disjoint. */
  lemma {:induction false} Costs(t: Tree)
    ensures Turns(t) == Size(t) + Lefts(t)
    ensures Walks(t) + 2 * Spine(t) + 2 * Lefts(t) == 2 * Size(t)
    ensures Turns(t) <= 2 * Size(t) && Walks(t) <= 2 * Size(t)
  {
    if t.Fork? {
      Costs(t.left);
      Costs(t.right);
    }
  }

  /** prev->right = target, at a node whose own right link is empty. */
  method SetRight(prev: Node, target: Node?, ghost threads: map<Node, Node>, ghost left: Links, ghost right: Links)
    requires prev in right && right[prev] == null && Threaded(left.Keys, threads, left, right)
    modifies prev`right
    ensures prev.right == target
    ensures Threaded(left.Keys, if target == null then threads - {prev} else threads[prev := target], left, right)
  {
    prev.right := target;
  }

  /** The inner loop: from the left child along right links, up to an empty link or one back to curr. */
  method Predecessor(curr: Node, ghost below: Tree, ghost threads: map<Node, Node>, ghost left: Links, ghost right: Links)
    returns (prev: Node, ghost walked: nat)
    requires below.Fork? && Recorded(below, left, right) && curr.left == below.node && curr !in Nodes(below)
    requires Threaded(left.Keys, threads, left, right)
    requires forall n: Node :: n in threads ==> n in right && right[n] == null
    requires Last(below) in threads ==> threads[Last(below)] == curr
    ensures prev == Last(below) && walked == Spine(below) - 1
    ensures prev.right == if Last(below) in threads then curr else null
  {
    prev, walked := curr.left, 0;
    ghost var spine := below;
    while prev.right != null && prev.right != curr
      invariant spine.Fork? && prev == spine.node && Recorded(spine, left, right)
      invariant curr !in Nodes(spine) && Last(spine) == Last(below)
      invariant walked + Spine(spine) == Spine(below)
      decreases spine
    {
      prev := prev.right;
      walked := walked + 1;
      spine := spine.right;
    }
  }

  /** What the accounts say when nothing remains. */
  lemma Finished(t: Tree, visited: seq<Node>, turns: nat, walks: nat)
    requires Accounted(t, visited, turns, walks, Leaf, Done)
    ensures visited == InOrder(t) && turns == Size(t) + Lefts(t) && walks + 2 * Spine(t) + 2 * Lefts(t) == 2 * Size(t)
  {
    Costs(t);
    assert visited + [] + [] == visited;
  }

  method PrintInOrder(tree: RbTree?) returns (visited: seq<Node>, ghost turns: nat, ghost walks: nat)
    requires tree != null ==> Shape(tree.root, tree.shape) && Separate(tree.shape)
    modifies (if tree == null then {} else Nodes(tree.shape))`right
    ensures tree == null ==> visited == [] && turns == walks == 0
    ensures tree != null ==> visited == InOrder(tree.shape)
    ensures tree != null ==> RightLinks(Nodes(tree.shape)) == old(RightLinks(Nodes(tree.shape)))
    ensures tree != null ==> Shape(tree.root, tree.shape)
    ensures tree != null ==> turns == Size(tree.shape) + Lefts(tree.shape)
    ensures tree != null ==> walks + 2 * Spine(tree.shape) + 2 * Lefts(tree.shape) == 2 * Size(tree.shape)
  {
    visited, turns, walks := [], 0, 0;
    if tree == null || tree.root == null {
      return;
    }
    ghost var t, s := tree.shape, Nodes(tree.shape);
    ghost var left: Links, right: Links := LeftLinks(s), RightLinks(s);
    RecordShape(tree.root, t, left, right);
    ghost var focus, k := t, Done;
    var curr := tree.root;
    while curr != null
      invariant left.Keys == right.Keys == s && Open(k)
      invariant Focused(curr, focus, k, left, right)
      invariant Threaded(s, Threads(k), left, right)
      invariant Accounted(t, visited, turns, walks, focus, k)
      decreases Turns(focus) + TurnsLeft(k)
    {
      var here: Node := curr;
      Arrive(s, curr, focus, k, left, right);
      if curr.left == null {
        VisitFirst(t, visited, turns, walks, focus, k, left, right);
        visited := visited + [here];
        curr := curr.right;
        focus := focus.right;
        turns := turns + 1;
      } else {
        ghost var below := if focus.Fork? then focus.left else k.leftOf;
        var prev, walked := Predecessor(curr, below, Threads(k), left, right);
        if prev.right == null {
          SetRight(prev, curr, Threads(k), left, right);
          k := EnterLeft(t, visited, turns, walks, focus, k, left, right);
          curr := curr.left;
          focus := focus.left;
        } else {
          Resume(t, visited, turns, walks, k, left, right);
          SetRight(prev, null, Threads(k), left, right);
          visited := visited + [here];
          curr := curr.right;
          focus, k := k.rightOf, k.rest;
        }
        turns, walks := turns + 1, walks + walked;
      }
    }
    Finished(t, visited, turns, walks);
    RestoredShape(tree.root, t, left, right);
  }
}
