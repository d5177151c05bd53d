/** The intrusive circular lists of include/ckit/list.h. */
module List {
  import opened Basics

  /** A link embedded in an object; `entry` stands for the address arithmetic that finds that object. */
  class Link {
    var prev: Link
    var next: Link
    var entry: object?

    /** INIT_LIST: a link on its own. */
    constructor ()
      ensures Ring(this, [])
    {
      prev, next := this, this;
      entry := null;
    }
  }

  ghost function Circle(anchor: Link, xs: seq<Link>): seq<Link> {
    [anchor] + xs + [anchor]
  }

  /** From the anchor, next leads through xs and back, and prev leads the other way round. */
  ghost predicate Ring(anchor: Link, xs: seq<Link>)
    reads anchor, xs
  {
    && anchor !in xs && Distinct(xs)
    && (forall i :: 0 <= i <= |xs| ==> Circle(anchor, xs)[i].next == Circle(anchor, xs)[i + 1])
    && (forall i :: 0 <= i <= |xs| ==> Circle(anchor, xs)[i + 1].prev == Circle(anchor, xs)[i])
  }

  ghost function Without(xs: seq<Link>, k: nat): seq<Link>
    requires k < |xs|
  {
    xs[..k] + xs[k + 1..]
  }

  method ListAddFront(anchor: Link, toAdd: Link, ghost xs: seq<Link>)
    requires Ring(anchor, xs) && toAdd != anchor && toAdd !in xs
    modifies toAdd`prev, toAdd`next, anchor`next, anchor.next`prev
    ensures Ring(anchor, [toAdd] + xs)
  {
    ghost var c, c' := Circle(anchor, xs), Circle(anchor, [toAdd] + xs);
    assert c[0].next == c[1];
    toAdd.next := anchor.next;
    toAdd.prev := anchor;
    anchor.next.prev := toAdd;
    anchor.next := toAdd;
    assert c' == [anchor, toAdd] + c[1..];
  }

  method ListAddBack(anchor: Link, toAdd: Link, ghost xs: seq<Link>)
    requires Ring(anchor, xs) && toAdd != anchor && toAdd !in xs
    modifies toAdd`prev, toAdd`next, anchor`prev, anchor.prev`next
    ensures Ring(anchor, xs + [toAdd])
  {
    ghost var c, c' := Circle(anchor, xs), Circle(anchor, xs + [toAdd]);
    assert c[|xs| + 1].prev == c[|xs|];
    toAdd.next := anchor;
    toAdd.prev := anchor.prev;
    anchor.prev.next := toAdd;
    anchor.prev := toAdd;
    assert c' == c[..|xs| + 1] + [toAdd, anchor];
  }

  lemma WithoutCircle(anchor: Link, xs: seq<Link>, k: nat)
    requires k < |xs| && anchor !in xs && Distinct(xs)
    ensures var c, c' := Circle(anchor, xs), Circle(anchor, Without(xs, k));
      (forall i :: 0 <= i <= k ==> c'[i] == c[i]) && (forall i :: k < i <= |xs| ==> c'[i] == c[i + 1])
    ensures anchor !in Without(xs, k) && xs[k] !in Without(xs, k) && Distinct(Without(xs, k))
  {}

  /** toDel is link k of a circle, or on its own; then nothing happens. */
  method ListDel(toDel: Link, ghost anchor: Link, ghost xs: seq<Link>, ghost k: nat)
    requires (Ring(anchor, xs) && k < |xs| && xs[k] == toDel) || Ring(toDel, [])
    modifies toDel`prev, toDel`next, toDel.prev`next, toDel.next`prev
    ensures Ring(toDel, [])
    ensures old(Ring(anchor, xs)) && k < |xs| && xs[k] == toDel ==> Ring(anchor, Without(xs, k))
  {
    ghost var c, inList := Circle(anchor, xs), Ring(anchor, xs) && k < |xs| && xs[k] == toDel;
    if inList {
      assert c[k].next == c[k + 1] == toDel && toDel.next == c[k + 2];
      assert c[k + 1].prev == c[k] && c[k + 2].prev == toDel;
    } else {
      assert Circle(toDel, [])[0].next == Circle(toDel, [])[1] && Circle(toDel, [])[1].prev == Circle(toDel, [])[0];
    }
    toDel.prev.next := toDel.next;
    toDel.next.prev := toDel.prev;
    toDel.next, toDel.prev := toDel, toDel;
    if inList { WithoutCircle(anchor, xs, k); }
  }

  /**
   Move a link from the list it is in to the front of another one, or of the same one; ys is
   what the destination holds once the link is out.
   */
  method ListMove(toMove: Link, anchor: Link, ghost src: Link, ghost xs: seq<Link>, ghost k: nat, ghost ys: seq<Link>)
    requires Ring(src, xs) && k < |xs| && xs[k] == toMove
    requires if anchor == src then ys == Without(xs, k)
             else Ring(anchor, ys) && forall l :: l in [src] + xs ==> l !in [anchor] + ys
    modifies toMove`prev, toMove`next, toMove.prev`next, toMove.next`prev, anchor`next, anchor`prev, anchor.next`prev
    ensures Ring(anchor, [toMove] + ys)
    ensures src != anchor ==> Ring(src, Without(xs, k))
  {
    ghost var c := Circle(src, xs);
    assert c[0].next == c[1] && c[k].next == c[k + 1] == toMove && c[k + 1].next == c[k + 2] && c[k + 2].prev == toMove;
    assert c[k] in [src] + xs && c[k + 2] in [src] + xs && toMove in [src] + xs;
    ListDel(toMove, src, xs, k);
    assert toMove !in Without(xs, k);
    if anchor == src {
      assert Circle(src, ys)[0].next == Circle(src, ys)[1] == if k == 0 then c[2] else c[1];
    } else {
      assert Ring(anchor, ys) && Circle(anchor, ys)[0].next == Circle(anchor, ys)[1];
      assert anchor.next in [anchor] + ys;
    }
    ListAddFront(anchor, toMove, ys);
  }

  predicate ListEmpty(l: Link)
    reads l
  {
    l.next == l
  }

  /** list_empty tells whether an anchor has elements, and whether a link is in some list. */
  lemma EmptyDecides(anchor: Link, xs: seq<Link>, k: nat)
    requires Ring(anchor, xs)
    ensures ListEmpty(anchor) <==> xs == []
    ensures k < |xs| ==> !ListEmpty(xs[k])
  {
    var c := Circle(anchor, xs);
    assert c[0].next == c[1];
    if k < |xs| {
      assert c[k + 1].next == c[k + 2];
    }
  }

  /** The links alone determine the list: one anchor cannot carry two sequences. */
  lemma {:induction false} RingUnique(anchor: Link, xs: seq<Link>, ys: seq<Link>, n: nat)
    requires Ring(anchor, xs) && Ring(anchor, ys) && n <= |xs| <= |ys|
    ensures xs[..n] == ys[..n]
    ensures n == |xs| ==> xs == ys
  {
    var c, d := Circle(anchor, xs), Circle(anchor, ys);
    if n > 0 {
      RingUnique(anchor, xs, ys, n - 1);
      assert n >= 2 ==> c[n - 1] == xs[..n - 1][n - 2] == ys[..n - 1][n - 2] == d[n - 1];
      assert c[n - 1].next == c[n] && d[n - 1].next == d[n];
      assert xs[..n] == xs[..n - 1] + [xs[n - 1]] && ys[..n] == ys[..n - 1] + [ys[n - 1]];
    }
    if n == |xs| {
      assert c[n] == d[n] && c[n].next == c[n + 1] == anchor && d[n].next == d[n + 1];
      assert |ys| == n;
      assert xs[..n] == xs && ys[..n] == ys;
    }
  }

  /** list_foreach goes through the elements from front to back. */
  method ListForeach(anchor: Link, ghost xs: seq<Link>) returns (visited: seq<Link>)
    requires Ring(anchor, xs)
    ensures visited == xs
  {
    var ptr := anchor.next;
    visited := [];
    assert Circle(anchor, xs)[0].next == Circle(anchor, xs)[1];
    while ptr != anchor
      invariant |visited| <= |xs| && visited == xs[..|visited|] && ptr == Circle(anchor, xs)[|visited| + 1]
      decreases |xs| - |visited|
    {
      visited := visited + [ptr];
      ptr := ptr.next;
    }
  }
}
