/** Sequences in heap order, and what src/heap.c does to them, on values. */
module HeapSpec {

  /** A heap item; `body` stands for the object that the item is embedded in. */
  class Item<K> {
    var index: nat
    var active: bool
    var body: K

    constructor (body: K)
      ensures this.body == body && index == 0 && !active
    {
      this.body, index, active := body, 0, false;
    }
  }

  /** What one place of the heap holds: an item, and what the comparison sees of it. */
  datatype Slot<K> = Slot(item: Item<K>, body: K)

  ghost predicate StrictWeakOrder<K(!new)>(lt: (K, K) -> bool) {
    && (forall a :: !lt(a, a))
    && (forall a, b, c :: lt(a, b) && lt(b, c) ==> lt(a, c))
    && (forall a, b, c :: !lt(a, b) && !lt(b, c) ==> !lt(a, c))
  }

  function Parent(k: nat): nat {
    if k == 0 then 0 else (k - 1) / 2
  }

  /** k lies in the subtree with its root at i. */
  predicate Below(i: nat, k: nat) {
    k == i || (k > i && Below(i, Parent(k)))
  }

  lemma {:induction false} BelowChild(i: nat, k: nat)
    requires Below(i, k) && k != i
    ensures Below(2 * i + 1, k) || Below(2 * i + 2, k)
  {
    if Parent(k) != i { BelowChild(i, Parent(k)); }
  }

  lemma {:induction false} BelowTrans(i: nat, j: nat, k: nat)
    requires Below(i, j) && Below(j, k)
    ensures Below(i, k)
  {
    if k > j { BelowTrans(i, j, Parent(k)); }
  }

  /** Siblings' subtrees are disjoint. */
  lemma {:induction false} BelowApart(i: nat, k: nat)
    ensures !(Below(2 * i + 1, k) && Below(2 * i + 2, k))
  {
    if k > 2 * i + 2 { BelowApart(i, Parent(k)); }
  }

  /** The entry at k is not less than its parent. */
  predicate Fine<K>(lt: (K, K) -> bool, s: seq<Slot<K>>, k: nat)
    requires k < |s|
  {
    k > 0 ==> !lt(s[k].body, s[Parent(k)].body)
  }

  predicate Ordered<K>(lt: (K, K) -> bool, s: seq<Slot<K>>) {
    forall k :: 0 <= k < |s| ==> Fine(lt, s, k)
  }

  /** Heap order in the subtree at i, but for the entry at i itself. */
  predicate OrderedBelow<K>(lt: (K, K) -> bool, s: seq<Slot<K>>, i: nat) {
    forall k :: 0 <= k < |s| && Below(i, k) && k != i && Parent(k) != i ==> Fine(lt, s, k)
  }

  /** In a heap, an entry's parent is not greater than its children. */
  lemma {:induction false} RootLeast<K(!new)>(lt: (K, K) -> bool, s: seq<Slot<K>>, k: nat)
    requires StrictWeakOrder(lt) && Ordered(lt, s) && k < |s|
    ensures !lt(s[k].body, s[0].body)
  {
    if k > 0 {
      RootLeast(lt, s, Parent(k));
      assert Fine(lt, s, k);
    }
  }

  // ---------- Sift-down ----------

  function Smallest<K>(lt: (K, K) -> bool, s: seq<Slot<K>>, i: nat): (m: nat)
    requires i <= |s|
    ensures m == i || (m < |s| && Parent(m) == i < m)
  {
    var l := 2 * i + 1;
    var m := if l < |s| && lt(s[l].body, s[i].body) then l else i;
    if l + 1 < |s| && lt(s[l + 1].body, s[m].body) then l + 1 else m
  }

  function Swapped<K>(s: seq<Slot<K>>, i: nat, j: nat): (r: seq<Slot<K>>)
    requires i < |s| && j < |s|
    ensures |r| == |s|
  {
    s[i := s[j]][j := s[i]]
  }

  function Sifted<K>(lt: (K, K) -> bool, s: seq<Slot<K>>, i: nat): (r: seq<Slot<K>>)
    requires i <= |s|
    ensures |r| == |s|
    decreases |s| - i
  {
    var m := Smallest(lt, s, i);
    if m == i then s else Sifted(lt, Swapped(s, i, m), m)
  }

  /** No item is in two places. */
  ghost predicate DistinctItems<K>(s: seq<Slot<K>>) {
    forall j, k :: 0 <= j < k < |s| ==> s[j].item != s[k].item
  }

  ghost function ItemsOf<K>(s: seq<Slot<K>>): set<Item<K>> {
    set x | x in s :: x.item
  }

  lemma SwappedItems<K>(s: seq<Slot<K>>, i: nat, j: nat)
    requires i < |s| && j < |s|
    ensures DistinctItems(s) ==> DistinctItems(Swapped(s, i, j))
    ensures ItemsOf(Swapped(s, i, j)) == ItemsOf(s)
  {
    var r := Swapped(s, i, j);
    forall x | x in ItemsOf(s)
      ensures x in ItemsOf(r)
    {
      var k :| 0 <= k < |s| && s[k].item == x;
      assert r[if k == i then j else if k == j then i else k] in r;
    }
    forall x | x in ItemsOf(r)
      ensures x in ItemsOf(s)
    {
      var k :| 0 <= k < |s| && r[k].item == x;
      assert s[if k == i then j else if k == j then i else k] in s;
    }
  }

  lemma {:induction false} RaisedItems<K>(lt: (K, K) -> bool, s: seq<Slot<K>>, i: nat)
    requires i < |s|
    ensures DistinctItems(s) ==> DistinctItems(Raised(lt, s, i))
    ensures ItemsOf(Raised(lt, s, i)) == ItemsOf(s)
    decreases i
  {
    if i > 0 && lt(s[i].body, s[Parent(i)].body) {
      SwappedItems(s, i, Parent(i));
      RaisedItems(lt, Swapped(s, i, Parent(i)), Parent(i));
    }
  }

  lemma SwappedMultiset<K>(s: seq<Slot<K>>, i: nat, j: nat)
    requires i < |s| && j < |s|
    ensures multiset(Swapped(s, i, j)) == multiset(s)
  {}

  /** Sifting permutes the subtree at i and leaves the rest alone; its new root is the old one or a lesser child. */
  lemma {:induction false} SiftedPermutes<K(!new)>(lt: (K, K) -> bool, s: seq<Slot<K>>, i: nat)
    requires i <= |s|
    ensures multiset(Sifted(lt, s, i)) == multiset(s)
    ensures forall k :: 0 <= k < |s| && !Below(i, k) ==> Sifted(lt, s, i)[k] == s[k]
    ensures i < |s| ==> Sifted(lt, s, i)[i] == s[Smallest(lt, s, i)]
    decreases |s| - i
  {
    var m := Smallest(lt, s, i);
    if m != i {
      var s' := Swapped(s, i, m);
      SwappedMultiset(s, i, m);
      SiftedPermutes(lt, s', m);
      forall k | 0 <= k < |s| && !Below(i, k)
        ensures Sifted(lt, s, i)[k] == s[k]
      {
        if Below(m, k) { BelowTrans(i, m, k); }
      }
      assert !Below(m, i);
    }
  }

  /** If both child subtrees are heaps, the subtree at i becomes one. */
  lemma {:induction false} SiftedOrdered<K(!new)>(lt: (K, K) -> bool, s: seq<Slot<K>>, i: nat)
    requires StrictWeakOrder(lt) && i <= |s| && OrderedBelow(lt, s, i)
    ensures forall k :: 0 <= k < |s| && Below(i, k) && k != i ==> Fine(lt, Sifted(lt, s, i), k)
    decreases |s| - i
  {
    var m := Smallest(lt, s, i);
    if m != i {
      var s' := Swapped(s, i, m);
      var r := Sifted(lt, s', m);
      forall k | 0 <= k < |s| && Below(m, k) && k != m && Parent(k) != m
        ensures Fine(lt, s', k)
      {
        BelowTrans(i, m, k);
        assert Below(m, Parent(k));
        assert Fine(lt, s, k);
      }
      SiftedOrdered(lt, s', m);
      SiftedPermutes(lt, s', m);
      forall k | 0 <= k < |s| && Below(i, k) && k != i
        ensures Fine(lt, r, k)
      {
        BelowChild(i, k);
        BelowApart(i, k);
        BelowApart(i, Parent(k));
        SiftedStep(lt, s, i, k);
      }
    }
  }

  lemma SiftedStep<K(!new)>(lt: (K, K) -> bool, s: seq<Slot<K>>, i: nat, k: nat)
    requires StrictWeakOrder(lt) && i < |s| && OrderedBelow(lt, s, i) && k < |s| && Below(i, k) && k != i
    requires var m := Smallest(lt, s, i); m != i && (Below(m, k) && k != m ==> Fine(lt, Sifted(lt, s, i), k))
    ensures Fine(lt, Sifted(lt, s, i), k)
  {
    var m := Smallest(lt, s, i);
    var s' := Swapped(s, i, m);
    SiftedPermutes(lt, s', m);
    assert !Below(m, i);
    if k == m {
      var m2 := Smallest(lt, s', m);
      if m2 != m {
        BelowTrans(i, m, m2);
        assert Fine(lt, s, m2);
      }
    } else if !Below(m, k) {
      assert !Below(m, Parent(k)) || Parent(k) == m;
      if Parent(k) != i { assert Fine(lt, s, k); }
    }
  }

  // ---------- Indices ----------

  /**
   From items at s with indices x to items at s' with indices x': a place that another item has
   come to has that item know it; where the item is the same, so is its index.
   */
  ghost predicate Moved<K>(s: seq<Slot<K>>, x: seq<nat>, s': seq<Slot<K>>, x': seq<nat>) {
    && |s| == |x| == |s'| == |x'|
    && forall k :: 0 <= k < |s| ==> x'[k] == if s'[k].item == s[k].item then x[k] else k
  }

  /** An exchange, and then a rearrangement that leaves place i alone. */
  lemma MovedTogether<K>(s: seq<Slot<K>>, x: seq<nat>, s1: seq<Slot<K>>, x1: seq<nat>, s2: seq<Slot<K>>, x2: seq<nat>, i: nat, m: nat)
    requires i < |s| && m < |s| && i != m && s1 == Swapped(s, i, m) && DistinctItems(s) && DistinctItems(s2)
    requires Moved(s, x, s1, x1) && Moved(s1, x1, s2, x2) && s2[i] == s1[i]
    ensures Moved(s, x, s2, x2)
  {
    assert s[i].item != s[m].item && s2[i].item != s2[m].item;
  }

  /** All items know their places. */
  ghost predicate Right(x: seq<nat>) {
    forall k :: 0 <= k < |x| ==> x[k] == k
  }

  lemma ExtractedIndices<K(!new)>(lt: (K, K) -> bool, s: seq<Slot<K>>, x: seq<nat>, i: nat, x': seq<nat>)
    requires i < |s| == |x| && DistinctItems(s) && Right(x)
    requires var f := Filled(s, i); Moved(f, Filled(x, i), Sifted(lt, f, i), x')
    ensures Right(x') <==> i == |s| - 1 || Smallest(lt, Filled(s, i), i) != i
  {
    var f := Filled(s, i);
    FilledItems(s, i);
    SiftedPermutes(lt, f, i);
    assert forall k :: 0 <= k < |f| && k != i ==> Filled(x, i)[k] == k;
    if i < |f| {
      assert x'[i] == i <==> Smallest(lt, f, i) != i;
    }
  }

  // ---------- Sift-up ----------

  function Raised<K>(lt: (K, K) -> bool, s: seq<Slot<K>>, i: nat): (r: seq<Slot<K>>)
    requires i < |s|
    ensures |r| == |s|
    decreases i
  {
    if i > 0 && lt(s[i].body, s[Parent(i)].body) then Raised(lt, Swapped(s, i, Parent(i)), Parent(i)) else s
  }

  /** A heap, were it not that the entry at i may be less than its parent. */
  predicate OrderedBut<K>(lt: (K, K) -> bool, s: seq<Slot<K>>, i: nat)
    requires i < |s|
  {
    && (forall k :: 0 <= k < |s| && k != i ==> Fine(lt, s, k))
    && (forall k :: 0 < k < |s| && Parent(k) == i > 0 ==> !lt(s[k].body, s[Parent(i)].body))
  }

  lemma {:induction false} RaisedOrdered<K(!new)>(lt: (K, K) -> bool, s: seq<Slot<K>>, i: nat)
    requires StrictWeakOrder(lt) && i < |s| && OrderedBut(lt, s, i)
    ensures Ordered(lt, Raised(lt, s, i)) && multiset(Raised(lt, s, i)) == multiset(s)
    decreases i
  {
    var p := Parent(i);
    if i > 0 && lt(s[i].body, s[p].body) {
      var s' := Swapped(s, i, p);
      SwappedMultiset(s, i, p);
      forall k | 0 <= k < |s| && k != p
        ensures Fine(lt, s', k)
      {
        assert k != i ==> Fine(lt, s, k);
      }
      assert Fine(lt, s, p);
      forall k | 0 < k < |s| && Parent(k) == p > 0
        ensures !lt(s'[k].body, s'[Parent(p)].body)
      {
        assert k != i ==> Fine(lt, s, k);
      }
      RaisedOrdered(lt, s', p);
    }
  }

  // ---------- Insertion ----------

  function Flip<K>(lt: (K, K) -> bool): (K, K) -> bool {
    (a, b) => lt(b, a)
  }

  /** heap_insert with the operands of its comparison the other way round. */
  function Inserted<K>(lt: (K, K) -> bool, s: seq<Slot<K>>, x: Slot<K>): seq<Slot<K>> {
    Raised(lt, s + [x], |s|)
  }

  lemma InsertedOrdered<K(!new)>(lt: (K, K) -> bool, s: seq<Slot<K>>, x: Slot<K>)
    requires StrictWeakOrder(lt) && Ordered(lt, s)
    ensures Ordered(lt, Inserted(lt, s, x)) && multiset(Inserted(lt, s, x)) == multiset(s) + multiset{x}
  {
    forall k | 0 <= k < |s|
      ensures Fine(lt, s + [x], k)
    {
      assert Fine(lt, s, k);
    }
    RaisedOrdered(lt, s + [x], |s|);
  }

  /** heap_insert as written compares the wrong way round: it keeps a heap in descending order. */
  function InsertedAsWritten<K>(lt: (K, K) -> bool, s: seq<Slot<K>>, x: Slot<K>): seq<Slot<K>> {
    Inserted(Flip(lt), s, x)
  }

  lemma {:induction false} RaisedToRoot<K>(lt: (K, K) -> bool, s: seq<Slot<K>>, i: nat)
    requires i < |s| && forall k :: 0 <= k < i && Below(k, i) ==> lt(s[i].body, s[k].body)
    ensures Raised(lt, s, i)[0] == s[i]
    decreases i
  {
    if i > 0 {
      var p := Parent(i);
      var s' := Swapped(s, i, p);
      forall k | 0 <= k < p && Below(k, p)
        ensures lt(s'[p].body, s'[k].body)
      {
        assert Below(k, i);
      }
      assert Below(p, i);
      RaisedToRoot(lt, s', p);
    }
  }

  lemma {:induction false} AncestorsLeast<K(!new)>(lt: (K, K) -> bool, s: seq<Slot<K>>, j: nat, k: nat)
    requires StrictWeakOrder(lt) && Ordered(lt, s) && k < |s| && Below(j, k)
    ensures j <= k && !lt(s[k].body, s[j].body)
  {
    if k > j {
      AncestorsLeast(lt, s, j, Parent(k));
      assert Fine(lt, s, k);
    }
  }

  /** Exactly when the text keeps a min-heap: the heap was empty, or the new entry ties with its parent-to-be. */
  lemma InsertedAsWrittenOrdered<K(!new)>(lt: (K, K) -> bool, s: seq<Slot<K>>, x: Slot<K>)
    requires StrictWeakOrder(lt) && Ordered(lt, s)
    ensures Ordered(lt, InsertedAsWritten(lt, s, x)) <==>
      s == [] || (var p := s[Parent(|s|)]; !lt(p.body, x.body) && !lt(x.body, p.body))
  {
    var n, t := |s|, s + [x];
    var r := InsertedAsWritten(lt, s, x);
    if n > 0 {
      var p := Parent(n);
      assert t[p] == s[p];
      if lt(s[p].body, x.body) {
        forall k | 0 <= k < n && Below(k, n)
          ensures lt(t[k].body, t[n].body)
        {
          AncestorsLeast(lt, s, k, p);
        }
        RaisedToRoot(Flip(lt), t, n);
        RaisedMultiset(Flip(lt), t, n);
        assert t[p] in multiset(t) && t[p] in multiset(r);
        var k :| 0 <= k < |r| && r[k] == t[p];
        if Ordered(lt, r) { RootLeast(lt, r, k); }
      } else {
        assert r == t;
        forall k | 0 <= k < n
          ensures Fine(lt, t, k)
        {
          assert Fine(lt, s, k);
        }
        assert Ordered(lt, t) <==> Fine(lt, t, n);
      }
    }
  }

  lemma {:induction false} RaisedMultiset<K>(lt: (K, K) -> bool, s: seq<Slot<K>>, i: nat)
    requires i < |s|
    ensures multiset(Raised(lt, s, i)) == multiset(s)
    decreases i
  {
    if i > 0 && lt(s[i].body, s[Parent(i)].body) {
      SwappedMultiset(s, i, Parent(i));
      RaisedMultiset(lt, Swapped(s, i, Parent(i)), Parent(i));
    }
  }

  // ---------- Removal ----------

  /** The last entry has taken the place of the one at i. */
  function Filled<T>(s: seq<T>, i: nat): (r: seq<T>)
    requires i < |s|
    ensures |r| == |s| - 1
  {
    var n := |s| - 1;
    if i == n then s[..n] else s[..n][i := s[n]]
  }

  lemma FilledMultiset<K>(s: seq<Slot<K>>, i: nat)
    requires i < |s|
    ensures multiset(Filled(s, i)) == multiset(s) - multiset{s[i]}
  {
    assert s == s[..|s| - 1] + [s[|s| - 1]];
  }

  lemma FilledItems<K>(s: seq<Slot<K>>, i: nat)
    requires i < |s| && DistinctItems(s)
    ensures DistinctItems(Filled(s, i)) && ItemsOf(Filled(s, i)) == ItemsOf(s) - {s[i].item}
  {
    var f, n := Filled(s, i), |s| - 1;
    forall x | x in ItemsOf(s) - {s[i].item}
      ensures x in ItemsOf(f)
    {
      var k :| 0 <= k < |s| && s[k].item == x;
      assert f[if k == n then i else k] in f;
    }
    forall x | x in ItemsOf(f)
      ensures x in ItemsOf(s) - {s[i].item}
    {
      var k :| 0 <= k < |f| && f[k].item == x;
      assert s[if k == i then n else k] in s;
    }
  }

  function RemovedAsWritten<K>(lt: (K, K) -> bool, s: seq<Slot<K>>, i: nat): seq<Slot<K>>
    requires i < |s|
  {
    Sifted(lt, Filled(s, i), i)
  }

  /** With the missing sift-up. */
  function Removed<K>(lt: (K, K) -> bool, s: seq<Slot<K>>, i: nat): seq<Slot<K>>
    requires i < |s|
  {
    var f := Filled(s, i);
    if 0 < i < |f| && lt(f[i].body, f[Parent(i)].body) then Raised(lt, f, i) else Sifted(lt, f, i)
  }

  lemma FilledOrdered<K(!new)>(lt: (K, K) -> bool, s: seq<Slot<K>>, i: nat)
    requires StrictWeakOrder(lt) && Ordered(lt, s) && i < |s|
    ensures forall k :: 0 <= k < |s| - 1 && k != i && (Parent(k) != i || k == 0) ==> Fine(lt, Filled(s, i), k)
    ensures forall k :: 0 < k < |s| - 1 && Parent(k) == i > 0 ==> !lt(Filled(s, i)[k].body, s[Parent(i)].body)
  {
    var f := Filled(s, i);
    forall k | 0 <= k < |f| && k != i && (Parent(k) != i || k == 0)
      ensures Fine(lt, f, k)
    {
      assert Fine(lt, s, k);
    }
    forall k | 0 < k < |f| && Parent(k) == i > 0
      ensures !lt(f[k].body, s[Parent(i)].body)
    {
      assert Fine(lt, s, k) && Fine(lt, s, i);
    }
  }

  /** Exactly when the text keeps a heap: unless an interior removal moves an entry below a greater one. */
  lemma RemovedAsWrittenOrdered<K(!new)>(lt: (K, K) -> bool, s: seq<Slot<K>>, i: nat)
    requires StrictWeakOrder(lt) && Ordered(lt, s) && i < |s|
    ensures Ordered(lt, RemovedAsWritten(lt, s, i)) <==>
      i == |s| - 1 || i == 0 || !lt(s[|s| - 1].body, s[Parent(i)].body)
    ensures multiset(RemovedAsWritten(lt, s, i)) == multiset(s) - multiset{s[i]}
  {
    var f := Filled(s, i);
    var r, m := Sifted(lt, f, i), Smallest(lt, f, i);
    FilledMultiset(s, i);
    FilledOrdered(lt, s, i);
    SiftedOrdered(lt, f, i);
    SiftedPermutes(lt, f, i);
    forall k | 0 <= k < |f| && k != i
      ensures Fine(lt, r, k)
    {
      if !Below(i, k) && k > 0 {
        assert !Below(i, Parent(k)) && Fine(lt, f, k);
      }
    }
    if i < |f| {
      assert Ordered(lt, r) <==> Fine(lt, r, i);
      assert i > 0 ==> !Below(i, Parent(i)) && r[Parent(i)] == s[Parent(i)];
    }
  }

  lemma RemovedOrdered<K(!new)>(lt: (K, K) -> bool, s: seq<Slot<K>>, i: nat)
    requires StrictWeakOrder(lt) && Ordered(lt, s) && i < |s|
    ensures Ordered(lt, Removed(lt, s, i)) && multiset(Removed(lt, s, i)) == multiset(s) - multiset{s[i]}
  {
    var f := Filled(s, i);
    RemovedAsWrittenOrdered(lt, s, i);
    if 0 < i < |f| && lt(f[i].body, f[Parent(i)].body) {
      FilledMultiset(s, i);
      FilledOrdered(lt, s, i);
      forall k | 0 <= k < |f| && k != i
        ensures Fine(lt, f, k)
      {
        if k > 0 && Parent(k) == i { assert !lt(f[k].body, s[Parent(i)].body); }
      }
      RaisedOrdered(lt, f, i);
    }
  }

  // ---------- Draining ----------

  /** The order in which heap_remove_first, as written, hands out the entries. */
  function Drained<K>(lt: (K, K) -> bool, s: seq<Slot<K>>): seq<Slot<K>>
    decreases |s|
  {
    if s == [] then [] else [s[0]] + Drained(lt, RemovedAsWritten(lt, s, 0))
  }

  predicate Ascending<K>(lt: (K, K) -> bool, s: seq<Slot<K>>) {
    forall i, j :: 0 <= i < j < |s| ==> !lt(s[j].body, s[i].body)
  }

  lemma {:induction false} DrainedAscending<K(!new)>(lt: (K, K) -> bool, s: seq<Slot<K>>)
    requires StrictWeakOrder(lt) && Ordered(lt, s)
    ensures Ascending(lt, Drained(lt, s)) && multiset(Drained(lt, s)) == multiset(s)
    decreases |s|
  {
    if s != [] {
      var r := RemovedAsWritten(lt, s, 0);
      var d := Drained(lt, r);
      RemovedAsWrittenOrdered(lt, s, 0);
      DrainedAscending(lt, r);
      DrainedFirst(lt, s, d);
    }
  }

  lemma DrainedFirst<K(!new)>(lt: (K, K) -> bool, s: seq<Slot<K>>, d: seq<Slot<K>>)
    requires StrictWeakOrder(lt) && Ordered(lt, s) && s != []
    requires Ascending(lt, d) && multiset(d) == multiset(s) - multiset{s[0]}
    ensures Ascending(lt, [s[0]] + d) && multiset([s[0]] + d) == multiset(s)
  {
    LeastOfAll(lt, s, d);
    assert s[0] in multiset(s);
  }

  lemma LeastOfAll<K(!new)>(lt: (K, K) -> bool, s: seq<Slot<K>>, d: seq<Slot<K>>)
    requires StrictWeakOrder(lt) && Ordered(lt, s) && s != [] && multiset(d) <= multiset(s)
    ensures forall j :: 0 <= j < |d| ==> !lt(d[j].body, s[0].body)
  {
    forall j | 0 <= j < |d|
      ensures !lt(d[j].body, s[0].body)
    {
      assert d[j] in multiset(d) && d[j] in multiset(s);
      var k :| 0 <= k < |s| && s[k] == d[j];
      RootLeast(lt, s, k);
    }
  }

  // ---------- Whole runs ----------

  datatype Op<K> = Put(x: Slot<K>) | Take(i: nat)

  function Run<K>(lt: (K, K) -> bool, ops: seq<Op<K>>): seq<Slot<K>> {
    if ops == [] then []
    else
      var s := Run(lt, ops[..|ops| - 1]);
      match ops[|ops| - 1]
      case Put(x) => Inserted(lt, s, x)
      case Take(i) => if i < |s| then Removed(lt, s, i) else s
  }

  ghost function PutIn<K>(ops: seq<Op<K>>): multiset<Slot<K>> {
    if ops == [] then multiset{}
    else
      var o := ops[|ops| - 1];
      PutIn(ops[..|ops| - 1]) + if o.Put? then multiset{o.x} else multiset{}
  }

  ghost function TakenOut<K>(lt: (K, K) -> bool, ops: seq<Op<K>>): multiset<Slot<K>> {
    if ops == [] then multiset{}
    else
      var o, s := ops[|ops| - 1], Run(lt, ops[..|ops| - 1]);
      TakenOut(lt, ops[..|ops| - 1]) + if o.Take? && o.i < |s| then multiset{s[o.i]} else multiset{}
  }

  /** After any sequence of insertions and of removals at any index there is heap order, and nothing is lost. */
  lemma {:induction false} RunKeeps<K(!new)>(lt: (K, K) -> bool, ops: seq<Op<K>>)
    requires StrictWeakOrder(lt)
    ensures Ordered(lt, Run(lt, ops))
    ensures multiset(Run(lt, ops)) + TakenOut(lt, ops) == PutIn(ops)
  {
    if ops != [] {
      var before := ops[..|ops| - 1];
      var s := Run(lt, before);
      RunKeeps(lt, before);
      match ops[|ops| - 1] {
        case Put(x) => InsertedOrdered(lt, s, x);
        case Take(i) =>
          if i < |s| {
            RemovedOrdered(lt, s, i);
            assert s[i] in multiset(s);
          }
      }
    }
  }

  // ---------- Where the text fails ----------

  predicate Less(a: int, b: int) { a < b }

  function Slots(items: seq<Item<int>>, bodies: seq<int>): seq<Slot<int>>
    requires |items| == |bodies|
  {
    seq(|items|, k requires 0 <= k < |items| => Slot(items[k], bodies[k]))
  }

  /** 2 goes above 1. */
  lemma InsertFails(a: Item<int>, b: Item<int>)
    ensures StrictWeakOrder(Less) && Ordered(Less, [Slot(a, 1)])
    ensures !Ordered(Less, InsertedAsWritten(Less, [Slot(a, 1)], Slot(b, 2)))
  {
    InsertedAsWrittenOrdered(Less, [Slot(a, 1)], Slot(b, 2));
  }

  /** 3 takes the place of 6, below 5, and stays there. */
  lemma RemoveFails(items: seq<Item<int>>)
    requires |items| == 6
    ensures var s := Slots(items, [1, 5, 2, 6, 7, 3]);
      StrictWeakOrder(Less) && Ordered(Less, s) && !Ordered(Less, RemovedAsWritten(Less, s, 3))
  {
    var s := Slots(items, [1, 5, 2, 6, 7, 3]);
    assert forall k :: 0 <= k < 6 ==> Fine(Less, s, k);
    RemovedAsWrittenOrdered(Less, s, 3);
  }

  /** An item that fills a gap without children stays there, so that nobody tells it its index. */
  lemma ChildlessStays<K>(lt: (K, K) -> bool, s: seq<Slot<K>>, i: nat)
    requires i < |s| - 1 <= 2 * i + 1
    ensures Smallest(lt, Filled(s, i), i) == i
  {}
}
