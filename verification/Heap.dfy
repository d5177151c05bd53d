/**
 The indexed binary heap of src/heap.c: an array of items, each of which knows its own index.
 Methods named ...AsWritten follow the text where it is wrong; the ones beside them repair it.
 */
module Heap {
  import opened HeapSpec

  const DEFAULT_SIZE: nat := 200
  const DEFAULT_INCREASE_SIZE: nat := 100

  class Heap<K(!new)> {
    var maxSize: nat
    var size: nat
    const lt: (K, K) -> bool
    var items: array<Item?<K>>

    ghost predicate Shaped()
      reads this, items
    {
      && size <= maxSize == items.Length
      && (forall k :: 0 <= k < size ==> items[k] != null)
      && (forall j, k :: 0 <= j < k < size ==> items[j] != items[k])
    }

    ghost function Stored(): (r: set<Item<K>>)
      reads this, items
    {
      set k | 0 <= k < size && k < items.Length && items[k] != null :: items[k]
    }

    ghost function Contents(): (s: seq<Slot<K>>)
      requires Shaped()
      reads this, items, Stored()
      ensures |s| == size && forall k :: 0 <= k < size ==> s[k] == Slot(items[k], items[k].body)
    {
      seq(size, k requires 0 <= k < size && Shaped() reads this, items, Stored() => Slot(items[k], items[k].body))
    }

    ghost predicate IndexedAt(k: nat)
      requires Shaped() && k < size
      reads this, items, Stored()
    {
      items[k].index == k
    }

    /** Every stored item knows where it is and that it is stored. */
    ghost predicate Indexed()
      requires Shaped()
      reads this, items, Stored()
    {
      forall k :: 0 <= k < size ==> IndexedAt(k) && items[k].active
    }

    ghost predicate Valid()
      reads this, items, Stored()
    {
      StrictWeakOrder(lt) && Shaped() && Ordered(lt, Contents()) && Indexed()
    }

    /** heap_init, when memory is available. */
    constructor (maxSize: nat, lt: (K, K) -> bool)
      ensures Shaped() && Contents() == [] && this.lt == lt && fresh(items)
      ensures this.maxSize == if maxSize == 0 then DEFAULT_SIZE else maxSize
    {
      var m := if maxSize == 0 then DEFAULT_SIZE else maxSize;
      this.maxSize := m;
      size := 0;
      this.lt := lt;
      items := new Item?<K>[m](_ => null);
    }

    ghost function Indices(): (x: seq<nat>)
      requires Shaped()
      reads this, items, Stored()
      ensures |x| == size && forall k :: 0 <= k < size ==> x[k] == items[k].index
    {
      seq(size, k requires 0 <= k < size && Shaped() reads this, items, Stored() => items[k].index)
    }

    /** The exchange in heap_heapify. */
    method Exchange(i: nat, smallest: nat)
      requires Shaped() && i < smallest < size
      modifies items, Stored()`index
      ensures Shaped() && Contents() == Swapped(old(Contents()), i, smallest) && Stored() == old(Stored())
      ensures Moved(old(Contents()), old(Indices()), Contents(), Indices())
    {
      StoredIsItems();
      SwappedItems(Contents(), i, smallest);
      var tmp := items[smallest];
      items[smallest] := items[i];
      items[smallest].index := smallest;
      items[i] := tmp;
      items[i].index := i;
      assert forall k :: 0 <= k < size && k != i && k != smallest ==> items[k] == old(items[k]) && items[k].index == old(items[k].index);
      assert Contents() == Swapped(old(Contents()), i, smallest);
      StoredIsItems();
    }

    /** heap_heapify. An item that changes its place has its index set; the others keep theirs. */
    method Heapify(i: nat)
      requires Shaped() && i <= size
      modifies items, Stored()`index
      ensures Shaped() && Contents() == Sifted(lt, old(Contents()), i) && Stored() == old(Stored())
      ensures Moved(old(Contents()), old(Indices()), Contents(), Indices())
      decreases size - i
    {
      var l, smallest := 2 * i + 1, i;
      var r := l + 1;
      if l < size && lt(items[l].body, items[i].body) {
        smallest := l;
      } else {
        smallest := i;
      }
      if r < size && lt(items[r].body, items[smallest].body) {
        smallest := r;
      }
      assert smallest == Smallest(lt, Contents(), i);
      if smallest == i {
        return;
      }
      ghost var s, x := Contents(), Indices();
      StoredIsItems();
      Exchange(i, smallest);
      ghost var s1, x1 := Contents(), Indices();
      Heapify(smallest);
      SiftedPermutes(lt, s1, smallest);
      assert !Below(smallest, i);
      StoredIsItems();
      MovedTogether(s, x, s1, x1, Contents(), Indices(), i, smallest);
    }

    /** heap_increase_size; `alloc` says whether the allocator has room. */
    method IncreaseSize(increase: nat, alloc: bool) returns (ret: int)
      requires Shaped()
      modifies this`items, this`maxSize
      ensures ret == if alloc then 0 else -1
      ensures Shaped() && Contents() == old(Contents()) && Stored() == old(Stored())
      ensures if alloc then maxSize == old(maxSize) + increase && fresh(items) else items == old(items)
    {
      if !alloc {
        return -1;
      }
      var newMap := new Item?<K>[maxSize + increase](_ => null);
      forall k | 0 <= k < size {
        newMap[k] := items[k];
      }
      items := newMap;
      maxSize := maxSize + increase;
      return 0;
    }

    /** The places of v hold what v says, except for the hole. */
    ghost predicate Holds(v: seq<Slot<K>>, hole: nat)
      reads this, items, ItemsOf(v)
    {
      |v| <= items.Length && forall k :: 0 <= k < |v| && k != hole ==> items[k] == v[k].item && v[k].item.body == v[k].body
    }

    /** Whoever is not at the hole knows where v has it. */
    ghost predicate Knows(v: seq<Slot<K>>, hole: nat)
      reads ItemsOf(v)
    {
      forall k :: 0 <= k < |v| && k != hole ==> v[k].item.index == k
    }

    /** The parent's item moves down into the hole. */
    method MoveParent(hole: nat, parent: nat, ghost v: seq<Slot<K>>)
      requires hole < |v| && parent < |v| && hole != parent && DistinctItems(v) && Holds(v, hole)
      modifies items, ItemsOf(v)`index
      ensures Holds(Swapped(v, hole, parent), parent)
      ensures old(Knows(v, hole)) ==> Knows(Swapped(v, hole, parent), parent)
      ensures forall k :: |v| <= k < items.Length ==> items[k] == old(items[k])
    {
      assert v[parent] in v;
      items[hole] := items[parent];
      items[hole].index := hole;
    }

    /**
     The loop of heap_insert: parents move down as long as the item goes before them. heap_insert
     as written has the operands of the comparison reversed, that is `before` is Flip(lt).
     */
    method MoveUp(start: nat, item: Item<K>, before: (K, K) -> bool, ghost v: seq<Slot<K>>)
      requires start < |v| && v[start] == Slot(item, item.body) && DistinctItems(v) && Holds(v, start)
      modifies items, ItemsOf(v)`index
      ensures Holds(Raised(before, v, start), |v|)
      ensures old(Knows(v, start)) ==> Knows(Raised(before, v, start), |v|)
      ensures forall k :: |v| <= k < items.Length ==> items[k] == old(items[k])
    {
      var i: nat := start;
      var parent: nat := Parent(i);
      ghost var w := v;
      while i > 0 && before(item.body, items[parent].body)
        invariant i < |v| == |w| && parent == Parent(i) && w[i] == Slot(item, item.body) && Holds(w, i)
        invariant Raised(before, w, i) == Raised(before, v, start)
        invariant DistinctItems(w) && ItemsOf(w) == ItemsOf(v)
        invariant old(Knows(v, start)) ==> Knows(w, i)
        invariant forall k :: |v| <= k < items.Length ==> items[k] == old(items[k])
      {
        assert w[parent].item in ItemsOf(w) && w[parent] == Slot(items[parent], items[parent].body);
        SwappedItems(w, i, parent);
        MoveParent(i, parent, w);
        w := Swapped(w, i, parent);
        i := parent;
        parent := Parent(i);
      }
      assert w[i].item in ItemsOf(w);
      items[i] := item;
      item.index := i;
      assert w == Raised(before, v, start);
    }

    lemma StoredIsItems()
      requires Shaped()
      ensures Stored() == ItemsOf(Contents()) && DistinctItems(Contents())
    {
      forall x | x in Stored()
        ensures x in ItemsOf(Contents())
      {
        var k :| 0 <= k < size && items[k] == x;
        assert Contents()[k] in Contents();
      }
    }

    lemma IndexedIs()
      requires Shaped()
      ensures Indexed() <==> Right(Indices()) && forall x :: x in Stored() ==> x.active
    {
      assert forall k :: 0 <= k < size ==> items[k] in Stored() && (IndexedAt(k) <==> Indices()[k] == k);
    }

    /** An array that holds what v says is the heap with contents v. */
    lemma Completed(v: seq<Slot<K>>)
      requires size == |v| <= items.Length == maxSize && Holds(v, |v|) && DistinctItems(v)
      requires Knows(v, |v|) && forall x :: x in ItemsOf(v) ==> x.active
      ensures Shaped() && Contents() == v && Stored() == ItemsOf(v) && Indexed()
    {
      assert forall k :: 0 <= k < size ==> items[k] == v[k].item && v[k].item in ItemsOf(v);
      assert Contents() == v;
      StoredIsItems();
      assert forall k :: 0 <= k < size ==> IndexedAt(k);
    }

    lemma WasComplete()
      requires Shaped() && Indexed()
      ensures var v := Contents();
        && Holds(v, |v|) && DistinctItems(v) && Stored() == ItemsOf(v)
        && Knows(v, |v|) && (forall x :: x in ItemsOf(v) ==> x.active)
    {
      StoredIsItems();
      assert forall k :: 0 <= k < size ==> IndexedAt(k);
    }

    /** What heap_insert does once there is room. */
    method Place(item: Item<K>, before: (K, K) -> bool)
      requires Shaped() && Indexed() && item !in Stored() && size < maxSize
      modifies this`size, items, Stored()`index, item`index, item`active
      ensures Shaped() && Indexed() && Contents() == Inserted(before, old(Contents()), Slot(item, item.body))
      ensures Stored() == old(Stored()) + {item}
    {
      ghost var s, x := Contents(), Slot(item, item.body);
      ghost var v := s + [x];
      WasComplete();
      assert ItemsOf(v) == ItemsOf(s) + {item};
      RaisedItems(before, v, |s|);
      MoveUp(size, item, before, v);
      size := size + 1;
      item.active := true;
      Completed(Raised(before, v, |s|));
    }

    /** heap_insert; only the comparison handed to the loop differs between the two below. */
    method InsertBefore(item: Item<K>, before: (K, K) -> bool, alloc: bool) returns (ret: int)
      requires Shaped() && Indexed() && item !in Stored()
      modifies this`items, this`maxSize, this`size, items, Stored()`index, item`index, item`active
      ensures fresh(items) || items == old(items)
      ensures ret == if old(size) < old(maxSize) || alloc then 0 else -1
      ensures maxSize == old(maxSize) + if old(size) >= old(maxSize) && alloc then DEFAULT_INCREASE_SIZE else 0
      ensures ret == 0 ==> Shaped() && Indexed() && Contents() == Inserted(before, old(Contents()), Slot(item, item.body))
      ensures ret == 0 ==> Stored() == old(Stored()) + {item}
      ensures ret == -1 ==> Shaped() && Indexed() && Contents() == old(Contents()) && item.active == old(item.active) && item.index == old(item.index)
    {
      if size >= maxSize {
        ret := IncreaseSize(DEFAULT_INCREASE_SIZE, alloc);
        if ret != 0 {
          return -1;
        }
      }
      Place(item, before);
      ret := 0;
    }

    /** heap_insert as written: after it the heap is valid exactly if it was empty or the item ties with its parent. */
    method InsertAsWritten(item: Item<K>, alloc: bool) returns (ret: int)
      requires Valid() && item !in Stored()
      modifies this`items, this`maxSize, this`size, items, Stored()`index, item`index, item`active
      ensures ret == if old(size) < old(maxSize) || alloc then 0 else -1
      ensures maxSize == old(maxSize) + if old(size) >= old(maxSize) && alloc then DEFAULT_INCREASE_SIZE else 0
      ensures ret == 0 ==> Shaped() && Indexed() && Stored() == old(Stored()) + {item}
      ensures ret == 0 ==> Contents() == InsertedAsWritten(lt, old(Contents()), Slot(item, item.body))
      ensures ret == 0 ==>
        var s := old(Contents());
        Valid() <==> s == [] || (var p := s[Parent(|s|)].body; !lt(p, item.body) && !lt(item.body, p))
      ensures ret == -1 ==> Valid() && Contents() == old(Contents())
    {
      InsertedAsWrittenOrdered(lt, Contents(), Slot(item, item.body));
      ret := InsertBefore(item, Flip(lt), alloc);
    }

    /** heap_insert with the comparison repaired. */
    method Insert(item: Item<K>, alloc: bool) returns (ret: int)
      requires Valid() && item !in Stored()
      modifies this`items, this`maxSize, this`size, items, Stored()`index, item`index, item`active
      ensures Valid() && (fresh(items) || items == old(items)) && forall x :: x in Stored() ==> x.active
      ensures ret == if old(size) < old(maxSize) || alloc then 0 else -1
      ensures maxSize == old(maxSize) + if old(size) >= old(maxSize) && alloc then DEFAULT_INCREASE_SIZE else 0
      ensures ret == 0 ==> Stored() == old(Stored()) + {item}
      ensures ret == 0 ==> multiset(Contents()) == multiset(old(Contents())) + multiset{Slot(item, item.body)}
      ensures ret == -1 ==> Contents() == old(Contents()) && Stored() == old(Stored()) && item.active == old(item.active) && item.index == old(item.index)
    {
      InsertedOrdered(lt, Contents(), Slot(item, item.body));
      StoredIsItems();
      ret := InsertBefore(item, lt, alloc);
      if ret == -1 { StoredIsItems(); }
      AllActive();
    }

    /** The last item takes the place of the one at index. */
    method Fill(index: nat)
      requires Shaped() && index < size
      modifies this`size, items
      ensures Shaped() && Contents() == Filled(old(Contents()), index) && size == old(size) - 1
      ensures Indices() == Filled(old(Indices()), index) && Stored() == old(Stored()) - {old(items[index])}
    {
      StoredIsItems();
      FilledItems(Contents(), index);
      size := size - 1;
      items[index] := items[size];
      assert Contents() == Filled(old(Contents()), index);
      StoredIsItems();
    }

    /** What heap_remove leaves in the item that it returns. */
    method Retire(item: Item<K>)
      requires Shaped() && item !in Stored()
      modifies item`index, item`active
      ensures item.index == 0 && !item.active
      ensures Shaped() && Contents() == old(Contents()) && Indices() == old(Indices()) && Stored() == old(Stored())
    {
      assert forall k :: 0 <= k < size ==> items[k] in Stored();
      item.index := 0;
      item.active := false;
    }

    /** heap_remove below its bounds test. An item that is moved twice, and only such an item, is told its place. */
    method Extract(index: nat) returns (item: Item<K>)
      requires Shaped() && index < size
      modifies this`size, items, Stored()`index, Stored()`active
      ensures item == old(items[index]) && item.index == 0 && !item.active && size == old(size) - 1
      ensures Shaped() && Contents() == RemovedAsWritten(lt, old(Contents()), index)
      ensures Stored() == old(Stored()) - {item}
      ensures forall x :: x in Stored() ==> x.active == old(x.active)
      ensures Moved(Filled(old(Contents()), index), Filled(old(Indices()), index), Contents(), Indices())
    {
      item := items[index];
      Fill(index);
      Heapify(index);
      Retire(item);
    }

    /** Exactly when the back-pointers survive the text: unless the last item goes elsewhere and stays where it was put. */
    method ExtractAsWritten(index: nat) returns (item: Item<K>)
      requires Shaped() && index < size
      modifies this`size, items, Stored()`index, Stored()`active
      ensures item == old(items[index]) && item.index == 0 && !item.active && size == old(size) - 1
      ensures Shaped() && Contents() == RemovedAsWritten(lt, old(Contents()), index) && Stored() == old(Stored()) - {item}
      ensures old(Indexed()) ==>
        (Indexed() <==> index == size || Smallest(lt, Filled(old(Contents()), index), index) != index)
    {
      ghost var s, x := Contents(), Indices();
      ghost var indexed := Indexed();
      StoredIsItems();
      IndexedIs();
      item := Extract(index);
      IndexedIs();
      if indexed {
        ExtractedIndices(lt, s, x, index, Indices());
      }
    }

    /** heap_remove as written. Exactly when heap order survives: unless the last item goes below a greater one. */
    method RemoveAsWritten(index: nat) returns (item: Item?<K>)
      requires StrictWeakOrder(lt) && Shaped() && Ordered(lt, Contents())
      modifies this`size, items, Stored()`index, Stored()`active
      ensures index >= old(size) ==> item == null && Shaped() && Contents() == old(Contents())
      ensures index < old(size) ==>
        && item == old(items[index]) && item.index == 0 && !item.active && size == old(size) - 1
        && Shaped() && Contents() == RemovedAsWritten(lt, old(Contents()), index)
        && Stored() == old(Stored()) - {item}
      ensures index < old(size) && old(Indexed()) ==>
        (Indexed() <==> index == size || Smallest(lt, Filled(old(Contents()), index), index) != index)
      ensures index < old(size) ==>
        var s := old(Contents());
        (Ordered(lt, Contents()) <==> index == size || index == 0 || !lt(s[size].body, s[Parent(index)].body))
    {
      if index >= size {
        return null;
      }
      RemovedAsWrittenOrdered(lt, Contents(), index);
      item := ExtractAsWritten(index);
    }

    /** Filling the gap, and telling the item that fills it. */
    method FillIndexed(index: nat)
      requires Shaped() && Indexed() && index < size
      modifies this`size, items, Stored()`index
      ensures Shaped() && Indexed() && Contents() == Filled(old(Contents()), index) && size == old(size) - 1
      ensures Stored() == old(Stored()) - {old(items[index])}
    {
      ghost var f := Filled(Contents(), index);
      assert forall k :: 0 <= k < |f| ==> IndexedAt(k) && (k != index ==> f[k].item.index == k) && f[k].item.active;
      Fill(index);
      if index < size {
        items[index].index := index;
      }
      assert forall k :: 0 <= k < size ==> IndexedAt(k);
    }

    /** The missing sift-up. */
    method RaiseAt(index: nat)
      requires Shaped() && Indexed() && index < size
      modifies items, Stored()`index
      ensures Shaped() && Indexed() && Contents() == Raised(lt, old(Contents()), index)
      ensures Stored() == old(Stored())
    {
      ghost var f, r := Contents(), Raised(lt, Contents(), index);
      WasComplete();
      RaisedItems(lt, f, index);
      MoveUp(index, items[index], lt, f);
      Completed(r);
    }

    method SiftAt(index: nat)
      requires Shaped() && Indexed() && index <= size
      modifies items, Stored()`index
      ensures Shaped() && Indexed() && Contents() == Sifted(lt, old(Contents()), index)
      ensures Stored() == old(Stored())
    {
      IndexedIs();
      Heapify(index);
      IndexedIs();
    }

    /** The repaired middle of heap_remove: the moved item is told its place, and rises where it must. */
    method Refit(index: nat)
      requires Shaped() && Indexed() && index < size
      modifies this`size, items, Stored()`index
      ensures Shaped() && Indexed() && Contents() == Removed(lt, old(Contents()), index) && size == old(size) - 1
      ensures Stored() == old(Stored()) - {old(items[index])}
    {
      FillIndexed(index);
      if index < size && index > 0 && lt(items[index].body, items[Parent(index)].body) {
        RaiseAt(index);
      } else {
        SiftAt(index);
      }
    }

    /** heap_remove below its bounds test, repaired. */
    method ExtractRepaired(index: nat) returns (item: Item<K>)
      requires Shaped() && Indexed() && index < size
      modifies this`size, items, Stored()`index, Stored()`active
      ensures item == old(items[index]) && item.index == 0 && !item.active && size == old(size) - 1
      ensures Shaped() && Indexed() && Contents() == Removed(lt, old(Contents()), index)
      ensures Stored() == old(Stored()) - {item}
    {
      item := items[index];
      Refit(index);
      IndexedIs();
      Retire(item);
      IndexedIs();
    }

    lemma AllActive()
      requires Shaped() && Indexed()
      ensures forall x :: x in Stored() ==> x.active
    {
      WasComplete();
    }

    /** heap_remove repaired. */
    method Remove(index: nat) returns (item: Item?<K>)
      requires Valid()
      modifies this`size, items, Stored()`index, Stored()`active
      ensures Valid()
      ensures index >= old(size) ==> item == null && Contents() == old(Contents()) && Stored() == old(Stored())
      ensures index < old(size) ==>
        && item == old(items[index]) && item.index == 0 && !item.active && size == old(size) - 1
        && Stored() == old(Stored()) - {item}
        && multiset(Contents()) == multiset(old(Contents())) - multiset{Slot(item, item.body)}
      ensures forall x :: x in Stored() ==> x.active
    {
      if index >= size {
        AllActive();
        return null;
      }
      RemovedOrdered(lt, Contents(), index);
      item := ExtractRepaired(index);
      AllActive();
    }

    /** heap_front. A stored item is not less than the front. */
    lemma FrontLeast(item: Item<K>)
      requires Valid() && item in Stored()
      ensures size > 0 && !lt(item.body, items[0].body)
    {
      var k :| 0 <= k < size && items[k] == item;
      RootLeast(lt, Contents(), k);
    }
  }

  method InsertNew(h: Heap<int>, body: int)
    requires h.Valid()
    modifies h, h.items, h.Stored()
    ensures h.Valid() && (fresh(h.items) || h.items == old(h.items)) && fresh(h.Stored() - old(h.Stored())) && h.size == old(h.size) + 1
  {
    var item := new Item(body);
    ghost var s := h.Contents();
    var _ := h.Insert(item, true);
    assert |h.Contents()| == |multiset(h.Contents())| == |multiset(s)| + 1;
  }

  /** Removing the second of three items, as written, leaves an item with the wrong index behind. */
  method ForgottenIndex() returns (h: Heap<int>)
    ensures fresh(h) && h.Shaped() && h.size == 2 && Ordered(Less, h.Contents()) && !h.Indexed()
  {
    h := new Heap(3, Less);
    assert h.size == |h.Contents()| == 0 && h.Indexed();
    InsertNew(h, 1);
    InsertNew(h, 2);
    InsertNew(h, 3);
    ghost var s := h.Contents();
    ChildlessStays(Less, s, 1);
    RootLeast(Less, s, 2);
    var _ := h.RemoveAsWritten(1);
  }
}
