/**
 The hash table of src/hashtable.c on its intrusive lists, one caller at a time: locks have no
 effect here. HashProtocol has the threads.
 */
module HashTable {
  import opened Basics
  import opened List

  type Key = nat

  /** The field `ht` of an element: hashelm_init does not set it. */
  datatype Home = Unset | In(table: HashTable)

  class HashElm {
    const list: Link
    var ht: Home
    var refcount: int
    var hash: nat
    var key: Key
    /** How often freefn was called on the element. */
    ghost var freeCalls: nat

    /** Memory for an element; nothing is set but what its link is embedded in. */
    constructor ()
      ensures list.entry == this && fresh(list) && ht == Unset && freeCalls == 0
    {
      list := new Link();
      ht := Unset;
      freeCalls := 0;
      new;
      list.entry := this;
    }

    /** hashelm_init. */
    method Init()
      modifies this`refcount, list`prev, list`next
      ensures Ring(list, []) && refcount == 1
    {
      list.prev, list.next := list, list;
      refcount := 1;
    }

    /** hashelm_hold. */
    method Hold()
      modifies this`refcount
      ensures refcount == old(refcount) + 1
    {
      refcount := refcount + 1;
    }

    /**
     hashelm_put: freefn, if there is one, is called when the count reaches zero. `fault` says
     that `ht` is read before it was set.
     */
    method Put() returns (fault: bool)
      modifies this`refcount, this`freeCalls
      ensures refcount == old(refcount) - 1
      ensures fault <==> refcount == 0 && ht.Unset?
      ensures freeCalls == old(freeCalls) + if refcount == 0 && ht.In? && ht.table.freefn then 1 else 0
    {
      refcount := refcount - 1;
      if refcount == 0 {
        if ht.Unset? {
          return true;
        }
        if ht.table.freefn {
          freeCalls := freeCalls + 1;
        }
      }
      return false;
    }
  }

  class Slot {
    const head: Link
    var count: int

    constructor ()
      ensures Ring(head, []) && head.entry == this && count == 0 && fresh(head)
    {
      head := new Link();
      count := 0;
      new;
      head.entry := this;
    }
  }

  /** Bitwise and. */
  function And(a: nat, b: nat): (r: nat)
    ensures r <= b
    decreases a + b
  {
    if a == 0 || b == 0 then 0 else 2 * And(a / 2, b / 2) + (if a % 2 == 1 && b % 2 == 1 then 1 else 0)
  }

  /** Binary digit i of n. */
  function Bit(n: nat, i: nat): nat {
    if i == 0 then n % 2 else Bit(n / 2, i - 1)
  }

  lemma {:induction false} AndBits(a: nat, b: nat, i: nat)
    ensures Bit(And(a, b), i) == if Bit(a, i) == 1 && Bit(b, i) == 1 then 1 else 0
    decreases i
  {
    if a == 0 || b == 0 {
      NoBits(i);
    } else if i > 0 {
      AndBits(a / 2, b / 2, i - 1);
    }
  }

  lemma {:induction false} NoBits(i: nat)
    ensures Bit(0, i) == 0
  {
    if i > 0 { NoBits(i - 1); }
  }

  /** With a power of two for the size, the mask takes the remainder. */
  lemma {:induction false} AndIsRemainder(h: nat, n: nat)
    ensures And(h, Pow(2, n) - 1) == h % Pow(2, n)
    decreases n
  {
    if h == 0 {
      ModUnique(0, 0, 0, Pow(2, n));
    } else if n > 0 {
      var m := Pow(2, n - 1);
      assert (2 * m - 1) / 2 == m - 1 && (2 * m - 1) % 2 == 1;
      AndIsRemainder(h / 2, n - 1);
      HalfRemainder(h, m);
    }
  }

  lemma HalfRemainder(h: nat, m: nat)
    requires m > 0
    ensures h % (2 * m) == 2 * (h / 2 % m) + h % 2
  {
    var q, r := h / 2 / m, 2 * (h / 2 % m) + h % 2;
    assert h == q * (2 * m) + r;
    ModUnique(h, q, r, 2 * m);
  }

  ghost function Links(es: seq<HashElm>): (ls: seq<Link>)
    ensures |ls| == |es| && forall i :: 0 <= i < |es| ==> ls[i] == es[i].list
  {
    seq(|es|, i requires 0 <= i < |es| => es[i].list)
  }

  /** What the account of an element says. */
  datatype Account = Account(refcount: int, freeCalls: nat)

  ghost function Accounts(es: set<HashElm>): map<HashElm, Account>
    reads es`refcount, es`freeCalls
  {
    map e | e in es :: Account(e.refcount, e.freeCalls)
  }

  ghost function Cut(es: seq<HashElm>, k: nat): seq<HashElm>
    requires k < |es|
  {
    es[..k] + es[k + 1..]
  }

  ghost function ElementsOf(lists: seq<seq<HashElm>>): set<HashElm> {
    set i, e | 0 <= i < |lists| && e in lists[i] :: e
  }

  /** All elements, slot after slot. */
  ghost function Flat(lists: seq<seq<HashElm>>): seq<HashElm> {
    if lists == [] then [] else Flat(lists[..|lists| - 1]) + lists[|lists| - 1]
  }

  lemma {:induction false} FlatUpdate(lists: seq<seq<HashElm>>, i: nat, es: seq<HashElm>)
    requires i < |lists|
    ensures |Flat(lists[i := es])| == |Flat(lists)| - |lists[i]| + |es|
  {
    var n := |lists| - 1;
    if i == n {
      assert lists[i := es][..n] == lists[..n];
    } else {
      assert lists[i := es][..n] == lists[..n][i := es];
      FlatUpdate(lists[..n], i, es);
    }
  }

  lemma {:induction false} FlatNone(lists: seq<seq<HashElm>>)
    requires forall i :: 0 <= i < |lists| ==> lists[i] == []
    ensures Flat(lists) == []
  {
    if lists != [] {
      FlatNone(lists[..|lists| - 1]);
    }
  }

  lemma {:induction false} FlatHolds(lists: seq<seq<HashElm>>, e: HashElm)
    ensures e in Flat(lists) <==> exists i :: 0 <= i < |lists| && e in lists[i]
  {
    var n := |lists| - 1;
    if n >= 0 {
      FlatHolds(lists[..n], e);
      if i :| 0 <= i < |lists| && e in lists[i] {
        assert i == n || e in lists[..n][i];
      }
    }
  }

  /** The loop of hashtable_init. */
  method MakeSlots(size: nat) returns (slots: seq<Slot>)
    ensures |slots| == size && forall i, j :: 0 <= i < j < size ==> slots[i] != slots[j]
    ensures forall s :: s in slots ==> fresh(s) && fresh(s.head) && Ring(s.head, []) && s.head.entry == s && s.count == 0
  {
    slots := [];
    while |slots| < size
      invariant |slots| <= size
      invariant forall s :: s in slots ==> fresh(s) && fresh(s.head) && Ring(s.head, []) && s.head.entry == s && s.count == 0
      invariant forall i, j :: 0 <= i < j < |slots| ==> slots[i] != slots[j]
    {
      var slot := new Slot();
      assert slot !in slots;
      slots := slots + [slot];
    }
  }

  class HashTable {
    const mask: nat
    const hashfn: Key -> nat
    /** Whether there is a freefn. */
    const freefn: bool
    const table: seq<Slot>
    var count: int
    /** The elements of each slot, front to back. */
    ghost var lists: seq<seq<HashElm>>

    /** A table with that many slots. */
    constructor (size: nat, hashfn: Key -> nat, freefn: bool)
      requires size > 0
      ensures mask == size - 1 && this.hashfn == hashfn && this.freefn == freefn && Valid() && Stands(map[])
      ensures Elements() == {} && fresh(Slots()) && fresh(Chain())
    {
      mask := size - 1;
      this.hashfn, this.freefn := hashfn, freefn;
      count := 1;
      var slots := MakeSlots(size);
      table := slots;
      lists := seq(size, i => []);
      new;
      FlatNone(lists);
      assert Links([]) == [];
    }

    ghost function Elements(): set<HashElm>
      reads this`lists
    {
      ElementsOf(lists)
    }

    ghost function Slots(): set<Slot> {
      set s: Slot | s in table :: s
    }

    /** The anchors and the links of all elements. */
    ghost function Chain(): set<Link>
      reads this`lists
    {
      ChainOf(lists)
    }

    ghost function ChainOf(ls: seq<seq<HashElm>>): set<Link> {
      (set s: Slot | s in table :: s.head) + (set e: HashElm | e in ElementsOf(ls) :: e.list)
    }

    function SlotOf(key: Key): nat {
      And(hashfn(key), mask)
    }

    /** get_slot. */
    function GetSlot(hash: nat): Slot
      requires |table| == mask + 1
    {
      table[And(hash, mask)]
    }

    /** The elements belong in slot i and have different keys. */
    ghost predicate Belong(i: nat, es: seq<HashElm>)
      reads Links(es)`entry, es`key, es`hash, es`ht
    {
      && (forall e :: e in es ==> e.list.entry == e && e.ht == In(this) && e.hash == hashfn(e.key) && SlotOf(e.key) == i)
      && (forall j, k :: 0 <= j < k < |es| ==> es[j].key != es[k].key)
    }

    /** The slot, with number i, is the well-formed list of es. */
    ghost predicate SlotOk(slot: Slot, i: nat, es: seq<HashElm>)
      reads slot.head, Links(es), es`key, es`hash, es`ht
    {
      slot.head.entry == slot && Ring(slot.head, Links(es)) && Belong(i, es)
    }

    /** All lists are in order, whatever the counters say. */
    ghost predicate InOrder()
      reads this`lists, Elements()`key, Elements()`hash, Elements()`ht, Chain()
    {
      && |table| == |lists| == mask + 1
      && (forall i, j :: 0 <= i < j < |table| ==> table[i] != table[j])
      && (forall i {:trigger SlotOk(table[i], i, lists[i])} :: 0 <= i < |table| ==>
           assert table[i] in table && forall e :: e in lists[i] ==> e in Elements();
           SlotOk(table[i], i, lists[i]))
    }

    /** The lists are in order and every counter is right: the table's own is one too high from the start. */
    ghost predicate Valid()
      reads this`count, this`lists, Slots()`count, Elements()`key, Elements()`hash, Elements()`ht, Chain()
    {
      && InOrder()
      && (forall i :: 0 <= i < |table| ==> assert table[i] in table; table[i].count == |lists[i]|)
      && count == 1 + |Flat(lists)|
    }

    /** The finite map that lists of elements stand for. */
    ghost predicate StandsFor(ls: seq<seq<HashElm>>, m: map<Key, HashElm>)
      requires |ls| == mask + 1
      reads (set i, e: HashElm | 0 <= i < |ls| && e in ls[i] :: e)`key
    {
      && (forall k :: k in m ==> m[k] in ls[SlotOf(k)] && m[k].key == k)
      && (forall i, e {:trigger e in ls[i]} :: 0 <= i < |ls| && e in ls[i] ==> e.key in m && m[e.key] == e)
    }

    ghost predicate Stands(m: map<Key, HashElm>)
      requires |lists| == mask + 1
      reads this`lists, Elements()`key
    {
      StandsFor(lists, m)
    }

    lemma StandsWith(ls: seq<seq<HashElm>>, m: map<Key, HashElm>, he: HashElm)
      requires |ls| == mask + 1 && StandsFor(ls, m) && he.key !in m
      ensures StandsFor(ls[SlotOf(he.key) := [he] + ls[SlotOf(he.key)]], m[he.key := he])
    {
    }

    lemma StandsWithout(ls: seq<seq<HashElm>>, m: map<Key, HashElm>, i: nat, k: nat)
      requires |ls| == mask + 1 && StandsFor(ls, m) && i < |ls| && k < |ls[i]| && SlotOf(ls[i][k].key) == i
      requires forall j :: 0 <= j < |ls[i]| && j != k ==> ls[i][j] != ls[i][k]
      requires forall j :: 0 <= j < |ls| && j != i ==> ls[i][k] !in ls[j]
      ensures StandsFor(ls[i := Cut(ls[i], k)], m - {ls[i][k].key})
    {
      var he, es := ls[i][k], Cut(ls[i], k);
      assert he in ls[i];
      forall e | e in ls[i] && e != he
        ensures e in es
      {
        var j :| 0 <= j < |ls[i]| && ls[i][j] == e;
        assert e == if j < k then es[j] else es[j - 1];
      }
      forall e | e in es
        ensures e in ls[i] && e != he
      {
        var j :| 0 <= j < |es| && es[j] == e;
        assert e == ls[i][if j < k then j else j + 1];
      }
    }

    /** hashelm_hold and hashelm_put leave the lists in order. */
    method HoldOn(he: HashElm)
      requires InOrder()
      modifies he`refcount
      ensures InOrder() && he.refcount == old(he.refcount) + 1
    {
      he.Hold();
      forall j | 0 <= j < |table|
        ensures SlotOk(table[j], j, lists[j]) == old(SlotOk(table[j], j, lists[j]))
      {
        assert allocated(Links(lists[j]));
      }
    }

    method PutBack(he: HashElm) returns (fault: bool)
      requires InOrder()
      modifies he`refcount, he`freeCalls
      ensures InOrder() && he.refcount == old(he.refcount) - 1
      ensures fault <==> he.refcount == 0 && he.ht.Unset?
      ensures he.freeCalls == old(he.freeCalls) + if he.refcount == 0 && he.ht.In? && he.ht.table.freefn then 1 else 0
    {
      fault := he.Put();
      forall j | 0 <= j < |table|
        ensures SlotOk(table[j], j, lists[j]) == old(SlotOk(table[j], j, lists[j]))
      {
        assert allocated(Links(lists[j]));
      }
    }

    /** Both counters move together. */
    method Recount(slot: Slot, d: int)
      requires InOrder()
      modifies this`count, slot`count
      ensures InOrder() && slot.count == old(slot.count) + d && count == old(count) + d
    {
      slot.count := slot.count + d;
      count := count + d;
      forall j | 0 <= j < |table|
        ensures SlotOk(table[j], j, lists[j]) == old(SlotOk(table[j], j, lists[j]))
      {
        assert allocated(Links(lists[j]));
      }
    }

    /** The scan of a slot's list that hashtable_hash and hashtable_lookup share. */
    method Scan(slot: Slot, key: Key, ghost i: nat, ghost es: seq<HashElm>) returns (he: HashElm?)
      requires InOrder() && i < |table| && slot == table[i] && es == lists[i]
      ensures InOrder()
      ensures if he == null then forall e :: e in es ==> e.key != key else he in es && he.key == key
    {
      ghost var c, n := Circle(slot.head, Links(es)), 0;
      assert SlotOk(slot, i, es) && c[0].next == c[1];
      var ptr := slot.head.next;
      while ptr != slot.head
        invariant 0 <= n <= |es| && ptr == c[n + 1] && forall j :: 0 <= j < n ==> es[j].key != key
        decreases |es| - n
      {
        assert ptr == es[n].list && es[n] in es;
        he := ptr.entry as HashElm;
        if he.key == key {
          return;
        }
        assert c[n + 1].next == c[n + 2];
        ptr := ptr.next;
        n := n + 1;
      }
      he := null;
    }

    /** hashtable_lookup: the element the map has for the key, with one more reference. */
    method Lookup(key: Key, ghost m: map<Key, HashElm>) returns (he: HashElm?)
      requires Valid() && Stands(m)
      modifies Elements()`refcount
      ensures Valid() && Stands(m) && he == if key in m then m[key] else null
      ensures forall e :: e in Elements() ==> e.refcount == old(e.refcount) + if e == he then 1 else 0
    {
      ghost var i := SlotOf(key);
      he := Scan(GetSlot(hashfn(key)), key, i, lists[i]);
      if he != null {
        HoldOn(he);
      }
    }

    /** Two slots have no link in common. */
    lemma Apart(i: nat, j: nat)
      requires InOrder() && i < |table| && j < |table| && i != j
      ensures forall l :: l in Circle(table[i].head, Links(lists[i])) ==> l !in Circle(table[j].head, Links(lists[j]))
    {
      assert SlotOk(table[i], i, lists[i]) && SlotOk(table[j], j, lists[j]);
    }

    /** A link on its own is in no slot. */
    lemma Unlinked(he: HashElm, j: nat)
      requires InOrder() && Ring(he.list, []) && he.list.entry == he && j < |table|
      ensures he !in lists[j] && he.list !in Circle(table[j].head, Links(lists[j]))
    {
      assert SlotOk(table[j], j, lists[j]);
      EmptyDecides(he.list, [], 0);
      if k :| 0 <= k < |lists[j]| && lists[j][k] == he {
        EmptyDecides(table[j].head, Links(lists[j]), k);
      }
    }

    /** Replace the list of one slot, when the links have been changed so; every other slot is as it was. */
    lemma Replaced(ls: seq<seq<HashElm>>, i: nat, es: seq<HashElm>)
      requires |table| == |ls| == mask + 1 && i < |table| && lists == ls[i := es] && SlotOk(table[i], i, es)
      requires forall j, k :: 0 <= j < k < |table| ==> table[j] != table[k]
      requires forall j {:trigger SlotOk(table[j], j, ls[j])} :: 0 <= j < |table| && j != i ==> SlotOk(table[j], j, ls[j])
      ensures InOrder()
    {
    }

    lemma Grown(slot: Slot, i: nat, es: seq<HashElm>, he: HashElm)
      requires slot.head.entry == slot && Ring(slot.head, [he.list] + Links(es)) && Belong(i, es) && he.list.entry == he
      requires he.ht == In(this) && he.hash == hashfn(he.key) && SlotOf(he.key) == i && forall e :: e in es ==> e.key != he.key
      ensures SlotOk(slot, i, [he] + es)
    {
      assert Links([he] + es) == [he.list] + Links(es);
    }

    /** list_add_front on slot i. */
    method AddLink(he: HashElm, slot: Slot, ghost i: nat)
      requires InOrder() && i < |table| && slot == table[i] && Ring(he.list, []) && he.list.entry == he
      requires he.ht == In(this) && he.hash == hashfn(he.key) && SlotOf(he.key) == i && forall e :: e in lists[i] ==> e.key != he.key
      modifies this`lists, slot.head`next, slot.head.next`prev, he.list`prev, he.list`next
      ensures InOrder() && lists == old(lists)[i := [he] + old(lists)[i]]
    {
      ghost var ls, es := lists, lists[i];
      assert SlotOk(slot, i, es) && Circle(slot.head, Links(es))[0].next == Circle(slot.head, Links(es))[1];
      forall j | 0 <= j < |table|
        ensures he.list !in Circle(table[j].head, Links(ls[j]))
        ensures j != i ==> forall l :: l in Circle(slot.head, Links(es)) ==> l !in Circle(table[j].head, Links(ls[j]))
      {
        Unlinked(he, j);
        if j != i {
          Apart(i, j);
        }
      }
      ListAddFront(slot.head, he.list, Links(es));
      forall j | 0 <= j < |table| && j != i
        ensures SlotOk(table[j], j, ls[j]) == old(SlotOk(table[j], j, ls[j]))
      {
        assert allocated(Links(ls[j])) && table[j].head in Circle(table[j].head, Links(ls[j]));
        assert forall l :: l in Links(ls[j]) ==> l in Circle(table[j].head, Links(ls[j]));
      }
      Grown(slot, i, es, he);
      lists := ls[i := [he] + es];
      Replaced(ls, i, [he] + es);
    }

    /** The rest of hashtable_hash once the key is known to be absent. */
    method Enlist(he: HashElm, slot: Slot, ghost i: nat)
      requires Valid() && i < |table| && slot == table[i] && Ring(he.list, []) && he.list.entry == he
      requires he.ht == In(this) && he.hash == hashfn(he.key) && SlotOf(he.key) == i && forall e :: e in lists[i] ==> e.key != he.key
      modifies this`count, this`lists, slot`count, slot.head`next, slot.head.next`prev, he`refcount, he.list`prev, he.list`next
      ensures Valid() && he.refcount == old(he.refcount) + 1 && lists == old(lists)[i := [he] + old(lists)[i]]
    {
      FlatUpdate(lists, i, [he] + lists[i]);
      Recount(slot, 1);
      AddLink(he, slot, i);
      HoldOn(he);
    }

    /**
     hashtable_hash: insertion into the map if the element is not linked and the key is absent.
     The element's key is set even if the key is taken.
     */
    method Hash(he: HashElm, key: Key, ghost m: map<Key, HashElm>) returns (ret: int)
      requires Valid() && Stands(m) && he.list.entry == he && (ListEmpty(he.list) ==> Ring(he.list, []))
      modifies this`count, this`lists, GetSlot(hashfn(key))`count, GetSlot(hashfn(key)).head`next, GetSlot(hashfn(key)).head.next`prev
      modifies he`hash, he`ht, he`key, he`refcount, he.list`prev, he.list`next
      ensures Valid() && ret == if old(ListEmpty(he.list)) && key !in m then 0 else -1
      ensures Stands(if ret == 0 then m[key := he] else m)
      ensures he.refcount == old(he.refcount) + if ret == 0 then 1 else 0
      ensures if old(ListEmpty(he.list)) then he.key == key && he.hash == hashfn(key) && he.ht == In(this)
              else he.key == old(he.key) && he.hash == old(he.hash) && he.ht == old(he.ht)
      ensures lists == if ret == 0 then old(lists)[SlotOf(key) := [he] + old(lists)[SlotOf(key)]] else old(lists)
    {
      if !ListEmpty(he.list) {
        return -1;
      }
      Prepare(he, key, m);
      var slot := GetSlot(he.hash);
      ghost var i := SlotOf(key);
      var he2 := Scan(slot, key, i, lists[i]);
      assert he2 == null <==> key !in m;
      if he2 != null {
        return -1;
      }
      StandsWith(lists, m, he);
      ghost var ls, m' := lists[i := [he] + lists[i]], m[he.key := he];
      label Ready:
      Enlist(he, slot, i);
      assert StandsFor(ls, m') == old@Ready(StandsFor(ls, m'));
      return 0;
    }

    /** What hashtable_hash writes to the element before it takes the lock. */
    method Prepare(he: HashElm, key: Key, ghost m: map<Key, HashElm>)
      requires Valid() && Stands(m) && Ring(he.list, []) && he.list.entry == he
      modifies he`hash, he`ht, he`key
      ensures Valid() && Stands(m) && he.hash == hashfn(key) && he.ht == In(this) && he.key == key
    {
      forall j | 0 <= j < |table|
        ensures he !in lists[j]
      {
        Unlinked(he, j);
      }
      he.hash := hashfn(key);
      he.ht := In(this);
      he.key := key;
      forall j | 0 <= j < |table|
        ensures SlotOk(table[j], j, lists[j]) == old(SlotOk(table[j], j, lists[j]))
      {
        assert allocated(Links(lists[j]));
      }
    }

    lemma Shrunk(slot: Slot, i: nat, es: seq<HashElm>, k: nat)
      requires k < |es| && slot.head.entry == slot && Ring(slot.head, Without(Links(es), k)) && Belong(i, es)
      ensures SlotOk(slot, i, Cut(es, k))
    {
      assert Links(Cut(es, k)) == Without(Links(es), k);
    }

    /** list_del of element k of slot i, or of an element that is in no list. */
    method DelLink(he: HashElm, ghost i: nat, ghost k: nat)
      requires InOrder() && i < |table| && he.list.entry == he
      requires Ring(he.list, []) || (k < |lists[i]| && lists[i][k] == he)
      modifies this`lists, he.list`prev, he.list`next, he.list.prev`next, he.list.next`prev
      ensures InOrder() && Ring(he.list, [])
      ensures if old(Ring(he.list, [])) then lists == old(lists)
              else k < |old(lists)[i]| && old(lists)[i][k] == he && lists == old(lists)[i := Cut(old(lists)[i], k)]
    {
      ghost var ls, es, alone := lists, lists[i], Ring(he.list, []);
      WhereIs(he, i, k);
      OthersClear(he, i, k);
      SlotOkIsRing(i);
      ghost var touched := {he.list, he.list.prev, he.list.next};
      forall j | 0 <= j < |table| && (alone || j != i)
        ensures table[j].head !in touched && forall l :: l in Links(ls[j]) ==> l !in touched
      {
        assert table[j].head in Circle(table[j].head, Links(ls[j]));
        assert forall l :: l in Links(ls[j]) ==> l in Circle(table[j].head, Links(ls[j]));
      }
      ListDel(he.list, table[i].head, Links(es), k);
      forall j | 0 <= j < |table| && (alone || j != i)
        ensures SlotOk(table[j], j, ls[j]) == old(SlotOk(table[j], j, ls[j]))
      {
        assert allocated(Links(ls[j]));
      }
      if !alone {
        Shrunk(table[i], i, es, k);
        lists := ls[i := Cut(es, k)];
        Replaced(ls, i, Cut(es, k));
      }
    }

    /** What list_del writes to is in no other slot, or in none at all. */
    lemma OthersClear(he: HashElm, i: nat, k: nat)
      requires InOrder() && i < |table| && he.list.entry == he
      requires Ring(he.list, []) || (k < |lists[i]| && lists[i][k] == he)
      ensures forall j, l :: 0 <= j < |table| && (j != i || Ring(he.list, [])) && l in Circle(table[j].head, Links(lists[j])) ==>
        l != he.list && l != he.list.prev && l != he.list.next
    {
      if Ring(he.list, []) {
        assert Circle(he.list, [])[0].next == Circle(he.list, [])[1] && Circle(he.list, [])[1].prev == Circle(he.list, [])[0];
        forall j | 0 <= j < |table|
          ensures he.list !in Circle(table[j].head, Links(lists[j]))
        {
          Unlinked(he, j);
        }
      } else {
        var c := Circle(table[i].head, Links(lists[i]));
        assert SlotOk(table[i], i, lists[i]);
        assert c[k + 1] == he.list && c[k + 1].next == c[k + 2] && c[k + 1].prev == c[k];
        assert c[k] in c && c[k + 1] in c && c[k + 2] in c;
        forall j, l | 0 <= j < |table| && j != i && l in Circle(table[j].head, Links(lists[j]))
          ensures l !in c
        {
          Apart(i, j);
        }
      }
    }

    lemma SlotOkIsRing(i: nat)
      requires InOrder() && i < |table|
      ensures Ring(table[i].head, Links(lists[i])) && table[i].head.entry == table[i] && Belong(i, lists[i])
    {
      assert SlotOk(table[i], i, lists[i]);
    }

    /**
     hashtable_unhash, as written: it does not ask whether the element is linked. If it is, this
     is removal from the map, and the table's reference is put. If not, the counts come out one
     too low, and somebody else's reference is put: so the table is valid afterwards exactly if
     the element was linked.
     */
    method Unhash(he: HashElm, ghost k: nat, ghost m: map<Key, HashElm>) returns (fault: bool)
      requires Valid() && Stands(m) && he.list.entry == he
      requires Ring(he.list, []) || var i := And(he.hash, mask); k < |lists[i]| && lists[i][k] == he
      modifies this`count, this`lists, GetSlot(he.hash)`count, he`refcount, he`freeCalls
      modifies he.list`prev, he.list`next, he.list.prev`next, he.list.next`prev
      ensures Valid() <==> !old(ListEmpty(he.list))
      ensures InOrder() && Ring(he.list, []) && Stands(if old(ListEmpty(he.list)) then m else m - {he.key})
      ensures count == old(count) - 1 && GetSlot(he.hash).count == old(GetSlot(he.hash).count) - 1
      ensures he.refcount == old(he.refcount) - 1
      ensures fault <==> he.refcount == 0 && he.ht.Unset?
      ensures he.freeCalls == old(he.freeCalls) + if he.refcount == 0 && he.ht.In? && he.ht.table.freefn then 1 else 0
      ensures var i := And(he.hash, mask);
        && (old(ListEmpty(he.list)) ==> lists == old(lists))
        && (!old(ListEmpty(he.list)) ==>
          !fault && k < |old(lists)[i]| && old(lists)[i][k] == he && lists == old(lists)[i := Cut(old(lists)[i], k)])
    {
      var slot := GetSlot(he.hash);
      ghost var i, linked := And(he.hash, mask), !ListEmpty(he.list);
      ghost var ls, m' := lists, m;
      WhereIs(he, i, k);
      if linked {
        StandsWithout(lists, m, i, k);
        FlatUpdate(lists, i, Cut(lists[i], k));
        ls, m' := lists[i := Cut(lists[i], k)], m - {he.key};
      }
      DelLink(he, i, k);
      Recount(slot, -1);
      fault := PutBack(he);
      assert StandsFor(ls, m') == old(StandsFor(ls, m'));
    }

    /** list_empty tells the two cases of hashtable_unhash apart. */
    lemma WhereIs(he: HashElm, i: nat, k: nat)
      requires InOrder() && i < |table| && he.list.entry == he
      requires Ring(he.list, []) || (k < |lists[i]| && lists[i][k] == he)
      ensures ListEmpty(he.list) <==> Ring(he.list, [])
      ensures !ListEmpty(he.list) ==>
        && k < |lists[i]| && lists[i][k] == he && he.ht == In(this) && SlotOf(he.key) == i
        && (forall j :: 0 <= j < |lists[i]| && j != k ==> lists[i][j] != he)
        && (forall j :: 0 <= j < |lists| && j != i ==> he !in lists[j])
    {
      if k < |lists[i]| && lists[i][k] == he {
        assert SlotOk(table[i], i, lists[i]) && he in lists[i];
        EmptyDecides(table[i].head, Links(lists[i]), k);
        forall j | 0 <= j < |lists| && j != i
          ensures he !in lists[j]
        {
          OneSlot(i, j, he);
        }
      }
      if Ring(he.list, []) {
        EmptyDecides(he.list, [], 0);
      }
    }

    /** hashtable_foreach calls the action once per linked element, and returns the number of calls. */
    method Foreach(hasAction: bool) returns (n: int, visited: seq<HashElm>)
      requires Valid()
      ensures n == if hasAction then |visited| else -1
      ensures if hasAction then visited == Flat(lists) && n == count - 1 else visited == []
    {
      n, visited := 0, [];
      if !hasAction {
        return -1, [];
      }
      var i := 0;
      while i <= mask
        invariant 0 <= i <= mask + 1 && n == |visited| && visited == Flat(lists[..i])
      {
        ghost var es := lists[i];
        ghost var c, k := Circle(table[i].head, Links(es)), 0;
        assert SlotOk(table[i], i, es) && c[0].next == c[1];
        var ptr := table[i].head.next;
        while ptr != table[i].head
          invariant 0 <= k <= |es| && ptr == c[k + 1] && n == |visited| && visited == Flat(lists[..i]) + es[..k]
          decreases |es| - k
        {
          assert ptr == es[k].list && es[k] in es && c[k + 1].next == c[k + 2];
          visited := visited + [ptr.entry as HashElm];
          n := n + 1;
          ptr := ptr.next;
          k := k + 1;
        }
        assert es[..k] == es && lists[..i + 1][..i] == lists[..i];
        i := i + 1;
      }
      assert lists[..i] == lists;
    }

    /** No element is visited twice. */
    lemma {:induction false} NoneTwice(n: nat)
      requires InOrder() && n <= |lists|
      ensures forall a, b :: 0 <= a < b < |Flat(lists[..n])| ==> Flat(lists[..n])[a] != Flat(lists[..n])[b]
    {
      if n > 0 {
        NoneTwice(n - 1);
        var before, all, es := lists[..n - 1], Flat(lists[..n]), lists[n - 1];
        assert lists[..n][..n - 1] == before && all == Flat(before) + es && SlotOk(table[n - 1], n - 1, es);
        forall e | e in Flat(before)
          ensures e !in es
        {
          FlatHolds(before, e);
          var i :| 0 <= i < n - 1 && e in before[i];
          assert SlotOk(table[i], i, lists[i]);
        }
        forall a, b | 0 <= a < b < |all|
          ensures all[a] != all[b]
        {
          assert a < |Flat(before)| <= b ==> all[a] in Flat(before) && all[b] in es;
        }
      }
    }

    /** The element is out of the table, which has put its reference; rs has the accounts at the start. */
    ghost predicate Dropped(e: HashElm, rs: map<HashElm, Account>)
      reads e`refcount, e`freeCalls, e.list
    {
      && Ring(e.list, []) && e.list.entry == e && e in rs && e.refcount == rs[e].refcount - 1
      && e.freeCalls == rs[e].freeCalls + if e.refcount == 0 && freefn then 1 else 0
    }

    ghost predicate Untouched(e: HashElm, rs: map<HashElm, Account>)
      reads e`refcount, e`freeCalls
    {
      e in rs && rs[e] == Account(e.refcount, e.freeCalls)
    }

    /** The front of slot i, and that unlinking it touches nothing of what is out already. */
    lemma FrontIs(slot: Slot, i: nat, gone: set<HashElm>, rs: map<HashElm, Account>, chain: set<Link>)
      requires InOrder() && i < |table| && slot == table[i] && lists[i] != []
      requires slot.head in chain && forall e :: e in lists[i] ==> e.list in chain
      requires forall e :: e in gone ==> Dropped(e, rs)
      ensures var he := lists[i][0];
        && slot.head.next == he.list && he.list.entry == he && he.ht == In(this) && !ListEmpty(he.list)
        && {he.list, he.list.prev, he.list.next} <= chain
        && forall e :: e in gone ==> e != he && e.list != he.list && e.list != he.list.prev && e.list != he.list.next
    {
      var es := lists[i];
      var c := Circle(slot.head, Links(es));
      assert SlotOk(slot, i, es) && c[0].next == c[1] == es[0].list && es[0] in es;
      assert c[1].next == c[2] && c[1].prev == c[0] && c[0] in c && c[2] in c;
      forall l | l in c
        ensures l in chain
      {
        if l != slot.head {
          var k :| 0 <= k < |es| && Links(es)[k] == l;
          assert es[k] in es;
        }
      }
      forall e | e in gone
        ensures e.list !in c && e !in es
      {
        Unlinked(e, i);
      }
      EmptyDecides(slot.head, Links(es), 0);
    }

    /** One round of the inner loop of hashtable_fini; elements that are out already stay so. */
    method DropFront(slot: Slot, ghost i: nat, ghost gone: set<HashElm>, ghost rs: map<HashElm, Account>, ghost elems: set<HashElm>, ghost chain: set<Link>)
      returns (he: HashElm)
      requires InOrder() && i < |table| && slot == table[i] && lists[i] != []
      requires slot.head in chain && forall e :: e in lists[i] ==> e in elems && e.list in chain && Untouched(e, rs)
      requires forall e :: e in gone ==> Dropped(e, rs)
      modifies this`lists, elems`refcount, elems`freeCalls, chain`prev, chain`next
      ensures InOrder() && he == old(lists[i][0]) && lists == old(lists)[i := old(lists[i][1..])]
      ensures forall e :: e in gone + {he} ==> Dropped(e, rs)
      ensures forall e :: e in lists[i] ==> Untouched(e, rs)
    {
      ghost var es := lists[i];
      FrontIs(slot, i, gone, rs, chain);
      assert es == [es[0]] + es[1..];
      he := slot.head.next.entry as HashElm;
      WhereIs(he, i, 0);
      DelLink(he, i, 0);
      assert Cut(es, 0) == es[1..];
      var _ := PutBack(he);
      forall e | e in gone
        ensures Dropped(e, rs) == old(Dropped(e, rs))
      {
      }
    }

    /** INIT_LIST on an empty slot. */
    method Reset(slot: Slot, ghost i: nat, ghost gone: set<HashElm>, ghost rs: map<HashElm, Account>)
      requires InOrder() && i < |table| && slot == table[i] && lists[i] == []
      requires forall e :: e in gone ==> Dropped(e, rs)
      modifies slot.head`prev, slot.head`next, slot`count
      ensures InOrder() && slot.count == 0
      ensures forall e :: e in gone ==> Dropped(e, rs)
    {
      assert SlotOk(slot, i, []) && Circle(slot.head, Links([]))[0].next == Circle(slot.head, Links([]))[1];
      assert Circle(slot.head, Links([]))[1].prev == Circle(slot.head, Links([]))[0];
      forall j | 0 <= j < |table| && j != i
        ensures slot.head !in Circle(table[j].head, Links(lists[j]))
      {
        Apart(i, j);
      }
      slot.head.prev, slot.head.next := slot.head, slot.head;
      slot.count := 0;
      forall j | 0 <= j < |table| && j != i
        ensures SlotOk(table[j], j, lists[j]) == old(SlotOk(table[j], j, lists[j]))
      {
        assert allocated(Links(lists[j]));
      }
      assert SlotOk(slot, i, []);
    }

    lemma EmptySlot(i: nat)
      requires InOrder() && i < |table|
      ensures ListEmpty(table[i].head) <==> lists[i] == []
    {
      assert SlotOk(table[i], i, lists[i]);
      EmptyDecides(table[i].head, Links(lists[i]), 0);
    }

    /** The inner loop of hashtable_fini. */
    method DropAll(slot: Slot, ghost i: nat, ghost gone: set<HashElm>, ghost rs: map<HashElm, Account>,
        ghost elems: set<HashElm>, ghost chain: set<Link>)
      returns (ghost done: set<HashElm>)
      requires slot.head in chain && i < |lists| && forall e :: e in lists[i] ==> e in elems && e.list in chain
      requires InOrder() && i < |table| && slot == table[i] && forall e :: e in lists[i] ==> Untouched(e, rs)
      requires forall e :: e in gone ==> Dropped(e, rs)
      modifies this`lists, elems`refcount, elems`freeCalls, chain`prev, chain`next
      ensures InOrder() && lists == old(lists)[i := []] && gone <= done && forall e :: e in old(lists[i]) ==> e in done
      ensures forall e :: e in done ==> Dropped(e, rs)
    {
      ghost var es := lists[i];
      done := gone;
      while !ListEmpty(slot.head)
        invariant InOrder() && lists[i := []] == old(lists)[i := []]
        invariant gone <= done && forall e :: e in es ==> e in done || e in lists[i]
        invariant forall e :: e in done ==> Dropped(e, rs)
        invariant forall e :: e in lists[i] ==> e in elems && e.list in chain && Untouched(e, rs)
        decreases |lists[i]|
      {
        EmptySlot(i);
        ghost var rest := lists[i];
        assert rest == [rest[0]] + rest[1..];
        var he := DropFront(slot, i, done, rs, elems, chain);
        done := done + {he};
      }
      EmptySlot(i);
      assert lists == lists[i := []];
    }

    /** One round of the outer loop of hashtable_fini. */
    method FiniSlot(slot: Slot, ghost i: nat, ghost gone: set<HashElm>, ghost rs: map<HashElm, Account>,
        ghost elems: set<HashElm>, ghost chain: set<Link>)
      returns (ghost done: set<HashElm>)
      requires slot.head in chain && i < |lists| && forall e :: e in lists[i] ==> e in elems && e.list in chain
      requires InOrder() && i < |table| && slot == table[i] && forall e :: e in lists[i] ==> Untouched(e, rs)
      requires forall e :: e in gone ==> Dropped(e, rs)
      modifies this`lists, slot`count, elems`refcount, elems`freeCalls, chain`prev, chain`next
      ensures InOrder() && lists == old(lists)[i := []] && slot.count == 0
      ensures gone <= done && forall e :: e in old(lists[i]) ==> e in done
      ensures forall e :: e in done ==> Dropped(e, rs)
    {
      done := DropAll(slot, i, gone, rs, elems, chain);
      Reset(slot, i, done, rs);
    }

    /** No element is in two slots. */
    lemma OneSlot(i: nat, j: nat, e: HashElm)
      requires InOrder() && i < |table| && j < |table| && i != j && e in lists[i]
      ensures e !in lists[j]
    {
      assert SlotOk(table[i], i, lists[i]) && SlotOk(table[j], j, lists[j]);
    }

    /** The elements and links of all slots are among elems and chain. */
    ghost predicate Covers(all: seq<seq<HashElm>>, elems: set<HashElm>, chain: set<Link>) {
      && (forall s :: s in table ==> s.head in chain)
      && (forall j, e :: 0 <= j < |all| && e in all[j] ==> e in elems && e.list in chain)
    }

    /** The first i slots of a table that held the lists `all` have been emptied of `done`; rs are the counts at the start. */
    ghost predicate Emptied(i: nat, all: seq<seq<HashElm>>, done: set<HashElm>, rs: map<HashElm, Account>)
      reads this`lists, Slots()`count, rs.Keys`refcount, rs.Keys`freeCalls, (set e | e in rs :: e.list)
    {
      && |table| == |lists| == |all| == mask + 1 && i <= |all|
      && (forall j {:trigger lists[j]} :: 0 <= j < |all| ==> lists[j] == if j < i then [] else all[j])
      && (forall e :: e in done ==> e in rs && Dropped(e, rs))
      && (forall j, e {:trigger e in all[j]} :: 0 <= j < |all| && e in all[j] ==> e in rs && if j < i then e in done else Untouched(e, rs))
      && (forall j :: 0 <= j < i ==> assert table[j] in table; table[j].count == 0)
    }

    method FiniRound(ghost all: seq<seq<HashElm>>, i: nat, ghost gone: set<HashElm>, ghost rs: map<HashElm, Account>,
        ghost elems: set<HashElm>, ghost chain: set<Link>, ghost slots: set<Slot>)
      returns (ghost done: set<HashElm>)
      requires forall s :: s in table ==> s in slots
      requires InOrder() && i <= mask && Emptied(i, all, gone, rs) && Covers(all, elems, chain)
      modifies this`lists, slots`count, elems`refcount, elems`freeCalls, chain`prev, chain`next
      ensures InOrder() && Emptied(i + 1, all, done, rs)
    {
      assert lists[i] == all[i];
      ghost var es, ls := set e | e in all[i], {table[i].head} + set e | e in all[i] :: e.list;
      forall j, e {:trigger e in all[j]} | i < j < |all| && e in all[j]
        ensures e !in es && e in rs && Untouched(e, rs)
      {
        OneSlot(j, i, e);
      }
      assert forall k :: 0 <= k < |all[i]| ==> all[i][k] in all[i];
      done := FiniSlot(table[i], i, gone, rs, es, ls);
      forall j, e {:trigger e in all[j]} | i < j < |all| && e in all[j]
        ensures Untouched(e, rs)
      {
        assert old(Untouched(e, rs)) && e !in es;
      }
    }

    /** elems are the elements of the lists `all`, each in its slot. */
    ghost predicate Comprises(all: seq<seq<HashElm>>, elems: set<HashElm>)
      reads elems`key
    {
      |all| == mask + 1 && forall e :: e in elems ==> e in all[SlotOf(e.key)]
    }

    lemma Starts(elems: set<HashElm>, chain: set<Link>, rs: map<HashElm, Account>)
      requires InOrder() && Covers(lists, elems, chain) && rs == Accounts(elems)
      ensures Emptied(0, lists, {}, rs)
    {
    }

    lemma AllOut(all: seq<seq<HashElm>>, done: set<HashElm>, rs: map<HashElm, Account>)
      requires Emptied(mask + 1, all, done, rs) && Comprises(all, rs.Keys)
      ensures done == rs.Keys && |lists| == |table| && forall i :: 0 <= i < |table| ==> lists[i] == [] && table[i].count == 0
      ensures forall e :: e in rs ==> Dropped(e, rs)
    {
    }

    /** The outer loop of hashtable_fini. */
    method FiniLoop(ghost elems: set<HashElm>, ghost chain: set<Link>, ghost slots: set<Slot>, ghost rs: map<HashElm, Account>)
      requires forall s :: s in table ==> s in slots
      requires InOrder() && Comprises(lists, elems) && Covers(lists, elems, chain) && rs == Accounts(elems)
      modifies this`lists, slots`count, elems`refcount, elems`freeCalls, chain`prev, chain`next
      ensures |lists| == |table| && forall i :: 0 <= i < |table| ==> lists[i] == [] && table[i].count == 0
      ensures forall e :: e in elems ==> Dropped(e, rs)
    {
      ghost var all, done: set<HashElm> := lists, {};
      Starts(elems, chain, rs);
      var i := 0;
      while i <= mask
        invariant InOrder() && 0 <= i <= mask + 1 && Emptied(i, all, done, rs)
      {
        done := FiniRound(all, i, done, rs, elems, chain, slots);
        i := i + 1;
      }
      AllOut(all, done, rs);
    }

    /**
     hashtable_fini takes every element out and puts the table's reference to each of them once;
     freefn runs, once, on those to which nobody else has one.
     */
    method Fini()
      requires Valid()
      modifies this`count, this`lists, Slots()`count, Elements()`refcount, Elements()`freeCalls, Chain()`prev, Chain()`next
      ensures count == 0 && |lists| == |table| && forall i :: 0 <= i < |table| ==> lists[i] == [] && table[i].count == 0
      ensures forall e :: e in old(Elements()) ==> Ring(e.list, []) && e.refcount == old(e.refcount) - 1
      ensures forall e :: e in old(Elements()) ==> e.freeCalls == old(e.freeCalls) + if e.refcount == 0 && freefn then 1 else 0
    {
      ghost var rs := Accounts(Elements());
      forall i | 0 <= i < |lists|
        ensures SlotOk(table[i], i, lists[i])
      {
      }
      FiniLoop(Elements(), Chain(), Slots(), rs);
      count := 0;
    }
  }

  /**
   hashtable_init. Without memory it fails. Size 0 passes that test, but the mask then has all
   bits set, and the loop over the slots writes beyond the table: `fault`.
   */
  method HashtableInit(size: nat, hashfn: Key -> nat, freefn: bool, alloc: bool) returns (ret: int, fault: bool, ht: HashTable?)
    ensures ret == if alloc then 0 else -1
    ensures fault <==> alloc && size == 0
    ensures if alloc && size > 0
            then ht != null && fresh(ht) && ht.Valid() && ht.Stands(map[]) && ht.mask == size - 1 && ht.hashfn == hashfn && ht.freefn == freefn
            else ht == null
  {
    if !alloc {
      return -1, false, null;
    }
    if size == 0 {
      return 0, true, null;
    }
    ht := new HashTable(size, hashfn, freefn);
    return 0, false, ht;
  }
}
