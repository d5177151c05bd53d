/**
 Threads on the hash table of src/hashtable.c. A step is one lock operation, one atomic
 operation, or the work on a slot's list that its lock protects; threads interleave freely.

 Callers put only references they hold, and no element is hashed or unhashed by two threads at
 once. Whole runs are those in which, besides, hashtable_unhash is called on linked elements:
 UnhashAlone and UnhashNeedsLink show that it keeps the accounts exactly then.
 */
module HashProtocol {
  type Tid = nat
  type Elm = nat
  type Key = nat
  type Slot = nat

  datatype Lock = Write(t: Tid) | Read(ts: set<Tid>)

  /**
   Where a thread stands inside the functions of src/hashtable.c.
     Hash:   0 fields stored; 1 slot locked; 2 no equal key found, counts raised; 3 linked
     Unhash: 0 slot found; 1 slot locked; 2 unlinked; 3 counts lowered; 4 count is zero, freefn comes next
     Lookup: 0 slot found; 1 slot locked; 2 `e` found; 3 `e` held; 4 nothing found
     Unlock: done but for the write lock of k's slot; then the call returns ret
     Free:   hashelm_put has brought the count to zero, freefn comes next
     Fault:  hashelm_put has brought it to zero, and reads a field that was never set
   */
  datatype Pc =
    | Idle
    | Hash(e: Elm, step: nat)
    | Unhash(e: Elm, step: nat)
    | Lookup(k: Key, e: Elm, step: nat)
    | Unlock(k: Key, ret: int)
    | Free(e: Elm)
    | Fault(e: Elm)

  /** `attached` says that the field `ht` was set, which hashtable_hash does. */
  datatype El = El(refcount: int, linked: bool, key: Key, attached: bool, freeCalls: nat, holders: multiset<Tid>)

  /**
   Locks that are absent are free, and threads that are absent are idle. Bookkeeping only:
   `refs`, the elements whose count includes the table's own reference; `counted`, those the
   table's count includes; `busy`, who is hashing or unhashing an element; `dying`, who has
   brought an element's count to zero and is about to call freefn.
   */
  datatype State = State(
    els: map<Elm, El>, locks: map<Slot, Lock>, pcs: map<Tid, Pc>, count: int, slotCounts: map<Slot, int>,
    refs: set<Elm>, counted: set<Elm>, busy: map<Elm, Tid>, dying: map<Elm, Tid>)

  datatype Action =
    | Init(e: Elm) | BeginHash(e: Elm, k: Key) | BeginUnhash(e: Elm) | BeginLookup(k: Key)
    | Hold(e: Elm) | Put(e: Elm) | Pass(e: Elm, to: Tid)
    | Advance

  function PcOf(s: State, t: Tid): Pc {
    if t in s.pcs then s.pcs[t] else Idle
  }

  function At(s: State, t: Tid, pc: Pc): State {
    s.(pcs := s.pcs[t := pc])
  }

  function Upd(s: State, e: Elm, el: El): State {
    s.(els := s.els[e := el])
  }

  function SlotCount(s: State, sl: Slot): int {
    if sl in s.slotCounts then s.slotCounts[sl] else 0
  }

  /** The counters of the table and of one slot change together. */
  function Recounted(s: State, sl: Slot, change: int): State {
    s.(count := s.count + change, slotCounts := s.slotCounts[sl := SlotCount(s, sl) + change])
  }

  /** The table as hashtable_init leaves it, with no elements yet: its count starts at 1. */
  const Start := State(map[], map[], map[], 1, map[], {}, {}, map[], map[])

  /** The linked element with key k, if there is one; list_foreach with equalfn. */
  ghost predicate Matches(s: State, k: Key, e: Elm) {
    e in s.els && s.els[e].linked && s.els[e].key == k
  }

  ghost predicate Present(s: State, k: Key) {
    exists e :: Matches(s, k, e)
  }

  function Released(s: State, sl: Slot, t: Tid): State {
    if sl in s.locks && s.locks[sl].Read? && s.locks[sl].ts != {t}
    then s.(locks := s.locks[sl := Read(s.locks[sl].ts - {t})])
    else s.(locks := s.locks - {sl})
  }

  /** pthread_rwlock_wrlock. */
  ghost predicate Acquires(s: State, sl: Slot, t: Tid, pc: Pc, s': State) {
    sl !in s.locks && s' == At(s, t, pc).(locks := s.locks[sl := Write(t)])
  }

  /** An atomic change of the count, and the references held afterwards. */
  function Counted(el: El, change: int, holders: multiset<Tid>): El {
    el.(refcount := el.refcount + change, holders := holders)
  }

  /** freefn runs on e. */
  function Freed(s: State, e: Elm): State
    requires e in s.els
  {
    Upd(s, e, s.els[e].(freeCalls := s.els[e].freeCalls + 1)).(dying := s.dying - {e})
  }

  /** What thread t may do next, and what comes of it. `slot` is hashfn followed by the mask. */
  ghost predicate Next(slot: Key -> Slot, s: State, t: Tid, a: Action, s': State) {
    if a.Advance? then Advances(slot, s, t, s') else PcOf(s, t).Idle? && Begins(s, t, a, s')
  }

  ghost predicate Begins(s: State, t: Tid, a: Action, s': State)
    requires !a.Advance?
  {
    match a
    case Init(e) => e !in s.els && s' == Upd(s, e, El(1, false, 0, false, 0, multiset{t}))
    case BeginLookup(k) => s' == At(s, t, Lookup(k, 0, 0))
    case BeginHash(e, k) =>
      && e in s.els && t in s.els[e].holders && e !in s.busy
      && s' == if s.els[e].linked then s
               else At(Upd(s, e, s.els[e].(key := k, attached := true)), t, Hash(e, 0)).(busy := s.busy[e := t])
    case BeginUnhash(e) =>
      e in s.els && e !in s.busy && s' == At(s, t, Unhash(e, 0)).(busy := s.busy[e := t])
    case Hold(e) =>
      && e in s.els && t in s.els[e].holders
      && s' == Upd(s, e, Counted(s.els[e], 1, s.els[e].holders + multiset{t}))
    case Pass(e, to) =>
      && e in s.els && t in s.els[e].holders
      && s' == Upd(s, e, Counted(s.els[e], 0, s.els[e].holders - multiset{t} + multiset{to}))
    case Put(e) =>
      && e in s.els && t in s.els[e].holders
      && var s1 := Upd(s, e, Counted(s.els[e], -1, s.els[e].holders - multiset{t}));
         s' == if s.els[e].refcount != 1 then s1
               else if s.els[e].attached then At(s1, t, Free(e)).(dying := s.dying[e := t])
               else At(s1, t, Fault(e))
  }

  ghost predicate Advances(slot: Key -> Slot, s: State, t: Tid, s': State) {
    match PcOf(s, t)
    case Idle => false
    case Hash(e, step) => e in s.els && AdvancesHash(slot, s, t, e, step, s')
    case Unhash(e, step) => e in s.els && AdvancesUnhash(slot, s, t, e, step, s')
    case Lookup(k, e, step) => AdvancesLookup(slot, s, t, k, e, step, s')
    case Unlock(k, _) => s' == At(Released(s, slot(k), t), t, Idle)
    case Fault(_) => false
    case Free(e) => e in s.els && s' == At(Freed(s, e), t, Idle)
  }

  ghost predicate AdvancesHash(slot: Key -> Slot, s: State, t: Tid, e: Elm, step: nat, s': State)
    requires e in s.els
  {
    var k := s.els[e].key;
    if step == 0 then Acquires(s, slot(k), t, Hash(e, 1), s')
    else if step == 1 then
      s' == if Present(s, k) then At(s, t, Unlock(k, -1)).(busy := s.busy - {e})
            else Recounted(At(s, t, Hash(e, 2)).(counted := s.counted + {e}), slot(k), 1)
    else if step == 2 then s' == At(Upd(s, e, s.els[e].(linked := true)), t, Hash(e, 3))
    else s' == At(Upd(s, e, Counted(s.els[e], 1, s.els[e].holders)), t, Unlock(k, 0)).(refs := s.refs + {e}, busy := s.busy - {e})
  }

  ghost predicate AdvancesUnhash(slot: Key -> Slot, s: State, t: Tid, e: Elm, step: nat, s': State)
    requires e in s.els
  {
    var k := s.els[e].key;
    if step == 0 then Acquires(s, slot(k), t, Unhash(e, 1), s')
    else if step == 1 then s' == At(Upd(s, e, s.els[e].(linked := false)), t, Unhash(e, 2))
    else if step == 2 then s' == Recounted(At(s, t, Unhash(e, 3)).(counted := s.counted - {e}), slot(k), -1)
    else if step == 3 then
      var s1 := Upd(s, e, Counted(s.els[e], -1, s.els[e].holders)).(refs := s.refs - {e});
      s' == if s.els[e].refcount != 1 then At(s1, t, Unlock(k, 0)).(busy := s.busy - {e})
            else if s.els[e].attached then At(s1, t, Unhash(e, 4)).(dying := s.dying[e := t])
            else At(s1, t, Fault(e))
    else s' == At(Freed(s, e), t, Unlock(k, 0)).(busy := s.busy - {e})
  }

  ghost predicate AdvancesLookup(slot: Key -> Slot, s: State, t: Tid, k: Key, e: Elm, step: nat, s': State) {
    var sl := slot(k);
    if step == 0 then
      && (sl in s.locks ==> s.locks[sl].Read?)
      && s' == At(s, t, Lookup(k, 0, 1)).(locks := s.locks[sl := Read({t} + if sl in s.locks then s.locks[sl].ts else {})])
    else if step == 1 then
      exists to :: s' == At(s, t, to) && if Present(s, k) then to.Lookup? && to == Lookup(k, to.e, 2) && Matches(s, k, to.e)
                                         else to == Lookup(k, 0, 4)
    else if step == 2 then
      e in s.els && s' == At(Upd(s, e, Counted(s.els[e], 1, s.els[e].holders + multiset{t})), t, Lookup(k, e, 3))
    else s' == At(Released(s, sl, t), t, Idle)
  }

  // ---------- The invariant ----------

  predicate BusyWith(pc: Pc, e: Elm) {
    (pc.Hash? || pc.Unhash?) && pc.e == e
  }

  predicate Freeing(pc: Pc, e: Elm) {
    (pc.Free? && pc.e == e) || pc == Unhash(e, 4)
  }

  /** What holds of the element that a thread is hashing or unhashing. */
  predicate Phase(s: State, pc: Pc)
    requires (pc.Hash? || pc.Unhash?) && pc.e in s.els
  {
    var e, linked := pc.e, s.els[pc.e].linked;
    s.els[e].attached &&
    if pc.Hash? then
      pc.step <= 3 && (linked <==> pc.step == 3) && e !in s.refs && (e in s.counted <==> pc.step >= 2)
    else
      pc.step <= 4 && (linked <==> pc.step <= 1) && (e in s.refs <==> pc.step <= 3) && (e in s.counted <==> pc.step <= 2)
  }

  ghost predicate HasWrite(s: State, sl: Slot, t: Tid) {
    sl in s.locks && s.locks[sl] == Write(t)
  }

  ghost predicate HasRead(s: State, sl: Slot, t: Tid) {
    sl in s.locks && s.locks[sl].Read? && t in s.locks[sl].ts
  }

  /**
   The count is the references held plus the table's own; freefn has run, or is about to, exactly
   if it is zero and the element was once given to hashtable_hash; an element nobody is busy with
   has the table's reference exactly if it is linked.
   */
  ghost predicate ElmOk(s: State, e: Elm)
    requires e in s.els
  {
    var el := s.els[e];
    && el.refcount == |el.holders| + (if e in s.refs then 1 else 0)
    && el.freeCalls == (if el.refcount == 0 && el.attached && e !in s.dying then 1 else 0)
    && (e in s.dying ==> el.refcount == 0 && el.attached) && (e in s.refs ==> el.attached)
    && (e !in s.busy ==> (el.linked <==> e in s.refs) && (el.linked <==> e in s.counted))
  }

  ghost predicate ThreadOk(slot: Key -> Slot, s: State, t: Tid) {
    var pc := PcOf(s, t);
    && (pc.Hash? || pc.Unhash? ==> pc.e in s.els && pc.e in s.busy && s.busy[pc.e] == t && Phase(s, pc))
    && (pc.Hash? ==> t in s.els[pc.e].holders)
    && (pc.Free? || (pc.Unhash? && pc.step == 4) ==> pc.e in s.els && pc.e in s.dying && s.dying[pc.e] == t)
    && ((pc.Hash? || pc.Unhash?) && pc.step >= 1 ==> HasWrite(s, slot(s.els[pc.e].key), t))
    && (pc.Unlock? ==> HasWrite(s, slot(pc.k), t))
    && (pc.Lookup? && pc.step >= 1 ==> HasRead(s, slot(pc.k), t))
    && (pc.Hash? && pc.step == 2 ==> !Present(s, s.els[pc.e].key))
    && (pc.Lookup? && pc.step == 2 ==> Matches(s, pc.k, pc.e))
    && (pc.Lookup? && pc.step == 3 ==> pc.e in s.els && t in s.els[pc.e].holders)
  }

  ghost predicate Unique(s: State) {
    forall e, f :: e in s.els && f in s.els && s.els[e].linked && s.els[f].linked && s.els[e].key == s.els[f].key ==> e == f
  }

  ghost predicate Inv(slot: Key -> Slot, s: State) {
    && (forall e :: e in s.els ==> ElmOk(s, e))
    && (forall t :: ThreadOk(slot, s, t))
    && (forall e :: e in s.busy ==> e in s.els && BusyWith(PcOf(s, s.busy[e]), e))
    && (forall e :: e in s.dying ==> e in s.els && Freeing(PcOf(s, s.dying[e]), e))
    && s.refs <= s.els.Keys && s.counted <= s.els.Keys
    && Unique(s) && s.count == 1 + |s.counted|
  }

  lemma InvStart(slot: Key -> Slot)
    ensures Inv(slot, Start)
  {}

  // ---------- One step keeps the invariant ----------

  ghost predicate Alike(s: State, s': State, x: Elm) {
    && (x in s'.els <==> x in s.els) && (x in s.els ==> s'.els[x] == s.els[x])
    && (x in s'.refs <==> x in s.refs) && (x in s'.counted <==> x in s.counted)
    && (x in s'.busy <==> x in s.busy) && (x in s.busy ==> s'.busy[x] == s.busy[x])
    && (x in s'.dying <==> x in s.dying) && (x in s.dying ==> s'.dying[x] == s.dying[x])
  }

  /** All that a step of thread t, working on element e, may mean to anyone else. */
  ghost predicate Local(slot: Key -> Slot, s: State, t: Tid, e: Elm, s': State) {
    && (forall u :: u != t ==> PcOf(s', u) == PcOf(s, u))
    && (forall x :: x != e ==> Alike(s, s', x) && !BusyWith(PcOf(s, t), x) && !Freeing(PcOf(s, t), x))
    && (e in s.els ==> e in s'.els && ElementKept(slot, s, t, e, s'))
    && (e !in s.els ==> e in s'.els ==> !s'.els[e].linked)
    && (forall sl, u :: u != t && HasWrite(s, sl, u) ==> HasWrite(s', sl, u))
    && (forall sl, u :: u != t && HasRead(s, sl, u) ==> HasRead(s', sl, u))
  }

  /** Only who is busy with an element changes its links and its accounts, and links change under the slot's lock. */
  ghost predicate ElementKept(slot: Key -> Slot, s: State, t: Tid, e: Elm, s': State)
    requires e in s.els && e in s'.els
  {
    var el, el' := s.els[e], s'.els[e];
    && (forall u :: u != t && u in el.holders ==> u in el'.holders)
    && (e in s.busy && s.busy[e] != t ==>
      && el'.linked == el.linked && el'.key == el.key && (el.attached ==> el'.attached) && e in s'.busy && s'.busy[e] == s.busy[e]
      && (e in s'.refs <==> e in s.refs) && (e in s'.counted <==> e in s.counted))
    && (e in s.dying && s.dying[e] != t ==> e in s'.dying && s'.dying[e] == s.dying[e])
    && (el'.linked != el.linked ==> el'.key == el.key && HasWrite(s, slot(el.key), t))
    && (el'.key != el.key ==> !el.linked && !el'.linked)
  }

  /** What the step must see to itself. */
  ghost predicate Own(slot: Key -> Slot, s: State, t: Tid, e: Elm, s': State) {
    && (e in s'.els ==> ElmOk(s', e))
    && ThreadOk(slot, s', t)
    && (e in s'.busy ==> e in s'.els && BusyWith(PcOf(s', s'.busy[e]), e))
    && (e in s'.dying ==> e in s'.els && Freeing(PcOf(s', s'.dying[e]), e))
    && (e in s'.refs + s'.counted ==> e in s'.els)
    && s'.count == 1 + |s'.counted|
    && (e in s'.els && s'.els[e].linked ==> Matches(s, s'.els[e].key, e) || !Present(s, s'.els[e].key))
  }

  lemma OtherThread(slot: Key -> Slot, s: State, t: Tid, e: Elm, s': State, u: Tid)
    requires ThreadOk(slot, s, t) && ThreadOk(slot, s, u) && Local(slot, s, t, e, s') && u != t
    ensures ThreadOk(slot, s', u)
  {
    var pc := PcOf(s, u);
    if pc.Hash? || pc.Unhash? || pc.Free? || pc.Lookup? {
      assert pc.e != e ==> Alike(s, s', pc.e);
    }
    if pc.Hash? && pc.step == 2 {
      var k := s.els[pc.e].key;
      assert HasWrite(s, slot(k), u);
      forall x | Matches(s', k, x)
        ensures Matches(s, k, x)
      {
        assert x != e ==> Alike(s, s', x);
      }
    }
    if pc.Lookup? && pc.step == 2 {
      assert HasRead(s, slot(pc.k), u);
    }
  }

  lemma StepUnique(slot: Key -> Slot, s: State, t: Tid, e: Elm, s': State)
    requires Unique(s) && Local(slot, s, t, e, s')
    requires e in s'.els && s'.els[e].linked ==> Matches(s, s'.els[e].key, e) || !Present(s, s'.els[e].key)
    ensures Unique(s')
  {
    forall x, y | x in s'.els && y in s'.els && s'.els[x].linked && s'.els[y].linked && s'.els[x].key == s'.els[y].key
      ensures x == y
    {
      var k := s'.els[x].key;
      assert (x != e ==> Alike(s, s', x)) && (y != e ==> Alike(s, s', y));
      assert (x != e ==> Matches(s, k, x)) && (y != e ==> Matches(s, k, y));
    }
  }

  lemma StepElements(slot: Key -> Slot, s: State, t: Tid, e: Elm, s': State)
    requires (forall x :: x in s.els ==> ElmOk(s, x)) && Local(slot, s, t, e, s') && (e in s'.els ==> ElmOk(s', e))
    ensures forall x :: x in s'.els ==> ElmOk(s', x)
  {
    forall x | x in s'.els
      ensures ElmOk(s', x)
    {
      if x != e { assert Alike(s, s', x) && ElmOk(s, x); }
    }
  }

  lemma StepOwners(slot: Key -> Slot, s: State, t: Tid, e: Elm, s': State)
    requires forall x :: x in s.busy ==> x in s.els && BusyWith(PcOf(s, s.busy[x]), x)
    requires forall x :: x in s.dying ==> x in s.els && Freeing(PcOf(s, s.dying[x]), x)
    requires s.refs <= s.els.Keys && s.counted <= s.els.Keys && Local(slot, s, t, e, s') && Own(slot, s, t, e, s')
    ensures forall x :: x in s'.busy ==> x in s'.els && BusyWith(PcOf(s', s'.busy[x]), x)
    ensures forall x :: x in s'.dying ==> x in s'.els && Freeing(PcOf(s', s'.dying[x]), x)
    ensures s'.refs <= s'.els.Keys && s'.counted <= s'.els.Keys
  {
    forall x
      ensures (x in s'.busy ==> x in s'.els && BusyWith(PcOf(s', s'.busy[x]), x))
      ensures (x in s'.dying ==> x in s'.els && Freeing(PcOf(s', s'.dying[x]), x))
      ensures x in s'.refs + s'.counted ==> x in s'.els
    {
      assert x != e ==> Alike(s, s', x);
    }
  }

  lemma Step(slot: Key -> Slot, s: State, t: Tid, e: Elm, s': State)
    requires Inv(slot, s) && Local(slot, s, t, e, s') && Own(slot, s, t, e, s')
    ensures Inv(slot, s')
  {
    StepUnique(slot, s, t, e, s');
    StepElements(slot, s, t, e, s');
    StepOwners(slot, s, t, e, s');
    forall u
      ensures ThreadOk(slot, s', u)
    {
      if u != t { OtherThread(slot, s, t, e, s', u); }
    }
  }

  /** All that one case below needs to know. */
  ghost predicate Known(slot: Key -> Slot, s: State, t: Tid, e: Elm) {
    && ThreadOk(slot, s, t)
    && (e in s.els ==> ElmOk(s, e) && (s.els[e].linked ==> s.els[e].refcount > 0))
    && (e in s.busy ==> e in s.els && BusyWith(PcOf(s, s.busy[e]), e))
    && (e in s.dying ==> e in s.els && Freeing(PcOf(s, s.dying[e]), e))
    && (e in s.refs + s.counted ==> e in s.els)
    && s.count == 1 + |s.counted|
  }

  /** A linked element is counted: by the table, or by the thread that is linking it. */
  lemma LinkedAlive(slot: Key -> Slot, s: State, e: Elm)
    requires Inv(slot, s) && e in s.els && s.els[e].linked
    ensures s.els[e].refcount > 0 && s.els[e].freeCalls == 0
  {
    assert ElmOk(s, e);
    if e in s.busy {
      assert ThreadOk(slot, s, s.busy[e]) && BusyWith(PcOf(s, s.busy[e]), e);
    }
  }

  lemma Knows(slot: Key -> Slot, s: State, t: Tid, e: Elm)
    requires Inv(slot, s)
    ensures Known(slot, s, t, e)
  {
    if e in s.els && s.els[e].linked { LinkedAlive(slot, s, e); }
  }

  /** Steps that change nothing but locks and where the thread stands, and are not part of hashing, unhashing or freeing. */
  ghost predicate LocksOnly(s: State, t: Tid, to: Pc, s': State) {
    && s'.els == s.els && s'.refs == s.refs && s'.counted == s.counted && s'.count == s.count
    && s'.busy == s.busy && s'.dying == s.dying && s'.pcs == s.pcs[t := to]
    && !PcOf(s, t).Hash? && !PcOf(s, t).Unhash? && !PcOf(s, t).Free? && (to.Idle? || to.Lookup?)
  }

  lemma OnLocks(slot: Key -> Slot, s: State, t: Tid, e: Elm, to: Pc, s': State)
    requires Known(slot, s, t, e) && LocksOnly(s, t, to, s')
    requires forall sl, u :: u != t && HasWrite(s, sl, u) ==> HasWrite(s', sl, u)
    requires forall sl, u :: u != t && HasRead(s, sl, u) ==> HasRead(s', sl, u)
    requires to.Lookup? && to.step >= 1 ==> HasRead(s', slot(to.k), t)
    requires (to.Lookup? && to.step == 2 ==> Matches(s, to.k, to.e)) && (to.Lookup? ==> to.step != 3)
    ensures Local(slot, s, t, e, s') && Own(slot, s, t, e, s')
  {
    assert PcOf(s', t) == to && forall u :: u != t ==> PcOf(s', u) == PcOf(s, u);
  }

  lemma OnLookupLock(slot: Key -> Slot, s: State, t: Tid, e: Elm, s': State)
    requires Known(slot, s, t, e) && PcOf(s, t).Lookup? && PcOf(s, t).step == 0 && Advances(slot, s, t, s')
    ensures Local(slot, s, t, e, s') && Own(slot, s, t, e, s')
  {
    OnLocks(slot, s, t, e, PcOf(s', t), s');
  }

  lemma OnLookupScan(slot: Key -> Slot, s: State, t: Tid, e: Elm, s': State)
    requires Known(slot, s, t, e) && PcOf(s, t).Lookup? && PcOf(s, t).step == 1 && Advances(slot, s, t, s')
    ensures Local(slot, s, t, e, s') && Own(slot, s, t, e, s')
  {
    var to := PcOf(s', t);
    assert LocksOnly(s, t, to, s') && s'.locks == s.locks;
    OnLocks(slot, s, t, e, to, s');
  }

  /** A thread that releases its own lock takes nobody else's. */
  lemma OthersKeepLocks(s: State, sl: Slot, t: Tid, s': State, u: Tid, x: Slot)
    requires (HasWrite(s, sl, t) || HasRead(s, sl, t)) && s'.locks == Released(s, sl, t).locks && u != t
    ensures HasWrite(s, x, u) ==> HasWrite(s', x, u)
    ensures HasRead(s, x, u) ==> HasRead(s', x, u)
  {}

  lemma OnLookupUnlock(slot: Key -> Slot, s: State, t: Tid, e: Elm, s': State)
    requires Known(slot, s, t, e) && PcOf(s, t).Lookup? && PcOf(s, t).step > 2 && Advances(slot, s, t, s')
    ensures Local(slot, s, t, e, s') && Own(slot, s, t, e, s')
  {
    forall x, u | u != t
      ensures (HasWrite(s, x, u) ==> HasWrite(s', x, u)) && (HasRead(s, x, u) ==> HasRead(s', x, u))
    {
      OthersKeepLocks(s, slot(PcOf(s, t).k), t, s', u, x);
    }
    OnLocks(slot, s, t, e, Idle, s');
  }

  lemma OnUnlock(slot: Key -> Slot, s: State, t: Tid, e: Elm, s': State)
    requires Known(slot, s, t, e) && PcOf(s, t).Unlock? && Advances(slot, s, t, s')
    ensures Local(slot, s, t, e, s') && Own(slot, s, t, e, s')
  {
    forall x, u | u != t
      ensures (HasWrite(s, x, u) ==> HasWrite(s', x, u)) && (HasRead(s, x, u) ==> HasRead(s', x, u))
    {
      OthersKeepLocks(s, slot(PcOf(s, t).k), t, s', u, x);
    }
    OnLocks(slot, s, t, e, Idle, s');
  }

  lemma OnBeginLookup(slot: Key -> Slot, s: State, t: Tid, k: Key, e: Elm, s': State)
    requires Known(slot, s, t, e) && Next(slot, s, t, BeginLookup(k), s')
    ensures Local(slot, s, t, e, s') && Own(slot, s, t, e, s')
  {
    OnLocks(slot, s, t, e, Lookup(k, 0, 0), s');
  }

  lemma OnHashPresent(slot: Key -> Slot, s: State, t: Tid, e: Elm, s': State)
    requires Known(slot, s, t, e) && PcOf(s, t) == Hash(e, 1) && e in s.els && Present(s, s.els[e].key) && Advances(slot, s, t, s')
    ensures Local(slot, s, t, e, s') && Own(slot, s, t, e, s')
  {}

  lemma OnHashAbsent(slot: Key -> Slot, s: State, t: Tid, e: Elm, s': State)
    requires Known(slot, s, t, e) && PcOf(s, t) == Hash(e, 1) && e in s.els && !Present(s, s.els[e].key) && Advances(slot, s, t, s')
    ensures Local(slot, s, t, e, s') && Own(slot, s, t, e, s')
  {
    assert forall x :: Matches(s', s.els[e].key, x) <==> Matches(s, s.els[e].key, x);
  }

  lemma OnBeginHash(slot: Key -> Slot, s: State, t: Tid, k: Key, e: Elm, s': State)
    requires Known(slot, s, t, e) && e in s.els && !s.els[e].linked && Next(slot, s, t, BeginHash(e, k), s')
    ensures Local(slot, s, t, e, s') && Own(slot, s, t, e, s')
  {}

  lemma OnHashLock(slot: Key -> Slot, s: State, t: Tid, e: Elm, s': State)
    requires Known(slot, s, t, e) && PcOf(s, t) == Hash(e, 0) && Advances(slot, s, t, s')
    ensures Local(slot, s, t, e, s') && Own(slot, s, t, e, s')
  {}

  lemma OnHashLink(slot: Key -> Slot, s: State, t: Tid, e: Elm, s': State)
    requires Known(slot, s, t, e) && PcOf(s, t) == Hash(e, 2) && Advances(slot, s, t, s')
    ensures Local(slot, s, t, e, s') && Own(slot, s, t, e, s')
  {}

  lemma OnHashHold(slot: Key -> Slot, s: State, t: Tid, e: Elm, s': State)
    requires Known(slot, s, t, e) && PcOf(s, t) == Hash(e, 3) && Advances(slot, s, t, s')
    ensures Local(slot, s, t, e, s') && Own(slot, s, t, e, s')
  {}

  lemma OnUnhashLock(slot: Key -> Slot, s: State, t: Tid, e: Elm, s': State)
    requires Known(slot, s, t, e) && PcOf(s, t) == Unhash(e, 0) && Advances(slot, s, t, s')
    ensures Local(slot, s, t, e, s') && Own(slot, s, t, e, s')
  {}

  lemma OnUnhashUnlink(slot: Key -> Slot, s: State, t: Tid, e: Elm, s': State)
    requires Known(slot, s, t, e) && PcOf(s, t) == Unhash(e, 1) && Advances(slot, s, t, s')
    ensures Local(slot, s, t, e, s') && Own(slot, s, t, e, s')
  {}

  lemma OnUnhashUncount(slot: Key -> Slot, s: State, t: Tid, e: Elm, s': State)
    requires Known(slot, s, t, e) && PcOf(s, t) == Unhash(e, 2) && Advances(slot, s, t, s')
    ensures Local(slot, s, t, e, s') && Own(slot, s, t, e, s')
  {}

  lemma OnUnhashPut(slot: Key -> Slot, s: State, t: Tid, e: Elm, s': State)
    requires Known(slot, s, t, e) && PcOf(s, t) == Unhash(e, 3) && e in s.els && s.els[e].refcount != 1 && Advances(slot, s, t, s')
    ensures Local(slot, s, t, e, s') && Own(slot, s, t, e, s')
  {}

  /** The element was hashed before, so its field is set. */
  lemma OnUnhashLastPut(slot: Key -> Slot, s: State, t: Tid, e: Elm, s': State)
    requires Known(slot, s, t, e) && PcOf(s, t) == Unhash(e, 3) && e in s.els && s.els[e].refcount == 1 && Advances(slot, s, t, s')
    ensures Local(slot, s, t, e, s') && Own(slot, s, t, e, s')
  {}

  lemma OnUnhashFree(slot: Key -> Slot, s: State, t: Tid, e: Elm, s': State)
    requires Known(slot, s, t, e) && PcOf(s, t) == Unhash(e, 4) && Advances(slot, s, t, s')
    ensures Local(slot, s, t, e, s') && Own(slot, s, t, e, s')
  {}

  lemma OnLookupHold(slot: Key -> Slot, s: State, t: Tid, e: Elm, s': State)
    requires Known(slot, s, t, e) && PcOf(s, t).Lookup? && PcOf(s, t).step == 2 && PcOf(s, t).e == e && Advances(slot, s, t, s')
    ensures Local(slot, s, t, e, s') && Own(slot, s, t, e, s')
  {}

  lemma OnFree(slot: Key -> Slot, s: State, t: Tid, e: Elm, s': State)
    requires Known(slot, s, t, e) && PcOf(s, t).Free? && PcOf(s, t).e == e && Advances(slot, s, t, s')
    ensures Local(slot, s, t, e, s') && Own(slot, s, t, e, s')
  {}

  lemma OnInit(slot: Key -> Slot, s: State, t: Tid, a: Action, e: Elm, s': State)
    requires Known(slot, s, t, e) && a == Init(e) && Next(slot, s, t, a, s')
    ensures Local(slot, s, t, e, s') && Own(slot, s, t, e, s')
  {}

  lemma OnBeginUnhash(slot: Key -> Slot, s: State, t: Tid, a: Action, e: Elm, s': State)
    requires Known(slot, s, t, e) && a == BeginUnhash(e) && e in s.els && s.els[e].linked && Next(slot, s, t, a, s')
    ensures Local(slot, s, t, e, s') && Own(slot, s, t, e, s')
  {}

  /** References of a live element change hands, or their number changes. */
  lemma OnCounted(slot: Key -> Slot, s: State, t: Tid, e: Elm, el: El)
    requires Known(slot, s, t, e) && PcOf(s, t).Idle? && e in s.els
    requires el == s.els[e].(refcount := el.refcount, holders := el.holders) && el.freeCalls == 0 && e !in s.dying
    requires el.refcount == |el.holders| + (if e in s.refs then 1 else 0) > 0
    requires forall u :: u != t && u in s.els[e].holders ==> u in el.holders
    ensures Local(slot, s, t, e, Upd(s, e, el)) && Own(slot, s, t, e, Upd(s, e, el))
  {}

  /** The last reference goes. */
  lemma OnLastPut(slot: Key -> Slot, s: State, t: Tid, e: Elm, el: El, s': State)
    requires Known(slot, s, t, e) && PcOf(s, t).Idle? && e in s.els && e !in s.dying
    requires el == s.els[e].(refcount := 0, holders := multiset{}) && el.freeCalls == 0 && e !in s.refs
    requires s.els[e].holders == multiset{t} && el.attached
    requires s' == At(Upd(s, e, el), t, Free(e)).(dying := s.dying[e := t])
    ensures Local(slot, s, t, e, s') && Own(slot, s, t, e, s')
  {}

  lemma OnFault(slot: Key -> Slot, s: State, t: Tid, e: Elm, el: El, s': State)
    requires Known(slot, s, t, e) && PcOf(s, t).Idle? && e in s.els && e !in s.dying
    requires el == s.els[e].(refcount := 0, holders := multiset{}) && el.freeCalls == 0 && e !in s.refs
    requires s.els[e].holders == multiset{t} && !el.attached && s' == At(Upd(s, e, el), t, Fault(e))
    ensures Local(slot, s, t, e, s') && Own(slot, s, t, e, s')
  {}

  lemma KeepCount(slot: Key -> Slot, s: State, t: Tid, e: Elm, el: El)
    requires Inv(slot, s) && PcOf(s, t).Idle? && e in s.els && t in s.els[e].holders
    requires el == s.els[e].(refcount := el.refcount, holders := el.holders)
    requires el.refcount - |el.holders| == s.els[e].refcount - |s.els[e].holders| && el.refcount > 0
    requires forall u :: u != t && u in s.els[e].holders ==> u in el.holders
    ensures Inv(slot, Upd(s, e, el))
  {
    Knows(slot, s, t, e);
    assert |s.els[e].holders - multiset{t}| == |s.els[e].holders| - 1;
    OnCounted(slot, s, t, e, el);
    Step(slot, s, t, e, Upd(s, e, el));
  }

  lemma KeepLastPut(slot: Key -> Slot, s: State, t: Tid, e: Elm, s': State)
    requires Inv(slot, s) && Next(slot, s, t, Put(e), s') && s.els[e].refcount == 1
    ensures Inv(slot, s')
  {
    var holders := s.els[e].holders;
    Knows(slot, s, t, e);
    assert |holders - multiset{t}| == |holders| - 1;
    assert holders - multiset{t} == multiset{} && holders == multiset{t};
    var el := Counted(s.els[e], -1, multiset{});
    if el.attached {
      OnLastPut(slot, s, t, e, el, s');
    } else {
      OnFault(slot, s, t, e, el, s');
    }
    Step(slot, s, t, e, s');
  }

  lemma KeepReference(slot: Key -> Slot, s: State, t: Tid, a: Action, s': State)
    requires Inv(slot, s) && (a.Hold? || a.Pass? || a.Put?) && Next(slot, s, t, a, s')
    ensures Inv(slot, s')
  {
    var e := a.e;
    var el := s.els[e];
    assert ElmOk(s, e) && |el.holders - multiset{t}| == |el.holders| - 1;
    if a.Hold? {
      KeepCount(slot, s, t, e, Counted(el, 1, el.holders + multiset{t}));
    } else if a.Pass? {
      KeepCount(slot, s, t, e, Counted(el, 0, el.holders - multiset{t} + multiset{a.to}));
    } else if el.refcount == 1 {
      KeepLastPut(slot, s, t, e, s');
    } else {
      KeepCount(slot, s, t, e, Counted(el, -1, el.holders - multiset{t}));
    }
  }

  /** hashtable_unhash does not ask whether the element is linked. */
  ghost predicate Allowed(s: State, a: Action) {
    a.BeginUnhash? ==> a.e in s.els && s.els[a.e].linked
  }

  /** Exactly the calls that are allowed keep the invariant. */
  lemma KeepBegin(slot: Key -> Slot, s: State, t: Tid, a: Action, s': State)
    requires Inv(slot, s) && (a.Init? || a.BeginHash? || a.BeginUnhash? || a.BeginLookup?) && Next(slot, s, t, a, s')
    ensures Inv(slot, s') <==> Allowed(s, a)
  {
    var e := if a.BeginLookup? then 0 else a.e;
    Knows(slot, s, t, e);
    match a {
      case Init(_) => OnInit(slot, s, t, a, e, s');
      case BeginHash(_, k) =>
        if s.els[e].linked { return; }
        OnBeginHash(slot, s, t, k, e, s');
      case BeginUnhash(_) =>
        if !s.els[e].linked {
          assert PcOf(s', t) == Unhash(e, 0) && !ThreadOk(slot, s', t);
          return;
        }
        OnBeginUnhash(slot, s, t, a, e, s');
      case BeginLookup(k) => OnBeginLookup(slot, s, t, k, e, s');
    }
    Step(slot, s, t, e, s');
  }

  lemma KeepHash(slot: Key -> Slot, s: State, t: Tid, s': State)
    requires Inv(slot, s) && Advances(slot, s, t, s') && PcOf(s, t).Hash?
    ensures Inv(slot, s')
  {
    var e, step := PcOf(s, t).e, PcOf(s, t).step;
    Knows(slot, s, t, e);
    if step == 0 { OnHashLock(slot, s, t, e, s'); }
    else if step == 2 { OnHashLink(slot, s, t, e, s'); }
    else if step > 2 { OnHashHold(slot, s, t, e, s'); }
    else if Present(s, s.els[e].key) { OnHashPresent(slot, s, t, e, s'); }
    else { OnHashAbsent(slot, s, t, e, s'); }
    Step(slot, s, t, e, s');
  }

  lemma KeepUnhash(slot: Key -> Slot, s: State, t: Tid, s': State)
    requires Inv(slot, s) && Advances(slot, s, t, s') && PcOf(s, t).Unhash?
    ensures Inv(slot, s')
  {
    var e, step := PcOf(s, t).e, PcOf(s, t).step;
    Knows(slot, s, t, e);
    if step == 0 { OnUnhashLock(slot, s, t, e, s'); }
    else if step == 1 { OnUnhashUnlink(slot, s, t, e, s'); }
    else if step == 2 { OnUnhashUncount(slot, s, t, e, s'); }
    else if step == 4 { OnUnhashFree(slot, s, t, e, s'); }
    else if s.els[e].refcount == 1 { OnUnhashLastPut(slot, s, t, e, s'); }
    else { OnUnhashPut(slot, s, t, e, s'); }
    Step(slot, s, t, e, s');
  }

  lemma KeepLookup(slot: Key -> Slot, s: State, t: Tid, s': State)
    requires Inv(slot, s) && Advances(slot, s, t, s') && PcOf(s, t).Lookup?
    ensures Inv(slot, s')
  {
    var e, step := PcOf(s, t).e, PcOf(s, t).step;
    Knows(slot, s, t, e);
    if step == 0 { OnLookupLock(slot, s, t, e, s'); }
    else if step == 1 { OnLookupScan(slot, s, t, e, s'); }
    else if step == 2 { OnLookupHold(slot, s, t, e, s'); }
    else { OnLookupUnlock(slot, s, t, e, s'); }
    Step(slot, s, t, e, s');
  }

  lemma KeepAdvance(slot: Key -> Slot, s: State, t: Tid, s': State)
    requires Inv(slot, s) && Advances(slot, s, t, s')
    ensures Inv(slot, s')
  {
    match PcOf(s, t) {
      case Hash(_, _) => KeepHash(slot, s, t, s');
      case Unhash(_, _) => KeepUnhash(slot, s, t, s');
      case Lookup(_, _, _) => KeepLookup(slot, s, t, s');
      case Unlock(_, _) =>
        Knows(slot, s, t, 0);
        OnUnlock(slot, s, t, 0, s');
        Step(slot, s, t, 0, s');
      case Free(e) =>
        Knows(slot, s, t, e);
        OnFree(slot, s, t, e, s');
        Step(slot, s, t, e, s');
    }
  }

  lemma KeepNext(slot: Key -> Slot, s: State, t: Tid, a: Action, s': State)
    requires Inv(slot, s) && Next(slot, s, t, a, s') && Allowed(s, a)
    ensures Inv(slot, s')
  {
    if a.Advance? {
      KeepAdvance(slot, s, t, s');
    } else if a.Hold? || a.Pass? || a.Put? {
      KeepReference(slot, s, t, a, s');
    } else {
      KeepBegin(slot, s, t, a, s');
    }
  }

  // ---------- Every interleaving ----------

  /** Move i of a schedule. */
  ghost predicate StepAt(slot: Key -> Slot, states: seq<State>, moves: seq<(Tid, Action)>, i: nat)
    requires |states| == |moves| + 1 && i < |moves|
  {
    Next(slot, states[i], moves[i].0, moves[i].1, states[i + 1]) && Allowed(states[i], moves[i].1)
  }

  /** A schedule: which thread does what, one step after the other, where only linked elements are unhashed. */
  ghost predicate Behaviour(slot: Key -> Slot, states: seq<State>, moves: seq<(Tid, Action)>) {
    && |states| == |moves| + 1 && states[0] == Start
    && forall i :: 0 <= i < |moves| ==> StepAt(slot, states, moves, i)
  }

  lemma {:induction false} InvAlways(slot: Key -> Slot, states: seq<State>, moves: seq<(Tid, Action)>, i: nat)
    requires Behaviour(slot, states, moves) && i < |states|
    ensures Inv(slot, states[i])
  {
    if i == 0 {
      InvStart(slot);
    } else {
      InvAlways(slot, states, moves, i - 1);
      assert StepAt(slot, states, moves, i - 1);
      KeepNext(slot, states[i - 1], moves[i - 1].0, moves[i - 1].1, states[i]);
    }
  }

  /** Nobody is in the middle of hashing or unhashing e. */
  predicate Quiet(s: State, e: Elm) { e !in s.busy }

  /**
   In every reachable state: a quiet element's count is the references held plus one if it is
   linked; no linked or held element was freed; freefn ran at most once, only at zero, and, if the
   element was ever given to hashtable_hash, always at zero, or is about to.
   */
  lemma Lifetime(slot: Key -> Slot, states: seq<State>, moves: seq<(Tid, Action)>, i: nat, e: Elm)
    requires Behaviour(slot, states, moves) && i < |states| && e in states[i].els
    ensures var s := states[i]; var el := s.els[e];
      && (Quiet(s, e) ==> el.refcount == |el.holders| + if el.linked then 1 else 0)
      && (el.linked || el.holders != multiset{} ==> el.refcount > 0 && el.freeCalls == 0)
      && el.freeCalls <= 1 && (el.freeCalls == 1 ==> el.refcount == 0 && el.attached)
      && (el.attached ==> (el.refcount == 0 <==> el.freeCalls == 1 || (e in s.dying && Freeing(PcOf(s, s.dying[e]), e))))
  {
    InvAlways(slot, states, moves, i);
    var s := states[i];
    assert ElmOk(s, e);
    if s.els[e].linked { LinkedAlive(slot, s, e); }
    if s.els[e].holders != multiset{} {
      var t :| t in s.els[e].holders;
      assert |s.els[e].holders| == |s.els[e].holders - multiset{t}| + 1;
    }
  }

  /** hashtable_count is one more than the number of elements, whenever nobody is hashing or unhashing. */
  lemma CountIsOneTooMany(slot: Key -> Slot, s: State)
    requires Inv(slot, s) && s.busy == map[]
    ensures s.count == 1 + |set e | e in s.els && s.els[e].linked|
  {
    assert forall e :: e in s.els ==> ElmOk(s, e);
    assert s.counted == set e | e in s.els && s.els[e].linked;
  }

  /** Which element a thread is about to touch. */
  predicate Touches(s: State, t: Tid, e: Elm) {
    var pc := PcOf(s, t);
    BusyWith(pc, e) || (pc.Lookup? && pc.step == 2 && pc.e == e) || (pc.Free? && pc.e == e)
  }

  /** No step inside the table's functions touches an element that was freed. */
  lemma TouchesOnlyLive(slot: Key -> Slot, s: State, t: Tid, e: Elm)
    requires Inv(slot, s) && Touches(s, t, e)
    ensures e in s.els && s.els[e].freeCalls == 0
  {
    assert ThreadOk(slot, s, t);
    var pc := PcOf(s, t);
    if pc.Lookup? { LinkedAlive(slot, s, e); }
    assert ElmOk(s, e);
    if pc.Hash? {
      assert |s.els[e].holders| == |s.els[e].holders - multiset{t}| + 1;
    }
  }

  // ---------- The table as a map ----------

  /** The finite map that the linked elements make up. */
  ghost predicate IsTable(s: State, m: map<Key, Elm>) {
    forall k, e :: (k in m && m[k] == e) <==> Matches(s, k, e)
  }

  /** A scan decides presence on the map as it is then. */
  lemma ScansMap(slot: Key -> Slot, s: State, t: Tid, s': State, m: map<Key, Elm>)
    requires Inv(slot, s) && Advances(slot, s, t, s') && IsTable(s, m)
    ensures var pc, to := PcOf(s, t), PcOf(s', t);
      && (pc.Hash? && pc.step == 1 ==> (to.Unlock? <==> s.els[pc.e].key in m))
      && (pc.Lookup? && pc.step == 1 ==> to == if pc.k in m then Lookup(pc.k, m[pc.k], 2) else Lookup(pc.k, 0, 4))
  {
    var pc := PcOf(s, t);
    if pc.Hash? && pc.step == 1 {
      var k := s.els[pc.e].key;
      if k in m { assert Matches(s, k, m[k]); }
    } else if pc.Lookup? && pc.step == 1 {
      if pc.k in m { assert Matches(s, pc.k, m[pc.k]); }
    }
  }

  /** Steps that may add, count or prepare element e, but leave links and the keys of linked elements alone. */
  lemma SameLinks(s: State, s': State, e: Elm)
    requires s'.els == s.els || (e in s'.els && s'.els == s.els[e := s'.els[e]])
    requires if e in s.els then
        e in s'.els && s'.els[e].linked == s.els[e].linked && (s.els[e].linked ==> s'.els[e].key == s.els[e].key)
      else e in s'.els ==> !s'.els[e].linked
    ensures forall k, x :: Matches(s', k, x) <==> Matches(s, k, x)
  {
    assert forall x :: x != e ==> (x in s'.els <==> x in s.els) && (x in s.els ==> s'.els[x] == s.els[x]);
  }

  /** At most element e changes, and neither its link nor its key. */
  ghost predicate KeepsLinks(s: State, s': State, e: Elm) {
    && (s'.els == s.els || (e in s'.els && s'.els == s.els[e := s'.els[e]]))
    && (e in s.els ==> e in s'.els && s'.els[e].linked == s.els[e].linked && s'.els[e].key == s.els[e].key)
    && (e !in s.els && e in s'.els ==> !s'.els[e].linked)
  }

  lemma HashLinks(slot: Key -> Slot, s: State, t: Tid, e: Elm, step: nat, s': State)
    requires e in s.els && AdvancesHash(slot, s, t, e, step, s') && step != 2
    ensures KeepsLinks(s, s', e)
  {}

  lemma UnhashPutLinks(slot: Key -> Slot, s: State, t: Tid, e: Elm, s': State)
    requires e in s.els && AdvancesUnhash(slot, s, t, e, 3, s')
    ensures KeepsLinks(s, s', e)
  {
    assert s'.els == s.els[e := Counted(s.els[e], -1, s.els[e].holders)];
  }

  lemma UnhashLinks(slot: Key -> Slot, s: State, t: Tid, e: Elm, step: nat, s': State)
    requires e in s.els && AdvancesUnhash(slot, s, t, e, step, s') && step != 1
    ensures KeepsLinks(s, s', e)
  {
    if step < 3 {
      assert s'.els == s.els;
    } else if step == 3 {
      UnhashPutLinks(slot, s, t, e, s');
    } else {
      assert s'.els == Freed(s, e).els;
    }
  }

  lemma LookupLinks(slot: Key -> Slot, s: State, t: Tid, k: Key, e: Elm, step: nat, s': State)
    requires AdvancesLookup(slot, s, t, k, e, step, s')
    ensures KeepsLinks(s, s', e)
  {
    if step != 2 {
      assert s'.els == s.els;
    }
  }

  lemma StepLinks(slot: Key -> Slot, s: State, t: Tid, a: Action, s': State)
    requires Next(slot, s, t, a, s')
    requires var pc := PcOf(s, t); !(pc.Hash? && pc.step == 2) && !(pc.Unhash? && pc.step == 1)
    ensures forall k, x :: Matches(s', k, x) <==> Matches(s, k, x)
  {
    if a.Advance? {
      match PcOf(s, t)
      case Hash(e, step) => HashLinks(slot, s, t, e, step, s'); SameLinks(s, s', e);
      case Unhash(e, step) => UnhashLinks(slot, s, t, e, step, s'); SameLinks(s, s', e);
      case Lookup(k, e, step) => LookupLinks(slot, s, t, k, e, step, s'); SameLinks(s, s', e);
      case Unlock(_, _) => SameLinks(s, s', 0);
      case Free(e) => SameLinks(s, s', e);
    } else {
      SameLinks(s, s', if a.BeginLookup? then 0 else a.e);
    }
  }

  /** Linking inserts an absent key, unlinking removes the element's own, and no other step changes the map. */
  lemma ChangesMap(slot: Key -> Slot, s: State, t: Tid, a: Action, s': State, m: map<Key, Elm>)
    requires Inv(slot, s) && Next(slot, s, t, a, s') && IsTable(s, m)
    ensures var pc := PcOf(s, t);
      if pc.Hash? && pc.step == 2 then s.els[pc.e].key !in m && IsTable(s', m[s.els[pc.e].key := pc.e])
      else if pc.Unhash? && pc.step == 1 then
        s.els[pc.e].key in m && m[s.els[pc.e].key] == pc.e && IsTable(s', m - {s.els[pc.e].key})
      else IsTable(s', m)
  {
    var pc := PcOf(s, t);
    assert ThreadOk(slot, s, t);
    if (pc.Hash? && pc.step == 2) || (pc.Unhash? && pc.step == 1) {
      ChangesLink(s, s', pc.e, pc.Hash?, m);
    } else {
      StepLinks(slot, s, t, a, s');
    }
  }

  lemma ChangesLink(s: State, s': State, e: Elm, linked: bool, m: map<Key, Elm>)
    requires e in s.els && s'.els == s.els[e := s.els[e].(linked := linked)] && IsTable(s, m)
    requires if linked then !Present(s, s.els[e].key) else s.els[e].linked
    ensures var k := s.els[e].key;
      if linked then k !in m && IsTable(s', m[k := e]) else k in m && m[k] == e && IsTable(s', m - {k})
  {
    var k := s.els[e].key;
    assert k in m ==> Matches(s, k, m[k]);
    assert !linked ==> Matches(s, k, e);
    var m' := if linked then m[k := e] else m - {k};
    forall j, x
      ensures (j in m' && m'[j] == x) <==> Matches(s', j, x)
    {
      assert linked ==> !Matches(s, k, x);
      assert (j in m && m[j] == x) <==> Matches(s, j, x);
    }
  }
}
