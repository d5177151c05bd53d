/**
 What follows for whole runs of the hash table's threads: a slot's counter is right whenever its
 lock is free, a slot stands still for whoever has its lock, and unhashing an element that is not
 linked breaks the accounts.
 */
module HashRuns {
  import opened HashProtocol

  // ---------- The counters of the slots ----------

  ghost function CountedIn(slot: Key -> Slot, s: State, sl: Slot): set<Elm> {
    set e | e in s.counted && e in s.els && slot(s.els[e].key) == sl
  }

  ghost predicate SlotsCounted(slot: Key -> Slot, s: State) {
    forall sl :: SlotCount(s, sl) == |CountedIn(slot, s, sl)|
  }

  /** Counters and counted elements stay, and so do the keys of those. */
  ghost predicate CountsSame(s: State, s': State) {
    && s'.counted == s.counted && s'.slotCounts == s.slotCounts
    && forall e :: e in s.counted ==> e in s.els && e in s'.els && s'.els[e].key == s.els[e].key
  }

  ghost predicate CountsBy(slot: Key -> Slot, s: State, s': State, e: Elm, change: int) {
    && e in s.els && s'.els == s.els && s'.slotCounts == Recounted(s, slot(s.els[e].key), change).slotCounts
    && if change == 1 then e !in s.counted && s'.counted == s.counted + {e}
       else change == -1 && e in s.counted && s'.counted == s.counted - {e}
  }

  lemma CountsChange(slot: Key -> Slot, s: State, s': State, e: Elm, change: int, sl: Slot)
    requires SlotCount(s, sl) == |CountedIn(slot, s, sl)| && CountsBy(slot, s, s', e, change)
    ensures SlotCount(s', sl) == |CountedIn(slot, s', sl)|
  {
    var c := CountedIn(slot, s, sl);
    if slot(s.els[e].key) != sl {
      assert CountedIn(slot, s', sl) == c;
    } else if change == 1 {
      assert CountedIn(slot, s', sl) == c + {e};
    } else {
      assert e in c && CountedIn(slot, s', sl) == c - {e};
    }
  }

  lemma CountsStay(slot: Key -> Slot, s: State, s': State)
    requires SlotsCounted(slot, s) && CountsSame(s, s')
    ensures SlotsCounted(slot, s')
  {
    forall sl
      ensures SlotCount(s', sl) == |CountedIn(slot, s', sl)|
    {
      assert SlotCount(s, sl) == |CountedIn(slot, s, sl)|;
      assert CountedIn(slot, s', sl) == CountedIn(slot, s, sl);
    }
  }

  lemma CountsHash(slot: Key -> Slot, s: State, t: Tid, e: Elm, step: nat, s': State)
    requires PcOf(s, t) == Hash(e, step) && e in s.els && AdvancesHash(slot, s, t, e, step, s') && ThreadOk(slot, s, t) && s.counted <= s.els.Keys
    ensures if step == 1 && !Present(s, s.els[e].key) then CountsBy(slot, s, s', e, 1) else CountsSame(s, s')
  {}

  lemma CountsUnhash(slot: Key -> Slot, s: State, t: Tid, e: Elm, step: nat, s': State)
    requires PcOf(s, t) == Unhash(e, step) && e in s.els && AdvancesUnhash(slot, s, t, e, step, s') && ThreadOk(slot, s, t) && s.counted <= s.els.Keys
    ensures if step == 2 then CountsBy(slot, s, s', e, -1) else CountsSame(s, s')
  {}

  lemma CountsLookup(slot: Key -> Slot, s: State, t: Tid, k: Key, e: Elm, step: nat, s': State)
    requires AdvancesLookup(slot, s, t, k, e, step, s') && s.counted <= s.els.Keys
    ensures CountsSame(s, s')
  {}

  /** Only two steps change counters; the keys of counted elements never change. */
  lemma CountsAdvance(slot: Key -> Slot, s: State, t: Tid, s': State)
    requires Advances(slot, s, t, s') && ThreadOk(slot, s, t) && s.counted <= s.els.Keys
    ensures var pc := PcOf(s, t);
      if pc.Hash? && pc.step == 1 && !Present(s, s.els[pc.e].key) then CountsBy(slot, s, s', pc.e, 1)
      else if pc.Unhash? && pc.step == 2 then CountsBy(slot, s, s', pc.e, -1)
      else CountsSame(s, s')
  {
    match PcOf(s, t)
    case Hash(e, step) => CountsHash(slot, s, t, e, step, s');
    case Unhash(e, step) => CountsUnhash(slot, s, t, e, step, s');
    case Lookup(k, e, step) => CountsLookup(slot, s, t, k, e, step, s');
    case Unlock(_, _) =>
    case Free(_) =>
  }

  lemma CountsBegin(s: State, t: Tid, a: Action, s': State)
    requires !a.Advance? && Begins(s, t, a, s') && forall e :: e in s.counted ==> e in s.els && (e in s.busy || s.els[e].linked)
    ensures CountsSame(s, s')
  {}

  lemma KeepSlotCounts(slot: Key -> Slot, s: State, t: Tid, a: Action, s': State)
    requires Inv(slot, s) && SlotsCounted(slot, s) && Next(slot, s, t, a, s')
    ensures SlotsCounted(slot, s')
  {
    var pc := PcOf(s, t);
    assert ThreadOk(slot, s, t);
    if !a.Advance? {
      assert forall e :: e in s.counted ==> ElmOk(s, e);
      CountsBegin(s, t, a, s');
      CountsStay(slot, s, s');
    } else {
      CountsAdvance(slot, s, t, s');
      if s'.counted == s.counted {
        CountsStay(slot, s, s');
      } else {
        forall sl
          ensures SlotCount(s', sl) == |CountedIn(slot, s', sl)|
        {
          assert SlotCount(s, sl) == |CountedIn(slot, s, sl)|;
          CountsChange(slot, s, s', pc.e, if pc.Hash? then 1 else -1, sl);
        }
      }
    }
  }

  /** While nobody holds the lock of a slot for writing, its counter is its number of linked elements. */
  lemma SlotCountIsRight(slot: Key -> Slot, s: State, sl: Slot)
    requires Inv(slot, s) && SlotsCounted(slot, s) && (sl in s.locks ==> s.locks[sl].Read?)
    ensures SlotCount(s, sl) == |set e | e in s.els && s.els[e].linked && slot(s.els[e].key) == sl|
  {
    forall e | e in s.els && slot(s.els[e].key) == sl
      ensures e in s.counted <==> s.els[e].linked
    {
      assert ElmOk(s, e);
      if e in s.busy {
        var u := s.busy[e];
        assert ThreadOk(slot, s, u) && BusyWith(PcOf(s, u), e);
        assert !HasWrite(s, sl, u);
      }
    }
    assert CountedIn(slot, s, sl) == set e | e in s.els && s.els[e].linked && slot(s.els[e].key) == sl;
  }

  lemma {:induction false} SlotsCountedAlways(slot: Key -> Slot, states: seq<State>, moves: seq<(Tid, Action)>, i: nat)
    requires Behaviour(slot, states, moves) && i < |states|
    ensures SlotsCounted(slot, states[i])
  {
    if i == 0 {
      assert forall sl :: CountedIn(slot, Start, sl) == {};
    } else {
      var s, s' := states[i - 1], states[i];
      var (t, a) := moves[i - 1];
      assert StepAt(slot, states, moves, i - 1);
      SlotsCountedAlways(slot, states, moves, i - 1);
      InvAlways(slot, states, moves, i - 1);
      KeepSlotCounts(slot, s, t, a, s');
    }
  }

  /** In every interleaving, while nobody holds the lock of a slot for writing, its counter is its number of linked elements. */
  lemma SlotCounts(slot: Key -> Slot, states: seq<State>, moves: seq<(Tid, Action)>, i: nat, sl: Slot)
    requires Behaviour(slot, states, moves) && i < |states| && (sl in states[i].locks ==> states[i].locks[sl].Read?)
    ensures SlotCount(states[i], sl) == |set e | e in states[i].els && states[i].els[e].linked && slot(states[i].els[e].key) == sl|
  {
    InvAlways(slot, states, moves, i);
    SlotsCountedAlways(slot, states, moves, i);
    SlotCountIsRight(slot, states[i], sl);
  }

  // ---------- Scans ----------

  /** While a thread holds the lock of a slot, nobody else links or unlinks there: the walk over its list is one step. */
  lemma SlotFrozen(slot: Key -> Slot, s: State, u: Tid, a: Action, s': State, t: Tid, k: Key, x: Elm)
    requires Inv(slot, s) && Next(slot, s, u, a, s') && u != t
    requires HasWrite(s, slot(k), t) || HasRead(s, slot(k), t)
    ensures Matches(s', k, x) <==> Matches(s, k, x)
  {
    var pc := PcOf(s, u);
    assert ThreadOk(slot, s, u);
    if a.Advance? && ((pc.Hash? && pc.step == 2) || (pc.Unhash? && pc.step == 1)) {
      assert s'.els == s.els[pc.e := s.els[pc.e].(linked := pc.Hash?)];
      assert HasWrite(s, slot(s.els[pc.e].key), u);
    } else {
      StepLinks(slot, s, u, a, s');
    }
  }

  // ---------- Unhashing an element that is not linked ----------

  /** Steps of thread t with nobody in between. */
  ghost predicate Alone(slot: Key -> Slot, t: Tid, run: seq<State>) {
    forall i :: 0 <= i < |run| - 1 ==> Advances(slot, run[i], t, run[i + 1])
  }

  lemma AloneJoined(slot: Key -> Slot, t: Tid, xs: seq<State>, ys: seq<State>)
    requires Alone(slot, t, xs) && Alone(slot, t, ys) && xs != [] && ys != [] && Advances(slot, xs[|xs| - 1], t, ys[0])
    ensures Alone(slot, t, xs + ys)
  {
    var run := xs + ys;
    forall i | 0 <= i < |run| - 1
      ensures Advances(slot, run[i], t, run[i + 1])
    {
      if i < |xs| - 1 {
        assert Advances(slot, xs[i], t, xs[i + 1]);
      } else if i >= |xs| {
        assert Advances(slot, ys[i - |xs|], t, ys[i - |xs| + 1]);
      }
    }
  }

  /** A call of hashtable_unhash with nobody in between. */
  ghost predicate UnhashRun(slot: Key -> Slot, s: State, t: Tid, e: Elm, run: seq<State>) {
    |run| > 1 && Next(slot, s, t, BeginUnhash(e), run[0]) && Alone(slot, t, run)
  }

  /** s3 is s with e unlinked and the counts lowered, where t is about to put e. */
  ghost predicate Down(slot: Key -> Slot, s: State, t: Tid, e: Elm, s3: State) {
    && e in s.els && PcOf(s3, t) == Unhash(e, 3) && s3.els == s.els[e := s.els[e].(linked := false)]
    && s3.locks == s.locks[slot(s.els[e].key) := Write(t)] && s3.busy == s.busy[e := t] && s3.dying == s.dying
    && s3.refs == s.refs && s3.counted == s.counted - {e} && s3.count == s.count - 1
    && SlotCount(s3, slot(s.els[e].key)) == SlotCount(s, slot(s.els[e].key)) - 1
  }

  /** s4 is s3 after the put, which may have been the last one. */
  ghost predicate PutDone(s3: State, t: Tid, e: Elm, s4: State) {
    && e in s3.els && PcOf(s4, t) == Unlock(s3.els[e].key, 0) && s4.busy == s3.busy - {e} && s4.dying == s3.dying
    && s4.els == s3.els[e := LessOne(s3.els[e])]
    && s4.locks == s3.locks && s4.refs == s3.refs - {e} && s4.counted == s3.counted && s4.count == s3.count && s4.slotCounts == s3.slotCounts
  }

  function LessOne(el: El): El {
    el.(refcount := el.refcount - 1, freeCalls := el.freeCalls + if el.refcount == 1 then 1 else 0)
  }

  /** What a whole call does, linked or not. */
  ghost predicate Unhashed(slot: Key -> Slot, s: State, t: Tid, e: Elm, s': State) {
    && e in s.els && s'.els == s.els[e := LessOne(s.els[e].(linked := false))]
    && s'.locks == s.locks && s'.busy == s.busy && s'.dying == s.dying && PcOf(s', t).Idle?
    && s'.refs == s.refs - {e} && s'.counted == s.counted - {e} && s'.count == s.count - 1
    && SlotCount(s', slot(s.els[e].key)) == SlotCount(s, slot(s.els[e].key)) - 1
  }

  lemma UnhashDown(slot: Key -> Slot, s: State, t: Tid, e: Elm) returns (run: seq<State>)
    requires e in s.els && PcOf(s, t).Idle? && e !in s.busy && slot(s.els[e].key) !in s.locks
    ensures UnhashRun(slot, s, t, e, run) && Down(slot, s, t, e, run[|run| - 1])
  {
    var el := s.els[e];
    var s0 := At(s, t, Unhash(e, 0)).(busy := s.busy[e := t]);
    var s1 := At(s0, t, Unhash(e, 1)).(locks := s0.locks[slot(el.key) := Write(t)]);
    var s2 := At(Upd(s1, e, el.(linked := false)), t, Unhash(e, 2));
    var s3 := Recounted(At(s2, t, Unhash(e, 3)).(counted := s2.counted - {e}), slot(el.key), -1);
    assert Next(slot, s, t, BeginUnhash(e), s0) && Advances(slot, s0, t, s1) && Advances(slot, s1, t, s2) && Advances(slot, s2, t, s3);
    run := [s0, s1, s2, s3];
  }

  /** From where the counts are lowered: the put, which may be the last one. */
  lemma UnhashPuts(slot: Key -> Slot, s: State, t: Tid, e: Elm) returns (run: seq<State>)
    requires e in s.els && PcOf(s, t) == Unhash(e, 3) && e !in s.dying && (s.els[e].refcount == 1 ==> s.els[e].attached)
    ensures run != [] && Advances(slot, s, t, run[0]) && Alone(slot, t, run) && PutDone(s, t, e, run[|run| - 1])
  {
    var el := s.els[e];
    var put := Upd(s, e, Counted(el, -1, el.holders)).(refs := s.refs - {e});
    if el.refcount == 1 {
      var s4 := At(put, t, Unhash(e, 4)).(dying := put.dying[e := t]);
      run := [s4, At(Freed(s4, e), t, Unlock(el.key, 0)).(busy := s4.busy - {e})];
    } else {
      run := [At(put, t, Unlock(el.key, 0)).(busy := put.busy - {e})];
    }
  }

  lemma Unlocks(slot: Key -> Slot, s: State, t: Tid, k: Key, ret: int) returns (s': State)
    requires PcOf(s, t) == Unlock(k, ret) && HasWrite(s, slot(k), t)
    ensures Advances(slot, s, t, s') && s' == s.(pcs := s.pcs[t := Idle], locks := s.locks - {slot(k)})
  {
    s' := At(Released(s, slot(k), t), t, Idle);
  }

  lemma UnhashedIs(slot: Key -> Slot, s: State, t: Tid, e: Elm, s3: State, s4: State, s5: State)
    requires Down(slot, s, t, e, s3) && PutDone(s3, t, e, s4) && e !in s.busy && slot(s.els[e].key) !in s.locks
    requires s5 == s4.(pcs := s4.pcs[t := Idle], locks := s4.locks - {slot(s.els[e].key)})
    ensures Unhashed(slot, s, t, e, s5)
  {}

  lemma UnhashAlone(slot: Key -> Slot, s: State, t: Tid, e: Elm) returns (run: seq<State>)
    requires e in s.els && PcOf(s, t).Idle? && e !in s.busy && e !in s.dying && slot(s.els[e].key) !in s.locks
    requires s.els[e].refcount == 1 ==> s.els[e].attached
    ensures UnhashRun(slot, s, t, e, run) && Unhashed(slot, s, t, e, run[|run| - 1])
  {
    var down := UnhashDown(slot, s, t, e);
    var s3 := down[|down| - 1];
    var puts := UnhashPuts(slot, s3, t, e);
    var s4 := puts[|puts| - 1];
    var s5 := Unlocks(slot, s4, t, s.els[e].key, 0);
    UnhashedIs(slot, s, t, e, s3, s4, s5);
    AloneJoined(slot, t, down, puts);
    AloneJoined(slot, t, down + puts, [s5]);
    run := down + puts + [s5];
  }

  /** The other outcome of hashelm_put: an element that was never hashed has no field `ht` to read. */
  lemma UnhashFaults(slot: Key -> Slot, s: State, t: Tid, e: Elm) returns (run: seq<State>)
    requires e in s.els && PcOf(s, t).Idle? && e !in s.busy && slot(s.els[e].key) !in s.locks
    requires s.els[e].refcount == 1 && !s.els[e].attached
    ensures UnhashRun(slot, s, t, e, run) && PcOf(run[|run| - 1], t) == Fault(e)
  {
    var down := UnhashDown(slot, s, t, e);
    var s3 := down[|down| - 1];
    var s4 := At(Upd(s3, e, Counted(s3.els[e], -1, s3.els[e].holders)).(refs := s3.refs - {e}), t, Fault(e));
    AloneJoined(slot, t, down, [s4]);
    run := down + [s4];
  }

  lemma {:induction false} RunKeeps(slot: Key -> Slot, s: State, t: Tid, e: Elm, run: seq<State>, i: nat)
    requires Inv(slot, s) && e in s.els && s.els[e].linked && UnhashRun(slot, s, t, e, run) && i < |run|
    ensures Inv(slot, run[i])
  {
    if i == 0 {
      KeepBegin(slot, s, t, BeginUnhash(e), run[0]);
    } else {
      RunKeeps(slot, s, t, e, run, i - 1);
      assert Advances(slot, run[i - 1], t, run[(i - 1) + 1]);
      KeepAdvance(slot, run[i - 1], t, run[i]);
    }
  }

  /**
   On an element that nobody is hashing or unhashing, such a call keeps the invariant exactly if
   the element is linked. If it is not, one reference too many is gone: the holders are one more
   than the count says, and who holds the only reference holds an element that was freed.
   */
  lemma UnhashNeedsLink(slot: Key -> Slot, s: State, t: Tid, e: Elm) returns (run: seq<State>)
    requires Inv(slot, s) && e in s.els && PcOf(s, t).Idle? && e !in s.busy && e !in s.dying && slot(s.els[e].key) !in s.locks
    requires s.els[e].refcount == 1 ==> s.els[e].attached
    ensures UnhashRun(slot, s, t, e, run)
    ensures var s' := run[|run| - 1];
      && (Inv(slot, s') <==> s.els[e].linked)
      && e in s'.els && s'.els[e].holders == s.els[e].holders && !s'.els[e].linked
      && s'.els[e].refcount == |s'.els[e].holders| - (if s.els[e].linked then 0 else 1)
      && (!s.els[e].linked && |s.els[e].holders| == 1 ==> s'.els[e].refcount == 0 && s'.els[e].freeCalls == 1)
  {
    run := UnhashAlone(slot, s, t, e);
    var s' := run[|run| - 1];
    assert ElmOk(s, e);
    if s.els[e].linked {
      RunKeeps(slot, s, t, e, run, |run| - 1);
    } else {
      assert e in s'.els && e !in s'.busy && e !in s'.refs && !ElmOk(s', e);
    }
  }

  /** A state to start from: one element, linked by hashing, whose only other reference t holds. */
  function JustHashed(slot: Key -> Slot, t: Tid, k: Key): State {
    State(map[0 := El(2, true, k, true, 0, multiset{t})], map[], map[t := Idle], 2, map[slot(k) := 1], {0}, {0}, map[], map[])
  }

  /** In the middle of that: t has the lock of the slot. */
  function HashingFirst(slot: Key -> Slot, t: Tid, k: Key): State {
    State(map[0 := El(1, false, k, true, 0, multiset{t})], map[slot(k) := Write(t)], map[t := Hash(0, 1)], 1, map[], {}, {}, map[0 := t], map[])
  }

  lemma HashesFirst(slot: Key -> Slot, t: Tid, k: Key) returns (s1: State, s2: State)
    ensures Next(slot, Start, t, Init(0), s1) && Next(slot, s1, t, BeginHash(0, k), s2)
    ensures Next(slot, s2, t, Advance, HashingFirst(slot, t, k))
  {
    var e: Elm := 0;
    s1 := Upd(Start, e, El(1, false, 0, false, 0, multiset{t}));
    s2 := At(Upd(s1, e, s1.els[e].(key := k, attached := true)), t, Hash(e, 0)).(busy := s1.busy[e := t]);
    assert At(s2, t, Hash(e, 1)).(locks := s2.locks[slot(k) := Write(t)]) == HashingFirst(slot, t, k);
  }

  lemma HashesOn(slot: Key -> Slot, t: Tid, k: Key) returns (s4: State, s5: State, s6: State)
    ensures Next(slot, HashingFirst(slot, t, k), t, Advance, s4) && Next(slot, s4, t, Advance, s5)
    ensures Next(slot, s5, t, Advance, s6) && Next(slot, s6, t, Advance, JustHashed(slot, t, k))
  {
    var e: Elm, s3 := 0, HashingFirst(slot, t, k);
    assert !Present(s3, k);
    s4 := Recounted(At(s3, t, Hash(e, 2)).(counted := s3.counted + {e}), slot(k), 1);
    s5 := At(Upd(s4, e, s4.els[e].(linked := true)), t, Hash(e, 3));
    s6 := At(Upd(s5, e, Counted(s5.els[e], 1, s5.els[e].holders)), t, Unlock(k, 0)).(refs := s5.refs + {e}, busy := s5.busy - {e});
    assert At(Released(s6, slot(k), t), t, Idle) == JustHashed(slot, t, k);
  }

  /** hashelm_init and hashtable_hash lead there. */
  lemma JustHashedReached(slot: Key -> Slot, t: Tid, k: Key) returns (states: seq<State>, moves: seq<(Tid, Action)>)
    ensures Behaviour(slot, states, moves) && states[|states| - 1] == JustHashed(slot, t, k)
  {
    var s1, s2 := HashesFirst(slot, t, k);
    var s4, s5, s6 := HashesOn(slot, t, k);
    states := [Start, s1, s2, HashingFirst(slot, t, k), s4, s5, s6, JustHashed(slot, t, k)];
    moves := [(t, Init(0)), (t, BeginHash(0, k)), (t, Advance), (t, Advance), (t, Advance), (t, Advance), (t, Advance)];
  }

  /** Unhashing that element twice, one call after the other, frees it under t's hands. */
  lemma UnhashTwice(slot: Key -> Slot, t: Tid, k: Key) returns (first: seq<State>, second: seq<State>)
    ensures UnhashRun(slot, JustHashed(slot, t, k), t, 0, first)
    ensures UnhashRun(slot, first[|first| - 1], t, 0, second)
    ensures var s := second[|second| - 1];
      0 in s.els && s.els[0].holders == multiset{t} && s.els[0].refcount == 0 && s.els[0].freeCalls == 1 && !Inv(slot, s)
  {
    var s := JustHashed(slot, t, k);
    var states, moves := JustHashedReached(slot, t, k);
    InvAlways(slot, states, moves, |states| - 1);
    first := UnhashAlone(slot, s, t, 0);
    RunKeeps(slot, s, t, 0, first, |first| - 1);
    second := UnhashNeedsLink(slot, first[|first| - 1], t, 0);
  }
}
