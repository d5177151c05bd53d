/**
 Whole runs of the buffer pool's threads: who holds what, what allocating and freeing do, that
 the mutex is always given back, and that calls under way come to an end.
 */
module PoolRuns {
  import opened Basics
  import opened PoolProtocol

  // ---------- Who holds what ----------

  /** The references to e that t holds. */
  function Held(s: State, t: Tid, e: Entry): nat {
    if e in s.bufs then s.bufs[e].holders[t] else 0
  }

  /** How many references to e a step of thread u gives to thread t, or takes from it. */
  function Credit(s: State, u: Tid, a: Action, t: Tid, e: Entry): int {
    match a
    case Hold(x) => if x == e && u == t then 1 else 0
    case Free(x) => if x == e && u == t then -1 else 0
    case Pass(x, to) => if x == e then (if to == t then 1 else 0) - (if u == t then 1 else 0) else 0
    case Advance => if u == t && PcOf(s, u) == Alloc(e, 2) then 1 else 0
    case _ => 0
  }

  lemma AdvanceCounts(s: State, u: Tid, s': State, t: Tid, e: Entry)
    requires ThreadOk(s, u) && Advances(s, u, s') && (PcOf(s, u).Alloc? && PcOf(s, u).step == 2 ==> s.bufs[PcOf(s, u).e].holders == multiset{})
    ensures Held(s', t, e) == Held(s, t, e) + Credit(s, u, Advance, t, e)
  {}

  lemma BeginCounts(s: State, u: Tid, a: Action, s': State, t: Tid, e: Entry)
    requires !a.Advance? && Next(s, u, a, s')
    ensures Held(s', t, e) == Held(s, t, e) + Credit(s, u, a, t, e)
  {}

  lemma StepCounts(s: State, u: Tid, a: Action, s': State, t: Tid, e: Entry)
    requires Inv(s) && Next(s, u, a, s')
    ensures Held(s', t, e) == Held(s, t, e) + Credit(s, u, a, t, e)
  {
    assert ThreadOk(s, u);
    if a.Advance? { AdvanceCounts(s, u, s', t, e); } else { BeginCounts(s, u, a, s', t, e); }
  }

  /** What the first n moves have given to t, less what they have taken. */
  function Credits(states: seq<State>, moves: seq<(Tid, Action)>, n: nat, t: Tid, e: Entry): int
    requires n <= |moves| < |states|
  {
    if n == 0 then 0 else Credits(states, moves, n - 1, t, e) + Credit(states[n - 1], moves[n - 1].0, moves[n - 1].1, t, e)
  }

  lemma StartHeld(poolSize: nat, t: Tid, e: Entry)
    ensures Held(Start(poolSize), t, e) == 0
  {
    var bufs := Start(poolSize).bufs;
    assert e in bufs ==> bufs[e] == Buf(0, multiset{}, 0, 0);
  }

  lemma StepCountsAt(poolSize: nat, states: seq<State>, moves: seq<(Tid, Action)>, i: nat, t: Tid, e: Entry)
    requires Behaviour(poolSize, states, moves) && i < |moves|
    ensures Held(states[i + 1], t, e) == Held(states[i], t, e) + Credit(states[i], moves[i].0, moves[i].1, t, e)
  {
    InvAlways(poolSize, states, moves, i);
    assert StepAt(states, moves, i);
    StepCounts(states[i], moves[i].0, moves[i].1, states[i + 1], t, e);
  }

  /** In every interleaving, at any moment, the references held are exactly those that the steps so far account for. */
  lemma {:induction false} Ledger(poolSize: nat, states: seq<State>, moves: seq<(Tid, Action)>, n: nat, t: Tid, e: Entry)
    requires Behaviour(poolSize, states, moves) && n < |states|
    ensures Held(states[n], t, e) == Credits(states, moves, n, t, e)
  {
    if n == 0 {
      StartHeld(poolSize, t, e);
    } else {
      Ledger(poolSize, states, moves, n - 1, t, e);
      StepCountsAt(poolSize, states, moves, n - 1, t, e);
    }
  }

  // ---------- Calls that nobody disturbs ----------

  /** Steps of thread t with nobody in between. */
  ghost predicate Alone(t: Tid, run: seq<State>) {
    forall i :: 0 <= i < |run| - 1 ==> Advances(run[i], t, run[i + 1])
  }

  /** A call, begun at s, with nobody in between. */
  ghost predicate CallRun(s: State, t: Tid, call: Action, run: seq<State>) {
    run != [] && Next(s, t, call, run[0]) && Alone(t, run) && PcOf(run[|run| - 1], t).Idle?
  }

  /**
   pbuf_free alone: one reference less. If it was the last one the entry goes from the use list to
   the front of the free list; else nothing else changes.
   */
  lemma FreeAlone(s: State, t: Tid, e: Entry) returns (run: seq<State>)
    requires Inv(s) && PcOf(s, t).Idle? && e in s.bufs && t in s.bufs[e].holders
    requires s.bufs[e].refcount == 1 ==> s.mutex == {}
    ensures CallRun(s, t, Free(e), run)
    ensures var s', b, last := run[|run| - 1], s.bufs[e], s.bufs[e].refcount == 1;
      && s'.bufs == s.bufs[e := b.(refcount := b.refcount - 1, holders := b.holders - multiset{t}, returned := b.returned + if last then 1 else 0)]
      && s' == s.(bufs := s'.bufs, freeList := s'.freeList, useList := s'.useList, pcs := s'.pcs)
      && s'.freeList == (if last then [e] else []) + s.freeList
      && (last ==> s'.bufs[e].holders == multiset{} && |s'.useList| == |s.useList| - 1 && forall x :: x in s'.useList <==> x in s.useList && x != e)
      && (!last ==> s'.bufs[e].holders != multiset{} && s'.useList == s.useList)
  {
    HeldIsUnowned(s, t, e);
    var b := s.bufs[e];
    var s1 := Upd(s, e, b.(refcount := b.refcount - 1, holders := b.holders - multiset{t}));
    if b.refcount == 1 {
      run := ReturnAlone(s, t, e, s1);
      assert Partition(s) && b.holders - multiset{t} == multiset{};
      LessIs(s.useList, e);
    } else {
      assert |b.holders - multiset{t}| > 0;
      run := [s1];
    }
  }

  /** s' is s1, after the decrement, with e returned to the free list. */
  ghost predicate GivenBack(e: Entry, s1: State, s': State) {
    && e in s1.bufs
    && s' == s1.(bufs := s1.bufs[e := s1.bufs[e].(returned := s1.bufs[e].returned + 1)],
                 freeList := [e] + s1.freeList, useList := Less(s1.useList, e), pcs := s'.pcs)
  }

  lemma ReturnAlone(s: State, t: Tid, e: Entry, s1: State) returns (run: seq<State>)
    requires PcOf(s, t).Idle? && e in s.bufs && t in s.bufs[e].holders && s.bufs[e].refcount == 1 && s.mutex == {} && e !in s.owner
    requires s1 == Upd(s, e, s.bufs[e].(refcount := 0, holders := s.bufs[e].holders - multiset{t}))
    ensures CallRun(s, t, Free(e), run) && GivenBack(e, s1, run[|run| - 1])
  {
    var r0 := At(s1, t, Return(e, 0)).(owner := s.owner[e := t]);
    var r1 := At(r0, t, Return(e, 1)).(mutex := {t});
    var r2 := At(Upd(r1, e, r1.bufs[e].(returned := r1.bufs[e].returned + 1)), t, Unlock({}))
              .(freeList := [e] + r1.freeList, useList := Less(r1.useList, e), owner := r1.owner - {e});
    var r3 := At(r2, t, Idle).(mutex := {});
    assert Next(s, t, Free(e), r0) && Advances(r0, t, r1) && Advances(r1, t, r2) && Advances(r2, t, r3);
    assert r3.owner == s.owner;
    run := [r0, r1, r2, r3];
  }

  /** In the middle of pbuf_alloc: the first free entry is on the use list. */
  function Taken(s: State, t: Tid): State
    requires s.freeList != [] && s.freeList[0] in s.bufs
  {
    var e := s.freeList[0];
    At(Upd(s, e, s.bufs[e].(handedOut := s.bufs[e].handedOut + 1)), t, Alloc(e, 2))
      .(freeList := s.freeList[1..], useList := [e] + s.useList, mutex := {t}, owner := s.owner[e := t])
  }

  lemma AllocTakes(s: State, t: Tid) returns (r0: State, r1: State)
    requires PcOf(s, t).Idle? && s.mutex == {} && s.freeList != [] && s.freeList[0] in s.bufs
    ensures Next(s, t, BeginAlloc, r0) && Advances(r0, t, r1) && Advances(r1, t, Taken(s, t))
  {
    r0 := At(s, t, Alloc(0, 0));
    r1 := At(r0, t, Alloc(0, 1)).(mutex := {t});
    var e := s.freeList[0];
    assert At(Upd(r1, e, s.bufs[e].(handedOut := s.bufs[e].handedOut + 1)), t, Alloc(e, 2))
      .(freeList := s.freeList[1..], useList := [e] + s.useList, owner := s.owner[e := t]) == Taken(s, t);
  }

  /** What pbuf_alloc makes of the pool. */
  function Allocated(s: State, t: Tid): State
    requires s.freeList != [] && s.freeList[0] in s.bufs
  {
    var e := s.freeList[0];
    s.(bufs := s.bufs[e := s.bufs[e].(refcount := 1, holders := multiset{t}, handedOut := s.bufs[e].handedOut + 1)],
       freeList := s.freeList[1..], useList := [e] + s.useList, pcs := s.pcs[t := Idle])
  }

  lemma AllocEnds(s: State, t: Tid) returns (r3: State)
    requires s.mutex == {} && s.freeList != [] && s.freeList[0] in s.bufs && s.freeList[0] !in s.owner
    ensures Advances(Taken(s, t), t, r3) && Advances(r3, t, Allocated(s, t)) && PcOf(r3, t) == Unlock({s.freeList[0]})
  {
    var e, r2 := s.freeList[0], Taken(s, t);
    r3 := At(Upd(r2, e, r2.bufs[e].(refcount := 1, holders := multiset{t})), t, Unlock({e})).(owner := r2.owner - {e});
    assert r3.owner == s.owner;
    assert At(r3, t, Idle).(mutex := {}) == Allocated(s, t);
  }

  /** pbuf_alloc alone, when an entry is free: the first free one goes to the front of the use list, with one reference, which t has. */
  lemma AllocAlone(s: State, t: Tid) returns (run: seq<State>)
    requires Inv(s) && PcOf(s, t).Idle? && s.mutex == {} && s.freeList != []
    ensures s.freeList[0] in s.bufs && |run| > 1 && CallRun(s, t, BeginAlloc, run)
    ensures PcOf(run[|run| - 2], t) == Unlock({s.freeList[0]}) && run[|run| - 1] == Allocated(s, t)
  {
    assert BufOk(s, s.freeList[0]);
    var r0, r1 := AllocTakes(s, t);
    var r3 := AllocEnds(s, t);
    run := [r0, r1, Taken(s, t), r3, Allocated(s, t)];
  }

  /** Without a free entry it returns NULL and changes nothing. */
  lemma AllocFails(s: State, t: Tid) returns (run: seq<State>)
    requires PcOf(s, t).Idle? && s.mutex == {} && s.freeList == []
    ensures |run| > 1 && CallRun(s, t, BeginAlloc, run) && PcOf(run[|run| - 2], t) == Unlock({})
    ensures run[|run| - 1] == s.(pcs := run[|run| - 1].pcs)
  {
    var r0 := At(s, t, Alloc(0, 0));
    var r1 := At(r0, t, Alloc(0, 1)).(mutex := {t});
    var r2 := At(r1, t, Unlock({}));
    run := [r0, r1, r2, At(r2, t, Idle).(mutex := {})];
  }

  /** An allocation and then the release of what it gave put the pool back as it was, but for having handed the entry out and got it back once more. */
  lemma AllocThenFree(s: State, t: Tid) returns (alloc: seq<State>, free: seq<State>)
    requires Inv(s) && PcOf(s, t).Idle? && s.mutex == {} && s.freeList != []
    ensures CallRun(s, t, BeginAlloc, alloc) && CallRun(alloc[|alloc| - 1], t, Free(s.freeList[0]), free)
    ensures BackAgain(s, s.freeList[0], free[|free| - 1])
  {
    var e := s.freeList[0];
    assert BufOk(s, e);
    alloc := AllocAlone(s, t);
    free := ReturnAllocated(s, t);
    FreedAgain(s, t, e, free[|free| - 1]);
  }

  lemma ReturnAllocated(s: State, t: Tid) returns (run: seq<State>)
    requires s.mutex == {} && s.freeList != [] && s.freeList[0] in s.bufs && s.freeList[0] !in s.owner
    ensures CallRun(Allocated(s, t), t, Free(s.freeList[0]), run)
    ensures GivenBack(s.freeList[0], Dropped(Allocated(s, t), s.freeList[0]), run[|run| - 1])
  {
    var e, s1 := s.freeList[0], Allocated(s, t);
    assert s1.bufs[e].holders - multiset{t} == multiset{};
    run := ReturnAlone(s1, t, e, Dropped(s1, e));
  }

  /** s' is s, where e was handed out and came back once more. */
  ghost predicate BackAgain(s: State, e: Entry, s': State) {
    && e in s.bufs
    && s' == s.(bufs := s.bufs[e := s.bufs[e].(handedOut := s.bufs[e].handedOut + 1, returned := s.bufs[e].returned + 1)], pcs := s'.pcs)
  }

  function Dropped(s: State, e: Entry): State
    requires e in s.bufs
  {
    Upd(s, e, s.bufs[e].(refcount := 0, holders := multiset{}))
  }

  lemma FreedAgain(s: State, t: Tid, e: Entry, s': State)
    requires s.freeList != [] && s.freeList[0] == e && e in s.bufs && s.bufs[e].refcount == 0 && s.bufs[e].holders == multiset{}
    requires GivenBack(e, Dropped(Allocated(s, t), e), s')
    ensures BackAgain(s, e, s')
  {
    assert [e] + s.freeList[1..] == s.freeList;
    assert ([e] + s.useList)[1..] == s.useList;
  }

  /** pbuf_copy, once it has its own entry: the count that came with the other's bytes is set right, and everything is as before. */
  lemma CopyAlone(s: State, t: Tid, e: Entry, src: Entry) returns (run: seq<State>)
    requires Inv(s) && PcOf(s, t).Idle? && e in s.bufs && src in s.bufs && src != e && s.bufs[e].holders == multiset{t} && t in s.bufs[src].holders
    ensures CallRun(s, t, CopyOver(e, src), run) && run[|run| - 1] == s.(pcs := run[|run| - 1].pcs)
  {
    HeldIsUnowned(s, t, e);
    var r0 := At(Upd(s, e, s.bufs[e].(refcount := s.bufs[src].refcount)), t, Copy(e)).(owner := s.owner[e := t]);
    var r1 := At(Upd(r0, e, r0.bufs[e].(refcount := 1)), t, Idle).(owner := r0.owner - {e});
    assert r1.bufs == s.bufs && r1.owner == s.owner;
    run := [r0, r1];
  }

  // ---------- The mutex, and the ends of calls ----------

  /** At pc a thread has the mutex. */
  predicate Locking(pc: Pc) {
    ((pc.Alloc? || pc.Return?) && pc.step >= 1) || pc.Unlock?
  }

  ghost predicate MutexOwned(s: State) {
    s.mutex == {} || exists t :: s.mutex == {t} && Locking(PcOf(s, t))
  }

  lemma KeepMutexOwned(s: State, u: Tid, a: Action, s': State)
    requires Inv(s) && MutexOwned(s) && Next(s, u, a, s')
    ensures MutexOwned(s')
  {
    assert ThreadOk(s, u);
    if t :| s.mutex == {t} && Locking(PcOf(s, t)) {
      assert t != u ==> PcOf(s', t) == PcOf(s, t);
      assert s'.mutex == {t} ==> Locking(PcOf(s', t));
    } else {
      assert s'.mutex == {u} ==> Locking(PcOf(s', u));
    }
  }

  lemma MutexOwnedNext(poolSize: nat, states: seq<State>, moves: seq<(Tid, Action)>, i: nat)
    requires Behaviour(poolSize, states, moves) && i < |moves| && MutexOwned(states[i])
    ensures MutexOwned(states[i + 1])
  {
    InvAlways(poolSize, states, moves, i);
    assert StepAt(states, moves, i);
    KeepMutexOwned(states[i], moves[i].0, moves[i].1, states[i + 1]);
  }

  lemma {:induction false} MutexOwnedAlways(poolSize: nat, states: seq<State>, moves: seq<(Tid, Action)>, i: nat)
    requires Behaviour(poolSize, states, moves) && i < |states|
    ensures MutexOwned(states[i])
  {
    if i > 0 {
      MutexOwnedAlways(poolSize, states, moves, i - 1);
      MutexOwnedNext(poolSize, states, moves, i - 1);
    }
  }

  predicate Waits(s: State, t: Tid) {
    (PcOf(s, t).Alloc? || PcOf(s, t).Return?) && PcOf(s, t).step == 0 && s.mutex != {}
  }

  /** A bound on the steps that are left of a call. */
  function Left(pc: Pc): nat {
    match pc
    case Idle => 0
    case Alloc(_, step) => if step <= 2 then 4 - step else 2
    case Return(_, step) => if step == 0 then 3 else 2
    case Unlock(_) => 1
    case Copy(_) => 1
  }

  /** Who is inside a call and does not wait can take a step, and is then nearer to its end. */
  lemma GoesOn(s: State, t: Tid) returns (s': State)
    requires Inv(s) && !PcOf(s, t).Idle? && !Waits(s, t)
    ensures Next(s, t, Advance, s') && Left(PcOf(s', t)) < Left(PcOf(s, t))
  {
    assert ThreadOk(s, t);
    match PcOf(s, t)
    case Alloc(e, step) =>
      if step == 0 {
        s' := At(s, t, Alloc(0, 1)).(mutex := {t});
      } else if step == 1 {
        if s.freeList == [] {
          s' := At(s, t, Unlock({}));
        } else {
          var f := s.freeList[0];
          assert f in s.bufs;
          s' := At(Upd(s, f, s.bufs[f].(handedOut := s.bufs[f].handedOut + 1)), t, Alloc(f, 2))
                .(freeList := s.freeList[1..], useList := [f] + s.useList, owner := s.owner[f := t]);
        }
      } else {
        s' := At(Upd(s, e, s.bufs[e].(refcount := 1, holders := multiset{t})), t, Unlock({e})).(owner := s.owner - {e});
      }
    case Unlock(_) => s' := At(s, t, Idle).(mutex := {});
    case Return(e, step) =>
      if step == 0 {
        s' := At(s, t, Return(e, 1)).(mutex := {t});
      } else {
        s' := At(Upd(s, e, s.bufs[e].(returned := s.bufs[e].returned + 1)), t, Unlock({}))
              .(freeList := [e] + s.freeList, useList := Less(s.useList, e), owner := s.owner - {e});
      }
    case Copy(e) => s' := At(Upd(s, e, s.bufs[e].(refcount := 1)), t, Idle).(owner := s.owner - {e});
  }

  /** In no interleaving is there a deadlock: while anyone is inside a call, somebody can take a step of one. */
  lemma NoDeadlock(poolSize: nat, states: seq<State>, moves: seq<(Tid, Action)>, i: nat, t: Tid) returns (u: Tid, s': State)
    requires Behaviour(poolSize, states, moves) && i < |states| && !PcOf(states[i], t).Idle?
    ensures Next(states[i], u, Advance, s') && Left(PcOf(s', u)) < Left(PcOf(states[i], u))
  {
    var s := states[i];
    InvAlways(poolSize, states, moves, i);
    MutexOwnedAlways(poolSize, states, moves, i);
    if Waits(s, t) {
      u :| s.mutex == {u} && Locking(PcOf(s, u));
    } else {
      u := t;
    }
    s' := GoesOn(s, u);
  }

  ghost function LeftOf(s: State, ts: set<Tid>): nat {
    Sum(t => Left(PcOf(s, t)), ts)
  }

  ghost predicate Among(s: State, ts: set<Tid>) {
    forall t :: t !in ts ==> PcOf(s, t).Idle?
  }

  lemma LessLeftInAll(s: State, u: Tid, s': State, ts: set<Tid>)
    requires Next(s, u, Advance, s') && Left(PcOf(s', u)) < Left(PcOf(s, u)) && Among(s, ts)
    ensures Among(s', ts) && LeftOf(s', ts) < LeftOf(s, ts)
  {
    assert forall t :: t != u ==> PcOf(s', t) == PcOf(s, t);
    SumLess(t => Left(PcOf(s, t)), t => Left(PcOf(s', t)), ts, u);
  }

  lemma OneMoreStep(poolSize: nat, states: seq<State>, moves: seq<(Tid, Action)>, u: Tid, s': State)
    requires Behaviour(poolSize, states, moves) && Next(states[|moves|], u, Advance, s')
    ensures Behaviour(poolSize, states + [s'], moves + [(u, Advance)])
  {
    var states', moves' := states + [s'], moves + [(u, Advance)];
    forall i | 0 <= i < |moves'|
      ensures StepAt(states', moves', i)
    {
      assert i < |moves| ==> StepAt(states, moves, i);
    }
  }

  lemma {:induction false} DrainsAmong(poolSize: nat, states: seq<State>, moves: seq<(Tid, Action)>, ts: set<Tid>)
    returns (states': seq<State>, moves': seq<(Tid, Action)>)
    requires Behaviour(poolSize, states, moves) && Among(states[|moves|], ts)
    ensures Behaviour(poolSize, states', moves') && Finishes(states, moves, states', moves', Advance)
    ensures forall t :: PcOf(states'[|moves'|], t).Idle?
    decreases LeftOf(states[|moves|], ts)
  {
    var s := states[|moves|];
    if t: Tid :| !PcOf(s, t).Idle? {
      var u, s1 := NoDeadlock(poolSize, states, moves, |moves|, t);
      LessLeftInAll(s, u, s1, ts);
      OneMoreStep(poolSize, states, moves, u, s1);
      states', moves' := DrainsAmong(poolSize, states + [s1], moves + [(u, Advance)], ts);
      Longer(states, moves, s1, u, states', moves', Advance);
    } else {
      states', moves' := states, moves;
    }
  }

  /** Whatever has happened so far, the calls under way can come to their ends without anything new being begun. */
  lemma Drains(poolSize: nat, states: seq<State>, moves: seq<(Tid, Action)>) returns (states': seq<State>, moves': seq<(Tid, Action)>)
    requires Behaviour(poolSize, states, moves)
    ensures Behaviour(poolSize, states', moves') && Finishes(states, moves, states', moves', Advance)
    ensures forall t :: PcOf(states'[|moves'|], t).Idle?
  {
    states', moves' := DrainsAmong(poolSize, states, moves, states[|moves|].pcs.Keys);
  }

  /** When nobody is inside a call the mutex is free, counts are references, and exactly the entries that nobody holds are free. */
  lemma Settled(poolSize: nat, states: seq<State>, moves: seq<(Tid, Action)>, i: nat)
    requires Behaviour(poolSize, states, moves) && i < |states| && forall t :: PcOf(states[i], t).Idle?
    ensures var s := states[i];
      && s.mutex == {} && s.owner == map[]
      && forall e :: e in s.bufs ==>
        && s.bufs[e].refcount == |s.bufs[e].holders| && s.bufs[e].handedOut == s.bufs[e].returned + (if e in s.useList then 1 else 0)
        && (e in s.freeList <==> s.bufs[e].holders == multiset{}) && (e in s.useList <==> s.bufs[e].holders != multiset{})
  {
    var s := states[i];
    InvAlways(poolSize, states, moves, i);
    MutexOwnedAlways(poolSize, states, moves, i);
    assert forall e :: e !in s.owner;
    assert forall e :: e in s.bufs ==> BufOk(s, e);
  }
}
