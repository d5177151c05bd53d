/**
 Locks of the hash table are always given back, nobody waits for ever, and calls under way come to
 an end: from every reachable state the threads can finish on their own, and then the accounts
 are settled.
 */
module HashProgress {
  import opened Basics
  import opened HashProtocol
  import opened HashCalls
  import opened HashRuns

  // ---------- Every lock has its owners ----------

  datatype Grip = None | OnWrite(sl: Slot) | OnRead(sl: Slot)

  /** The lock that a thread at pc has. */
  function GripOf(slot: Key -> Slot, s: State, pc: Pc): Grip {
    match pc
    case Hash(e, step) => if e in s.els && step >= 1 then OnWrite(slot(s.els[e].key)) else None
    case Unhash(e, step) => if e in s.els && step >= 1 then OnWrite(slot(s.els[e].key)) else None
    case Lookup(k, _, step) => if step >= 1 then OnRead(slot(k)) else None
    case Unlock(k, _) => OnWrite(slot(k))
    case _ => None
  }

  ghost predicate Owned(slot: Key -> Slot, s: State, sl: Slot)
    requires sl in s.locks
  {
    match s.locks[sl]
    case Write(u) => GripOf(slot, s, PcOf(s, u)) == OnWrite(sl)
    case Read(ts) => ts != {} && forall u :: u in ts ==> GripOf(slot, s, PcOf(s, u)) == OnRead(sl)
  }

  ghost predicate LocksOwned(slot: Key -> Slot, s: State) {
    forall sl :: sl in s.locks ==> Owned(slot, s, sl)
  }

  /** What thread u does to the locks when it has `before` and then `after`. */
  ghost predicate Regrips(s: State, u: Tid, before: Grip, after: Grip, s': State) {
    match (before, after)
    case (None, OnWrite(sl)) => sl !in s.locks && s'.locks == s.locks[sl := Write(u)]
    case (None, OnRead(sl)) =>
      && (sl in s.locks ==> s.locks[sl].Read?)
      && s'.locks == s.locks[sl := Read({u} + if sl in s.locks then s.locks[sl].ts else {})]
    case (OnWrite(sl), None) => s'.locks == Released(s, sl, u).locks
    case (OnRead(sl), None) => s'.locks == Released(s, sl, u).locks
    case _ => before == after && s'.locks == s.locks
  }

  lemma Regripped(slot: Key -> Slot, s: State, u: Tid, s': State)
    requires LocksOwned(slot, s) && Regrips(s, u, GripOf(slot, s, PcOf(s, u)), GripOf(slot, s', PcOf(s', u)), s')
    requires forall t :: t != u ==> GripOf(slot, s', PcOf(s', t)) == GripOf(slot, s, PcOf(s, t))
    ensures LocksOwned(slot, s')
  {
    forall sl | sl in s'.locks
      ensures Owned(slot, s', sl)
    {
      assert sl in s.locks ==> Owned(slot, s, sl);
    }
  }

  lemma OthersGrip(slot: Key -> Slot, s: State, u: Tid, a: Action, s': State, t: Tid)
    requires Inv(slot, s) && Next(slot, s, u, a, s') && u != t
    ensures PcOf(s', t) == PcOf(s, t) && GripOf(slot, s', PcOf(s', t)) == GripOf(slot, s, PcOf(s, t))
  {
    var pc := PcOf(s, t);
    var e := if pc.Hash? || pc.Unhash? then pc.e else 0;
    assert ThreadOk(slot, s, t);
    if a.Advance? {
      AdvanceKeeps(slot, s, u, s', t, e);
    } else {
      BeginKeeps(s, u, a, s', t, e);
    }
  }

  lemma HashGrip(slot: Key -> Slot, s: State, u: Tid, e: Elm, step: nat, s': State)
    requires PcOf(s, u) == Hash(e, step) && e in s.els && AdvancesHash(slot, s, u, e, step, s')
    ensures Regrips(s, u, GripOf(slot, s, PcOf(s, u)), GripOf(slot, s', PcOf(s', u)), s')
  {}

  lemma UnhashTo(slot: Key -> Slot, s: State, u: Tid, e: Elm, step: nat, s': State)
    requires e in s.els && s.els[e].attached && step <= 4 && AdvancesUnhash(slot, s, u, e, step, s')
    ensures PcOf(s', u) == if step < 3 then Unhash(e, step + 1)
      else if step == 3 && s.els[e].refcount == 1 then Unhash(e, 4) else Unlock(s.els[e].key, 0)
  {}

  lemma UnhashPutKeepsLocks(slot: Key -> Slot, s: State, u: Tid, e: Elm, s': State)
    requires e in s.els && AdvancesUnhash(slot, s, u, e, 3, s')
    ensures s'.locks == s.locks
  {}

  lemma UnhashKeepsLocks(slot: Key -> Slot, s: State, u: Tid, e: Elm, step: nat, s': State)
    requires e in s.els && step > 0 && AdvancesUnhash(slot, s, u, e, step, s')
    ensures s'.locks == s.locks
  {
    if step == 3 { UnhashPutKeepsLocks(slot, s, u, e, s'); }
  }

  lemma UnhashGrip(slot: Key -> Slot, s: State, u: Tid, e: Elm, step: nat, s': State)
    requires PcOf(s, u) == Unhash(e, step) && step <= 4 && e in s.els && s.els[e].attached && AdvancesUnhash(slot, s, u, e, step, s')
    ensures Regrips(s, u, GripOf(slot, s, PcOf(s, u)), GripOf(slot, s', PcOf(s', u)), s')
  {
    UnhashTo(slot, s, u, e, step, s');
    UnhashKeeps(slot, s, u, e, step, s');
    if step > 0 { UnhashKeepsLocks(slot, s, u, e, step, s'); }
  }

  lemma LookupGrip(slot: Key -> Slot, s: State, u: Tid, k: Key, e: Elm, step: nat, s': State)
    requires PcOf(s, u) == Lookup(k, e, step) && AdvancesLookup(slot, s, u, k, e, step, s')
    ensures Regrips(s, u, GripOf(slot, s, PcOf(s, u)), GripOf(slot, s', PcOf(s', u)), s')
  {
    if step == 1 {
      var to :| s' == At(s, u, to) && to.Lookup? && to.k == k && to.step > 1;
      assert PcOf(s', u) == to;
    } else {
      assert PcOf(s', u) == if step == 0 then Lookup(k, 0, 1) else if step == 2 then Lookup(k, e, 3) else Idle;
    }
  }

  lemma BeginGrip(slot: Key -> Slot, s: State, u: Tid, a: Action, s': State)
    requires !a.Advance? && Next(slot, s, u, a, s')
    ensures Regrips(s, u, GripOf(slot, s, PcOf(s, u)), GripOf(slot, s', PcOf(s', u)), s')
  {}

  lemma KeepLocksOwned(slot: Key -> Slot, s: State, u: Tid, a: Action, s': State)
    requires Inv(slot, s) && LocksOwned(slot, s) && Next(slot, s, u, a, s')
    ensures LocksOwned(slot, s')
  {
    forall t | t != u
      ensures GripOf(slot, s', PcOf(s', t)) == GripOf(slot, s, PcOf(s, t))
    {
      OthersGrip(slot, s, u, a, s', t);
    }
    assert ThreadOk(slot, s, u);
    if !a.Advance? {
      BeginGrip(slot, s, u, a, s');
    } else {
      match PcOf(s, u)
      case Hash(e, step) => HashGrip(slot, s, u, e, step, s');
      case Unhash(e, step) => UnhashGrip(slot, s, u, e, step, s');
      case Lookup(k, e, step) => LookupGrip(slot, s, u, k, e, step, s');
      case Unlock(_, _) =>
      case Free(_) =>
    }
    Regripped(slot, s, u, s');
  }

  lemma {:induction false} LocksOwnedAlways(slot: Key -> Slot, states: seq<State>, moves: seq<(Tid, Action)>, i: nat)
    requires Behaviour(slot, states, moves) && i < |states|
    ensures LocksOwned(slot, states[i])
  {
    if i > 0 {
      LocksOwnedAlways(slot, states, moves, i - 1);
      InvAlways(slot, states, moves, i - 1);
      assert StepAt(slot, states, moves, i - 1);
      KeepLocksOwned(slot, states[i - 1], moves[i - 1].0, moves[i - 1].1, states[i]);
    }
  }

  // ---------- Somebody can always go on ----------

  /** Not inside a call; hashelm_put of an element without a table does not come back. */
  predicate Outside(pc: Pc) { pc.Idle? || pc.Fault? }

  /** t waits for a lock that somebody else has. */
  ghost predicate Waits(slot: Key -> Slot, s: State, t: Tid) {
    match PcOf(s, t)
    case Hash(e, step) => e in s.els && step == 0 && slot(s.els[e].key) in s.locks
    case Unhash(e, step) => e in s.els && step == 0 && slot(s.els[e].key) in s.locks
    case Lookup(k, _, step) => step == 0 && slot(k) in s.locks && s.locks[slot(k)].Write?
    case _ => false
  }

  /** A bound on the steps that are left of a call. */
  function Left(pc: Pc): nat {
    match pc
    case Hash(_, step) => if step <= 3 then 5 - step else 2
    case Unhash(_, step) => if step <= 4 then 6 - step else 2
    case Lookup(_, _, step) => if step <= 2 then 4 - step else 1
    case Unlock(_, _) => 1
    case Free(_) => 1
    case _ => 0
  }

  lemma HashGoesOn(slot: Key -> Slot, s: State, t: Tid, e: Elm, step: nat) returns (s': State)
    requires PcOf(s, t) == Hash(e, step) && e in s.els && step <= 3 && !Waits(slot, s, t)
    ensures AdvancesHash(slot, s, t, e, step, s')
  {
    var k := s.els[e].key;
    if step == 0 { s' := At(s, t, Hash(e, 1)).(locks := s.locks[slot(k) := Write(t)]); }
    else if step == 1 {
      s' := if Present(s, k) then At(s, t, Unlock(k, -1)).(busy := s.busy - {e})
            else Recounted(At(s, t, Hash(e, 2)).(counted := s.counted + {e}), slot(k), 1);
    }
    else if step == 2 { s' := At(Upd(s, e, s.els[e].(linked := true)), t, Hash(e, 3)); }
    else { s' := At(Upd(s, e, Counted(s.els[e], 1, s.els[e].holders)), t, Unlock(k, 0)).(refs := s.refs + {e}, busy := s.busy - {e}); }
  }

  lemma UnhashGoesOn(slot: Key -> Slot, s: State, t: Tid, e: Elm, step: nat) returns (s': State)
    requires PcOf(s, t) == Unhash(e, step) && e in s.els && step <= 4 && !Waits(slot, s, t)
    ensures AdvancesUnhash(slot, s, t, e, step, s')
  {
    var k := s.els[e].key;
    if step == 0 { s' := At(s, t, Unhash(e, 1)).(locks := s.locks[slot(k) := Write(t)]); }
    else if step == 1 { s' := At(Upd(s, e, s.els[e].(linked := false)), t, Unhash(e, 2)); }
    else if step == 2 { s' := Recounted(At(s, t, Unhash(e, 3)).(counted := s.counted - {e}), slot(k), -1); }
    else if step == 3 {
      var s1 := Upd(s, e, Counted(s.els[e], -1, s.els[e].holders)).(refs := s.refs - {e});
      s' := if s.els[e].refcount != 1 then At(s1, t, Unlock(k, 0)).(busy := s.busy - {e})
            else if s.els[e].attached then At(s1, t, Unhash(e, 4)).(dying := s.dying[e := t])
            else At(s1, t, Fault(e));
    }
    else { s' := At(Freed(s, e), t, Unlock(k, 0)).(busy := s.busy - {e}); }
  }

  lemma LookupGoesOn(slot: Key -> Slot, s: State, t: Tid, k: Key, e: Elm, step: nat) returns (s': State)
    requires PcOf(s, t) == Lookup(k, e, step) && (step == 2 ==> e in s.els) && !Waits(slot, s, t)
    ensures AdvancesLookup(slot, s, t, k, e, step, s')
  {
    var sl := slot(k);
    if step == 0 {
      s' := At(s, t, Lookup(k, 0, 1)).(locks := s.locks[sl := Read({t} + if sl in s.locks then s.locks[sl].ts else {})]);
    } else if step == 1 {
      if x :| Matches(s, k, x) {
        s' := At(s, t, Lookup(k, x, 2));
      } else {
        s' := At(s, t, Lookup(k, 0, 4));
      }
    } else if step == 2 {
      s' := At(Upd(s, e, Counted(s.els[e], 1, s.els[e].holders + multiset{t})), t, Lookup(k, e, 3));
    } else {
      s' := At(Released(s, sl, t), t, Idle);
    }
  }

  /** Who is inside a call and does not wait can take a step. */
  lemma GoesOn(slot: Key -> Slot, s: State, t: Tid) returns (s': State)
    requires Inv(slot, s) && !Outside(PcOf(s, t)) && !Waits(slot, s, t)
    ensures Advances(slot, s, t, s')
  {
    assert ThreadOk(slot, s, t);
    match PcOf(s, t)
    case Hash(e, step) => s' := HashGoesOn(slot, s, t, e, step);
    case Unhash(e, step) => s' := UnhashGoesOn(slot, s, t, e, step);
    case Lookup(k, e, step) => s' := LookupGoesOn(slot, s, t, k, e, step);
    case Unlock(k, _) => s' := At(Released(s, slot(k), t), t, Idle);
    case Free(e) => s' := At(Freed(s, e), t, Idle);
  }

  /** Every step brings its call nearer to its end. */
  lemma LessLeft(slot: Key -> Slot, s: State, t: Tid, s': State)
    requires Inv(slot, s) && Advances(slot, s, t, s')
    ensures Left(PcOf(s', t)) < Left(PcOf(s, t))
  {
    assert ThreadOk(slot, s, t);
    match PcOf(s, t)
    case Hash(e, step) => LessLeftHash(slot, s, t, e, step, s');
    case Unhash(e, step) => LessLeftUnhash(slot, s, t, e, step, s');
    case Lookup(k, e, step) => LessLeftLookup(slot, s, t, k, e, step, s');
    case Unlock(_, _) =>
    case Free(_) =>
  }

  lemma LessLeftLookup(slot: Key -> Slot, s: State, t: Tid, k: Key, e: Elm, step: nat, s': State)
    requires AdvancesLookup(slot, s, t, k, e, step, s')
    ensures Left(PcOf(s', t)) < Left(Lookup(k, e, step))
  {
    if step == 1 {
      var to :| s' == At(s, t, to) && to.Lookup? && to.step > 1;
      assert PcOf(s', t) == to;
    } else if step == 0 {
      assert PcOf(s', t) == Lookup(k, 0, 1);
    }
  }

  lemma LessLeftHash(slot: Key -> Slot, s: State, t: Tid, e: Elm, step: nat, s': State)
    requires e in s.els && step <= 3 && AdvancesHash(slot, s, t, e, step, s')
    ensures Left(PcOf(s', t)) < Left(Hash(e, step))
  {}

  lemma LessLeftUnhash(slot: Key -> Slot, s: State, t: Tid, e: Elm, step: nat, s': State)
    requires e in s.els && s.els[e].attached && step <= 4 && AdvancesUnhash(slot, s, t, e, step, s')
    ensures Left(PcOf(s', t)) < Left(Unhash(e, step))
  {
    UnhashTo(slot, s, t, e, step, s');
  }

  /** Whoever waits, waits for a thread that does not. */
  lemma WaitsFor(slot: Key -> Slot, s: State, t: Tid) returns (u: Tid)
    requires LocksOwned(slot, s) && !Outside(PcOf(s, t))
    ensures !Outside(PcOf(s, u)) && !Waits(slot, s, u)
  {
    if !Waits(slot, s, t) {
      u := t;
    } else {
      var pc := PcOf(s, t);
      var sl := if pc.Lookup? then slot(pc.k) else slot(s.els[pc.e].key);
      assert Owned(slot, s, sl);
      match s.locks[sl]
      case Write(v) => u := v;
      case Read(ts) => u :| u in ts;
    }
  }

  /** In no interleaving is there a deadlock: while anyone is inside a call, somebody can take a step of one. */
  lemma NoDeadlock(slot: Key -> Slot, states: seq<State>, moves: seq<(Tid, Action)>, i: nat, t: Tid) returns (u: Tid, s': State)
    requires Behaviour(slot, states, moves) && i < |states| && !Outside(PcOf(states[i], t))
    ensures !Outside(PcOf(states[i], u)) && Next(slot, states[i], u, Advance, s')
  {
    InvAlways(slot, states, moves, i);
    LocksOwnedAlways(slot, states, moves, i);
    u := WaitsFor(slot, states[i], t);
    s' := GoesOn(slot, states[i], u);
  }

  // ---------- Calls come to an end ----------

  /** What is left of the calls of the threads ts. */
  ghost function LeftOf(s: State, ts: set<Tid>): nat {
    Sum(t => Left(PcOf(s, t)), ts)
  }

  /** Threads outside ts are not inside a call. */
  ghost predicate Among(s: State, ts: set<Tid>) {
    forall t :: t !in ts ==> Outside(PcOf(s, t))
  }

  lemma LessLeftInAll(slot: Key -> Slot, s: State, u: Tid, s': State, ts: set<Tid>)
    requires Inv(slot, s) && !Outside(PcOf(s, u)) && Next(slot, s, u, Advance, s') && Among(s, ts)
    ensures Among(s', ts) && LeftOf(s', ts) < LeftOf(s, ts)
  {
    forall t | t != u
      ensures PcOf(s', t) == PcOf(s, t)
    {
      OthersGrip(slot, s, u, Advance, s', t);
    }
    LessLeft(slot, s, u, s');
    SumLess(t => Left(PcOf(s, t)), t => Left(PcOf(s', t)), ts, u);
  }

  lemma OneMoreStep(slot: Key -> Slot, states: seq<State>, moves: seq<(Tid, Action)>, u: Tid, s': State)
    requires Behaviour(slot, states, moves) && Next(slot, states[|moves|], u, Advance, s')
    ensures Behaviour(slot, states + [s'], moves + [(u, Advance)])
  {
    var states', moves' := states + [s'], moves + [(u, Advance)];
    forall i | 0 <= i < |moves'|
      ensures StepAt(slot, states', moves', i)
    {
      assert i < |moves| ==> StepAt(slot, states, moves, i);
    }
  }

  lemma {:induction false} DrainsAmong(slot: Key -> Slot, states: seq<State>, moves: seq<(Tid, Action)>, ts: set<Tid>)
    returns (states': seq<State>, moves': seq<(Tid, Action)>)
    requires Behaviour(slot, states, moves) && Among(states[|moves|], ts)
    ensures Behaviour(slot, states', moves') && Finishes(states, moves, states', moves', Advance)
    ensures forall t :: Outside(PcOf(states'[|moves'|], t))
    decreases LeftOf(states[|moves|], ts)
  {
    var s := states[|moves|];
    if t: Tid :| !Outside(PcOf(s, t)) {
      var u, s1 := NoDeadlock(slot, states, moves, |moves|, t);
      InvAlways(slot, states, moves, |moves|);
      LessLeftInAll(slot, s, u, s1, ts);
      OneMoreStep(slot, states, moves, u, s1);
      states', moves' := DrainsAmong(slot, states + [s1], moves + [(u, Advance)], ts);
      Longer(states, moves, s1, u, states', moves', Advance);
    } else {
      states', moves' := states, moves;
    }
  }

  /** Whatever has happened so far, the calls under way can come to their ends without anything new being begun. */
  lemma Drains(slot: Key -> Slot, states: seq<State>, moves: seq<(Tid, Action)>) returns (states': seq<State>, moves': seq<(Tid, Action)>)
    requires Behaviour(slot, states, moves)
    ensures Behaviour(slot, states', moves') && Finishes(states, moves, states', moves', Advance)
    ensures forall t :: Outside(PcOf(states'[|moves'|], t))
  {
    states', moves' := DrainsAmong(slot, states, moves, states[|moves|].pcs.Keys);
  }

  lemma Gripper(slot: Key -> Slot, s: State, sl: Slot) returns (u: Tid)
    requires LocksOwned(slot, s) && sl in s.locks
    ensures GripOf(slot, s, PcOf(s, u)) != None
  {
    assert Owned(slot, s, sl);
    match s.locks[sl]
    case Write(v) => u := v;
    case Read(ts) => u :| u in ts;
  }

  /**
   When nobody is inside a call all locks are free, the counters are right, and an element's count
   is the references held plus one if it is linked; if that is zero, an element that was ever
   given to hashtable_hash has been freed, once.
   */
  lemma Settled(slot: Key -> Slot, states: seq<State>, moves: seq<(Tid, Action)>, i: nat)
    requires Behaviour(slot, states, moves) && i < |states| && forall t :: Outside(PcOf(states[i], t))
    ensures var s := states[i];
      && s.locks == map[] && s.busy == map[] && s.dying == map[]
      && s.count == 1 + |set e | e in s.els && s.els[e].linked|
      && (forall sl :: SlotCount(s, sl) == |set e | e in s.els && s.els[e].linked && slot(s.els[e].key) == sl|)
      && forall e :: e in s.els ==>
        && s.els[e].refcount == |s.els[e].holders| + (if s.els[e].linked then 1 else 0)
        && s.els[e].freeCalls == if s.els[e].attached && s.els[e].refcount == 0 then 1 else 0
  {
    var s := states[i];
    InvAlways(slot, states, moves, i);
    LocksOwnedAlways(slot, states, moves, i);
    if sl :| sl in s.locks {
      var u := Gripper(slot, s, sl);
      assert false;
    }
    assert forall e :: e !in s.busy && e !in s.dying;
    CountIsOneTooMany(slot, s);
    forall sl
      ensures SlotCount(s, sl) == |set e | e in s.els && s.els[e].linked && slot(s.els[e].key) == sl|
    {
      SlotCounts(slot, states, moves, i, sl);
    }
    assert forall e :: e in s.els ==> ElmOk(s, e);
  }

  // ---------- Calls that nobody disturbs ----------

  /** A call with nobody in between. */
  ghost predicate CallRun(slot: Key -> Slot, s: State, t: Tid, call: Action, run: seq<State>) {
    |run| > 1 && Next(slot, s, t, call, run[0]) && Alone(slot, t, run)
  }

  lemma CallJoined(slot: Key -> Slot, s: State, t: Tid, call: Action, first: seq<State>, rest: seq<State>)
    requires CallRun(slot, s, t, call, first) && Alone(slot, t, rest) && |rest| > 1 && Advances(slot, first[|first| - 1], t, rest[0])
    ensures var run := first + rest;
      CallRun(slot, s, t, call, run) && run[|run| - 1] == rest[|rest| - 1] && run[|run| - 2] == rest[|rest| - 2]
  {
    AloneJoined(slot, t, first, rest);
  }

  lemma LookupLocks(slot: Key -> Slot, s: State, t: Tid, k: Key) returns (run: seq<State>)
    requires PcOf(s, t).Idle? && slot(k) !in s.locks
    ensures CallRun(slot, s, t, BeginLookup(k), run)
    ensures run[|run| - 1] == At(s, t, Lookup(k, 0, 1)).(locks := s.locks[slot(k) := Read({t})])
  {
    var s0 := At(s, t, Lookup(k, 0, 0));
    var ts: set<Tid> := {};
    assert {t} + ts == {t};
    run := [s0, At(s0, t, Lookup(k, 0, 1)).(locks := s.locks[slot(k) := Read({t})])];
    assert run[1].pcs == s.pcs[t := Lookup(k, 0, 1)];
  }

  lemma LookupFinds(slot: Key -> Slot, s: State, t: Tid, k: Key) returns (run: seq<State>, e: Elm)
    requires PcOf(s, t) == Lookup(k, 0, 1) && slot(k) in s.locks && s.locks[slot(k)] == Read({t}) && Present(s, k)
    ensures |run| == 3 && Advances(slot, s, t, run[0]) && Alone(slot, t, run) && PcOf(run[1], t) == Lookup(k, e, 3) && Matches(s, k, e)
    ensures run[2] == s.(els := s.els[e := Counted(s.els[e], 1, s.els[e].holders + multiset{t})], pcs := s.pcs[t := Idle], locks := s.locks - {slot(k)})
  {
    e :| Matches(s, k, e);
    var s2 := At(s, t, Lookup(k, e, 2));
    var s3 := At(Upd(s2, e, Counted(s.els[e], 1, s.els[e].holders + multiset{t})), t, Lookup(k, e, 3));
    var s4 := At(Released(s3, slot(k), t), t, Idle);
    assert Advances(slot, s, t, s2) && Advances(slot, s2, t, s3) && Advances(slot, s3, t, s4);
    assert s4.pcs == s.pcs[t := Idle];
    run := [s2, s3, s4];
  }

  lemma LookupMisses(slot: Key -> Slot, s: State, t: Tid, k: Key) returns (run: seq<State>)
    requires PcOf(s, t) == Lookup(k, 0, 1) && slot(k) in s.locks && s.locks[slot(k)] == Read({t}) && !Present(s, k)
    ensures |run| == 2 && Advances(slot, s, t, run[0]) && Alone(slot, t, run) && PcOf(run[0], t) == Lookup(k, 0, 4)
    ensures run[1] == s.(pcs := s.pcs[t := Idle], locks := s.locks - {slot(k)})
  {
    var s2 := At(s, t, Lookup(k, 0, 4));
    var s3 := At(Released(s2, slot(k), t), t, Idle);
    assert Advances(slot, s, t, s2) && Advances(slot, s2, t, s3);
    assert s3.pcs == s.pcs[t := Idle];
    run := [s2, s3];
  }

  /** Alone, hashtable_lookup returns the element with the key and one more reference to it, or nothing, and changes nothing else. */
  lemma LookupAlone(slot: Key -> Slot, s: State, t: Tid, k: Key) returns (run: seq<State>, e: Elm)
    requires PcOf(s, t).Idle? && slot(k) !in s.locks
    ensures CallRun(slot, s, t, BeginLookup(k), run)
    ensures Present(s, k) ==> Matches(s, k, e)
    ensures PcOf(run[|run| - 2], t) == if Present(s, k) then Lookup(k, e, 3) else Lookup(k, 0, 4)
    ensures run[|run| - 1] == s.(pcs := s.pcs[t := Idle],
      els := if Present(s, k) then s.els[e := Counted(s.els[e], 1, s.els[e].holders + multiset{t})] else s.els)
  {
    var first := LookupLocks(slot, s, t, k);
    var rest;
    var s1 := first[|first| - 1];
    assert forall x :: Matches(s1, k, x) <==> Matches(s, k, x);
    assert s1.locks - {slot(k)} == s.locks && s1.pcs[t := Idle] == s.pcs[t := Idle];
    if Present(s, k) {
      rest, e := LookupFinds(slot, s1, t, k);
    } else {
      rest := LookupMisses(slot, s1, t, k);
      e := 0;
    }
    CallJoined(slot, s, t, BeginLookup(k), first, rest);
    run := first + rest;
  }

  /** hashelm_put alone: one reference less, and freefn runs if it was the last one. */
  lemma PutAlone(slot: Key -> Slot, s: State, t: Tid, e: Elm) returns (run: seq<State>)
    requires PcOf(s, t).Idle? && e in s.els && t in s.els[e].holders && e !in s.dying
    requires s.els[e].refcount == 1 ==> s.els[e].attached
    ensures run != [] && Next(slot, s, t, Put(e), run[0]) && Alone(slot, t, run)
    ensures var s', el := run[|run| - 1], s.els[e];
      && PcOf(s', t).Idle? && s' == s.(els := s'.els, pcs := s'.pcs)
      && s'.els == s.els[e := LessOne(el).(holders := el.holders - multiset{t})]
  {
    var el := s.els[e];
    var s1 := Upd(s, e, Counted(el, -1, el.holders - multiset{t}));
    if el.refcount == 1 {
      var s2 := At(s1, t, Free(e)).(dying := s.dying[e := t]);
      run := [s2, At(Freed(s2, e), t, Idle)];
    } else {
      run := [s1];
    }
  }

  /** s1 is s when hashtable_hash has stored its fields and taken the lock. */
  ghost predicate Stored(slot: Key -> Slot, s: State, t: Tid, e: Elm, k: Key, s1: State) {
    && e in s.els && PcOf(s1, t) == Hash(e, 1) && s1.els == s.els[e := s.els[e].(key := k, attached := true)]
    && s1 == s.(els := s1.els, pcs := s1.pcs, locks := s.locks[slot(k) := Write(t)], busy := s.busy[e := t])
  }

  lemma HashStores(slot: Key -> Slot, s: State, t: Tid, e: Elm, k: Key) returns (run: seq<State>)
    requires PcOf(s, t).Idle? && e in s.els && t in s.els[e].holders && !s.els[e].linked && e !in s.busy && slot(k) !in s.locks
    ensures CallRun(slot, s, t, BeginHash(e, k), run) && Stored(slot, s, t, e, k, run[|run| - 1])
  {
    var s0 := At(Upd(s, e, s.els[e].(key := k, attached := true)), t, Hash(e, 0)).(busy := s.busy[e := t]);
    var s1 := At(s0, t, Hash(e, 1)).(locks := s0.locks[slot(k) := Write(t)]);
    assert Next(slot, s, t, BeginHash(e, k), s0) && Advances(slot, s0, t, s1);
    run := [s0, s1];
  }

  lemma StoredOnly(slot: Key -> Slot, s: State, t: Tid, e: Elm, k: Key, s1: State)
    requires Stored(slot, s, t, e, k, s1) && !s.els[e].linked && e !in s.busy && slot(k) !in s.locks
    ensures Present(s1, k) <==> Present(s, k)
    ensures s1.locks - {slot(k)} == s.locks && s1.busy - {e} == s.busy
  {
    assert forall x :: Matches(s1, k, x) <==> Matches(s, k, x);
  }

  /** The key is taken. */
  lemma HashRefuses(slot: Key -> Slot, s: State, t: Tid, e: Elm) returns (run: seq<State>)
    requires PcOf(s, t) == Hash(e, 1) && e in s.els && Present(s, s.els[e].key) && HasWrite(s, slot(s.els[e].key), t)
    ensures |run| == 2 && Advances(slot, s, t, run[0]) && Alone(slot, t, run) && PcOf(run[0], t) == Unlock(s.els[e].key, -1)
    ensures PcOf(run[1], t).Idle?
    ensures run[1] == s.(pcs := run[1].pcs, locks := s.locks - {slot(s.els[e].key)}, busy := s.busy - {e})
  {
    var k := s.els[e].key;
    var s2 := At(s, t, Unlock(k, -1)).(busy := s.busy - {e});
    run := [s2, At(Released(s2, slot(k), t), t, Idle)];
  }

  lemma HashLinksIn(slot: Key -> Slot, s: State, t: Tid, e: Elm) returns (run: seq<State>)
    requires PcOf(s, t) == Hash(e, 1) && e in s.els && !Present(s, s.els[e].key) && HasWrite(s, slot(s.els[e].key), t)
    ensures |run| == 4 && Advances(slot, s, t, run[0]) && Alone(slot, t, run) && PcOf(run[2], t) == Unlock(s.els[e].key, 0)
    ensures var s', k := run[3], s.els[e].key;
      && PcOf(s', t).Idle? && s'.els == s.els[e := s.els[e].(linked := true, refcount := s.els[e].refcount + 1)]
      && s' == s.(els := s'.els, pcs := s'.pcs, locks := s.locks - {slot(k)}, busy := s.busy - {e}, count := s.count + 1,
                  slotCounts := s.slotCounts[slot(k) := SlotCount(s, slot(k)) + 1], counted := s.counted + {e}, refs := s.refs + {e})
  {
    var k := s.els[e].key;
    var s2 := Recounted(At(s, t, Hash(e, 2)).(counted := s.counted + {e}), slot(k), 1);
    var s3 := At(Upd(s2, e, s2.els[e].(linked := true)), t, Hash(e, 3));
    var s4 := At(Upd(s3, e, Counted(s3.els[e], 1, s3.els[e].holders)), t, Unlock(k, 0)).(refs := s3.refs + {e}, busy := s3.busy - {e});
    var s5 := At(Released(s4, slot(k), t), t, Idle);
    assert Advances(slot, s, t, s2) && Advances(slot, s2, t, s3) && Advances(slot, s3, t, s4) && Advances(slot, s4, t, s5);
    run := [s2, s3, s4, s5];
  }

  /** hashtable_hash alone, with an absent key, stores it, links the element and counts it. */
  lemma HashAlone(slot: Key -> Slot, s: State, t: Tid, e: Elm, k: Key) returns (run: seq<State>)
    requires PcOf(s, t).Idle? && e in s.els && t in s.els[e].holders && !s.els[e].linked && e !in s.busy && slot(k) !in s.locks
    requires !Present(s, k)
    ensures CallRun(slot, s, t, BeginHash(e, k), run)
    ensures var s', el := run[|run| - 1], s.els[e];
      && PcOf(run[|run| - 2], t) == Unlock(k, 0) && PcOf(s', t).Idle?
      && s' == s.(els := s.els[e := el.(key := k, attached := true, linked := true, refcount := el.refcount + 1)], pcs := s'.pcs,
                  count := s.count + 1, slotCounts := s.slotCounts[slot(k) := SlotCount(s, slot(k)) + 1],
                  counted := s.counted + {e}, refs := s.refs + {e})
  {
    var first := HashStores(slot, s, t, e, k);
    var s1 := first[|first| - 1];
    StoredOnly(slot, s, t, e, k, s1);
    var rest := HashLinksIn(slot, s1, t, e);
    CallJoined(slot, s, t, BeginHash(e, k), first, rest);
    run := first + rest;
  }

  /** With a key that is taken, only the key and the field `ht` are stored. */
  lemma HashAloneTaken(slot: Key -> Slot, s: State, t: Tid, e: Elm, k: Key) returns (run: seq<State>)
    requires PcOf(s, t).Idle? && e in s.els && t in s.els[e].holders && !s.els[e].linked && e !in s.busy && slot(k) !in s.locks
    requires Present(s, k)
    ensures CallRun(slot, s, t, BeginHash(e, k), run)
    ensures var s' := run[|run| - 1];
      && PcOf(run[|run| - 2], t) == Unlock(k, -1) && PcOf(s', t).Idle?
      && s' == s.(els := s.els[e := s.els[e].(key := k, attached := true)], pcs := s'.pcs)
  {
    var first := HashStores(slot, s, t, e, k);
    var s1 := first[|first| - 1];
    StoredOnly(slot, s, t, e, k, s1);
    var rest := HashRefuses(slot, s1, t, e);
    CallJoined(slot, s, t, BeginHash(e, k), first, rest);
    run := first + rest;
  }
}
