/**
 Who owes what: every reference to an element of the hash table, and every unit of its count,
 comes from one step that a run has taken and goes with another. A lookup hands out a reference,
 and while it is kept the element is not freed.
 */
module HashRefs {
  import opened HashProtocol
  import opened HashCalls

  /** The references to e that t holds. */
  function Held(s: State, t: Tid, e: Elm): nat {
    if e in s.els then s.els[e].holders[t] else 0
  }

  function Refcount(s: State, e: Elm): int {
    if e in s.els then s.els[e].refcount else 0
  }

  /** How many references to e a step of thread u gives to thread t, or takes from it. */
  function Credit(s: State, u: Tid, a: Action, t: Tid, e: Elm): int {
    match a
    case Init(x) => if x == e && u == t then 1 else 0
    case Hold(x) => if x == e && u == t then 1 else 0
    case Put(x) => if x == e && u == t then -1 else 0
    case Pass(x, to) => if x == e then (if to == t then 1 else 0) - (if u == t then 1 else 0) else 0
    case Advance => if u == t && Holding(PcOf(s, u), e) then 1 else 0
    case _ => 0
  }

  /** What the step does to the count: whoever gets a reference counts it, and so does the table, when it links and unlinks. */
  function Change(s: State, u: Tid, a: Action, e: Elm): int {
    match a
    case Init(x) => if x == e then 1 else 0
    case Hold(x) => if x == e then 1 else 0
    case Put(x) => if x == e then -1 else 0
    case Advance =>
      if Holding(PcOf(s, u), e) || PcOf(s, u) == Hash(e, 3) then 1 else if PcOf(s, u) == Unhash(e, 3) then -1 else 0
    case _ => 0
  }

  /** hashtable_lookup is about to take a reference to e. */
  predicate Holding(pc: Pc, e: Elm) {
    pc.Lookup? && pc.step == 2 && pc.e == e
  }

  lemma HashCounts(slot: Key -> Slot, s: State, u: Tid, x: Elm, step: nat, s': State, t: Tid, e: Elm)
    requires x in s.els && step <= 3 && AdvancesHash(slot, s, u, x, step, s')
    ensures Held(s', t, e) == Held(s, t, e)
    ensures Refcount(s', e) == Refcount(s, e) + if e == x && step == 3 then 1 else 0
  {}

  lemma UnhashCounts(slot: Key -> Slot, s: State, u: Tid, x: Elm, step: nat, s': State, t: Tid, e: Elm)
    requires x in s.els && step <= 4 && step != 3 && AdvancesUnhash(slot, s, u, x, step, s')
    ensures Held(s', t, e) == Held(s, t, e) && Refcount(s', e) == Refcount(s, e)
  {}

  lemma UnhashPutCounts(slot: Key -> Slot, s: State, u: Tid, x: Elm, s': State, t: Tid, e: Elm)
    requires x in s.els && AdvancesUnhash(slot, s, u, x, 3, s')
    ensures Held(s', t, e) == Held(s, t, e)
    ensures Refcount(s', e) == Refcount(s, e) - if e == x then 1 else 0
  {
    assert s'.els == s.els[x := Counted(s.els[x], -1, s.els[x].holders)];
  }

  lemma LookupCounts(slot: Key -> Slot, s: State, u: Tid, k: Key, x: Elm, step: nat, s': State, t: Tid, e: Elm)
    requires step != 2 && AdvancesLookup(slot, s, u, k, x, step, s')
    ensures Held(s', t, e) == Held(s, t, e) && Refcount(s', e) == Refcount(s, e)
  {
    assert s'.els == s.els;
  }

  lemma LookupHoldCounts(slot: Key -> Slot, s: State, u: Tid, k: Key, x: Elm, s': State, t: Tid, e: Elm)
    requires AdvancesLookup(slot, s, u, k, x, 2, s')
    ensures Held(s', t, e) == Held(s, t, e) + if e == x && u == t then 1 else 0
    ensures Refcount(s', e) == Refcount(s, e) + if e == x then 1 else 0
  {}

  lemma AdvanceCounts(slot: Key -> Slot, s: State, u: Tid, s': State, t: Tid, e: Elm)
    requires ThreadOk(slot, s, u) && Advances(slot, s, u, s')
    ensures Held(s', t, e) == Held(s, t, e) + Credit(s, u, Advance, t, e)
    ensures Refcount(s', e) == Refcount(s, e) + Change(s, u, Advance, e)
  {
    match PcOf(s, u)
    case Hash(x, step) => HashCounts(slot, s, u, x, step, s', t, e);
    case Unhash(x, step) =>
      if step == 3 { UnhashPutCounts(slot, s, u, x, s', t, e); } else { UnhashCounts(slot, s, u, x, step, s', t, e); }
    case Lookup(k, x, step) =>
      if step == 2 { LookupHoldCounts(slot, s, u, k, x, s', t, e); } else { LookupCounts(slot, s, u, k, x, step, s', t, e); }
    case Unlock(_, _) =>
    case Free(_) =>
  }

  lemma BeginCounts(s: State, u: Tid, a: Action, s': State, t: Tid, e: Elm)
    requires !a.Advance? && Begins(s, u, a, s')
    ensures Held(s', t, e) == Held(s, t, e) + Credit(s, u, a, t, e)
    ensures Refcount(s', e) == Refcount(s, e) + Change(s, u, a, e)
  {}

  lemma StepCounts(slot: Key -> Slot, s: State, u: Tid, a: Action, s': State, t: Tid, e: Elm)
    requires Inv(slot, s) && Next(slot, s, u, a, s')
    ensures Held(s', t, e) == Held(s, t, e) + Credit(s, u, a, t, e)
    ensures Refcount(s', e) == Refcount(s, e) + Change(s, u, a, e)
  {
    if a.Advance? {
      assert ThreadOk(slot, s, u);
      AdvanceCounts(slot, s, u, s', t, e);
    } else {
      BeginCounts(s, u, a, s', t, e);
    }
  }

  // ---------- Whole runs ----------

  /** What the moves from b to n have given to t, less what they have taken. */
  function Credits(states: seq<State>, moves: seq<(Tid, Action)>, b: nat, n: nat, t: Tid, e: Elm): int
    requires b <= n <= |moves| < |states|
  {
    if n == b then 0 else Credits(states, moves, b, n - 1, t, e) + Credit(states[n - 1], moves[n - 1].0, moves[n - 1].1, t, e)
  }

  function Changes(states: seq<State>, moves: seq<(Tid, Action)>, n: nat, e: Elm): int
    requires n <= |moves| < |states|
  {
    if n == 0 then 0 else Changes(states, moves, n - 1, e) + Change(states[n - 1], moves[n - 1].0, moves[n - 1].1, e)
  }

  lemma StepCountsAt(slot: Key -> Slot, states: seq<State>, moves: seq<(Tid, Action)>, i: nat, t: Tid, e: Elm)
    requires Behaviour(slot, states, moves) && i < |moves|
    ensures Held(states[i + 1], t, e) == Held(states[i], t, e) + Credit(states[i], moves[i].0, moves[i].1, t, e)
    ensures Refcount(states[i + 1], e) == Refcount(states[i], e) + Change(states[i], moves[i].0, moves[i].1, e)
  {
    InvAlways(slot, states, moves, i);
    assert StepAt(slot, states, moves, i);
    StepCounts(slot, states[i], moves[i].0, moves[i].1, states[i + 1], t, e);
  }

  /** In every interleaving, at any moment, the references and the count are exactly those that the steps so far account for. */
  lemma {:induction false} Ledger(slot: Key -> Slot, states: seq<State>, moves: seq<(Tid, Action)>, n: nat, t: Tid, e: Elm)
    requires Behaviour(slot, states, moves) && n < |states|
    ensures Held(states[n], t, e) == Credits(states, moves, 0, n, t, e)
    ensures Refcount(states[n], e) == Changes(states, moves, n, e)
  {
    if n > 0 {
      Ledger(slot, states, moves, n - 1, t, e);
      StepCountsAt(slot, states, moves, n - 1, t, e);
    }
  }

  /** t gives a reference to e up. */
  predicate GivesUp(move: (Tid, Action), t: Tid, e: Elm) {
    move.0 == t && (move.1 == Put(e) || (move.1.Pass? && move.1.e == e))
  }

  ghost predicate Keeps(moves: seq<(Tid, Action)>, t: Tid, e: Elm, i: nat, j: nat) {
    j <= |moves| && forall l :: i <= l < j ==> !GivesUp(moves[l], t, e)
  }

  /** t holds a reference to e, which is counted and was not freed. */
  predicate HoldsLive(s: State, t: Tid, e: Elm) {
    e in s.els && t in s.els[e].holders && s.els[e].refcount > 0 && s.els[e].freeCalls == 0
  }

  /** Until t itself gives one up it has the references it had, and the element is counted and was not freed. */
  lemma {:induction false} KeptAlive(slot: Key -> Slot, states: seq<State>, moves: seq<(Tid, Action)>, t: Tid, e: Elm, i: nat, j: nat)
    requires Behaviour(slot, states, moves) && i <= j < |states| && Held(states[i], t, e) > 0 && Keeps(moves, t, e, i, j)
    ensures Held(states[j], t, e) >= Held(states[i], t, e) && HoldsLive(states[j], t, e)
  {
    if i < j {
      KeptAlive(slot, states, moves, t, e, i, j - 1);
      StepCountsAt(slot, states, moves, j - 1, t, e);
    }
    Lifetime(slot, states, moves, j, e);
  }

  // ---------- What a lookup hands out ----------

  /** What t's own moves from b to n have given it. */
  function OwnCredits(states: seq<State>, moves: seq<(Tid, Action)>, b: nat, n: nat, t: Tid, e: Elm): int
    requires b <= n <= |moves| < |states|
  {
    if n == b then 0
    else
      var (u, a) := moves[n - 1];
      OwnCredits(states, moves, b, n - 1, t, e) + if u == t then Credit(states[n - 1], u, a, t, e) else 0
  }

  /** What t's own moves from b to n have added to the count. */
  function OwnChanges(states: seq<State>, moves: seq<(Tid, Action)>, b: nat, n: nat, t: Tid, e: Elm): int
    requires b <= n <= |moves| < |states|
  {
    if n == b then 0
    else
      var (u, a) := moves[n - 1];
      OwnChanges(states, moves, b, n - 1, t, e) + if u == t then Change(states[n - 1], u, a, e) else 0
  }

  /** From b to n, t's own moves have given it one reference, counted once, if e is what a lookup at pc has got hold of, and else none. */
  ghost predicate Given(states: seq<State>, moves: seq<(Tid, Action)>, b: nat, n: nat, t: Tid, e: Elm, pc: Pc)
    requires b <= n <= |moves| < |states|
  {
    OwnCredits(states, moves, b, n, t, e) == OwnChanges(states, moves, b, n, t, e) == if pc.Lookup? && pc.step == 3 && pc.e == e then 1 else 0
  }

  ghost predicate GivenAll(states: seq<State>, moves: seq<(Tid, Action)>, b: nat, n: nat, t: Tid, pc: Pc)
    requires b <= n <= |moves| < |states|
  {
    forall e :: Given(states, moves, b, n, t, e, pc)
  }

  /** A lookup that is under way has given t one reference once it has taken hold of the element, and none before or else. */
  ghost predicate LookupSoFar(states: seq<State>, moves: seq<(Tid, Action)>, t: Tid, k: Key, b: nat, l: nat)
    requires b <= l <= |moves| < |states|
  {
    var pc := PcOf(states[l], t);
    && pc.Lookup? && pc.k == k && pc.step <= 4
    && GivenAll(states, moves, b, l, t, pc)
  }

  lemma LookupGoesOn(slot: Key -> Slot, s: State, t: Tid, k: Key, e: Elm, step: nat, s': State)
    requires PcOf(s, t) == Lookup(k, e, step) && step <= 4 && AdvancesLookup(slot, s, t, k, e, step, s') && !PcOf(s', t).Idle?
    ensures PcOf(s', t).Lookup? && PcOf(s', t).k == k && step < PcOf(s', t).step <= 4
    ensures PcOf(s', t).step == 3 <==> step == 2
    ensures step == 2 ==> PcOf(s', t).e == e
  {}

  lemma {:induction false} LookupUpTo(slot: Key -> Slot, states: seq<State>, moves: seq<(Tid, Action)>, t: Tid, k: Key, b: nat, r: nat, l: nat)
    requires Behaviour(slot, states, moves) && Call(states, moves, t, BeginLookup(k), b, r) && b < l <= r
    ensures LookupSoFar(states, moves, t, k, b, l)
  {
    var s, s' := states[l - 1], states[l];
    var (u, a) := moves[l - 1];
    assert StepAt(slot, states, moves, l - 1);
    if l > b + 1 {
      LookupUpTo(slot, states, moves, t, k, b, r, l - 1);
      InvAlways(slot, states, moves, l - 1);
      if u != t {
        OthersStep(slot, s, u, a, s', t, a);
      } else {
        LookupGoesOn(slot, s, t, k, PcOf(s, t).e, PcOf(s, t).step, s');
      }
    }
    forall e
      ensures Given(states, moves, b, l, t, e, PcOf(s', t))
    {
      assert l > b + 1 ==> Given(states, moves, b, l - 1, t, e, PcOf(s, t));
    }
  }

  /**
   When hashtable_lookup returns, its thread has been given exactly one reference, to the element
   that is returned, or none if nothing was found; and it holds that reference, so that until
   it gives one up itself the element is counted and is not freed.
   */
  lemma HandsOut(slot: Key -> Slot, states: seq<State>, moves: seq<(Tid, Action)>, t: Tid, k: Key, b: nat, r: nat)
    requires Behaviour(slot, states, moves) && Call(states, moves, t, BeginLookup(k), b, r)
    ensures var pc := PcOf(states[r], t);
      && pc.Lookup? && pc.k == k && pc.step in {3, 4}
      && GivenAll(states, moves, b, r + 1, t, pc)
      && forall j :: r < j < |states| && pc.step == 3 && Keeps(moves, t, pc.e, r + 1, j) ==> HoldsLive(states[j], t, pc.e)
  {
    var pc := PcOf(states[r], t);
    LookupUpTo(slot, states, moves, t, k, b, r, r);
    InvAlways(slot, states, moves, r);
    assert ThreadOk(slot, states[r], t) && StepAt(slot, states, moves, r);
    assert moves[r] == (t, Advance) && pc.step in {3, 4};
    var n := r + 1;
    forall e
      ensures Given(states, moves, b, n, t, e, pc)
    {
      assert Given(states, moves, b, r, t, e, pc);
    }
    StepCountsAt(slot, states, moves, r, t, pc.e);
    forall j | r < j < |states| && pc.step == 3 && Keeps(moves, t, pc.e, r + 1, j)
      ensures HoldsLive(states[j], t, pc.e)
    {
      KeptAlive(slot, states, moves, t, pc.e, r + 1, j);
    }
  }
}
