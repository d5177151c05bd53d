/**
 Every call of hashtable_hash, hashtable_unhash and hashtable_lookup, however its steps are
 interleaved with those of other threads, answers like one operation on one finite map, done at
 one moment between the call's begin and its return.
 */
module HashCalls {
  import opened HashProtocol

  /** The map after a step of thread t. */
  function Effect(s: State, t: Tid, a: Action, m: map<Key, Elm>): map<Key, Elm> {
    var pc := PcOf(s, t);
    if !a.Advance? then m
    else if pc.Hash? && pc.step == 2 && pc.e in s.els then m[s.els[pc.e].key := pc.e]
    else if pc.Unhash? && pc.step == 1 && pc.e in s.els then m - {s.els[pc.e].key}
    else m
  }

  ghost predicate EffectAt(states: seq<State>, moves: seq<(Tid, Action)>, maps: seq<map<Key, Elm>>, i: nat)
    requires i < |moves| && i < |states| && i + 1 < |maps|
  {
    maps[i + 1] == Effect(states[i], moves[i].0, moves[i].1, maps[i])
  }

  /** The maps that the table stands for during the first n steps of a run: it starts empty, and every state has its own. */
  ghost predicate History(states: seq<State>, moves: seq<(Tid, Action)>, maps: seq<map<Key, Elm>>, n: nat) {
    && |maps| == n + 1 <= |states| == |moves| + 1 && maps[0] == map[]
    && (forall i :: 0 <= i <= n ==> IsTable(states[i], maps[i]))
    && (forall i :: 0 <= i < n ==> EffectAt(states, moves, maps, i))
  }

  lemma OneMore(slot: Key -> Slot, s: State, t: Tid, a: Action, s': State, m: map<Key, Elm>)
    requires Inv(slot, s) && Next(slot, s, t, a, s') && IsTable(s, m)
    ensures IsTable(s', Effect(s, t, a, m))
  {
    assert ThreadOk(slot, s, t);
    if a.Advance? {
      ChangesMap(slot, s, t, a, s', m);
    } else {
      StepLinks(slot, s, t, a, s');
    }
  }

  lemma HistoryGrows(states: seq<State>, moves: seq<(Tid, Action)>, maps: seq<map<Key, Elm>>, n: nat, m: map<Key, Elm>)
    requires History(states, moves, maps, n) && n < |moves|
    requires IsTable(states[n + 1], m) && m == Effect(states[n], moves[n].0, moves[n].1, maps[n])
    ensures History(states, moves, maps + [m], n + 1)
  {
    forall i | 0 <= i < n + 1
      ensures EffectAt(states, moves, maps + [m], i)
    {
      if i < n { assert EffectAt(states, moves, maps, i); }
    }
  }

  /** In every run the table is one map at any moment, which changes only by insertions and removals. */
  lemma {:induction false} HistoryExists(slot: Key -> Slot, states: seq<State>, moves: seq<(Tid, Action)>, n: nat) returns (maps: seq<map<Key, Elm>>)
    requires Behaviour(slot, states, moves) && n < |states|
    ensures History(states, moves, maps, n)
  {
    if n == 0 {
      maps := [map[]];
    } else {
      var before := HistoryExists(slot, states, moves, n - 1);
      var s, m := states[n - 1], before[n - 1];
      var (t, a) := moves[n - 1];
      InvAlways(slot, states, moves, n - 1);
      assert StepAt(slot, states, moves, n - 1);
      OneMore(slot, s, t, a, states[n], m);
      HistoryGrows(states, moves, before, n - 1, Effect(s, t, a, m));
      maps := before + [Effect(s, t, a, m)];
    }
  }

  /** The call has not decided yet. */
  ghost predicate Undecided(call: Action, s: State, pc: Pc) {
    match call
    case BeginHash(e, k) => pc.Hash? && pc.e == e && pc.step <= 2 && e in s.els && s.els[e].key == k
    case BeginUnhash(e) => pc.Unhash? && pc.e == e && pc.step <= 1
    case BeginLookup(k) => pc.Lookup? && pc.k == k && pc.step <= 1
    case _ => false
  }

  /** At pc the call is bound to answer what the operation on m answers, which makes m into m'. */
  ghost predicate Answers(call: Action, s: State, pc: Pc, m: map<Key, Elm>, m': map<Key, Elm>) {
    match call
    case BeginHash(e, k) =>
      if pc == Unlock(k, -1) then k in m && m' == m
      else
        && (pc == Unlock(k, 0) || (pc == Hash(e, 3) && e in s.els && s.els[e].key == k))
        && k !in m && m' == m[k := e]
    case BeginUnhash(e) =>
      && ((pc.Unhash? && pc.e == e && pc.step >= 2) || pc.Unlock? || pc == Fault(e))
      && exists k :: k in m && m[k] == e && m' == m - {k}
    case BeginLookup(k) =>
      && m' == m
      && (pc == Lookup(k, 0, 4) || (pc.Lookup? && pc.k == k && pc.step in {2, 3}))
      && if pc.step == 4 then k !in m else k in m && m[k] == pc.e
    case _ => false
  }

  lemma DecidesHash(slot: Key -> Slot, s: State, t: Tid, s': State, m: map<Key, Elm>, e: Elm, step: nat)
    requires PcOf(s, t) == Hash(e, step) && step <= 2 && e in s.els && AdvancesHash(slot, s, t, e, step, s')
    requires var k := s.els[e].key; (Present(s, k) <==> k in m) && (step == 2 ==> k !in m)
    ensures var call := BeginHash(e, s.els[e].key);
      Undecided(call, s', PcOf(s', t)) || Answers(call, s', PcOf(s', t), m, Effect(s, t, Advance, m))
  {}

  lemma DecidesUnhash(slot: Key -> Slot, s: State, t: Tid, s': State, m: map<Key, Elm>, e: Elm)
    requires Inv(slot, s) && Advances(slot, s, t, s') && IsTable(s, m) && Undecided(BeginUnhash(e), s, PcOf(s, t))
    ensures Undecided(BeginUnhash(e), s', PcOf(s', t)) || Answers(BeginUnhash(e), s', PcOf(s', t), m, Effect(s, t, Advance, m))
  {
    ChangesMap(slot, s, t, Advance, s', m);
  }

  lemma DecidesLookup(slot: Key -> Slot, s: State, t: Tid, s': State, m: map<Key, Elm>, k: Key)
    requires Inv(slot, s) && Advances(slot, s, t, s') && IsTable(s, m) && Undecided(BeginLookup(k), s, PcOf(s, t))
    ensures Undecided(BeginLookup(k), s', PcOf(s', t)) || Answers(BeginLookup(k), s', PcOf(s', t), m, Effect(s, t, Advance, m))
  {
    ScansMap(slot, s, t, s', m);
  }

  /** The step that decides. */
  lemma Decides(slot: Key -> Slot, s: State, t: Tid, s': State, m: map<Key, Elm>, call: Action)
    requires Inv(slot, s) && Advances(slot, s, t, s') && IsTable(s, m) && Undecided(call, s, PcOf(s, t))
    ensures Undecided(call, s', PcOf(s', t)) || Answers(call, s', PcOf(s', t), m, Effect(s, t, Advance, m))
  {
    match call
    case BeginHash(e, k) =>
      assert k in m ==> Matches(s, k, m[k]);
      assert ThreadOk(slot, s, t);
      DecidesHash(slot, s, t, s', m, e, PcOf(s, t).step);
    case BeginUnhash(e) => DecidesUnhash(slot, s, t, s', m, e);
    case BeginLookup(k) => DecidesLookup(slot, s, t, s', m, k);
    case _ =>
  }

  /** Once decided, it stays so until the call returns. */
  lemma StaysDecided(slot: Key -> Slot, s: State, t: Tid, s': State, call: Action, m: map<Key, Elm>, m': map<Key, Elm>)
    requires Advances(slot, s, t, s') && Answers(call, s, PcOf(s, t), m, m') && !PcOf(s', t).Idle?
    ensures Answers(call, s', PcOf(s', t), m, m')
  {}

  /** Element x at most changes, and keeps its key; thread u at most moves. */
  ghost predicate KeepsKeys(s: State, u: Tid, x: Elm, s': State) {
    && (s'.els == s.els || (x in s'.els && s'.els == s.els[x := s'.els[x]]))
    && (x in s.els ==> x in s'.els && s'.els[x].key == s.els[x].key)
    && forall t :: t != u ==> PcOf(s', t) == PcOf(s, t)
  }

  lemma HashKeeps(slot: Key -> Slot, s: State, u: Tid, x: Elm, step: nat, s': State)
    requires x in s.els && AdvancesHash(slot, s, u, x, step, s')
    ensures KeepsKeys(s, u, x, s')
  {
    if step == 2 {
      assert s'.els == s.els[x := s.els[x].(linked := true)];
    } else {
      HashLinks(slot, s, u, x, step, s');
    }
  }

  lemma UnhashKeeps(slot: Key -> Slot, s: State, u: Tid, x: Elm, step: nat, s': State)
    requires x in s.els && AdvancesUnhash(slot, s, u, x, step, s')
    ensures KeepsKeys(s, u, x, s')
  {
    if step == 1 {
      assert s'.els == s.els[x := s.els[x].(linked := false)];
    } else {
      UnhashLinks(slot, s, u, x, step, s');
    }
  }

  lemma LookupKeeps(slot: Key -> Slot, s: State, u: Tid, k: Key, x: Elm, step: nat, s': State)
    requires AdvancesLookup(slot, s, u, k, x, step, s')
    ensures KeepsKeys(s, u, x, s')
  {
    if step == 1 {
      var to :| s' == At(s, u, to);
    } else if step == 2 {
      assert s'.els == s.els[x := s'.els[x]];
    }
  }

  /** Other threads' steps leave a thread where it is, and keys as they are. */
  lemma AdvanceKeeps(slot: Key -> Slot, s: State, u: Tid, s': State, t: Tid, e: Elm)
    requires Advances(slot, s, u, s') && u != t
    ensures PcOf(s', t) == PcOf(s, t) && (e in s.els ==> e in s'.els && s'.els[e].key == s.els[e].key)
  {
    match PcOf(s, u)
    case Hash(x, step) => HashKeeps(slot, s, u, x, step, s');
    case Unhash(x, step) => UnhashKeeps(slot, s, u, x, step, s');
    case Lookup(k, x, step) => LookupKeeps(slot, s, u, k, x, step, s');
    case Unlock(_, _) =>
    case Free(_) =>
  }

  lemma BeginKeeps(s: State, u: Tid, a: Action, s': State, t: Tid, e: Elm)
    requires !a.Advance? && Begins(s, u, a, s') && u != t
    ensures PcOf(s', t) == PcOf(s, t) && (e in s.els && e in s.busy ==> e in s'.els && s'.els[e].key == s.els[e].key)
  {}

  lemma SameStanding(s: State, pc: Pc, s': State, call: Action)
    requires pc.Hash? && pc.e in s.els ==> pc.e in s'.els && s'.els[pc.e].key == s.els[pc.e].key
    ensures Undecided(call, s, pc) ==> Undecided(call, s', pc)
    ensures forall m, m' :: Answers(call, s, pc, m, m') ==> Answers(call, s', pc, m, m')
  {}

  /** Steps of others change neither. */
  lemma OthersStep(slot: Key -> Slot, s: State, u: Tid, a: Action, s': State, t: Tid, call: Action)
    requires Inv(slot, s) && Next(slot, s, u, a, s') && u != t
    ensures PcOf(s', t) == PcOf(s, t)
    ensures Undecided(call, s, PcOf(s, t)) ==> Undecided(call, s', PcOf(s', t))
    ensures forall m, m' :: Answers(call, s, PcOf(s, t), m, m') ==> Answers(call, s', PcOf(s', t), m, m')
  {
    var pc := PcOf(s, t);
    var e := if pc.Hash? then pc.e else 0;
    assert ThreadOk(slot, s, t);
    if a.Advance? {
      AdvanceKeeps(slot, s, u, s', t, e);
    } else {
      BeginKeeps(s, u, a, s', t, e);
    }
    SameStanding(s, pc, s', call);
  }

  /** Where the call of t that begins at b stands at l: undecided, or decided at one step of its own since. */
  ghost predicate Placed(states: seq<State>, moves: seq<(Tid, Action)>, maps: seq<map<Key, Elm>>, t: Tid, call: Action, b: nat, l: nat)
    requires l < |states| == |moves| + 1 == |maps|
  {
    var s := states[l];
    || Undecided(call, s, PcOf(s, t))
    || exists p :: b < p < l && moves[p] == (t, Advance) && Answers(call, s, PcOf(s, t), maps[p], maps[p + 1])
  }

  lemma PlacedNext(slot: Key -> Slot, states: seq<State>, moves: seq<(Tid, Action)>, maps: seq<map<Key, Elm>>, t: Tid, call: Action, b: nat, l: nat)
    requires Behaviour(slot, states, moves) && History(states, moves, maps, |moves|) && b < l < |moves|
    requires Placed(states, moves, maps, t, call, b, l) && !PcOf(states[l], t).Idle? && !PcOf(states[l + 1], t).Idle?
    ensures Placed(states, moves, maps, t, call, b, l + 1)
  {
    var s, s' := states[l], states[l + 1];
    var (u, a) := moves[l];
    InvAlways(slot, states, moves, l);
    assert StepAt(slot, states, moves, l) && EffectAt(states, moves, maps, l) && IsTable(s, maps[l]);
    if u != t { OthersStep(slot, s, u, a, s', t, call); }
    if Undecided(call, s, PcOf(s, t)) {
      if u == t { Decides(slot, s, t, s', maps[l], call); }
    } else {
      var p :| b < p < l && moves[p] == (t, Advance) && Answers(call, s, PcOf(s, t), maps[p], maps[p + 1]);
      if u == t { StaysDecided(slot, s, t, s', call, maps[p], maps[p + 1]); }
      assert Answers(call, s', PcOf(s', t), maps[p], maps[p + 1]);
    }
  }

  /** A call, from the move that begins it to the step that returns. */
  ghost predicate Call(states: seq<State>, moves: seq<(Tid, Action)>, t: Tid, call: Action, b: nat, r: nat) {
    && (call.BeginHash? || call.BeginUnhash? || call.BeginLookup?)
    && b < r < |moves| == |states| - 1 && moves[b] == (t, call) && moves[r].0 == t
    && (forall l :: b < l <= r ==> !PcOf(states[l], t).Idle?) && PcOf(states[r + 1], t).Idle?
  }

  lemma Begun(slot: Key -> Slot, s: State, t: Tid, call: Action, s': State)
    requires Next(slot, s, t, call, s') && (call.BeginHash? || call.BeginUnhash? || call.BeginLookup?) && !PcOf(s', t).Idle?
    ensures Undecided(call, s', PcOf(s', t))
  {}

  lemma BegunAt(slot: Key -> Slot, states: seq<State>, moves: seq<(Tid, Action)>, t: Tid, call: Action, b: nat)
    requires Behaviour(slot, states, moves) && b < |moves| && moves[b] == (t, call)
    requires (call.BeginHash? || call.BeginUnhash? || call.BeginLookup?) && !PcOf(states[b + 1], t).Idle?
    ensures Undecided(call, states[b + 1], PcOf(states[b + 1], t))
  {
    assert StepAt(slot, states, moves, b);
    Begun(slot, states[b], t, call, states[b + 1]);
  }

  lemma {:induction false} PlacedUpTo(slot: Key -> Slot, states: seq<State>, moves: seq<(Tid, Action)>, maps: seq<map<Key, Elm>>, t: Tid, call: Action, b: nat, r: nat, l: nat)
    requires Behaviour(slot, states, moves) && History(states, moves, maps, |moves|) && Call(states, moves, t, call, b, r) && b < l <= r
    ensures Placed(states, moves, maps, t, call, b, l)
  {
    if l == b + 1 {
      BegunAt(slot, states, moves, t, call, b);
    } else {
      PlacedUpTo(slot, states, moves, maps, t, call, b, r, l - 1);
      PlacedNext(slot, states, moves, maps, t, call, b, l - 1);
    }
  }

  /** The call answers what the operation on the map answered at one step of its own between begin and return. */
  ghost predicate Served(states: seq<State>, moves: seq<(Tid, Action)>, maps: seq<map<Key, Elm>>, t: Tid, call: Action, b: nat, r: nat)
    requires r <= |moves| < |states| && |states| == |maps|
  {
    var pc := PcOf(states[r], t);
    && (pc.Unlock? || (pc.Lookup? && pc.step in {3, 4}))
    && exists p :: b < p < r && moves[p] == (t, Advance) && Answers(call, states[r], pc, maps[p], maps[p + 1])
  }

  lemma CallServed(slot: Key -> Slot, states: seq<State>, moves: seq<(Tid, Action)>, maps: seq<map<Key, Elm>>, t: Tid, call: Action, b: nat, r: nat)
    requires Behaviour(slot, states, moves) && History(states, moves, maps, |moves|) && Call(states, moves, t, call, b, r)
    ensures Served(states, moves, maps, t, call, b, r)
  {
    PlacedUpTo(slot, states, moves, maps, t, call, b, r, r);
    assert StepAt(slot, states, moves, r);
  }

  /**
   In every interleaving there is one sequence of maps, from the empty one on, that changes only by
   the insertions and removals of calls, and at which every call that returns has been served.
   */
  lemma Linearizable(slot: Key -> Slot, states: seq<State>, moves: seq<(Tid, Action)>) returns (maps: seq<map<Key, Elm>>)
    requires Behaviour(slot, states, moves)
    ensures History(states, moves, maps, |moves|)
    ensures forall t, call, b: nat, r: nat :: Call(states, moves, t, call, b, r) ==> Served(states, moves, maps, t, call, b, r)
  {
    maps := HistoryExists(slot, states, moves, |moves|);
    forall t, call, b: nat, r: nat | Call(states, moves, t, call, b, r)
      ensures Served(states, moves, maps, t, call, b, r)
    {
      CallServed(slot, states, moves, maps, t, call, b, r);
    }
  }
}
