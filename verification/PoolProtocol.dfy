/**
 Threads on the buffer pool of src/pbuf.c. A step is a mutex operation, an atomic operation, or
 one piece of work under the mutex; threads interleave freely. A thread gives up only references
 it holds, and copies only into a buffer that is its own alone.
 */
module PoolProtocol {
  import opened Basics

  type Tid = nat
  type Entry = nat

  const MIN_POOL_SIZE: nat := 20

  /**
   Where a thread stands.
     Alloc:  0 wants the mutex; 1 has it; 2 has moved `e` to the use list
     Return: 0 the count of `e` has reached zero, wants the mutex; 1 has it
     Unlock: done but for the mutex; pbuf_alloc then returns the entry in `got`, or NULL
     Copy:   the whole of another buffer, its count included, was copied over `e`
   */
  datatype Pc = Idle | Alloc(e: Entry, step: nat) | Return(e: Entry, step: nat) | Unlock(got: set<Entry>) | Copy(e: Entry)

  /** `handedOut` and `returned` count how often an entry left the free list and came back. */
  datatype Buf = Buf(refcount: int, holders: multiset<Tid>, handedOut: nat, returned: nat)

  /** Absent threads are idle. `owner` is bookkeeping: the one thread that is setting up, copying over or returning an entry. */
  datatype State = State(
    bufs: map<Entry, Buf>, freeList: seq<Entry>, useList: seq<Entry>,
    mutex: set<Tid>, pcs: map<Tid, Pc>, owner: map<Entry, Tid>)

  datatype Action = BeginAlloc | Hold(e: Entry) | Pass(e: Entry, to: Tid) | Free(e: Entry) | CopyOver(e: Entry, src: Entry) | Advance

  function PcOf(s: State, t: Tid): Pc {
    if t in s.pcs then s.pcs[t] else Idle
  }

  function At(s: State, t: Tid, pc: Pc): State {
    s.(pcs := s.pcs[t := pc])
  }

  function Upd(s: State, e: Entry, b: Buf): State {
    s.(bufs := s.bufs[e := b])
  }

  /** pbuf_pool_init: all counts are zero, and all entries are free, in order. */
  function Start(poolSize: nat): State {
    var n := if poolSize < MIN_POOL_SIZE then MIN_POOL_SIZE else poolSize;
    State(Unused(n), seq(n, i => i), [], {}, map[], map[])
  }

  function Unused(n: nat): (m: map<Entry, Buf>)
    ensures forall e: Entry :: e in m <==> e < n
    ensures forall e: Entry :: e in m ==> m[e] == Buf(0, multiset{}, 0, 0)
    ensures |m| == n
  {
    if n == 0 then map[] else Unused(n - 1)[n - 1 := Buf(0, multiset{}, 0, 0)]
  }

  function Less(s: seq<Entry>, e: Entry): seq<Entry> {
    if s == [] then [] else if s[0] == e then s[1..] else [s[0]] + Less(s[1..], e)
  }

  ghost predicate Next(s: State, t: Tid, a: Action, s': State) {
    match a
    case Advance => Advances(s, t, s')
    case BeginAlloc => PcOf(s, t).Idle? && s' == At(s, t, Alloc(0, 0))
    case Hold(e) =>
      && PcOf(s, t).Idle? && e in s.bufs && t in s.bufs[e].holders
      && s' == Upd(s, e, s.bufs[e].(refcount := s.bufs[e].refcount + 1, holders := s.bufs[e].holders + multiset{t}))
    case Pass(e, to) =>
      && PcOf(s, t).Idle? && e in s.bufs && t in s.bufs[e].holders
      && s' == Upd(s, e, s.bufs[e].(holders := s.bufs[e].holders - multiset{t} + multiset{to}))
    case Free(e) =>
      && PcOf(s, t).Idle? && e in s.bufs && t in s.bufs[e].holders
      && var s1 := Upd(s, e, s.bufs[e].(refcount := s.bufs[e].refcount - 1, holders := s.bufs[e].holders - multiset{t}));
         s' == if s.bufs[e].refcount == 1 then At(s1, t, Return(e, 0)).(owner := s.owner[e := t]) else s1
    case CopyOver(e, src) =>
      && PcOf(s, t).Idle? && e in s.bufs && src in s.bufs && src != e && s.bufs[e].holders == multiset{t} && t in s.bufs[src].holders
      && s' == At(Upd(s, e, s.bufs[e].(refcount := s.bufs[src].refcount)), t, Copy(e)).(owner := s.owner[e := t])
  }

  ghost predicate Advances(s: State, t: Tid, s': State) {
    match PcOf(s, t)
    case Idle => false
    case Alloc(e, step) =>
      if step == 0 then s.mutex == {} && s' == At(s, t, Alloc(0, 1)).(mutex := {t})
      else if step == 1 then
        if s.freeList == [] then s' == At(s, t, Unlock({}))
        else
          var f := s.freeList[0];
          && f in s.bufs
          && s' == At(Upd(s, f, s.bufs[f].(handedOut := s.bufs[f].handedOut + 1)), t, Alloc(f, 2))
                   .(freeList := s.freeList[1..], useList := [f] + s.useList, owner := s.owner[f := t])
      else if step == 2 then
        && e in s.bufs
        && s' == At(Upd(s, e, s.bufs[e].(refcount := 1, holders := multiset{t})), t, Unlock({e})).(owner := s.owner - {e})
      else false
    case Unlock(_) => s' == At(s, t, Idle).(mutex := {})
    case Return(e, step) =>
      if step == 0 then s.mutex == {} && s' == At(s, t, Return(e, 1)).(mutex := {t})
      else
        && e in s.bufs
        && s' == At(Upd(s, e, s.bufs[e].(returned := s.bufs[e].returned + 1)), t, Unlock({}))
                 .(freeList := [e] + s.freeList, useList := Less(s.useList, e), owner := s.owner - {e})
    case Copy(e) => e in s.bufs && s' == At(Upd(s, e, s.bufs[e].(refcount := 1)), t, Idle).(owner := s.owner - {e})
  }

  // ---------- The invariant ----------

  /** Every entry is on exactly one of the two lists, once. */
  ghost predicate Partition(s: State) {
    && Distinct(s.freeList) && Distinct(s.useList)
    && (forall e :: e in s.bufs <==> e in s.freeList || e in s.useList)
    && (forall e :: e in s.freeList ==> e !in s.useList)
  }

  /** An entry nobody is working on: counted right and handed out, or unused and free. */
  ghost predicate BufOk(s: State, e: Entry)
    requires e in s.bufs
  {
    var b := s.bufs[e];
    && b.handedOut == b.returned + (if e in s.useList then 1 else 0)
    && (e in s.freeList ==> b.refcount == 0 && b.holders == multiset{} && e !in s.owner)
    && (e in s.useList && e !in s.owner ==> b.refcount == |b.holders| > 0)
  }

  ghost predicate Working(pc: Pc, e: Entry) {
    (pc.Alloc? && pc.step == 2 && pc.e == e) || (pc.Return? && pc.e == e) || (pc.Copy? && pc.e == e)
  }

  ghost predicate ThreadOk(s: State, t: Tid) {
    var pc := PcOf(s, t);
    && (forall e :: Working(pc, e) ==> e in s.bufs && e in s.useList && e in s.owner && s.owner[e] == t)
    && ((pc.Alloc? && pc.step == 2) || pc.Return? ==> s.bufs[pc.e].refcount == 0 && s.bufs[pc.e].holders == multiset{})
    && (pc.Copy? ==> s.bufs[pc.e].holders == multiset{t})
    && (((pc.Alloc? || pc.Return?) && pc.step >= 1) || pc.Unlock? ==> s.mutex == {t})
    && (pc.Alloc? ==> pc.step <= 2) && (pc.Return? ==> pc.step <= 1)
  }

  ghost predicate Inv(s: State) {
    && Partition(s)
    && (forall e :: e in s.bufs ==> BufOk(s, e))
    && (forall t :: ThreadOk(s, t))
    && (forall e :: e in s.owner ==> Working(PcOf(s, s.owner[e]), e))
  }

  lemma StartPartition(n: nat)
    ensures Partition(Start(n))
  {
    var s := Start(n);
    forall e
      ensures e in s.bufs <==> e in s.freeList || e in s.useList
    {
      if e in s.bufs { assert s.freeList[e] == e; }
    }
  }

  lemma InvStart(n: nat)
    ensures Inv(Start(n))
  {
    var s := Start(n);
    StartPartition(n);
    assert s.useList == [] && s.owner == map[];
    assert forall e :: e in s.bufs ==> s.bufs[e] == Buf(0, multiset{}, 0, 0) && BufOk(s, e);
    assert forall t :: PcOf(s, t) == Idle;
  }

  ghost predicate Alike(s: State, s': State, x: Entry)
    requires s'.bufs.Keys == s.bufs.Keys
  {
    && (x in s.bufs ==> s'.bufs[x] == s.bufs[x])
    && (x in s'.freeList <==> x in s.freeList) && (x in s'.useList <==> x in s.useList)
    && (x in s'.owner <==> x in s.owner) && (x in s.owner ==> s'.owner[x] == s.owner[x])
  }

  /** What a step of thread t, working on entry e, may mean to anyone else. */
  ghost predicate Local(s: State, t: Tid, e: Entry, s': State) {
    && (forall u :: u != t ==> PcOf(s', u) == PcOf(s, u))
    && s'.bufs.Keys == s.bufs.Keys
    && (forall x :: x != e ==> Alike(s, s', x) && !Working(PcOf(s, t), x))
    && (e in s.owner && s.owner[e] != t ==>
      && e in s'.owner && s'.owner[e] == s.owner[e] && (e in s.bufs ==> s'.bufs[e] == s.bufs[e])
      && (e in s'.freeList <==> e in s.freeList) && (e in s'.useList <==> e in s.useList))
    && (forall u :: u != t && s.mutex == {u} ==> s'.mutex == {u})
  }

  /** What the step must see to itself. */
  ghost predicate Own(s: State, t: Tid, e: Entry, s': State) {
    && Partition(s') && ThreadOk(s', t)
    && (e in s'.bufs ==> BufOk(s', e))
    && (e in s'.owner ==> Working(PcOf(s', s'.owner[e]), e))
  }

  lemma StepThread(s: State, t: Tid, e: Entry, s': State, u: Tid)
    requires ThreadOk(s, u) && Local(s, t, e, s') && u != t
    ensures ThreadOk(s', u)
  {
    var pc := PcOf(s, u);
    if pc.Alloc? || pc.Return? || pc.Copy? {
      assert pc.e != e ==> Alike(s, s', pc.e);
    }
  }

  lemma Step(s: State, t: Tid, e: Entry, s': State)
    requires Inv(s) && Local(s, t, e, s') && Own(s, t, e, s')
    ensures Inv(s')
  {
    forall u
      ensures ThreadOk(s', u)
    {
      if u != t { StepThread(s, t, e, s', u); }
    }
    forall x
      ensures x in s'.bufs ==> BufOk(s', x)
      ensures x in s'.owner ==> Working(PcOf(s', s'.owner[x]), x)
    {
      assert (x != e ==> Alike(s, s', x)) && (x in s.bufs ==> BufOk(s, x));
    }
  }

  /** All that one case below needs to know. */
  ghost predicate Known(s: State, t: Tid, e: Entry) {
    Partition(s) && ThreadOk(s, t) && (e in s.bufs ==> BufOk(s, e)) && (e in s.owner ==> Working(PcOf(s, s.owner[e]), e))
  }

  /** Who holds an entry may rely on nobody else working on it. */
  lemma HeldIsUnowned(s: State, t: Tid, e: Entry)
    requires Inv(s) && PcOf(s, t).Idle? && e in s.bufs && t in s.bufs[e].holders
    ensures e !in s.owner && e in s.useList && s.bufs[e].refcount == |s.bufs[e].holders| > 0
    ensures |s.bufs[e].holders - multiset{t}| == |s.bufs[e].holders| - 1
  {
    assert BufOk(s, e);
    var u := if e in s.owner then s.owner[e] else t;
    assert ThreadOk(s, u);
  }

  lemma OnReference(s: State, t: Tid, a: Action, s': State)
    requires (a.Hold? || a.Pass?) && Known(s, t, a.e) && Next(s, t, a, s')
    requires a.e !in s.owner && |s.bufs[a.e].holders - multiset{t}| == |s.bufs[a.e].holders| - 1
    ensures Local(s, t, a.e, s') && Own(s, t, a.e, s')
  {}

  lemma OnFree(s: State, t: Tid, a: Action, s': State)
    requires a.Free? && Known(s, t, a.e) && Next(s, t, a, s')
    requires a.e !in s.owner && |s.bufs[a.e].holders - multiset{t}| == |s.bufs[a.e].holders| - 1
    ensures Local(s, t, a.e, s') && Own(s, t, a.e, s')
  {
    assert s'.freeList == s.freeList && s'.useList == s.useList && s'.mutex == s.mutex;
  }

  lemma OnCopyOver(s: State, t: Tid, a: Action, s': State)
    requires a.CopyOver? && Known(s, t, a.e) && a.e !in s.owner && Next(s, t, a, s')
    ensures Local(s, t, a.e, s') && Own(s, t, a.e, s')
  {}

  lemma OnBegin(s: State, t: Tid, s': State)
    requires Known(s, t, 0) && Next(s, t, BeginAlloc, s')
    ensures Local(s, t, 0, s') && Own(s, t, 0, s')
  {}

  lemma OnMutex(s: State, t: Tid, e: Entry, s': State)
    requires Known(s, t, e) && Advances(s, t, s')
    requires PcOf(s, t).Unlock? || (PcOf(s, t).Alloc? && (PcOf(s, t).step == 0 || (PcOf(s, t).step == 1 && s.freeList == [])))
    ensures Local(s, t, e, s') && Own(s, t, e, s')
  {}

  lemma MovedPartition(s: State, e: Entry, s': State)
    requires Partition(s) && s.freeList == [e] + s'.freeList && s'.useList == [e] + s.useList && s'.bufs.Keys == s.bufs.Keys
    ensures Partition(s')
  {
    assert s.freeList[0] == e && forall i :: 0 <= i < |s'.freeList| ==> s'.freeList[i] == s.freeList[i + 1];
    assert forall x :: x in s.freeList <==> x == e || x in s'.freeList;
    assert forall x :: x in s'.useList <==> x == e || x in s.useList;
    assert forall x :: (x in s'.bufs <==> x in s'.bufs.Keys) && (x in s.bufs <==> x in s.bufs.Keys);
    assert e in s.freeList && e !in s.useList && e !in s'.freeList;
  }

  lemma AllocMoveLocal(s: State, t: Tid, e: Entry, s': State)
    requires ThreadOk(s, t) && PcOf(s, t).Alloc? && PcOf(s, t).step == 1 && Advances(s, t, s')
    requires s.freeList != [] && e == s.freeList[0] && e !in s.owner
    ensures Local(s, t, e, s')
  {
    assert s.freeList == [e] + s'.freeList && s'.useList == [e] + s.useList;
  }

  lemma OnAllocMove(s: State, t: Tid, e: Entry, s': State)
    requires Known(s, t, e) && PcOf(s, t).Alloc? && PcOf(s, t).step == 1 && Advances(s, t, s')
    requires s.freeList != [] && e == s.freeList[0]
    ensures Local(s, t, e, s') && Own(s, t, e, s')
  {
    assert s.freeList == [e] + s'.freeList && s'.useList == [e] + s.useList;
    MovedPartition(s, e, s');
    AllocMoveLocal(s, t, e, s');
  }

  lemma OnAllocInit(s: State, t: Tid, e: Entry, s': State)
    requires Known(s, t, e) && PcOf(s, t) == Alloc(e, 2) && Advances(s, t, s')
    ensures Local(s, t, e, s') && Own(s, t, e, s')
  {}

  lemma {:induction false} LessIs(s: seq<Entry>, e: Entry)
    requires Distinct(s)
    ensures Distinct(Less(s, e)) && forall x :: x in Less(s, e) <==> x in s && x != e
    ensures |Less(s, e)| == |s| - if e in s then 1 else 0
  {
    if s != [] {
      var r := s[1..];
      assert s == [s[0]] + r && forall i :: 0 <= i < |r| ==> r[i] == s[i + 1];
      assert s[0] !in r;
      if s[0] != e {
        LessIs(r, e);
        var l := Less(r, e);
        assert Less(s, e) == [s[0]] + l && s[0] !in l;
      }
    }
  }

  lemma OnReturnLock(s: State, t: Tid, e: Entry, s': State)
    requires Known(s, t, e) && PcOf(s, t) == Return(e, 0) && Advances(s, t, s')
    ensures Local(s, t, e, s') && Own(s, t, e, s')
  {}

  lemma OnReturn(s: State, t: Tid, e: Entry, s': State)
    requires Known(s, t, e) && PcOf(s, t) == Return(e, 1) && Advances(s, t, s')
    ensures Local(s, t, e, s') && Own(s, t, e, s')
  {
    LessIs(s.useList, e);
  }

  lemma OnCopy(s: State, t: Tid, e: Entry, s': State)
    requires Known(s, t, e) && PcOf(s, t) == Copy(e) && Advances(s, t, s')
    ensures Local(s, t, e, s') && Own(s, t, e, s')
  {}

  // ---------- Every interleaving ----------

  /** Move i of a schedule. */
  ghost predicate StepAt(states: seq<State>, moves: seq<(Tid, Action)>, i: nat)
    requires |states| == |moves| + 1 && i < |moves|
  {
    Next(states[i], moves[i].0, moves[i].1, states[i + 1])
  }

  ghost predicate Behaviour(poolSize: nat, states: seq<State>, moves: seq<(Tid, Action)>) {
    && |states| == |moves| + 1 && states[0] == Start(poolSize)
    && forall i :: 0 <= i < |moves| ==> StepAt(states, moves, i)
  }

  lemma OnAdvance(s: State, t: Tid, s': State)
    requires Inv(s) && Advances(s, t, s')
    ensures Inv(s')
  {
    var pc := PcOf(s, t);
    var e := if pc.Alloc? && pc.step == 1 && s.freeList != [] then s.freeList[0] else if pc.Unlock? then 0 else pc.e;
    assert Known(s, t, e);
    match pc {
      case Alloc(_, step) =>
        if step == 1 && s.freeList != [] { OnAllocMove(s, t, e, s'); }
        else if step == 2 { OnAllocInit(s, t, e, s'); }
        else { OnMutex(s, t, e, s'); }
      case Unlock(_) => OnMutex(s, t, e, s');
      case Return(_, step) => if step == 0 { OnReturnLock(s, t, e, s'); } else { OnReturn(s, t, e, s'); }
      case Copy(_) => OnCopy(s, t, e, s');
    }
    Step(s, t, e, s');
  }

  lemma OnStep(s: State, t: Tid, a: Action, s': State)
    requires Inv(s) && Next(s, t, a, s')
    ensures Inv(s')
  {
    if a.Advance? {
      OnAdvance(s, t, s');
    } else {
      var e := if a.BeginAlloc? then 0 else a.e;
      assert Known(s, t, e);
      if !a.BeginAlloc? { HeldIsUnowned(s, t, e); }
      match a {
        case BeginAlloc => OnBegin(s, t, s');
        case Hold(_) => OnReference(s, t, a, s');
        case Pass(_, _) => OnReference(s, t, a, s');
        case Free(_) => OnFree(s, t, a, s');
        case CopyOver(_, _) => OnCopyOver(s, t, a, s');
      }
      Step(s, t, e, s');
    }
  }

  lemma SameEntries(s: State, t: Tid, a: Action, s': State)
    requires Next(s, t, a, s')
    ensures s'.bufs.Keys == s.bufs.Keys
  {}

  lemma {:induction false} InvAlways(poolSize: nat, states: seq<State>, moves: seq<(Tid, Action)>, i: nat)
    requires Behaviour(poolSize, states, moves) && i < |states|
    ensures Inv(states[i]) && states[i].bufs.Keys == Start(poolSize).bufs.Keys
  {
    if i == 0 {
      InvStart(poolSize);
    } else {
      InvAlways(poolSize, states, moves, i - 1);
      assert StepAt(states, moves, i - 1);
      OnStep(states[i - 1], moves[i - 1].0, moves[i - 1].1, states[i]);
      SameEntries(states[i - 1], moves[i - 1].0, moves[i - 1].1, states[i]);
    }
  }

  ghost function SetOf(s: seq<Entry>): (r: set<Entry>)
    ensures forall e :: e in r <==> e in s
  {
    if s == [] then {} else SetOf(s[1..]) + {s[0]}
  }

  lemma {:induction false} SizeOfSet(s: seq<Entry>)
    requires Distinct(s)
    ensures |SetOf(s)| == |s|
  {
    if s != [] {
      var r := s[1..];
      assert s[0] !in r && Distinct(r);
      SizeOfSet(r);
    }
  }

  lemma ListsFill(s: State)
    requires Partition(s)
    ensures |s.freeList| + |s.useList| == |s.bufs.Keys|
  {
    SizeOfSet(s.freeList);
    SizeOfSet(s.useList);
    var f, u := SetOf(s.freeList), SetOf(s.useList);
    assert f + u == s.bufs.Keys && f !! u;
    assert |f + u| == |f| + |u|;
  }

  /** The two lists together always make up the pool; free entries are unused; nothing is returned twice. */
  lemma PoolIsKept(poolSize: nat, states: seq<State>, moves: seq<(Tid, Action)>, i: nat, e: Entry)
    requires Behaviour(poolSize, states, moves) && i < |states|
    ensures var s := states[i];
      && |s.freeList| + |s.useList| == (if poolSize < MIN_POOL_SIZE then MIN_POOL_SIZE else poolSize)
      && Partition(s)
      && (e in s.bufs ==> s.bufs[e].returned <= s.bufs[e].handedOut <= s.bufs[e].returned + 1)
      && (e in s.freeList ==> s.bufs[e].refcount == 0 && s.bufs[e].holders == multiset{} && s.bufs[e].returned == s.bufs[e].handedOut)
      && (e in s.bufs && e !in s.owner ==> (e in s.freeList <==> s.bufs[e].holders == multiset{}))
      && (e in s.bufs && s.bufs[e].holders != multiset{} ==> e in s.useList && e !in s.freeList)
  {
    InvAlways(poolSize, states, moves, i);
    var s := states[i];
    assert e in s.bufs ==> BufOk(s, e);
    ListsFill(s);
    assert |s.bufs.Keys| == |Start(poolSize).bufs|;
  }

  /** pbuf_alloc hands out an entry that no thread holds, gives its caller the only reference, and fails only when none is free. */
  lemma HandsOutUnused(s: State, t: Tid, s': State)
    requires Inv(s) && PcOf(s, t).Alloc? && PcOf(s, t).step in {1, 2} && Advances(s, t, s')
    ensures PcOf(s, t).step == 1 && s.freeList == [] ==> PcOf(s', t) == Unlock({})
    ensures PcOf(s, t).step == 1 && s.freeList != [] ==>
      PcOf(s', t) == Alloc(s.freeList[0], 2) && s.freeList[0] in s.bufs && s.bufs[s.freeList[0]].holders == multiset{}
    ensures PcOf(s, t).step == 2 ==>
      var e := PcOf(s, t).e;
      e in s.bufs && e in s'.bufs && PcOf(s', t) == Unlock({e}) && s.bufs[e].holders == multiset{} && s'.bufs[e] == s.bufs[e].(refcount := 1, holders := multiset{t})
  {
    assert ThreadOk(s, t);
    if s.freeList != [] { assert BufOk(s, s.freeList[0]); }
  }

  /** Outside pbuf_alloc, pbuf_free and pbuf_copy, the count of an entry is the number of references held. */
  lemma CountsReferences(s: State, e: Entry)
    requires Inv(s) && e in s.bufs && e !in s.owner
    ensures s.bufs[e].refcount == |s.bufs[e].holders|
  {
    assert BufOk(s, e);
  }
}
