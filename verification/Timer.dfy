/**
 The timer queue of src/timer.c on the repaired heap. A timer is a heap item whose body holds
 the deadline and the interval; the time of day is an argument, and raising the signal that
 wakes another thread has no effect here.
 */
module Timer {
  import opened HeapSpec
  import opened Heap
  import Time

  datatype TimerBody = TimerBody(timeout: Time.Stamp, expires: int)

  type Timer = Item<TimerBody>

  const NSEC: nat := Time.NSEC_PER_SEC

  /** heap_cmp. */
  predicate Earlier(a: TimerBody, b: TimerBody) {
    Time.Lt(a.timeout, b.timeout)
  }

  lemma EarlierIsOrder()
    ensures StrictWeakOrder(Earlier)
  {}

  function Deadline(t: Timer): int
    reads t
  {
    Time.Total(t.body.timeout, NSEC)
  }

  class TimerQueue {
    var queue: Heap<TimerBody>
    /** The timers that timer_init has prepared for this queue. */
    ghost var known: set<Timer>

    ghost predicate Valid()
      reads this, queue, queue.items, queue.Stored(), known
    {
      && queue.Valid() && queue.lt == Earlier && queue.Stored() <= known
      && (forall t :: t in known ==> (t.active <==> t in queue.Stored()) && (!t.active ==> t.index == 0))
      && (forall t :: t in queue.Stored() ==> Time.Normal(t.body.timeout, NSEC))
    }

    /** timer_queue_init. */
    constructor ()
      ensures Valid() && queue.Stored() == {} && known == {} && fresh(queue) && fresh(queue.items) && queue.maxSize == DEFAULT_SIZE
    {
      queue := new Heap(0, Earlier);
      known := {};
      new;
      EarlierIsOrder();
      assert |queue.Contents()| == queue.size == 0 && queue.Indexed();
    }

    /** timer_init. */
    method TimerInit(t: Timer)
      requires Valid() && t !in queue.Stored()
      modifies this`known, t
      ensures Valid() && known == old(known) + {t} && queue.Stored() == old(queue.Stored())
      ensures !t.active && t.body == TimerBody(Time.Stamp(0, 0), 0)
    {
      t.index, t.active, t.body := 0, false, TimerBody(Time.Stamp(0, 0), 0);
      known := known + {t};
    }

    /** timer_del. It removes the timer at the index the given one claims: the right one exactly if it is scheduled. */
    method TimerDel(t: Timer)
      requires Valid() && t in known
      modifies queue, queue.items, queue.Stored()`index, queue.Stored()`active
      ensures Valid() && queue == old(queue) && queue.items == old(queue.items)
      ensures old(t.active) ==> queue.Stored() == old(queue.Stored()) - {t} && queue.size == old(queue.size) - 1
      ensures !old(t.active) ==> queue.Stored() == old(queue.Stored()) - (if old(queue.size) == 0 then {} else {old(queue.items[0])})
    {
      var index := t.index;
      if t.active {
        var k :| 0 <= k < queue.size && queue.items[k] == t;
        assert queue.IndexedAt(k);
      }
      var _ := queue.Remove(index);
    }

    /** The second half of timer_mod: the deadline is set and the timer put into the heap. */
    method Schedule(t: Timer, now: Time.Stamp, alloc: bool) returns (ret: int)
      requires Valid() && t in known && !t.active && Time.Normal(now, NSEC)
      modifies queue, queue.items, queue.Stored()`index, t
      ensures Valid() && queue == old(queue) && (queue.items == old(queue.items) || fresh(queue.items))
      ensures ret == if alloc || old(queue.size) < old(queue.maxSize) then 1 else -1
      ensures queue.Stored() == if ret == 1 then old(queue.Stored()) + {t} else old(queue.Stored())
      ensures t.body.expires == old(t.body.expires)
      ensures Deadline(t) == Time.Total(now, NSEC) + t.body.expires * 1000
    {
      t.body := t.body.(timeout := Time.AddFrac(now, t.body.expires * 1000, NSEC));
      Time.AddFracExact(now, t.body.expires * 1000, NSEC);
      assert Valid();
      ret := queue.Insert(t, alloc);
      ret := if ret != 0 then -1 else 1;
    }

    /** timer_mod. The new interval is stored only if the timer was scheduled; otherwise its own one is used. */
    method TimerMod(t: Timer, expires: int, now: Time.Stamp, alloc: bool) returns (ret: int)
      requires Valid() && t in known && Time.Normal(now, NSEC)
      modifies queue, queue.items, queue.Stored()`index, queue.Stored()`active, t
      ensures Valid() && queue == old(queue) && (queue.items == old(queue.items) || fresh(queue.items))
      ensures ret == if alloc || old(queue.size) - (if old(t.active) then 1 else 0) < old(queue.maxSize) then 1 else -1
      ensures queue.Stored() == if ret == 1 then old(queue.Stored()) + {t} else old(queue.Stored()) - {t}
      ensures t.body.expires == if old(t.active) then expires else old(t.body.expires)
      ensures Deadline(t) == Time.Total(now, NSEC) + t.body.expires * 1000
    {
      if t.active {
        TimerDel(t);
        t.body := t.body.(expires := expires);
      }
      ret := Schedule(t, now, alloc);
    }

    /** timer_add. */
    method TimerAdd(t: Timer, now: Time.Stamp, alloc: bool) returns (ret: int)
      requires Valid() && t in known && Time.Normal(now, NSEC)
      modifies queue, queue.items, queue.Stored()`index, queue.Stored()`active, t
      ensures Valid() && queue == old(queue) && (queue.items == old(queue.items) || fresh(queue.items))
      ensures old(t.active) ==> ret == -1 && queue.Stored() == old(queue.Stored()) && t.body == old(t.body)
      ensures !old(t.active) ==>
        && ret == (if alloc || old(queue.size) < old(queue.maxSize) then 1 else -1)
        && t.body.expires == old(t.body.expires) && Deadline(t) == Time.Total(now, NSEC) + t.body.expires * 1000
        && queue.Stored() == if ret == 1 then old(queue.Stored()) + {t} else old(queue.Stored())
    {
      if t.active {
        return -1;
      }
      ret := TimerMod(t, t.body.expires, now, alloc);
    }

    /** No scheduled timer is due before the front one. */
    lemma FrontIsDueFirst()
      requires Valid() && queue.size > 0
      ensures queue.items[0] in queue.Stored()
      ensures forall t :: t in queue.Stored() ==> Deadline(queue.items[0]) <= Deadline(t)
    {
      forall t | t in queue.Stored()
        ensures Deadline(queue.items[0]) <= Deadline(t)
      {
        queue.FrontLeast(t);
        assert queue.items[0] in queue.Stored();
        Time.LtIsOrder(t.body.timeout, queue.items[0].body.timeout, NSEC);
      }
    }

    /** timer_next_timeout_timespec: the time left until the least deadline, not below zero. */
    method TimerNextTimeout(now: Time.Stamp) returns (ret: int, timeout: Time.Stamp)
      requires Valid() && Time.Normal(now, NSEC)
      ensures ret == if queue.Stored() == {} then 0 else 1
      ensures ret == 1 ==> Time.Normal(timeout, NSEC) && queue.items.Length > 0 && queue.items[0] in queue.Stored()
      ensures ret == 1 ==> forall t :: t in queue.Stored() ==> Deadline(queue.items[0]) <= Deadline(t)
      ensures ret == 1 ==>
        var left := Deadline(queue.items[0]) - Time.Total(now, NSEC);
        Time.Total(timeout, NSEC) == if left < 0 then 0 else left
    {
      timeout := Time.Stamp(0, 0);
      if queue.size == 0 {
        return 0, timeout;
      }
      FrontIsDueFirst();
      var t := queue.items[0];
      timeout := Time.Sub(t.body.timeout, now, NSEC);
      Time.AddSubExact(t.body.timeout, now, NSEC);
      Time.LtIsOrder(timeout, now, NSEC);
      if timeout.sec < 0 {
        timeout := Time.Stamp(0, 0);
      }
      ret := 1;
    }

    /** timer_handle_timeout up to the callback, which belongs to the caller. */
    method TimerHandleTimeout() returns (ret: int, t: Item?<TimerBody>)
      requires Valid()
      modifies queue, queue.items, queue.Stored()`index, queue.Stored()`active
      ensures Valid() && queue == old(queue) && queue.items == old(queue.items)
      ensures ret == if old(queue.Stored()) == {} then -1 else 0
      ensures ret == -1 ==> t == null && queue.Stored() == {}
      ensures ret == 0 ==> t in old(queue.Stored()) && !t.active && queue.Stored() == old(queue.Stored()) - {t}
      ensures ret == 0 ==> forall u :: u in old(queue.Stored()) ==> Deadline(t) <= Deadline(u)
    {
      if queue.size == 0 {
        return -1, null;
      }
      FrontIsDueFirst();
      ghost var front := queue.items[0];
      t := queue.Remove(0);
      assert t == front;
      ret := 0;
    }

    /** timer_list_destroy hands out every timer once, in the order of the deadlines. */
    method TimerListDestroy() returns (destroyed: seq<Timer>)
      requires Valid()
      modifies queue, queue.items, queue.Stored()`index, queue.Stored()`active
      ensures Valid() && queue.Stored() == {}
      ensures forall i, j :: 0 <= i < j < |destroyed| ==> destroyed[i] != destroyed[j] && Deadline(destroyed[i]) <= Deadline(destroyed[j])
      ensures (set t | t in destroyed) == old(queue.Stored())
    {
      destroyed := [];
      while queue.size > 0
        invariant Valid() && queue == old(queue) && queue.items == old(queue.items)
        invariant (set t | t in destroyed) + queue.Stored() == old(queue.Stored())
        invariant forall t :: t in destroyed ==> t !in queue.Stored()
        invariant forall i, j :: 0 <= i < j < |destroyed| ==>
          destroyed[i] != destroyed[j] && Deadline(destroyed[i]) <= Deadline(destroyed[j])
        invariant forall t, u :: t in destroyed && u in queue.Stored() ==> Deadline(t) <= Deadline(u)
        decreases queue.size
      {
        FrontIsDueFirst();
        var t := queue.Remove(0);
        destroyed := destroyed + [t];
      }
    }
  }
}
