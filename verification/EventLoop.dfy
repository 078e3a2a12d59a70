/** The timers of the event loop (src/server.cpp:854-884 and 947-977): the timeout that poll gets
    from the idle list and the TTL heap, and the pass over both after the sleep. */
module EventLoop {
  import opened Keys
  import opened TtlHeap
  import opened PollTimeout
  import IdleList
  import Database

  /** When the first connection of the list has been idle for too long. */
  ghost function IdleDeadline(conns: IdleList.Conns): Option<nat>
    reads conns, IdleList.Elems(conns.ring)
  {
    if |conns.ring| <= 1 then None else Some(conns.ring[1].idle_start + IdleList.K_IDLE_TIMEOUT_MS * 1000)
  }

  /** When the first key expires. */
  function FirstDue(heap: seq<Item>): Option<nat> {
    if heap == [] then None else Some(heap[0].val)
  }

  /** next_timer_ms over both, as poll gets it */
  method NextTimeout(conns: IdleList.Conns, d: Database.Db, now_us: nat) returns (ms: int)
    requires conns.Valid()
    ensures ms == TimeoutMs(IdleDeadline(conns), FirstDue(d.timers.heap), now_us)
    ensures now_us + 10_000_000 <= NO_TIMER && |conns.ring| > 1 ==>
      NotPast(now_us, ms, conns.ring[1].idle_start + 5_000_000)
    ensures now_us + 10_000_000 <= NO_TIMER && d.timers.heap != [] ==> NotPast(now_us, ms, d.timers.heap[0].val)
    ensures |conns.ring| <= 1 && d.timers.heap == [] ==> ms == 10_000
    ensures conns.Valid() == old(conns.Valid())
  {
    NotTooLong(IdleDeadline(conns), FirstDue(d.timers.heap), now_us);
    var next := conns.First();
    var idle := if next == null then None else Some(next.idle_start + IdleList.K_IDLE_TIMEOUT_MS * 1000);
    ms := TimeoutMs(idle, FirstDue(d.timers.heap), now_us);
  }

  /** One of the two deadlines is due. */
  lemma SomeTimerFires(idle: Option<nat>, ttl: Option<nat>, now_us: nat, later: nat)
    requires NextUs(idle, ttl) != NO_TIMER && Wait(NextUs(idle, ttl), now_us) < I32
    requires later >= now_us + 1000 * TimeoutMs(idle, ttl, now_us)
    ensures (idle.Some? && Fires(idle.value, later)) || (ttl.Some? && Fires(ttl.value, later))
  {
    SleepThenFire(idle, ttl, now_us);
    LateStillFires(NextUs(idle, ttl), now_us + 1000 * TimeoutMs(idle, ttl, now_us), later);
    NextIsLeast(idle, ttl);
  }

  /** No connection is closed more than a millisecond before it has been idle for too long. */
  ghost predicate OnlyIdle(closed: seq<IdleList.Node>, now_us: nat)
    reads IdleList.Elems(closed)`idle_start
  {
    forall i :: 0 <= i < |closed| ==>
      closed[i] in IdleList.Elems(closed) && closed[i].idle_start + 5_000_000 < now_us + 1000
  }

  /** No entry goes more than a millisecond before its deadline. */
  ghost predicate OnlyDue(due: map<Entry, nat>, removed: seq<Entry>, now_us: nat) {
    forall e <- removed :: e in due && due[e] < now_us + 1000
  }

  /** process_timers at time `now_us`: the idle connections, then the keys. */
  method ProcessTimers(conns: IdleList.Conns, d: Database.Db, now_us: nat)
    returns (closed: seq<IdleList.Node>, done: bool, removed: seq<Entry>)
    requires conns.Valid() && d.Valid() && conns !in d.db.Repr && IdleList.Elems(conns.ring) !! d.db.Repr
    modifies conns, IdleList.Elems(conns.ring)`prev, IdleList.Elems(conns.ring)`next
    modifies d, d.db.Repr, d.timers`heap, d.entries`heap_idx
    ensures done ==> conns.Valid() && d.Valid() && |removed| <= Database.K_MAX_WORKS + 1
    ensures !done ==>
      !d.db.skipsEmpty && d.Stuck(old(Deadlines(d.timers.heap)), removed, now_us + 1000, old(d.Held()))
    ensures old(IdleDeadline(conns)).Some? && Fires(old(IdleDeadline(conns)).value, now_us) ==>
      |old(conns.ring)| > 1 && closed != [] && closed[0] == old(conns.ring[1])
    ensures OnlyIdle(closed, now_us)
    ensures done && old(d.timers.heap) != [] && Fires(old(d.timers.heap[0].val), now_us) ==> removed != []
    ensures done ==> OnlyDue(old(Deadlines(d.timers.heap)), removed, now_us)
  {
    closed := CloseIdle(conns, now_us);
    done, removed := ExpireKeys(d, now_us);
  }

  /** The first connection goes if it is due. */
  method CloseIdle(conns: IdleList.Conns, now_us: nat) returns (closed: seq<IdleList.Node>)
    requires conns.Valid()
    modifies conns, IdleList.Elems(conns.ring)`prev, IdleList.Elems(conns.ring)`next
    ensures conns.Valid() && IdleList.Elems(conns.ring) <= old(IdleList.Elems(conns.ring))
    ensures old(IdleDeadline(conns)).Some? && Fires(old(IdleDeadline(conns)).value, now_us) ==>
      |old(conns.ring)| > 1 && closed != [] && closed[0] == old(conns.ring[1])
    ensures OnlyIdle(closed, now_us) && IdleList.Elems(closed) <= old(IdleList.Elems(conns.ring))
  {
    closed := conns.ProcessIdle(now_us + 1000);
  }

  /** The first key goes if it is due. */
  method ExpireKeys(d: Database.Db, now_us: nat) returns (done: bool, removed: seq<Entry>)
    requires d.Valid()
    modifies d, d.db.Repr, d.timers`heap, d.entries`heap_idx
    ensures done ==> d.Valid() && |removed| <= Database.K_MAX_WORKS + 1
    ensures !done ==>
      !d.db.skipsEmpty && d.Stuck(old(Deadlines(d.timers.heap)), removed, now_us + 1000, old(d.Held()))
    ensures done && old(d.timers.heap) != [] && Fires(old(d.timers.heap[0].val), now_us) ==> removed != []
    ensures done ==> OnlyDue(old(Deadlines(d.timers.heap)), removed, now_us)
  {
    ghost var heap := d.timers.heap;
    assert d.timers.Valid();
    if heap != [] {
      Database.LeastFirst(heap);
    }
    done, removed := d.ProcessTtl(now_us + 1000);
    if done && removed == [] && heap != [] {
      assert Database.Elems([]) == {} && Deadlines(heap) - {} == Deadlines(heap);
      assert heap[0].val in Deadlines(heap).Values;
    }
  }

  /** Sleeping as long as poll is told to is enough: if the nearest timer is less than 2^31 ms
      away, a pass at any time after the sleep closes a connection or removes a key. */
  method SleepAndPass(conns: IdleList.Conns, d: Database.Db, now_us: nat, oversleep_us: nat)
    returns (closed: seq<IdleList.Node>, done: bool, removed: seq<Entry>)
    requires conns.Valid() && d.Valid() && conns !in d.db.Repr && IdleList.Elems(conns.ring) !! d.db.Repr
    requires var next := NextUs(IdleDeadline(conns), FirstDue(d.timers.heap));
             next != NO_TIMER && Wait(next, now_us) < I32
    modifies conns, IdleList.Elems(conns.ring)`prev, IdleList.Elems(conns.ring)`next
    modifies d, d.db.Repr, d.timers`heap, d.entries`heap_idx
    ensures done ==> conns.Valid() && d.Valid() && (closed != [] || removed != [])
    ensures done || !d.db.skipsEmpty
  {
    ghost var idle, ttl := IdleDeadline(conns), FirstDue(d.timers.heap);
    SleepThenFire(idle, ttl, now_us);
    var ms := NextTimeout(conns, d, now_us);
    SomeTimerFires(idle, ttl, now_us, now_us + 1000 * ms + oversleep_us);
    closed, done, removed := ProcessTimers(conns, d, now_us + 1000 * ms + oversleep_us);
  }
}
