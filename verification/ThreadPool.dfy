/** The thread pool of src/thread_pool.cpp as interleaved steps of workers and producers. Each
    step is one access to the shared state; the mutex and the condition variable follow the
    System Interfaces volume of POSIX.1-2017: a wait releases the mutex and blocks in one step,
    a signal unblocks at least one waiter if there is any, and a waiter may wake for no reason. */
module ThreadPool {
  /** Where a worker stands in src/thread_pool.cpp:9-37. */
  datatype Worker<J> =
    | AtLock                  // about to lock the mutex
    | AtTest                  // about to test the queue, holding the mutex
    | Asleep                  // blocked in pthread_cond_wait
    | Woken                   // unblocked, about to get the mutex back
    | AtTake                  // about to take the front job, holding the mutex
    | AtUnlock(job: J)        // about to unlock
    | Working(job: J)

  /** Where a caller of thread_pool_queue stands in src/thread_pool.cpp:42-55. */
  datatype Producer<J> =
    | Outside
    | WantsLock(job: J)
    | AtPush(job: J)          // holding the mutex, and so until it has unlocked
    | AtSignal
    | Leaving

  datatype Holder = Nobody | ByWorker(w: nat) | ByProducer(p: nat)

  /** `pushed`, `taken` and `finished` are the jobs so far, in the order of those events. */
  datatype Pool<J> = Pool(
    queue: seq<J>, mutex: Holder, workers: seq<Worker<J>>, producers: seq<Producer<J>>,
    pushed: seq<J>, taken: seq<J>, finished: seq<J>)

  datatype Event<J> =
    | Lock(w: nat) | Test(w: nat) | Spurious(w: nat) | Reacquire(w: nat)
    | Take(w: nat) | Unlock(w: nat) | Finish(w: nat)
    | Call(p: nat, job: J) | Enter(p: nat) | Push(p: nat) | Signal(p: nat, woken: set<nat>) | Leave(p: nat)

  /** thread_pool_init, with some number of threads that may queue jobs. */
  function Init<J>(threads: nat, callers: nat): Pool<J> {
    Pool([], Nobody, seq(threads, _ => AtLock), seq(callers, _ => Outside), [], [], [])
  }

  predicate Sleeper<J>(s: Pool<J>, w: nat) {
    w < |s.workers| && s.workers[w].Asleep?
  }

  ghost predicate Enabled<J>(s: Pool<J>, e: Event<J>) {
    match e
    case Lock(w) => w < |s.workers| && s.workers[w].AtLock? && s.mutex.Nobody?
    case Test(w) => w < |s.workers| && s.workers[w].AtTest?
    case Spurious(w) => Sleeper(s, w)
    case Reacquire(w) => w < |s.workers| && s.workers[w].Woken? && s.mutex.Nobody?
    case Take(w) => w < |s.workers| && s.workers[w].AtTake? && s.queue != []
    case Unlock(w) => w < |s.workers| && s.workers[w].AtUnlock?
    case Finish(w) => w < |s.workers| && s.workers[w].Working?
    case Call(p, _) => p < |s.producers| && s.producers[p].Outside?
    case Enter(p) => p < |s.producers| && s.producers[p].WantsLock? && s.mutex.Nobody?
    case Push(p) => p < |s.producers| && s.producers[p].AtPush?
    case Signal(p, woken) =>
      && p < |s.producers| && s.producers[p].AtSignal?
      && (forall w <- woken :: Sleeper(s, w))
      && ((exists w :: Sleeper(s, w)) ==> woken != {})
    case Leave(p) => p < |s.producers| && s.producers[p].Leaving?
  }

  function Wake<J>(ws: seq<Worker<J>>, woken: set<nat>): (r: seq<Worker<J>>)
    ensures |r| == |ws|
  {
    seq(|ws|, i requires 0 <= i < |ws| => if i in woken then Woken else ws[i])
  }

  ghost function Next<J>(s: Pool<J>, e: Event<J>): Pool<J>
    requires Enabled(s, e)
  {
    match e
    case Lock(w) => s.(mutex := ByWorker(w), workers := s.workers[w := AtTest])
    case Test(w) =>
      if s.queue == [] then s.(mutex := Nobody, workers := s.workers[w := Asleep])
      else s.(workers := s.workers[w := AtTake])
    case Spurious(w) => s.(workers := s.workers[w := Woken])
    case Reacquire(w) => s.(mutex := ByWorker(w), workers := s.workers[w := AtTest])
    case Take(w) =>
      s.(queue := s.queue[1..], taken := s.taken + [s.queue[0]], workers := s.workers[w := AtUnlock(s.queue[0])])
    case Unlock(w) => s.(mutex := Nobody, workers := s.workers[w := Working(s.workers[w].job)])
    case Finish(w) => s.(finished := s.finished + [s.workers[w].job], workers := s.workers[w := AtLock])
    case Call(p, job) => s.(producers := s.producers[p := WantsLock(job)])
    case Enter(p) => s.(mutex := ByProducer(p), producers := s.producers[p := AtPush(s.producers[p].job)])
    case Push(p) =>
      var job := s.producers[p].job;
      s.(queue := s.queue + [job], pushed := s.pushed + [job], producers := s.producers[p := AtSignal])
    case Signal(p, woken) => s.(workers := Wake(s.workers, woken), producers := s.producers[p := Leaving])
    case Leave(p) => s.(mutex := Nobody, producers := s.producers[p := Outside])
  }

  // ---- What every step keeps ----

  /** Awake without a job: the worker will look at the queue before it sleeps. */
  predicate Idle<J>(w: Worker<J>) {
    w.AtLock? || w.AtTest? || w.Woken? || w.AtTake?
  }

  function IdleCount<J>(ws: seq<Worker<J>>): nat {
    if ws == [] then 0 else IdleCount(ws[1..]) + if Idle(ws[0]) then 1 else 0
  }

  /** The jobs that workers hold. */
  ghost function JobOf<J>(w: Worker<J>): multiset<J> {
    match w case AtUnlock(job) => multiset{job} case Working(job) => multiset{job} case _ => multiset{}
  }

  ghost function Held<J>(ws: seq<Worker<J>>): multiset<J> {
    if ws == [] then multiset{} else Held(ws[1..]) + JobOf(ws[0])
  }

  /** Exactly the holder of the mutex stands inside the locked region. */
  ghost predicate Exclusive<J>(s: Pool<J>) {
    && (s.mutex.ByWorker? ==> s.mutex.w < |s.workers|) && (s.mutex.ByProducer? ==> s.mutex.p < |s.producers|)
    && (forall w :: 0 <= w < |s.workers| ==>
          (s.mutex == ByWorker(w) <==> s.workers[w].AtTest? || s.workers[w].AtTake? || s.workers[w].AtUnlock?))
    && (forall p :: 0 <= p < |s.producers| ==>
          (s.mutex == ByProducer(p) <==> s.producers[p].AtPush? || s.producers[p].AtSignal? || s.producers[p].Leaving?))
  }

  /** A producer has pushed and not yet signalled. */
  ghost predicate Owing<J>(s: Pool<J>) {
    s.mutex.ByProducer? && s.mutex.p < |s.producers| && s.producers[s.mutex.p].AtSignal?
  }

  /** While a worker sleeps, the awake idle workers are enough for the queue, but for the one
      job that is about to be signalled. */
  ghost predicate NoLostWakeUp<J>(s: Pool<J>) {
    (exists w :: Sleeper(s, w)) ==> IdleCount(s.workers) + (if Owing(s) then 1 else 0) >= |s.queue|
  }

  /** Jobs leave in the order they came, once each, and none is lost. */
  ghost predicate Fifo<J>(s: Pool<J>) {
    && s.pushed == s.taken + s.queue
    && multiset(s.taken) == Held(s.workers) + multiset(s.finished)
  }

  ghost predicate Sound<J>(s: Pool<J>) {
    && Exclusive(s) && NoLostWakeUp(s) && Fifo(s)
    && (forall w :: 0 <= w < |s.workers| && s.workers[w].AtTake? ==> s.queue != [])
  }

  function One(b: bool): nat { if b then 1 else 0 }

  lemma {:induction false} IdleMoves<J>(ws: seq<Worker<J>>, w: nat, to: Worker<J>)
    requires w < |ws|
    ensures IdleCount(ws[w := to]) == IdleCount(ws) - One(Idle(ws[w])) + One(Idle(to))
    decreases |ws|
  {
    if w > 0 {
      IdleMoves(ws[1..], w - 1, to);
      assert ws[w := to][1..] == ws[1..][w - 1 := to];
    } else {
      assert ws[w := to][1..] == ws[1..];
    }
  }

  lemma {:induction false} HeldMoves<J>(ws: seq<Worker<J>>, w: nat, to: Worker<J>)
    requires w < |ws|
    ensures Held(ws[w := to]) + JobOf(ws[w]) == Held(ws) + JobOf(to)
    decreases |ws|
  {
    var us := ws[w := to];
    if w > 0 {
      HeldMoves(ws[1..], w - 1, to);
      assert us[1..] == ws[1..][w - 1 := to];
      Swap(Held(us[1..]), JobOf(ws[w]), Held(ws[1..]), JobOf(to), JobOf(ws[0]));
    } else {
      assert us[1..] == ws[1..];
      Swap(Held(ws[1..]), JobOf(to), Held(ws[1..]), JobOf(to), JobOf(ws[0]));
    }
  }

  lemma Swap<J>(a: multiset<J>, b: multiset<J>, c: multiset<J>, d: multiset<J>, e: multiset<J>)
    requires a + b == c + d
    ensures (a + e) + b == (c + e) + d
  {
    assert (a + e) + b == (a + b) + e;
    assert (c + e) + d == (c + d) + e;
  }

  /** A signal frees idle workers, one at least if it woke any, and no jobs. */
  lemma {:induction false} IdleWakes<J>(ws: seq<Worker<J>>, woken: set<nat>)
    requires forall w <- woken :: w < |ws| && ws[w].Asleep?
    ensures IdleCount(Wake(ws, woken)) >= IdleCount(ws) + One(woken != {})
    decreases |ws|
  {
    if ws != [] {
      var rest := set w | w in woken && w > 0 :: w - 1;
      assert Wake(ws, woken)[1..] == Wake(ws[1..], rest);
      IdleWakes(ws[1..], rest);
      assert forall w <- woken :: w > 0 ==> w - 1 in rest;
    }
  }

  lemma {:induction false} HeldWakes<J>(ws: seq<Worker<J>>, woken: set<nat>)
    requires forall w <- woken :: w < |ws| && ws[w].Asleep?
    ensures Held(Wake(ws, woken)) == Held(ws)
    decreases |ws|
  {
    if ws != [] {
      var rest := set w | w in woken && w > 0 :: w - 1;
      assert Wake(ws, woken)[1..] == Wake(ws[1..], rest);
      HeldWakes(ws[1..], rest);
      assert JobOf(Wake(ws, woken)[0]) == JobOf(ws[0]);
    }
  }

  /** A step of a caller. */
  predicate ByCaller<J>(e: Event<J>) {
    e.Call? || e.Enter? || e.Push? || e.Signal? || e.Leave?
  }

  lemma StepExclusive<J>(s: Pool<J>, e: Event<J>)
    requires Exclusive(s) && Enabled(s, e)
    ensures Exclusive(Next(s, e))
  {
    if ByCaller(e) {
      CallerExclusive(s, e);
    } else {
      WorkerExclusive(s, e);
    }
  }

  lemma CallerExclusive<J>(s: Pool<J>, e: Event<J>)
    requires Exclusive(s) && Enabled(s, e) && ByCaller(e)
    ensures Exclusive(Next(s, e))
  {
  }

  lemma WorkerExclusive<J>(s: Pool<J>, e: Event<J>)
    requires Exclusive(s) && Enabled(s, e) && !ByCaller(e)
    ensures Exclusive(Next(s, e))
  {
  }

  /** A worker that is about to take a job holds the mutex, so the job is still there. */
  lemma StepTakes<J>(s: Pool<J>, e: Event<J>)
    requires Sound(s) && Enabled(s, e)
    ensures var t := Next(s, e); forall w :: 0 <= w < |t.workers| && t.workers[w].AtTake? ==> t.queue != []
  {
  }

  lemma Cancel<J>(a: multiset<J>, b: multiset<J>, c: multiset<J>)
    requires a + c == b + c
    ensures a == b
  {
    assert a == (a + c) - c && b == (b + c) - c;
  }

  /** A step of a worker that neither takes nor finishes a job. */
  lemma HeldSame<J>(ws: seq<Worker<J>>, w: nat, to: Worker<J>)
    requires w < |ws| && JobOf(ws[w]) == JobOf(to)
    ensures Held(ws[w := to]) == Held(ws)
  {
    HeldMoves(ws, w, to);
    Cancel(Held(ws[w := to]), Held(ws), JobOf(to));
  }

  lemma HeldMore<J>(ws: seq<Worker<J>>, w: nat, job: J, taken: multiset<J>, done: multiset<J>)
    requires w < |ws| && JobOf(ws[w]) == multiset{} && taken == Held(ws) + done
    ensures taken + multiset{job} == Held(ws[w := AtUnlock(job)]) + done
  {
    HeldMoves(ws, w, AtUnlock(job));
    var now := Held(ws[w := AtUnlock(job)]);
    assert now + multiset{} == now;
    assert taken + multiset{job} == (Held(ws) + multiset{job}) + done;
  }

  lemma HeldLess<J>(ws: seq<Worker<J>>, w: nat, taken: multiset<J>, done: multiset<J>)
    requires w < |ws| && ws[w].Working? && taken == Held(ws) + done
    ensures taken == Held(ws[w := AtLock]) + (done + multiset{ws[w].job})
  {
    HeldMoves(ws, w, AtLock);
    assert Held(ws) + multiset{} == Held(ws);
    assert Held(ws[w := AtLock]) + (done + multiset{ws[w].job}) == (Held(ws[w := AtLock]) + multiset{ws[w].job}) + done;
  }

  lemma FifoTake<J>(s: Pool<J>, w: nat)
    requires Fifo(s) && Enabled(s, Take(w))
    ensures Fifo(Next(s, Take(w)))
  {
    FrontMoves(s.taken, s.queue);
    HeldMore(s.workers, w, s.queue[0], multiset(s.taken), multiset(s.finished));
  }

  lemma FrontMoves<J>(taken: seq<J>, queue: seq<J>)
    requires queue != []
    ensures (taken + [queue[0]]) + queue[1..] == taken + queue
    ensures multiset(taken + [queue[0]]) == multiset(taken) + multiset{queue[0]}
  {
  }

  lemma FifoFinish<J>(s: Pool<J>, w: nat)
    requires Fifo(s) && Enabled(s, Finish(w))
    ensures Fifo(Next(s, Finish(w)))
  {
    HeldLess(s.workers, w, multiset(s.taken), multiset(s.finished));
  }

  /** Only a take and the end of a job change what the workers hold. */
  lemma HeldStays<J>(s: Pool<J>, e: Event<J>)
    requires Enabled(s, e) && !e.Take? && !e.Finish?
    ensures Held(Next(s, e).workers) == Held(s.workers)
  {
    var t := Next(s, e);
    if e.Signal? {
      HeldWakes(s.workers, e.woken);
    } else if !(e.Call? || e.Enter? || e.Push? || e.Leave?) {
      assert JobOf(s.workers[e.w]) == JobOf(t.workers[e.w]) && t.workers == s.workers[e.w := t.workers[e.w]];
      HeldSame(s.workers, e.w, t.workers[e.w]);
    }
  }

  lemma StepFifo<J>(s: Pool<J>, e: Event<J>)
    requires Fifo(s) && Enabled(s, e)
    ensures Fifo(Next(s, e))
  {
    if e.Take? {
      FifoTake(s, e.w);
    } else if e.Finish? {
      FifoFinish(s, e.w);
    } else {
      HeldStays(s, e);
    }
  }

  lemma StepNoLostWakeUp<J>(s: Pool<J>, e: Event<J>)
    requires Sound(s) && Enabled(s, e)
    ensures NoLostWakeUp(Next(s, e))
  {
    var t := Next(s, e);
    if e.Signal? {
      IdleWakes(s.workers, e.woken);
    } else if t.workers != s.workers {
      IdleMoves(s.workers, e.w, t.workers[e.w]);
    }
    assert forall v :: Sleeper(t, v) && !(e.Test? && v == e.w) ==> Sleeper(s, v);
  }

  lemma StepSound<J>(s: Pool<J>, e: Event<J>)
    requires Sound(s) && Enabled(s, e)
    ensures Sound(Next(s, e))
  {
    StepExclusive(s, e);
    StepTakes(s, e);
    StepFifo(s, e);
    StepNoLostWakeUp(s, e);
  }

  // ---- Whole runs ----

  ghost predicate Reaches<J>(s: Pool<J>, run: seq<Event<J>>, t: Pool<J>)
    decreases |run|
  {
    if run == [] then t == s else Enabled(s, run[0]) && Reaches(Next(s, run[0]), run[1..], t)
  }

  lemma {:induction false} RunSound<J>(s: Pool<J>, run: seq<Event<J>>, t: Pool<J>)
    requires Sound(s) && Reaches(s, run, t)
    ensures Sound(t) && |t.workers| == |s.workers| && |t.producers| == |s.producers|
    decreases |run|
  {
    if run != [] {
      StepSound(s, run[0]);
      RunSound(Next(s, run[0]), run[1..], t);
    }
  }

  lemma {:induction false} NoneHeld<J>(n: nat)
    ensures Held<J>(seq(n, _ => AtLock)) == multiset{}
  {
    if n > 0 {
      NoneHeld<J>(n - 1);
      assert seq<Worker<J>>(n, _ => AtLock)[1..] == seq(n - 1, _ => AtLock);
    }
  }

  /** The last step of a run. */
  lemma {:induction false} LastStep<J>(s: Pool<J>, run: seq<Event<J>>, t: Pool<J>) returns (u: Pool<J>)
    requires run != [] && Reaches(s, run, t)
    ensures var n := |run| - 1; Reaches(s, run[..n], u) && Enabled(u, run[n]) && t == Next(u, run[n])
    decreases |run|
  {
    var n := |run| - 1;
    if n == 0 {
      u := s;
      assert run[1..] == [];
    } else {
      u := LastStep(Next(s, run[0]), run[1..], t);
      assert run[1..][..n - 1] == run[..n][1..];
    }
  }

  // ---- The jobs of the callers ----

  /** The jobs of all calls of a run. */
  ghost function Called<J>(run: seq<Event<J>>): seq<J> {
    if run == [] then [] else Called(run[..|run| - 1]) + Brought(run[|run| - 1])
  }

  ghost function Brought<J>(e: Event<J>): seq<J> {
    if e.Call? then [e.job] else []
  }

  /** The job of the last call of `p`. */
  ghost function LastJob<J>(run: seq<Event<J>>, p: nat): seq<J> {
    if run == [] then []
    else
      var e := run[|run| - 1];
      if e.Call? && e.p == p then [e.job] else LastJob(run[..|run| - 1], p)
  }

  /** The jobs in the order in which their callers got the mutex. */
  ghost function Entered<J>(run: seq<Event<J>>): seq<J> {
    if run == [] then []
    else
      var before, e := run[..|run| - 1], run[|run| - 1];
      Entered(before) + if e.Enter? then LastJob(before, e.p) else []
  }

  /** The jobs that callers have brought and not yet queued. */
  ghost function Carried<J>(p: Producer<J>): seq<J> {
    match p case WantsLock(job) => [job] case AtPush(job) => [job] case _ => []
  }

  /** The same as a multiset. */
  ghost function Load<J>(p: Producer<J>): multiset<J> {
    match p case WantsLock(job) => multiset{job} case AtPush(job) => multiset{job} case _ => multiset{}
  }

  ghost function Waiting<J>(ps: seq<Producer<J>>): multiset<J> {
    if ps == [] then multiset{} else Waiting(ps[1..]) + Load(ps[0])
  }

  lemma {:induction false} WaitingMoves<J>(ps: seq<Producer<J>>, p: nat, to: Producer<J>)
    requires p < |ps|
    ensures Waiting(ps[p := to]) + Load(ps[p]) == Waiting(ps) + Load(to)
    decreases |ps|
  {
    var qs := ps[p := to];
    if p > 0 {
      WaitingMoves(ps[1..], p - 1, to);
      assert qs[1..] == ps[1..][p - 1 := to];
      Swap(Waiting(qs[1..]), Load(ps[p]), Waiting(ps[1..]), Load(to), Load(ps[0]));
    } else {
      assert qs[1..] == ps[1..];
      Swap(Waiting(ps[1..]), Load(to), Waiting(ps[1..]), Load(to), Load(ps[0]));
    }
  }

  /** What a step appends to the jobs pushed. */
  ghost function Appended<J>(s: Pool<J>, e: Event<J>): seq<J>
    requires Enabled(s, e)
  {
    if e.Push? then [s.producers[e.p].job] else []
  }

  lemma CallerMoves<J>(s: Pool<J>, e: Event<J>)
    requires Enabled(s, e) && ByCaller(e)
    ensures var t := Next(s, e);
            && |t.producers| == |s.producers| && t.producers == s.producers[e.p := t.producers[e.p]]
            && t.pushed == s.pushed + Appended(s, e)
  {
    if !e.Push? { assert s.pushed + [] == s.pushed; }
  }

  lemma CallerKeeps<J>(s: Pool<J>, e: Event<J>)
    requires Enabled(s, e) && ByCaller(e)
    ensures |Next(s, e).producers| == |s.producers|
    ensures Carried(s.producers[e.p]) + Brought(e) == Carried(Next(s, e).producers[e.p]) + Appended(s, e)
  {
  }

  lemma WorkerLeaves<J>(s: Pool<J>, e: Event<J>)
    requires Enabled(s, e) && !ByCaller(e)
    ensures var t := Next(s, e); t.producers == s.producers && t.pushed == s.pushed && Brought(e) == []
  {
  }

  lemma Balance<J>(
      pushed: seq<J>, more: seq<J>, now: multiset<J>, was: multiset<J>, out: seq<J>, in_: seq<J>, brought: seq<J>)
    requires now + multiset(out) == was + multiset(in_) && out + brought == in_ + more
    ensures multiset(pushed + more) + now == multiset(pushed) + was + multiset(brought)
  {
    var s, p, c, d, b := multiset(pushed), multiset(more), multiset(out), multiset(in_), multiset(brought);
    assert multiset(pushed + more) == s + p && c + b == multiset(out + brought) && d + p == multiset(in_ + more);
    assert ((s + p) + now) + c == (s + p) + (now + c);
    assert (s + p) + (was + d) == (s + was) + (d + p);
    assert (s + was) + (c + b) == (s + was + b) + c;
    Cancel((s + p) + now, s + was + b, c);
  }

  /** A call brings its job in, and no step loses one. */
  lemma StepKeepsJobs<J>(s: Pool<J>, e: Event<J>)
    requires Enabled(s, e)
    ensures var t := Next(s, e);
            multiset(t.pushed) + Waiting(t.producers)
            == multiset(s.pushed) + Waiting(s.producers) + multiset(Brought(e))
  {
    var t := Next(s, e);
    if ByCaller(e) {
      CallerMoves(s, e);
      CallerKeeps(s, e);
      var to, more := t.producers[e.p], Appended(s, e);
      WaitingMoves(s.producers, e.p, to);
      assert Load(to) == multiset(Carried(to)) && Load(s.producers[e.p]) == multiset(Carried(s.producers[e.p]));
      Balance(s.pushed, more, Waiting(t.producers), Waiting(s.producers), Carried(s.producers[e.p]), Carried(to),
              Brought(e));
    } else {
      WorkerLeaves(s, e);
    }
  }

  lemma {:induction false} NoneWaiting<J>(ps: seq<Producer<J>>)
    requires forall p <- ps :: p.Outside?
    ensures Waiting(ps) == multiset{}
    decreases |ps|
  {
    if ps != [] { NoneWaiting(ps[1..]); }
  }

  lemma {:induction false} RunKeepsJobs<J>(threads: nat, callers: nat, run: seq<Event<J>>, t: Pool<J>)
    requires Reaches(Init(threads, callers), run, t)
    ensures multiset(Called(run)) == multiset(t.pushed) + Waiting(t.producers)
    decreases |run|
  {
    if run == [] {
      NoneWaiting(t.producers);
    } else {
      var u := LastStep(Init(threads, callers), run, t);
      RunKeepsJobs(threads, callers, run[..|run| - 1], u);
      StepKeepsJobs(u, run[|run| - 1]);
      assert multiset(Called(run)) == multiset(Called(run[..|run| - 1])) + multiset(Brought(run[|run| - 1]));
    }
  }

  /** The job that is being pushed. */
  ghost function InPush<J>(s: Pool<J>): seq<J> {
    if s.mutex.ByProducer? && s.mutex.p < |s.producers| && s.producers[s.mutex.p].AtPush? then
      [s.producers[s.mutex.p].job]
    else []
  }

  /** The callers carry the jobs of their last calls. */
  ghost predicate Carry<J>(run: seq<Event<J>>, ps: seq<Producer<J>>) {
    forall p :: 0 <= p < |ps| ==>
      (ps[p].WantsLock? || ps[p].AtPush? ==> LastJob(run, p) == [ps[p].job])
  }

  lemma {:induction false} RunKeepsOrder<J>(threads: nat, callers: nat, run: seq<Event<J>>, t: Pool<J>)
    requires Reaches(Init(threads, callers), run, t)
    ensures Sound(t) && Carry(run, t.producers) && Entered(run) == t.pushed + InPush(t)
    decreases |run|
  {
    NoneHeld<J>(threads);
    RunSound(Init(threads, callers), run, t);
    if run != [] {
      var n := |run| - 1;
      var u := LastStep(Init(threads, callers), run, t);
      RunKeepsOrder(threads, callers, run[..n], u);
      StepKeepsOrder(run, u, run[n]);
    }
  }

  lemma StepKeepsOrder<J>(run: seq<Event<J>>, s: Pool<J>, e: Event<J>)
    requires run != [] && e == run[|run| - 1] && Sound(s) && Enabled(s, e)
    requires Carry(run[..|run| - 1], s.producers) && Entered(run[..|run| - 1]) == s.pushed + InPush(s)
    ensures var t := Next(s, e); Carry(run, t.producers) && Entered(run) == t.pushed + InPush(t)
  {
    var before, t := run[..|run| - 1], Next(s, e);
    var job := if e.Enter? then LastJob(before, e.p) else [];
    PushOrder(s, e);
    if ByCaller(e) {
      CallerMoves(s, e);
      CarryOn(run, s, e);
    } else {
      WorkerLeaves(s, e);
      assert forall p :: LastJob(run, p) == LastJob(before, p);
    }
    assert Entered(run) == Entered(before) + job;
  }

  lemma CarryOn<J>(run: seq<Event<J>>, s: Pool<J>, e: Event<J>)
    requires run != [] && e == run[|run| - 1] && Enabled(s, e) && ByCaller(e)
    requires Carry(run[..|run| - 1], s.producers)
    ensures Carry(run, Next(s, e).producers)
  {
    var before, ps := run[..|run| - 1], Next(s, e).producers;
    forall p | 0 <= p < |ps| && (ps[p].WantsLock? || ps[p].AtPush?) ensures LastJob(run, p) == [ps[p].job] {
      assert !(e.Call? && e.p == p) ==> LastJob(run, p) == LastJob(before, p);
    }
  }

  /** Jobs are pushed in the order in which their callers got the mutex. */
  lemma PushOrder<J>(s: Pool<J>, e: Event<J>)
    requires Sound(s) && Enabled(s, e)
    ensures var t := Next(s, e);
            var job := if e.Enter? then [s.producers[e.p].job] else [];
            t.pushed + InPush(t) == s.pushed + InPush(s) + job
  {
    if ByCaller(e) {
      CallerPushes(s, e);
    } else {
      WorkerPushes(s, e);
    }
  }

  lemma CallerPushes<J>(s: Pool<J>, e: Event<J>)
    requires Exclusive(s) && Enabled(s, e) && ByCaller(e)
    ensures var t := Next(s, e);
            var job := if e.Enter? then [s.producers[e.p].job] else [];
            t.pushed + InPush(t) == s.pushed + InPush(s) + job
  {
    CallerMoves(s, e);
    CallerInPush(s, e);
  }

  /** The job that is being pushed comes from the caller that entered, and goes to the queue. */
  lemma CallerInPush<J>(s: Pool<J>, e: Event<J>)
    requires Exclusive(s) && Enabled(s, e) && ByCaller(e)
    ensures var now, was := InPush(Next(s, e)), InPush(s);
            if e.Push? then was == [s.producers[e.p].job] && now == []
            else if e.Enter? then was == [] && now == [s.producers[e.p].job]
            else now == was
  {
  }

  lemma WorkerPushes<J>(s: Pool<J>, e: Event<J>)
    requires Exclusive(s) && Enabled(s, e) && !ByCaller(e)
    ensures var t := Next(s, e); t.pushed == s.pushed && InPush(t) == InPush(s)
  {
  }

  /** Every interleaving of any number of workers and callers, from the start: while a worker
      sleeps, the awake idle workers are enough for the queue once the last push has been
      signalled; jobs are taken in the order in which their callers got the mutex, each once;
      the job of every call is still with its caller, queued, held by one worker or finished. */
  lemma EveryRun<J>(threads: nat, callers: nat, run: seq<Event<J>>, t: Pool<J>)
    requires Reaches(Init(threads, callers), run, t)
    ensures (exists w :: Sleeper(t, w)) ==> IdleCount(t.workers) + (if Owing(t) then 1 else 0) >= |t.queue|
    ensures t.taken + t.queue + InPush(t) == Entered(run)
    ensures multiset(Called(run)) == multiset(t.queue) + Held(t.workers) + multiset(t.finished) + Waiting(t.producers)
    ensures Exclusive(t)
  {
    RunKeepsOrder(threads, callers, run, t);
    RunKeepsJobs(threads, callers, run, t);
    assert multiset(t.taken + t.queue) == multiset(t.taken) + multiset(t.queue);
  }

  // ---- No run goes on forever by itself ----

  /** More steps than a thread still makes where it stands, before it waits for a signal or returns. */
  function Effort<J>(w: Worker<J>): nat {
    match w
    case Asleep => 0
    case AtTake => 2
    case AtTest => 3
    case AtLock => 4
    case Woken => 4
    case Working(_) => 5
    case AtUnlock(_) => 6
  }

  function CallEffort<J>(p: Producer<J>, threads: nat): nat {
    match p
    case Outside => 0
    case Leaving => 1
    case AtSignal => 4 * threads + 2
    case AtPush(_) => 4 * threads + 8
    case WantsLock(_) => 4 * threads + 9
  }

  function Efforts<J>(ws: seq<Worker<J>>): nat {
    if ws == [] then 0 else Efforts(ws[1..]) + Effort(ws[0])
  }

  function CallEfforts<J>(ps: seq<Producer<J>>, threads: nat): nat {
    if ps == [] then 0 else CallEfforts(ps[1..], threads) + CallEffort(ps[0], threads)
  }

  /** A bound on the steps that are still to come. */
  function Due<J>(s: Pool<J>): nat {
    Efforts(s.workers) + 5 * |s.queue| + CallEfforts(s.producers, |s.workers|)
  }

  /** What a call and a spurious wake-up add to it. */
  function Adds<J>(e: Event<J>, threads: nat): nat {
    if e.Call? then 4 * threads + 10 else if e.Spurious? then 5 else 0
  }

  lemma {:induction false} EffortMoves<J>(ws: seq<Worker<J>>, w: nat, to: Worker<J>)
    requires w < |ws|
    ensures Efforts(ws[w := to]) == Efforts(ws) - Effort(ws[w]) + Effort(to)
    decreases |ws|
  {
    if w > 0 {
      EffortMoves(ws[1..], w - 1, to);
      assert ws[w := to][1..] == ws[1..][w - 1 := to];
    } else {
      assert ws[w := to][1..] == ws[1..];
    }
  }

  lemma {:induction false} CallEffortMoves<J>(ps: seq<Producer<J>>, threads: nat, p: nat, to: Producer<J>)
    requires p < |ps|
    ensures CallEfforts(ps[p := to], threads)
         == CallEfforts(ps, threads) - CallEffort(ps[p], threads) + CallEffort(to, threads)
    decreases |ps|
  {
    if p > 0 {
      CallEffortMoves(ps[1..], threads, p - 1, to);
      assert ps[p := to][1..] == ps[1..][p - 1 := to];
    } else {
      assert ps[p := to][1..] == ps[1..];
    }
  }

  lemma {:induction false} EffortWakes<J>(ws: seq<Worker<J>>, woken: set<nat>)
    ensures Efforts(Wake(ws, woken)) <= Efforts(ws) + 4 * |ws|
    decreases |ws|
  {
    if ws != [] {
      var rest := set w | w in woken && w > 0 :: w - 1;
      assert Wake(ws, woken)[1..] == Wake(ws[1..], rest);
      EffortWakes(ws[1..], rest);
    }
  }

  /** Every step uses some of it up. */
  lemma StepUses<J>(s: Pool<J>, e: Event<J>)
    requires Enabled(s, e)
    ensures Due(Next(s, e)) + 1 <= Due(s) + Adds(e, |s.workers|)
  {
    var t := Next(s, e);
    if e.Call? || e.Enter? || e.Push? || e.Signal? || e.Leave? {
      CallEffortMoves(s.producers, |s.workers|, e.p, t.producers[e.p]);
      assert t.producers == s.producers[e.p := t.producers[e.p]];
      if e.Signal? { EffortWakes(s.workers, e.woken); }
    } else {
      EffortMoves(s.workers, e.w, t.workers[e.w]);
      assert t.workers == s.workers[e.w := t.workers[e.w]];
    }
  }

  /** How many calls a run has, and how many spurious wake-ups. */
  ghost function Calls<J>(run: seq<Event<J>>): nat {
    if run == [] then 0 else Calls(run[..|run| - 1]) + One(run[|run| - 1].Call?)
  }

  ghost function Spurs<J>(run: seq<Event<J>>): nat {
    if run == [] then 0 else Spurs(run[..|run| - 1]) + One(run[|run| - 1].Spurious?)
  }

  lemma {:induction false} AllLocking<J>(n: nat)
    ensures Efforts<J>(seq(n, _ => AtLock)) == 4 * n
  {
    if n > 0 {
      AllLocking<J>(n - 1);
      assert seq<Worker<J>>(n, _ => AtLock)[1..] == seq(n - 1, _ => AtLock);
    }
  }

  lemma {:induction false} AllOutside<J>(n: nat, threads: nat)
    ensures CallEfforts<J>(seq(n, _ => Outside), threads) == 0
  {
    if n > 0 {
      AllOutside<J>(n - 1, threads);
      assert seq<Producer<J>>(n, _ => Outside)[1..] == seq(n - 1, _ => Outside);
    }
  }

  /** The length of a run is bounded by its calls and its spurious wake-ups: left alone, the pool
      comes to rest. */
  lemma {:induction false} RunIsBounded<J>(threads: nat, callers: nat, run: seq<Event<J>>, t: Pool<J>)
    requires Reaches(Init(threads, callers), run, t)
    ensures |t.workers| == threads
    ensures |run| + Due(t) <= 4 * threads + (4 * threads + 10) * Calls(run) + 5 * Spurs(run)
    decreases |run|
  {
    if run == [] {
      AllLocking<J>(threads);
      AllOutside<J>(callers, threads);
    } else {
      var n := |run| - 1;
      var u := LastStep(Init(threads, callers), run, t);
      RunIsBounded(threads, callers, run[..n], u);
      StepUses(u, run[n]);
      OneMore(4 * threads + 10, Calls(run[..n]), One(run[n].Call?));
    }
  }

  lemma OneMore(a: nat, n: nat, b: nat)
    ensures a * (n + b) == a * n + a * b
  {
  }

  // ---- Nothing is left undone ----

  /** Only a new call or a spurious wake-up can happen. */
  ghost predicate AtRest<J(!new)>(t: Pool<J>) {
    forall e :: Enabled(t, e) ==> e.Call? || e.Spurious?
  }

  /** Whoever holds the mutex can go on. */
  lemma HolderGoesOn<J>(t: Pool<J>) returns (e: Event<J>)
    requires Sound(t) && !t.mutex.Nobody?
    ensures Enabled(t, e) && !e.Call? && !e.Spurious?
  {
    if t.mutex.ByWorker? {
      var w := t.mutex.w;
      e := if t.workers[w].AtTest? then Test(w) else if t.workers[w].AtTake? then Take(w) else Unlock(w);
    } else {
      var p := t.mutex.p;
      var woken: set<nat> := {};
      if w: nat :| Sleeper(t, w) { woken := {w}; }
      e := if t.producers[p].AtPush? then Push(p) else if t.producers[p].AtSignal? then Signal(p, woken) else Leave(p);
    }
  }

  lemma RestIsUnlocked<J(!new)>(t: Pool<J>)
    requires Sound(t) && AtRest(t)
    ensures t.mutex.Nobody?
  {
    if !t.mutex.Nobody? {
      var e := HolderGoesOn(t);
      assert false;
    }
  }

  lemma RestIsAsleep<J(!new)>(t: Pool<J>)
    requires Sound(t) && AtRest(t)
    ensures forall w <- t.workers :: w.Asleep?
    ensures forall p <- t.producers :: p.Outside?
  {
    RestIsUnlocked(t);
    forall w | 0 <= w < |t.workers| ensures t.workers[w].Asleep? {
      assert !Enabled(t, Lock(w)) && !Enabled(t, Reacquire(w)) && !Enabled(t, Finish(w));
    }
    forall p | 0 <= p < |t.producers| ensures t.producers[p].Outside? {
      assert !Enabled(t, Enter(p));
    }
  }

  lemma {:induction false} AsleepIsIdle<J>(ws: seq<Worker<J>>)
    requires forall w <- ws :: w.Asleep?
    ensures IdleCount(ws) == 0 && Held(ws) == multiset{}
    decreases |ws|
  {
    if ws != [] {
      assert ws[0] in ws;
      AsleepIsIdle(ws[1..]);
    }
  }

  /** A pool at rest has finished the job of every call, each once, and has started them in the
      order in which their callers got the mutex. */
  lemma AllJobsFinish<J(!new)>(threads: nat, callers: nat, run: seq<Event<J>>, t: Pool<J>)
    requires threads > 0 && Reaches(Init(threads, callers), run, t) && AtRest(t)
    ensures multiset(t.finished) == multiset(Called(run)) && t.taken == Entered(run)
  {
    NoneHeld<J>(threads);
    RunSound(Init(threads, callers), run, t);
    EveryRun(threads, callers, run, t);
    RestIsUnlocked(t);
    RestIsAsleep(t);
    AsleepIsIdle(t.workers);
    NoneWaiting(t.producers);
    assert Sleeper(t, 0);
  }

  // ---- Jobs are not stranded ----

  lemma {:induction false} SomeIdle<J>(ws: seq<Worker<J>>) returns (w: nat)
    requires IdleCount(ws) > 0
    ensures w < |ws| && Idle(ws[w])
  {
    if Idle(ws[0]) { return 0; }
    w := SomeIdle(ws[1..]);
    w := w + 1;
  }

  /** No job is stranded: when a reachable pool has a job queued and the mutex is free, either
      an awake idle worker can take the mutex at once, or every worker is busy with a job. */
  lemma JobIsServed<J>(threads: nat, callers: nat, run: seq<Event<J>>, t: Pool<J>)
    requires Reaches(Init(threads, callers), run, t) && t.queue != [] && t.mutex.Nobody?
    ensures || (exists w :: 0 <= w < threads && (Enabled(t, Lock(w)) || Enabled(t, Reacquire(w))))
            || (forall w :: 0 <= w < |t.workers| ==> t.workers[w].Working?)
  {
    NoneHeld<J>(threads);
    RunSound(Init(threads, callers), run, t);
    if IdleCount(t.workers) > 0 {
      var w := SomeIdle(t.workers);
      assert Enabled(t, Lock(w)) || Enabled(t, Reacquire(w));
    } else {
      AllBusy(t);
    }
  }

  lemma AllBusy<J>(t: Pool<J>)
    requires Exclusive(t) && NoLostWakeUp(t) && t.queue != [] && t.mutex.Nobody? && IdleCount(t.workers) == 0
    ensures forall w :: 0 <= w < |t.workers| ==> t.workers[w].Working?
  {
    forall w | 0 <= w < |t.workers| ensures t.workers[w].Working? {
      IdleMoves(t.workers, w, Asleep);
      assert !Sleeper(t, w);
    }
  }
}
