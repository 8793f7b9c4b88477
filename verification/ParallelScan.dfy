/**
 The parallel Postgres scan as interleaved steps: any number of DuckDB threads share one table
 reader under the process lock, while worker processes fill and close their queues at any time,
 also while a thread holds the lock. A signed count decides who may still register and who cleans up.
 */
module ParallelScan {
  import opened Results
  import opened WorkerRing

  const BATCH_SIZE := 32
  const NUM_BATCHES := 2048 / BATCH_SIZE

  /** A worker queue: everything the worker sent, and the part nobody has read yet. */
  datatype Queue = Queue(produced: seq<int>, pending: seq<int>, open: bool)

  datatype Row = Row(queue: nat, tuple: int)

  /** One tuple taken from a queue by a thread. */
  datatype Handout = Handout(thread: nat, queue: nat, tuple: int)

  /**
   Where a thread stands. `Polling` and `Waiting` are inside the lock; `polled` are the readers that
   reported an empty queue since the thread last waited or asked for a tuple.
   */
  datatype Phase =
    | Fresh
    | Idle
    | WantLock(batch: nat)
    | Polling(batch: nat, visited: nat, polled: set<nat>)
    | Waiting(batch: nat, polled: set<nat>)
    | Converting(batch: nat)
    | Finishing

  /** `gone` is set when the thread has unregistered; `rows` is what its chunks have received. */
  datatype Thread = Thread(phase: Phase, registered: bool, gone: bool, exhausted: bool, buffer: seq<Row>, rows: seq<Row>)

  datatype State = State(
    queues: seq<Queue>,
    ring: Ring,
    threads: seq<Thread>,
    count: int,
    lock: Option<nat>,
    cleanups: nat,
    destroyed: bool,
    log: seq<Handout>)

  datatype Action =
    | Produce(queue: nat, tuple: int)
    | Close(queue: nat)
    | Construct(thread: nat)
    | Call(thread: nat)
    | Lock(thread: nat)
    | Poll(thread: nat)
    | Wake(thread: nat)
    | Convert(thread: nat)
    | Finish(thread: nat)
    | Destroy

  // ---------------------------------------------------------------- steps

  function AnswerOf(q: Queue): Answer
  {
    if q.pending != [] then GotTuple(q.pending[0])
    else if q.open then WouldBlock
    else ReaderDone
  }

  predicate Quiet(th: Thread) { th.phase.Fresh? || th.phase.Idle? }

  predicate Enabled(s: State, a: Action)
  {
    match a
    case Produce(q, _) => q < |s.queues| && s.queues[q].open
    case Close(q) => q < |s.queues| && s.queues[q].open
    case Destroy => !s.destroyed && forall t :: 0 <= t < |s.threads| ==> Quiet(s.threads[t])
    case Construct(t) => !s.destroyed && t < |s.threads| && s.threads[t].phase.Fresh? && s.lock.None?
    case Call(t) => !s.destroyed && t < |s.threads| && s.threads[t].phase.Idle?
    case Lock(t) => !s.destroyed && t < |s.threads| && s.threads[t].phase.WantLock? && s.lock.None?
    case Poll(t) =>
      && !s.destroyed && t < |s.threads| && s.threads[t].phase.Polling?
      && RingOk(s.ring) && (s.ring.nreaders > 0 ==> s.ring.slots[s.ring.next] < |s.queues|)
    case Wake(t) => !s.destroyed && t < |s.threads| && s.threads[t].phase.Waiting?
    case Convert(t) => !s.destroyed && t < |s.threads| && s.threads[t].phase.Converting?
    case Finish(t) =>
      !s.destroyed && t < |s.threads| && s.threads[t].phase.Finishing? && (s.threads[t].exhausted ==> s.lock.None?)
  }

  function Next(s: State, a: Action): State
    requires Enabled(s, a)
  {
    match a
    case Produce(q, v) =>
      var qu := s.queues[q];
      s.(queues := s.queues[q := qu.(produced := qu.produced + [v], pending := qu.pending + [v])])
    case Close(q) => s.(queues := s.queues[q := s.queues[q].(open := false)])
    case Destroy => s.(destroyed := true, cleanups := if s.cleanups == 0 then 1 else s.cleanups)
    case Construct(t) =>
      var th := s.threads[t].(phase := Idle);
      if s.count < 0 then s.(threads := s.threads[t := th])
      else s.(threads := s.threads[t := th.(registered := true)], count := s.count + 1)
    case Call(t) =>
      if s.threads[t].exhausted then s
      else s.(threads := s.threads[t := s.threads[t].(phase := WantLock(0))])
    case Lock(t) =>
      s.(threads := s.threads[t := s.threads[t].(phase := Polling(s.threads[t].phase.batch, 0, {}))], lock := Some(t))
    case Poll(t) => PollStep(s, t)
    case Wake(t) =>
      s.(threads := s.threads[t := s.threads[t].(phase := Polling(s.threads[t].phase.batch, 0, {}))])
    case Convert(t) =>
      var th := s.threads[t];
      var b := th.phase.batch;
      s.(threads := s.threads[t := th.(rows := th.rows + th.buffer, buffer := [],
                                       phase := if b + 1 < NUM_BATCHES then WantLock(b + 1) else Finishing)])
    case Finish(t) =>
      var th := s.threads[t];
      if !th.exhausted then s.(threads := s.threads[t := th.(phase := Idle)])
      else
        var s1 := s.(threads := s.threads[t := th.(phase := Idle, gone := true)]);
        if s.count - 1 == 0 then s1.(count := -1, cleanups := s.cleanups + 1) else s1.(count := s.count - 1)
  }

  /** One pass of the polling loop by the thread that holds the lock. */
  function PollStep(s: State, t: nat): State
    requires Enabled(s, Poll(t))
  {
    var th := s.threads[t];
    var b := th.phase.batch;
    if s.ring.nreaders == 0 then
      s.(threads := s.threads[t := th.(exhausted := true, phase := Converting(b))], lock := None)
    else
      var q := s.ring.slots[s.ring.next];
      var answer := AnswerOf(s.queues[q]);
      var (ring, visited, verdict) := RingStep(s.ring, th.phase.visited, answer);
      var polled := PolledAfter(s.ring, th.phase.polled, answer);
      match verdict
      case Again => s.(ring := ring, threads := s.threads[t := th.(phase := Polling(b, visited, polled))])
      case Wait => s.(ring := ring, threads := s.threads[t := th.(phase := Waiting(b, polled))])
      case Return(None) =>
        s.(ring := ring, threads := s.threads[t := th.(exhausted := true, phase := Converting(b))], lock := None)
      case Return(Some(v)) =>
        var full := |th.buffer| + 1 == BATCH_SIZE;
        var th1 := th.(buffer := th.buffer + [Row(q, v)], phase := if full then Converting(b) else Polling(b, 0, {}));
        var qu := s.queues[q];
        s.(ring := ring,
           queues := s.queues[q := qu.(pending := if qu.pending != [] then qu.pending[1..] else [])],
           threads := s.threads[t := th1],
           lock := if full then None else s.lock,
           log := s.log + [Handout(t, q, v)])
  }

  /** The step reads or frees memory that belongs to the reader's executor state. */
  predicate TouchesReader(s: State, a: Action)
  {
    match a
    case Construct(t) => s.count >= 0
    case Poll(t) => s.ring.nreaders > 0
    case Convert(t) => t < |s.threads| && s.threads[t].buffer != []
    case Finish(t) => t < |s.threads| && s.threads[t].exhausted && s.count == 1
    case _ => false
  }

  // ---------------------------------------------------------------- history

  /** The tuples taken from queue `q`, oldest first. */
  function QueueLog(log: seq<Handout>, q: nat): seq<int>
  {
    if log == [] then []
    else
      var h := log[|log| - 1];
      QueueLog(log[..|log| - 1], q) + (if h.queue == q then [h.tuple] else [])
  }

  /** The tuples taken by thread `t`, oldest first. */
  function ThreadLog(log: seq<Handout>, t: nat): seq<Row>
  {
    if log == [] then []
    else
      var h := log[|log| - 1];
      ThreadLog(log[..|log| - 1], t) + (if h.thread == t then [Row(h.queue, h.tuple)] else [])
  }

  predicate Live(th: Thread) { th.registered && !th.gone }

  function LiveCount(threads: seq<Thread>): nat
  {
    if threads == [] then 0
    else LiveCount(threads[..|threads| - 1]) + (if Live(threads[|threads| - 1]) then 1 else 0)
  }

  lemma {:induction false} LiveCountUpdate(threads: seq<Thread>, t: nat, th: Thread)
    requires t < |threads|
    ensures LiveCount(threads[t := th]) ==
      LiveCount(threads) - (if Live(threads[t]) then 1 else 0) + (if Live(th) then 1 else 0)
    decreases |threads|
  {
    var n := |threads| - 1;
    if t < n {
      assert threads[t := th][..n] == threads[..n][t := th];
      LiveCountUpdate(threads[..n], t, th);
    } else {
      assert threads[t := th][..n] == threads[..n];
    }
  }

  lemma {:induction false} LiveCountZero(threads: seq<Thread>)
    ensures LiveCount(threads) == 0 <==> forall t :: 0 <= t < |threads| ==> !Live(threads[t])
    decreases |threads|
  {
    if threads != [] {
      var n := |threads| - 1;
      LiveCountZero(threads[..n]);
      assert forall t :: 0 <= t < n ==> threads[..n][t] == threads[t];
    }
  }

  // ---------------------------------------------------------------- the invariant

  predicate Distinct(xs: seq<nat>)
  {
    forall p, r :: 0 <= p < r < |xs| ==> xs[p] != xs[r]
  }

  /** The active readers are distinct queues; every other queue is closed and drained. */
  ghost predicate RingInv(s: State)
  {
    && RingOk(s.ring)
    && (forall p :: 0 <= p < s.ring.nreaders ==> s.ring.slots[p] < |s.queues|)
    && Distinct(Active(s.ring))
    && (forall q :: 0 <= q < |s.queues| && q !in Active(s.ring) ==> s.queues[q].pending == [] && !s.queues[q].open)
  }

  /** Every tuple sent is still queued or was handed out once, in order; each thread has what it was handed. */
  ghost predicate LogInv(s: State)
  {
    && (forall q :: 0 <= q < |s.queues| ==> QueueLog(s.log, q) + s.queues[q].pending == s.queues[q].produced)
    && (forall t :: 0 <= t < |s.threads| ==> ThreadLog(s.log, t) == s.threads[t].rows + s.threads[t].buffer)
  }

  predicate InLock(th: Thread) { th.phase.Polling? || th.phase.Waiting? }

  ghost predicate LockInv(s: State)
  {
    forall t :: 0 <= t < |s.threads| ==> (InLock(s.threads[t]) <==> s.lock == Some(t))
  }

  ghost predicate CountInv(s: State)
  {
    && (s.count >= 0 ==> s.count == LiveCount(s.threads))
    && (s.count < 0 ==> LiveCount(s.threads) == 0 && s.ring.nreaders == 0)
    && s.cleanups == (if s.count < 0 || s.destroyed then 1 else 0)
  }

  ghost predicate ThreadOk(s: State, th: Thread)
    requires RingOk(s.ring)
  {
    && (th.exhausted ==> s.ring.nreaders == 0)
    && (th.phase.Fresh? ==> !th.registered && !th.gone && !th.exhausted)
    && (th.gone ==> th.phase.Idle? && th.exhausted)
    && (th.phase.Idle? && th.exhausted ==> th.gone)
    && (!th.phase.Fresh? && !th.registered ==> s.count < 0)
    && (th.buffer != [] ==> (InLock(th) || th.phase.Converting?) && Live(th))
    && (InLock(th) ==> |th.buffer| < BATCH_SIZE)
    && (th.phase.Polling? ==> PolledOk(s.ring, th.phase.visited, th.phase.polled))
    && (th.phase.Waiting? ==> forall p :: 0 <= p < s.ring.nreaders ==> s.ring.slots[p] in th.phase.polled)
    && (s.destroyed ==> Quiet(th))
  }

  ghost predicate ThreadsInv(s: State)
    requires RingOk(s.ring)
  {
    forall t :: 0 <= t < |s.threads| ==> ThreadOk(s, s.threads[t])
  }

  ghost predicate Inv(s: State)
  {
    RingInv(s) && LogInv(s) && LockInv(s) && CountInv(s) && ThreadsInv(s)
  }

  /** `workers` queues still empty and open, `n` threads that have not started. */
  predicate Init(s: State)
  {
    && (forall q :: 0 <= q < |s.queues| ==> s.queues[q] == Queue([], [], true))
    && s.ring == Ring(seq(|s.queues|, i => i), |s.queues|, 0)
    && (forall t :: 0 <= t < |s.threads| ==> s.threads[t] == Thread(Fresh, false, false, false, [], []))
    && s.count == 0 && s.lock == None && s.cleanups == 0 && !s.destroyed && s.log == []
  }

  lemma {:induction false} InitInv(s: State)
    requires Init(s)
    ensures Inv(s)
  {
    LiveCountZero(s.threads);
    forall q | 0 <= q < |s.queues| ensures q in Active(s.ring) {
      assert Active(s.ring)[q] == q;
    }
  }

  // ---------------------------------------------------------------- every step keeps it

  /** A step that replaces one thread and leaves queues, ring, log and the sign of the count alone. */
  lemma {:induction false} OneThreadMoves(s: State, s1: State, t: nat, th: Thread)
    requires Inv(s) && t < |s.threads|
    requires s1.queues == s.queues && s1.ring == s.ring && s1.log == s.log && s1.threads == s.threads[t := th]
    requires s1.destroyed == s.destroyed && (s.count < 0 ==> s1.count < 0)
    requires th.rows + th.buffer == s.threads[t].rows + s.threads[t].buffer
    requires ThreadOk(s1, th) && CountInv(s1)
    requires if InLock(th) then s1.lock == Some(t) && (InLock(s.threads[t]) || s.lock == None)
             else s1.lock == (if InLock(s.threads[t]) then None else s.lock)
    ensures Inv(s1)
  {
    forall u | 0 <= u < |s1.threads|
      ensures ThreadOk(s1, s1.threads[u])
      ensures InLock(s1.threads[u]) <==> s1.lock == Some(u)
      ensures ThreadLog(s1.log, u) == s1.threads[u].rows + s1.threads[u].buffer
    {
      assert ThreadOk(s, s.threads[u]);
      assert InLock(s.threads[u]) <==> s.lock == Some(u);
      assert InLock(s.threads[t]) <==> s.lock == Some(t);
    }
  }

  lemma {:induction false} ConstructKeepsInv(s: State, t: nat)
    requires Inv(s) && Enabled(s, Construct(t))
    ensures Inv(Next(s, Construct(t)))
  {
    var s1 := Next(s, Construct(t));
    assert ThreadOk(s, s.threads[t]);
    LiveCountUpdate(s.threads, t, s1.threads[t]);
    OneThreadMoves(s, s1, t, s1.threads[t]);
  }

  lemma {:induction false} MoveKeepsInv(s: State, a: Action)
    requires Inv(s) && Enabled(s, a) && (a.Call? || a.Lock? || a.Wake? || a.Convert?)
    ensures Inv(Next(s, a))
  {
    var t := a.thread;
    var s1 := Next(s, a);
    assert ThreadOk(s, s.threads[t]);
    assert InLock(s.threads[t]) <==> s.lock == Some(t);
    LiveCountUpdate(s.threads, t, s1.threads[t]);
    if a.Convert? {
      assert s.threads[t].rows + s.threads[t].buffer + [] == s.threads[t].rows + s.threads[t].buffer;
    }
    assert s1.threads == s.threads[t := s1.threads[t]];
    OneThreadMoves(s, s1, t, s1.threads[t]);
  }

  lemma {:induction false} FinishKeepsInv(s: State, t: nat)
    requires Inv(s) && Enabled(s, Finish(t))
    ensures Inv(Next(s, Finish(t)))
  {
    var s1 := Next(s, Finish(t));
    assert ThreadOk(s, s.threads[t]);
    LiveCountUpdate(s.threads, t, s1.threads[t]);
    OneThreadMoves(s, s1, t, s1.threads[t]);
  }

  lemma {:induction false} EnvironmentKeepsInv(s: State, a: Action)
    requires Inv(s) && Enabled(s, a) && (a.Produce? || a.Close? || a.Destroy?)
    ensures Inv(Next(s, a))
  {
    var s1 := Next(s, a);
    if a.Produce? {
      var q := a.queue;
      assert QueueLog(s.log, q) + (s.queues[q].pending + [a.tuple]) == QueueLog(s.log, q) + s.queues[q].pending + [a.tuple];
    }
    forall u | 0 <= u < |s1.threads|
      ensures ThreadOk(s1, s1.threads[u])
    {
      assert ThreadOk(s, s.threads[u]);
    }
  }

  /** A step of the lock holder that changes the ring; nobody else's bookkeeping depends on it. */
  lemma {:induction false} HolderMoves(s: State, s1: State, t: nat, th: Thread)
    requires Inv(s) && t < |s.threads| && InLock(s.threads[t])
    requires s1.queues == s.queues && s1.log == s.log && s1.threads == s.threads[t := th]
    requires s1.destroyed == s.destroyed && s1.count == s.count && s1.cleanups == s.cleanups
    requires RingInv(s1) && (s.ring.nreaders == 0 ==> s1.ring.nreaders == 0)
    requires th.rows == s.threads[t].rows && th.buffer == s.threads[t].buffer && Live(th) == Live(s.threads[t])
    requires ThreadOk(s1, th)
    requires s1.lock == if InLock(th) then Some(t) else None
    ensures Inv(s1)
  {
    LiveCountUpdate(s.threads, t, th);
    assert s.lock == Some(t);
    forall u | 0 <= u < |s1.threads|
      ensures ThreadOk(s1, s1.threads[u])
      ensures InLock(s1.threads[u]) <==> s1.lock == Some(u)
      ensures ThreadLog(s1.log, u) == s1.threads[u].rows + s1.threads[u].buffer
    {
      assert ThreadOk(s, s.threads[u]);
      assert InLock(s.threads[u]) <==> s.lock == Some(u);
    }
  }

  /** The ring keeps its queues: the reader that leaves is closed and drained. */
  lemma {:induction false} RingStepKeepsRingInv(s: State, visited: nat)
    requires RingInv(s) && s.ring.nreaders > 0
    requires !AnswerOf(s.queues[s.ring.slots[s.ring.next]]).GotTuple?
    ensures
      var answer := AnswerOf(s.queues[s.ring.slots[s.ring.next]]);
      RingInv(s.(ring := RingStep(s.ring, visited, answer).0))
  {
    var r := s.ring;
    var q := r.slots[r.next];
    var answer := AnswerOf(s.queues[q]);
    var r1 := RingStep(r, visited, answer).0;
    RingStepActive(r, visited, answer);
    if answer.ReaderDone? {
      ReaderLeaves(s, r1);
    } else {
      SameActive(s, r1);
    }
  }

  lemma {:induction false} ReaderLeaves(s: State, r1: Ring)
    requires RingInv(s) && RingOk(r1) && s.ring.nreaders > 0
    requires AnswerOf(s.queues[s.ring.slots[s.ring.next]]).ReaderDone?
    requires Active(r1) == Active(s.ring)[..s.ring.next] + Active(s.ring)[s.ring.next + 1..]
    ensures RingInv(s.(ring := r1))
  {
    var before, after := Active(s.ring), Active(r1);
    RemoveAt(before, s.ring.next);
    forall p | 0 <= p < r1.nreaders ensures r1.slots[p] < |s.queues| {
      assert r1.slots[p] == after[p] == before[if p < s.ring.next then p else p + 1];
    }
  }

  lemma {:induction false} SameActive(s: State, r1: Ring)
    requires RingInv(s) && RingOk(r1) && Active(r1) == Active(s.ring)
    ensures RingInv(s.(ring := r1))
  {
    forall p | 0 <= p < r1.nreaders ensures r1.slots[p] < |s.queues| {
      assert r1.slots[p] == Active(r1)[p] == Active(s.ring)[p];
    }
  }

  lemma {:induction false} RemoveAt(xs: seq<nat>, i: nat)
    requires i < |xs| && Distinct(xs)
    ensures Distinct(xs[..i] + xs[i + 1..])
    ensures forall x :: x in xs && x != xs[i] ==> x in xs[..i] + xs[i + 1..]
  {
    var ys := xs[..i] + xs[i + 1..];
    assert forall p :: 0 <= p < |ys| ==> ys[p] == xs[if p < i then p else p + 1];
    forall x | x in xs && x != xs[i] ensures x in ys {
      var p :| 0 <= p < |xs| && xs[p] == x;
      assert ys[if p < i then p else p - 1] == x;
    }
  }

  lemma {:induction false} SameRing(s: State, s1: State)
    requires RingInv(s) && s1.ring == s.ring && s1.queues == s.queues
    ensures RingInv(s1)
  {
  }

  /** The polling thread keeps the lock, or goes to wait when every reader was polled empty. */
  lemma {:induction false} EmptyPollThread(s: State, t: nat)
    requires Inv(s) && Enabled(s, Poll(t)) && s.ring.nreaders > 0
    requires !AnswerOf(s.queues[s.ring.slots[s.ring.next]]).GotTuple?
    ensures RingOk(Next(s, Poll(t)).ring) && ThreadOk(Next(s, Poll(t)), Next(s, Poll(t)).threads[t])
  {
    var th := s.threads[t];
    assert ThreadOk(s, th);
    PollingIsFair(s.ring, th.phase.visited, th.phase.polled, AnswerOf(s.queues[s.ring.slots[s.ring.next]]));
  }

  lemma {:induction false} EmptyPollKeepsInv(s: State, t: nat)
    requires Inv(s) && Enabled(s, Poll(t)) && s.ring.nreaders > 0
    requires !AnswerOf(s.queues[s.ring.slots[s.ring.next]]).GotTuple?
    ensures Inv(Next(s, Poll(t)))
  {
    var th := s.threads[t];
    var answer := AnswerOf(s.queues[s.ring.slots[s.ring.next]]);
    var s1 := Next(s, Poll(t));
    assert ThreadOk(s, th);
    assert InLock(th) <==> s.lock == Some(t);
    RingStepKeepsRingInv(s, th.phase.visited);
    assert s1.ring == RingStep(s.ring, th.phase.visited, answer).0;
    SameRing(s.(ring := s1.ring), s1);
    EmptyPollThread(s, t);
    HolderMoves(s, s1, t, s1.threads[t]);
  }

  lemma {:induction false} LogGrows(log: seq<Handout>, h: Handout, q: nat, t: nat)
    ensures QueueLog(log + [h], q) == QueueLog(log, q) + (if h.queue == q then [h.tuple] else [])
    ensures ThreadLog(log + [h], t) == ThreadLog(log, t) + (if h.thread == t then [Row(h.queue, h.tuple)] else [])
  {
    assert (log + [h])[..|log|] == log;
  }

  lemma {:induction false} HeadMoves(done: seq<int>, pending: seq<int>)
    requires pending != []
    ensures done + [pending[0]] + pending[1..] == done + pending
  {
  }

  /** A tuple moves from the head of its queue to the end of the log and of the thread's buffer. */
  lemma {:induction false} TupleKeepsLog(s: State, s1: State, t: nat, q: nat, th: Thread)
    requires LogInv(s) && t < |s.threads| && q < |s.queues| && s.queues[q].pending != []
    requires s1.queues == s.queues[q := s.queues[q].(pending := s.queues[q].pending[1..])]
    requires s1.log == s.log + [Handout(t, q, s.queues[q].pending[0])]
    requires s1.threads == s.threads[t := th]
    requires th.rows == s.threads[t].rows
    requires th.buffer == s.threads[t].buffer + [Row(q, s.queues[q].pending[0])]
    ensures LogInv(s1)
  {
    var h := Handout(t, q, s.queues[q].pending[0]);
    forall k | 0 <= k < |s1.queues|
      ensures QueueLog(s1.log, k) + s1.queues[k].pending == s1.queues[k].produced
    {
      LogGrows(s.log, h, k, t);
      HeadMoves(QueueLog(s.log, q), s.queues[q].pending);
      assert QueueLog(s.log, k) + [] == QueueLog(s.log, k);
    }
    forall u | 0 <= u < |s1.threads|
      ensures ThreadLog(s1.log, u) == s1.threads[u].rows + s1.threads[u].buffer
    {
      LogGrows(s.log, h, q, u);
      assert s.threads[t].rows + th.buffer == s.threads[t].rows + s.threads[t].buffer + [Row(q, h.tuple)];
      assert ThreadLog(s.log, u) + [] == ThreadLog(s.log, u);
    }
  }

  lemma {:induction false} TuplePollKeepsThreads(s: State, s1: State, t: nat, th: Thread)
    requires Inv(s) && t < |s.threads| && InLock(s.threads[t])
    requires s1.ring == s.ring && s1.count == s.count && s1.destroyed == s.destroyed && s1.threads == s.threads[t := th]
    requires ThreadOk(s1, th)
    requires s1.lock == if InLock(th) then Some(t) else None
    ensures ThreadsInv(s1) && LockInv(s1)
  {
    assert s.lock == Some(t);
    forall u | 0 <= u < |s1.threads|
      ensures ThreadOk(s1, s1.threads[u])
      ensures InLock(s1.threads[u]) <==> s1.lock == Some(u)
    {
      assert ThreadOk(s, s.threads[u]);
      assert InLock(s.threads[u]) <==> s.lock == Some(u);
    }
  }

  lemma {:induction false} TuplePollKeepsInv(s: State, t: nat)
    requires Inv(s) && Enabled(s, Poll(t)) && s.ring.nreaders > 0
    requires AnswerOf(s.queues[s.ring.slots[s.ring.next]]).GotTuple?
    ensures Inv(Next(s, Poll(t)))
  {
    var th := s.threads[t];
    var q := s.ring.slots[s.ring.next];
    var s1 := Next(s, Poll(t));
    var th1 := s1.threads[t];
    assert ThreadOk(s, th);
    assert InLock(th) <==> s.lock == Some(t);
    assert Live(th) by {
      LiveCountZero(s.threads);
    }
    assert s1.threads == s.threads[t := th1] && s1.ring == s.ring;
    TupleKeepsLog(s, s1, t, q, th1);
    LiveCountUpdate(s.threads, t, th1);
    assert ThreadOk(s1, th1) by {
      assert PolledOk(s.ring, 0, {});
    }
    TuplePollKeepsThreads(s, s1, t, th1);
    TakenKeepsRing(s, s1, q);
  }

  /** Taking a tuple from an active queue leaves the ring as it is. */
  lemma {:induction false} TakenKeepsRing(s: State, s1: State, q: nat)
    requires RingInv(s) && s.ring.next < s.ring.nreaders && q == s.ring.slots[s.ring.next] && s.queues[q].pending != []
    requires s1.queues == s.queues[q := s.queues[q].(pending := s.queues[q].pending[1..])] && s1.ring == s.ring
    ensures RingInv(s1)
  {
    assert Active(s.ring)[s.ring.next] == q;
  }

  lemma {:induction false} PollKeepsInv(s: State, t: nat)
    requires Inv(s) && Enabled(s, Poll(t))
    ensures Inv(Next(s, Poll(t)))
  {
    if s.ring.nreaders == 0 {
      var s1 := Next(s, Poll(t));
      assert ThreadOk(s, s.threads[t]);
      assert InLock(s.threads[t]) <==> s.lock == Some(t);
      HolderMoves(s, s1, t, s1.threads[t]);
    } else if AnswerOf(s.queues[s.ring.slots[s.ring.next]]).GotTuple? {
      TuplePollKeepsInv(s, t);
    } else {
      EmptyPollKeepsInv(s, t);
    }
  }

  lemma {:induction false} StepKeepsInv(s: State, a: Action)
    requires Inv(s) && Enabled(s, a)
    ensures Inv(Next(s, a))
  {
    match a
    case Construct(t) => ConstructKeepsInv(s, t);
    case Poll(t) => PollKeepsInv(s, t);
    case Finish(t) => FinishKeepsInv(s, t);
    case Call(_) => MoveKeepsInv(s, a);
    case Lock(_) => MoveKeepsInv(s, a);
    case Wake(_) => MoveKeepsInv(s, a);
    case Convert(_) => MoveKeepsInv(s, a);
    case _ => EnvironmentKeepsInv(s, a);
  }

  // ---------------------------------------------------------------- whole runs

  /** Every step of the run is enabled where it is taken. */
  predicate IsRun(s: State, run: seq<Action>)
    decreases |run|
  {
    run == [] || (Enabled(s, run[0]) && IsRun(Next(s, run[0]), run[1..]))
  }

  function After(s: State, run: seq<Action>): State
    requires IsRun(s, run)
    decreases |run|
  {
    if run == [] then s else After(Next(s, run[0]), run[1..])
  }

  lemma {:induction false} RunKeepsInv(s: State, run: seq<Action>)
    requires Inv(s) && IsRun(s, run)
    ensures Inv(After(s, run))
    decreases |run|
  {
    if run != [] {
      StepKeepsInv(s, run[0]);
      RunKeepsInv(Next(s, run[0]), run[1..]);
    }
  }

  /**
   Delivery. After any run, what was taken from a queue is exactly the part sent and no longer
   queued, in the order it was sent, and every thread holds exactly what it took, in order.
   */
  lemma {:induction false} ExactlyOnceInOrder(s0: State, run: seq<Action>)
    requires Init(s0) && IsRun(s0, run)
    ensures var s := After(s0, run);
      && (forall q :: 0 <= q < |s.queues| ==> QueueLog(s.log, q) + s.queues[q].pending == s.queues[q].produced)
      && (forall t :: 0 <= t < |s.threads| ==> ThreadLog(s.log, t) == s.threads[t].rows + s.threads[t].buffer)
  {
    InitInv(s0);
    RunKeepsInv(s0, run);
  }

  /**
   Completeness. A thread considers the scan exhausted only when every worker has closed its queue
   and every tuple has been handed out; once all threads are between calls, the chunks hold them all.
   */
  lemma {:induction false} ExhaustedMeansDelivered(s0: State, run: seq<Action>, t: nat)
    requires Init(s0) && IsRun(s0, run)
    requires t < |After(s0, run).threads| && After(s0, run).threads[t].exhausted
    ensures var s := After(s0, run);
      && (forall q :: 0 <= q < |s.queues| ==>
            !s.queues[q].open && s.queues[q].pending == [] && QueueLog(s.log, q) == s.queues[q].produced)
      && ((forall u :: 0 <= u < |s.threads| ==> Quiet(s.threads[u])) ==>
            forall u :: 0 <= u < |s.threads| ==> ThreadLog(s.log, u) == s.threads[u].rows)
  {
    InitInv(s0);
    RunKeepsInv(s0, run);
    var s := After(s0, run);
    assert ThreadOk(s, s.threads[t]);
    forall q | 0 <= q < |s.queues|
      ensures !s.queues[q].open && s.queues[q].pending == [] && QueueLog(s.log, q) == s.queues[q].produced
    {
      assert q !in Active(s.ring);
      assert QueueLog(s.log, q) + [] == QueueLog(s.log, q);
    }
    forall u | 0 <= u < |s.threads| && Quiet(s.threads[u])
      ensures ThreadLog(s.log, u) == s.threads[u].rows
    {
      assert ThreadOk(s, s.threads[u]);
      assert s.threads[u].buffer == [];
      assert s.threads[u].rows + [] == s.threads[u].rows;
    }
  }

  /**
   Cleanup. After any run the reader has been cleaned up at most once, never while a registered
   thread has not unregistered unless the reader itself was destroyed, and no enabled step touches
   the reader's memory after cleanup, whether or not its thread was allowed to register.
   */
  lemma {:induction false} CleanupIsSafe(s0: State, run: seq<Action>, a: Action)
    requires Init(s0) && IsRun(s0, run)
    ensures var s := After(s0, run);
      && s.cleanups <= 1
      && (s.cleanups == 1 && !s.destroyed ==> forall t :: 0 <= t < |s.threads| ==> !Live(s.threads[t]))
      && (Enabled(s, a) && TouchesReader(s, a) ==> s.cleanups == 0)
  {
    InitInv(s0);
    RunKeepsInv(s0, run);
    var s := After(s0, run);
    LiveCountZero(s.threads);
    if Enabled(s, a) && TouchesReader(s, a) && a.Convert? {
      assert ThreadOk(s, s.threads[a.thread]);
    }
  }

  /** Waiting. A thread sleeps on the latch only when every remaining reader has reported an empty queue. */
  lemma {:induction false} WaitsOnlyWhenAllEmpty(s0: State, run: seq<Action>, t: nat)
    requires Init(s0) && IsRun(s0, run)
    requires t < |After(s0, run).threads| && After(s0, run).threads[t].phase.Waiting?
    ensures var s := After(s0, run);
      && RingOk(s.ring)
      && (forall p :: 0 <= p < s.ring.nreaders ==> s.ring.slots[p] in s.threads[t].phase.polled)
      && (forall u :: 0 <= u < |s.threads| && u != t ==> !InLock(s.threads[u]))
  {
    InitInv(s0);
    RunKeepsInv(s0, run);
    var s := After(s0, run);
    assert ThreadOk(s, s.threads[t]);
    assert InLock(s.threads[t]) <==> s.lock == Some(t);
  }

  // ---------------------------------------------------------------- what one call delivers

  /** The rows gained since the call began, after `b` batches. */
  predicate Gained(th: Thread, start: seq<Row>, b: nat)
  {
    |th.rows| - |start| <= b * BATCH_SIZE && (!th.exhausted ==> |th.rows| - |start| == b * BATCH_SIZE)
  }

  /** The thread is in a call that began when its chunks held `start`. */
  predicate InCall(th: Thread, start: seq<Row>)
  {
    && start <= th.rows
    && match th.phase
       case WantLock(b) => b < NUM_BATCHES && th.buffer == [] && Gained(th, start, b)
       case Polling(b, _, _) => b < NUM_BATCHES && |th.buffer| < BATCH_SIZE && Gained(th, start, b)
       case Waiting(b, _) => b < NUM_BATCHES && |th.buffer| < BATCH_SIZE && Gained(th, start, b)
       case Converting(b) =>
         && b < NUM_BATCHES && |th.buffer| <= BATCH_SIZE && (!th.exhausted ==> |th.buffer| == BATCH_SIZE)
         && Gained(th, start, b)
       case Finishing => th.buffer == [] && Gained(th, start, NUM_BATCHES)
       case _ => false
  }

  /** The thread that takes the step, if it is one. */
  function Actor(a: Action): Option<nat>
  {
    match a
    case Produce(_, _) => None
    case Close(_) => None
    case Destroy => None
    case Construct(t) => Some(t)
    case Call(t) => Some(t)
    case Lock(t) => Some(t)
    case Poll(t) => Some(t)
    case Wake(t) => Some(t)
    case Convert(t) => Some(t)
    case Finish(t) => Some(t)
  }

  lemma {:induction false} OthersStay(s: State, a: Action, t: nat)
    requires Enabled(s, a) && t < |s.threads| && Actor(a) != Some(t)
    ensures |Next(s, a).threads| == |s.threads| && Next(s, a).threads[t] == s.threads[t]
  {
  }

  lemma {:induction false} PollStaysInCall(s: State, t: nat, start: seq<Row>)
    requires Inv(s) && Enabled(s, Poll(t)) && InCall(s.threads[t], start)
    ensures |Next(s, Poll(t)).threads| == |s.threads| && InCall(Next(s, Poll(t)).threads[t], start)
  {
  }

  lemma {:induction false} ConvertStaysInCall(s: State, t: nat, start: seq<Row>)
    requires Enabled(s, Convert(t)) && InCall(s.threads[t], start)
    ensures |Next(s, Convert(t)).threads| == |s.threads| && InCall(Next(s, Convert(t)).threads[t], start)
  {
    var th, th1 := s.threads[t], Next(s, Convert(t)).threads[t];
    var b := th.phase.batch;
    assert |th1.rows| == |th.rows| + |th.buffer|;
    assert (b + 1) * BATCH_SIZE == b * BATCH_SIZE + BATCH_SIZE;
    assert start <= th1.rows;
  }

  lemma {:induction false} StaysInCall(s: State, a: Action, t: nat, start: seq<Row>)
    requires Inv(s) && Enabled(s, a) && t < |s.threads| && InCall(s.threads[t], start) && a != Finish(t)
    ensures |Next(s, a).threads| == |s.threads| && InCall(Next(s, a).threads[t], start)
  {
    if Actor(a) != Some(t) {
      OthersStay(s, a, t);
    } else if a.Poll? {
      PollStaysInCall(s, t, start);
    } else if a.Convert? {
      ConvertStaysInCall(s, t, start);
    }
  }

  lemma {:induction false} RunStaysInCall(s: State, run: seq<Action>, t: nat, start: seq<Row>)
    requires Inv(s) && IsRun(s, run) && t < |s.threads| && InCall(s.threads[t], start) && Finish(t) !in run
    ensures |After(s, run).threads| == |s.threads| && InCall(After(s, run).threads[t], start)
    decreases |run|
  {
    if run != [] {
      StepKeepsInv(s, run[0]);
      StaysInCall(s, run[0], t, start);
      RunStaysInCall(Next(s, run[0]), run[1..], t, start);
    }
  }

  lemma {:induction false} RunsInTurn(s: State, a: seq<Action>, b: seq<Action>)
    requires IsRun(s, a + b)
    ensures IsRun(s, a) && IsRun(After(s, a), b) && After(s, a + b) == After(After(s, a), b)
    decreases |a|
  {
    if a == [] {
      assert a + b == b;
    } else {
      assert (a + b)[1..] == a[1..] + b;
      RunsInTurn(Next(s, a[0]), a[1..], b);
    }
  }

  lemma {:induction false} OneStep(s: State, a: Action)
    requires IsRun(s, [a])
    ensures Enabled(s, a) && After(s, [a]) == Next(s, a)
  {
    assert [a][1..] == [];
  }

  lemma {:induction false} CallEnters(s: State, t: nat)
    requires Inv(s) && Enabled(s, Call(t)) && !s.threads[t].exhausted
    ensures
      var called := Next(s, Call(t));
      Inv(called) && t < |called.threads| && InCall(called.threads[t], s.threads[t].rows)
  {
    StepKeepsInv(s, Call(t));
    assert ThreadOk(s, s.threads[t]);
  }

  lemma {:induction false} CallEnds(called: State, during: seq<Action>, t: nat, start: seq<Row>)
    requires Inv(called) && t < |called.threads| && InCall(called.threads[t], start)
    requires Finish(t) !in during && IsRun(called, during + [Finish(t)])
    ensures
      var end := After(called, during + [Finish(t)]);
      && t < |end.threads| && start <= end.threads[t].rows && |end.threads[t].rows| - |start| <= 2048
      && (!end.threads[t].exhausted ==> |end.threads[t].rows| - |start| == 2048)
  {
    RunsInTurn(called, during, [Finish(t)]);
    RunStaysInCall(called, during, t, start);
    OneStep(After(called, during), Finish(t));
  }

  /**
   A call fills its chunk. In every run, the rows a thread gains between a call and the end of that
   call are new, at most 2048, and exactly 2048 unless the thread is exhausted by then.
   */
  lemma {:induction false} CallFillsChunk(s0: State, before: seq<Action>, during: seq<Action>, t: nat)
    requires Init(s0) && Finish(t) !in during
    requires IsRun(s0, before + ([Call(t)] + (during + [Finish(t)])))
    requires IsRun(s0, before) && t < |After(s0, before).threads| && !After(s0, before).threads[t].exhausted
    ensures
      var end := After(s0, before + ([Call(t)] + (during + [Finish(t)])));
      && t < |end.threads| && After(s0, before).threads[t].rows <= end.threads[t].rows
      && |end.threads[t].rows| - |After(s0, before).threads[t].rows| <= 2048
      && (!end.threads[t].exhausted ==> |end.threads[t].rows| - |After(s0, before).threads[t].rows| == 2048)
  {
    InitInv(s0);
    RunKeepsInv(s0, before);
    RunsInTurn(s0, before, [Call(t)] + (during + [Finish(t)]));
    var s := After(s0, before);
    RunsInTurn(s, [Call(t)], during + [Finish(t)]);
    OneStep(s, Call(t));
    CallEnters(s, t);
    CallEnds(Next(s, Call(t)), during, t, s.threads[t].rows);
  }

  // ---------------------------------------------------------------- going on

  /** The step the thread, or whoever holds the lock it needs, can take. */
  function StepFor(s: State, t: nat): Action
    requires t < |s.threads|
  {
    match s.threads[t].phase
    case Fresh => if s.lock.Some? then HolderStep(s) else Construct(t)
    case Idle => Call(t)
    case WantLock(_) => if s.lock.Some? then HolderStep(s) else Lock(t)
    case Polling(_, _, _) => Poll(t)
    case Waiting(_, _) => Wake(t)
    case Converting(_) => Convert(t)
    case Finishing => if s.lock.Some? && s.threads[t].exhausted then HolderStep(s) else Finish(t)
  }

  function HolderStep(s: State): Action
    requires s.lock.Some?
  {
    var h := s.lock.value;
    if h < |s.threads| && s.threads[h].phase.Waiting? then Wake(h) else Poll(h)
  }

  /** The lock, when taken, is held by a thread. */
  ghost predicate HolderInv(s: State) { s.lock.Some? ==> s.lock.value < |s.threads| }

  lemma {:induction false} StepKeepsHolder(s: State, a: Action)
    requires HolderInv(s) && Enabled(s, a)
    ensures HolderInv(Next(s, a))
  {
  }

  lemma {:induction false} RunKeepsHolder(s: State, run: seq<Action>)
    requires HolderInv(s) && IsRun(s, run)
    ensures HolderInv(After(s, run))
    decreases |run|
  {
    if run != [] {
      StepKeepsHolder(s, run[0]);
      RunKeepsHolder(Next(s, run[0]), run[1..]);
    }
  }

  /**
   No deadlock. In every reachable state before the reader is destroyed, every thread can go on, or
   needs a lock whose holder can; and a call by a thread that is not exhausted leaves the thread at work.
   */
  lemma {:induction false} ThreadsGoOn(s0: State, run: seq<Action>, t: nat)
    requires Init(s0) && IsRun(s0, run) && t < |After(s0, run).threads| && !After(s0, run).destroyed
    ensures
      var s := After(s0, run);
      && Enabled(s, StepFor(s, t))
      && (s.threads[t].phase.Idle? && !s.threads[t].exhausted ==>
            Enabled(s, Call(t)) && t < |Next(s, Call(t)).threads| && !Quiet(Next(s, Call(t)).threads[t]))
  {
    InitInv(s0);
    RunKeepsInv(s0, run);
    RunKeepsHolder(s0, run);
    var s := After(s0, run);
    assert InLock(s.threads[t]) <==> s.lock == Some(t);
    if s.lock.Some? {
      var h := s.lock.value;
      assert InLock(s.threads[h]) <==> s.lock == Some(h);
    }
  }

  // ---------------------------------------------------------------- cleanup does happen

  /** Once a thread has gone the count is not zero: it is negative when the last one went. */
  ghost predicate GoneInv(s: State)
  {
    (exists t :: 0 <= t < |s.threads| && s.threads[t].gone) ==> s.count != 0
  }

  lemma {:induction false} StepKeepsGoneFlags(s: State, a: Action)
    requires Inv(s) && Enabled(s, a) && Actor(a).Some? && !a.Finish?
    ensures |Next(s, a).threads| == |s.threads|
    ensures forall u :: 0 <= u < |s.threads| ==> Next(s, a).threads[u].gone == s.threads[u].gone
  {
    var t := Actor(a).value;
    assert ThreadOk(s, s.threads[t]);
    assert Next(s, a).threads[t].gone == s.threads[t].gone;
  }

  lemma {:induction false} StepKeepsGone(s: State, a: Action)
    requires Inv(s) && GoneInv(s) && Enabled(s, a)
    ensures GoneInv(Next(s, a))
  {
    if Actor(a).Some? && !a.Finish? {
      StepKeepsGoneFlags(s, a);
    }
  }

  lemma {:induction false} RunKeepsGone(s: State, run: seq<Action>)
    requires Inv(s) && GoneInv(s) && IsRun(s, run)
    ensures GoneInv(After(s, run))
    decreases |run|
  {
    if run != [] {
      StepKeepsInv(s, run[0]);
      StepKeepsGone(s, run[0]);
      RunKeepsGone(Next(s, run[0]), run[1..]);
    }
  }

  /** When a thread has unregistered and no registered thread is left, the reader has been cleaned up. */
  lemma {:induction false} CleanupHappens(s0: State, run: seq<Action>, t: nat)
    requires Init(s0) && IsRun(s0, run) && t < |After(s0, run).threads| && After(s0, run).threads[t].gone
    requires forall u :: 0 <= u < |After(s0, run).threads| ==> !Live(After(s0, run).threads[u])
    ensures After(s0, run).cleanups == 1
  {
    InitInv(s0);
    RunKeepsInv(s0, run);
    RunKeepsGone(s0, run);
    LiveCountZero(After(s0, run).threads);
  }
}
