/**
 The shrinking array of parallel-worker queues that a table reader polls: the loop of
 `GetNextWorkerTuple`, its array shifting and its waiting rule.
 */
module WorkerRing {
  import opened Results

  /** What one non-blocking read of a worker queue reports. */
  datatype Answer = ReaderDone | GotTuple(tuple: int) | WouldBlock

  /**
   `slots` is the array of readers, of fixed size; the first `nreaders` of them are still active and
   `next` is the one to poll.
   */
  datatype Ring = Ring(slots: seq<nat>, nreaders: nat, next: nat)

  datatype Verdict = Again | Wait | Return(result: Option<int>)

  predicate RingOk(r: Ring)
  {
    r.nreaders <= |r.slots| && (r.nreaders > 0 ==> r.next < r.nreaders)
  }

  function Active(r: Ring): seq<nat>
    requires RingOk(r)
  {
    r.slots[..r.nreaders]
  }

  /** `memmove` of the entries behind position `i`, for an array whose last active entry is `n`. */
  function ShiftDown(slots: seq<nat>, i: nat, n: nat): seq<nat>
    requires i <= n < |slots|
  {
    slots[..i] + slots[i + 1..n + 1] + slots[n..]
  }

  /** One pass through the loop body. */
  function RingStep(r: Ring, visited: nat, a: Answer): (s: (Ring, nat, Verdict))
    requires RingOk(r) && r.nreaders > 0
    ensures RingOk(s.0) && |s.0.slots| == |r.slots|
    ensures s.2 != Return(None) ==> s.0.nreaders > 0
  {
    match a
    case ReaderDone =>
      var n := r.nreaders - 1;
      if n == 0 then (r.(nreaders := 0), visited, Return(None))
      else (Ring(ShiftDown(r.slots, r.next, n), n, if r.next >= n then 0 else r.next), visited, Again)
    case GotTuple(v) => (r, visited, Return(Some(v)))
    case WouldBlock =>
      var next := if r.next + 1 >= r.nreaders then 0 else r.next + 1;
      if visited + 1 >= r.nreaders then (r.(next := next), 0, Wait)
      else (r.(next := next), visited + 1, Again)
  }

  /** A finished reader leaves the active list, the others keep their order; nothing else changes it. */
  lemma {:induction false} RingStepActive(r: Ring, visited: nat, a: Answer)
    requires RingOk(r) && r.nreaders > 0
    ensures a.ReaderDone? ==>
      Active(RingStep(r, visited, a).0) == Active(r)[..r.next] + Active(r)[r.next + 1..]
    ensures !a.ReaderDone? ==> Active(RingStep(r, visited, a).0) == Active(r)
  {
    if a.ReaderDone? && r.nreaders > 1 {
      var n := r.nreaders - 1;
      var moved := ShiftDown(r.slots, r.next, n);
      assert moved[..n] == r.slots[..r.next] + r.slots[r.next + 1..n + 1];
      assert Active(r)[r.next + 1..] == r.slots[r.next + 1..n + 1];
      assert Active(r)[..r.next] == r.slots[..r.next];
    } else if a.ReaderDone? {
      assert Active(r)[..0] + Active(r)[1..] == [];
    }
  }

  // ---------------------------------------------------------------- the waiting rule

  /** Position `p` was passed among the last `visited` polls. */
  predicate JustPolled(r: Ring, visited: nat, p: nat)
  {
    (p < r.next && r.next - p <= visited) || (r.next <= p && r.next + r.nreaders - p <= visited)
  }

  /**
   `polled` holds readers that have reported an empty queue since the last wait; the last `visited`
   positions of the ring are among them.
   */
  ghost predicate PolledOk(r: Ring, visited: nat, polled: set<nat>)
    requires RingOk(r)
  {
    forall p :: 0 <= p < r.nreaders && JustPolled(r, visited, p) ==> r.slots[p] in polled
  }

  /** The set after a poll: an empty queue is recorded. */
  function PolledAfter(r: Ring, polled: set<nat>, a: Answer): set<nat>
    requires RingOk(r) && r.nreaders > 0
  {
    if a.WouldBlock? then polled + {r.slots[r.next]} else polled
  }

  /**
   The bookkeeping survives every pass, a wait happens only when all remaining readers are in it, and
   after a wait it starts over.
   */
  lemma {:induction false} PollingIsFair(r: Ring, visited: nat, polled: set<nat>, a: Answer)
    requires RingOk(r) && r.nreaders > 0 && PolledOk(r, visited, polled)
    ensures
      var s := RingStep(r, visited, a);
      && (s.2.Again? ==> PolledOk(s.0, s.1, PolledAfter(r, polled, a)))
      && (s.2.Wait? ==> forall p :: 0 <= p < s.0.nreaders ==> s.0.slots[p] in PolledAfter(r, polled, a))
      && (s.2.Wait? ==> PolledOk(s.0, s.1, {}))
  {
    var s := RingStep(r, visited, a);
    if a.ReaderDone? && r.nreaders > 1 {
      var n := r.nreaders - 1;
      assert forall p :: 0 <= p < r.next ==> s.0.slots[p] == r.slots[p];
      assert forall p :: r.next <= p < n ==> s.0.slots[p] == r.slots[p + 1];
      forall p | 0 <= p < n && JustPolled(s.0, visited, p)
        ensures s.0.slots[p] in polled
      {
        var q := if p < r.next then p else p + 1;
        assert JustPolled(r, visited, q);
      }
    }
  }

  /** How many polls can still happen before the loop waits or returns. */
  function PollsLeft(r: Ring, visited: nat): nat
  {
    r.nreaders + (if visited < r.nreaders then r.nreaders - visited else 0)
  }

  lemma {:induction false} PollMakesProgress(r: Ring, visited: nat, a: Answer)
    requires RingOk(r) && r.nreaders > 0
    requires RingStep(r, visited, a).2.Again?
    ensures PollsLeft(RingStep(r, visited, a).0, RingStep(r, visited, a).1) < PollsLeft(r, visited)
  {
  }

  // ---------------------------------------------------------------- whole calls

  /** How a call ends: with a result, or still waiting for answers that have not come. */
  datatype Ending = Returned(result: Option<int>) | Starved

  /** A call of `GetNextWorkerTuple`: state left behind, ending, answers used, waits made. */
  datatype Outcome = Outcome(ring: Ring, ending: Ending, used: nat, waits: nat)

  function RunWorker(r: Ring, visited: nat, answers: seq<Answer>): (o: Outcome)
    requires RingOk(r)
    ensures RingOk(o.ring) && |o.ring.slots| == |r.slots| && o.used <= |answers|
    ensures o.ending == Returned(None) <==> o.ring.nreaders == 0
    decreases |answers|
  {
    if r.nreaders == 0 then Outcome(r, Returned(None), 0, 0)
    else if answers == [] then Outcome(r, Starved, 0, 0)
    else
      var s := RingStep(r, visited, answers[0]);
      match s.2
      case Return(v) => Outcome(s.0, Returned(v), 1, 0)
      case _ =>
        var o := RunWorker(s.0, s.1, answers[1..]);
        o.(used := o.used + 1, waits := o.waits + if s.2.Wait? then 1 else 0)
  }

  /** Between waits a call makes at most twice as many polls as there are readers. */
  lemma {:induction false} PollsBetweenWaits(r: Ring, visited: nat, answers: seq<Answer>)
    requires RingOk(r) && RunWorker(r, visited, answers).waits == 0
    ensures RunWorker(r, visited, answers).used <= PollsLeft(r, visited)
    ensures PollsLeft(r, visited) <= 2 * r.nreaders
    decreases |answers|
  {
    if r.nreaders > 0 && answers != [] {
      var s := RingStep(r, visited, answers[0]);
      if s.2.Again? {
        PollMakesProgress(r, visited, answers[0]);
        PollsBetweenWaits(s.0, s.1, answers[1..]);
      }
    }
  }

  /** No answer is made up or lost: the tuple returned is the last answer used, the ones before held none. */
  lemma {:induction false} ReturnsTheFirstTuple(r: Ring, visited: nat, answers: seq<Answer>)
    requires RingOk(r)
    ensures
      var o := RunWorker(r, visited, answers);
      && (o.ending.Returned? && o.ending.result.Some? ==>
            o.used > 0 && answers[o.used - 1] == GotTuple(o.ending.result.value)
            && forall i :: 0 <= i < o.used - 1 ==> !answers[i].GotTuple?)
      && (!(o.ending.Returned? && o.ending.result.Some?) ==> forall i :: 0 <= i < o.used ==> !answers[i].GotTuple?)
    decreases |answers|
  {
    if r.nreaders > 0 && answers != [] {
      var s := RingStep(r, visited, answers[0]);
      if !s.2.Return? {
        ReturnsTheFirstTuple(s.0, s.1, answers[1..]);
        var o := RunWorker(s.0, s.1, answers[1..]);
        assert forall i :: 0 < i <= o.used ==> answers[i] == answers[1..][i - 1];
      }
    }
  }

  // ---------------------------------------------------------------- the reader object

  /** A call of which `used` polls and `waits` waits are done ends as `whole`. */
  ghost predicate Ahead(whole: Outcome, r: Ring, visited: nat, rest: seq<Answer>, used: nat, waits: nat)
    requires RingOk(r)
  {
    var o := RunWorker(r, visited, rest);
    whole == o.(used := used + o.used, waits := waits + o.waits)
  }

  lemma {:induction false} PollAhead(whole: Outcome, r: Ring, visited: nat, rest: seq<Answer>, used: nat, waits: nat)
    requires RingOk(r) && r.nreaders > 0 && rest != [] && Ahead(whole, r, visited, rest, used, waits)
    ensures
      var s := RingStep(r, visited, rest[0]);
      if s.2.Return? then whole == Outcome(s.0, Returned(s.2.result), used + 1, waits)
      else Ahead(whole, s.0, s.1, rest[1..], used + 1, waits + if s.2.Wait? then 1 else 0)
  {
  }

  class TableReader {
    var readers: array<nat>
    var nreaders: int
    var next: int

    ghost predicate Valid()
      reads this, readers
    {
      0 <= nreaders <= readers.Length && 0 <= next && (nreaders > 0 ==> next < nreaders)
    }

    ghost function State(): (r: Ring)
      requires Valid()
      reads this, readers
      ensures RingOk(r)
    {
      Ring(readers[..], nreaders, next)
    }

    constructor (workers: seq<nat>)
      ensures Valid() && fresh(readers)
      ensures State() == Ring(workers, |workers|, 0)
    {
      var a := new nat[|workers|](i requires 0 <= i < |workers| => workers[i]);
      readers, nreaders, next := a, |workers|, 0;
      new;
      assert readers[..] == workers;
    }

    /** `memmove` of `nreaders - next` entries down by one place. */
    method Shift()
      requires 0 <= next <= nreaders < readers.Length
      modifies readers
      ensures readers[..] == ShiftDown(old(readers[..]), next, nreaders)
    {
      var i := next;
      while i < nreaders
        invariant next <= i <= nreaders
        invariant forall k :: 0 <= k < readers.Length && !(next <= k < i) ==> readers[k] == old(readers[k])
        invariant forall k :: next <= k < i ==> readers[k] == old(readers[k + 1])
      {
        readers[i] := readers[i + 1];
        i := i + 1;
      }
      ghost var was := old(readers[..]);
      assert |ShiftDown(was, next, nreaders)| == readers.Length;
      assert forall k :: 0 <= k < readers.Length ==> readers[k] == ShiftDown(was, next, nreaders)[k];
    }

    /** The reader just polled is finished: it leaves the array, and the index wraps around. */
    method RemoveReader(ghost visited: nat)
      requires Valid() && nreaders > 0
      modifies this`nreaders, this`next, readers
      ensures Valid() && readers == old(readers)
      ensures State() == RingStep(old(State()), visited, ReaderDone).0
    {
      nreaders := nreaders - 1;
      if nreaders == 0 {
        return;
      }
      Shift();
      if next >= nreaders {
        next := 0;
      }
    }

    /** The reader just polled has nothing: the index moves on, and a full round without tuples waits. */
    method SkipReader(visited: nat) returns (now: nat, waited: bool)
      requires Valid() && nreaders > 0
      modifies this`next
      ensures Valid()
      ensures (State(), now, if waited then Wait else Again) == RingStep(old(State()), visited, WouldBlock)
    {
      next := next + 1;
      if next >= nreaders {
        next := 0;
      }
      now := visited + 1;
      waited := now >= nreaders;
      if waited {
        now := 0;
      }
    }

    /**
     The polling loop. The answers of the queues come from outside, in the order they are asked for;
     when they run out while the loop still needs one, the call is `Starved`.
     */
    method GetNextWorkerTuple(answers: seq<Answer>) returns (ending: Ending, used: nat, waits: nat)
      requires Valid()
      modifies this`nreaders, this`next, readers
      ensures Valid() && readers == old(readers)
      ensures Outcome(State(), ending, used, waits) == RunWorker(old(State()), 0, answers)
    {
      var visited: nat := 0;
      used, waits := 0, 0;
      ghost var whole := RunWorker(State(), 0, answers);
      assert answers[0..] == answers;
      while next < nreaders
        invariant Valid() && readers == old(readers)
        invariant used <= |answers|
        invariant Ahead(whole, State(), visited, answers[used..], used, waits)
        decreases |answers| - used
      {
        if used == |answers| {
          return Starved, used, waits;
        }
        ghost var before, seen := State(), visited;
        var a := answers[used];
        assert answers[used..][0] == a && answers[used..][1..] == answers[used + 1..];
        PollAhead(whole, before, seen, answers[used..], used, waits);
        used := used + 1;
        match a
        case ReaderDone =>
          RemoveReader(visited);
          if nreaders == 0 {
            return Returned(None), used, waits;
          }
        case GotTuple(v) =>
          return Returned(Some(v)), used, waits;
        case WouldBlock =>
          var waited;
          visited, waited := SkipReader(visited);
          if waited {
            waits := waits + 1;
          }
      }
      return Returned(None), used, waits;
    }
  }
}
