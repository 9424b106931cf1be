/**
 * The bounded request queue of Threadpool<T> as values: the list of pending
 * request pointers (None is a null pointer), the semaphore's count and the
 * stop flag. Locking is left out: every operation is one atomic step.
 */
module RequestQueue {
  import opened Wrappers

  datatype PoolState<T> = PoolState(queue: seq<Option<T>>, sem: nat, stop: bool)

  /** What one iteration of a worker's loop did. */
  datatype Step<T> =
    | Exited              // the stop flag was set: the loop ends
    | Blocked             // the semaphore is zero: wait() does not return yet
    | Spurious            // woken with an empty queue: nothing to take
    | SkippedNull         // popped a null request: nothing to process
    | Processed(request: T)  // popped a request and called its process()

  /**
   * append(request): refuse when the queue already holds more than
   * maxRequests entries, else push at the back and post the semaphore.
   */
  function Append<T>(s: PoolState<T>, maxRequests: nat, request: Option<T>): (r: (PoolState<T>, bool))
    ensures |s.queue| <= |r.0.queue| <= |s.queue| + 1 && r.0.queue[..|s.queue|] == s.queue
    ensures |s.queue| <= maxRequests + 1 ==> |r.0.queue| <= maxRequests + 1
    ensures r.0.sem as int - |r.0.queue| == s.sem as int - |s.queue| && r.0.stop == s.stop
  {
    if |s.queue| > maxRequests then (s, false)
    else (s.(queue := s.queue + [request], sem := s.sem + 1), true)
  }

  /**
   * One iteration of run(): unless stopped, wait for the semaphore, then pop
   * the front of the queue if there is one and process it unless it is null.
   */
  function WorkerStep<T>(s: PoolState<T>): (r: (PoolState<T>, Step<T>))
    ensures r.0.queue == s.queue || (|s.queue| > 0 && r.0.queue == s.queue[1..])
    ensures r.0.sem <= s.sem && r.0.stop == s.stop
    ensures s.sem == |s.queue| ==> r.0.sem == |r.0.queue|
    ensures r.1.Exited? <==> s.stop
  {
    if s.stop then (s, Exited)
    else if s.sem == 0 then (s, Blocked)
    else if |s.queue| == 0 then (s.(sem := s.sem - 1), Spurious)
    else
      var front := s.queue[0];
      (s.(queue := s.queue[1..], sem := s.sem - 1), if front.Some? then Processed(front.value) else SkippedNull)
  }

  /** A refused append changes nothing; an accepted one adds the request at the back and one to the semaphore. */
  lemma AppendEffect<T>(s: PoolState<T>, maxRequests: nat, request: Option<T>)
    ensures var (s', ok) := Append(s, maxRequests, request);
      && (ok <==> |s.queue| <= maxRequests)
      && (!ok ==> s' == s)
      && (ok ==> s'.queue == s.queue + [request] && s'.sem == s.sem + 1 && s'.stop == s.stop)
  {
  }

  /** Because the test is `>` rather than `>=`, a queue of exactly maxRequests entries still takes one more. */
  lemma AppendAdmitsOneOverLimit<T>(s: PoolState<T>, maxRequests: nat, request: Option<T>)
    requires |s.queue| == maxRequests
    ensures Append(s, maxRequests, request).1 && |Append(s, maxRequests, request).0.queue| == maxRequests + 1
  {
  }

  /** A worker step on an empty queue removes nothing; a non-empty one loses exactly its front. */
  lemma WorkerStepTakesFront<T>(s: PoolState<T>)
    ensures var (s', step) := WorkerStep(s);
      && (|s.queue| == 0 ==> s'.queue == [])
      && (step.Processed? || step.SkippedNull? <==> !s.stop && s.sem > 0 && |s.queue| > 0)
      && (step.Processed? ==> s.queue[0] == Some(step.request) && s'.queue == s.queue[1..])
      && (step.SkippedNull? ==> s.queue[0] == None && s'.queue == s.queue[1..])
  {
  }

  // ---------------------------------------------------------------------
  // Runs: any interleaving of submissions and worker iterations

  datatype Event<T> = Submit(request: Option<T>) | Work

  /** The state after a run, the requests append accepted and the requests handed to process(), in order. */
  datatype Trace<T> = Trace(state: PoolState<T>, accepted: seq<Option<T>>, processed: seq<T>)

  /** One event: the new state, what append accepted and what reached process(). */
  function Apply<T>(s: PoolState<T>, maxRequests: nat, event: Event<T>): Trace<T>
  {
    match event
    case Submit(request) =>
      var (s', ok) := Append(s, maxRequests, request);
      Trace(s', if ok then [request] else [], [])
    case Work =>
      var (s', step) := WorkerStep(s);
      Trace(s', [], if step.Processed? then [step.request] else [])
  }

  function Run<T>(s: PoolState<T>, maxRequests: nat, events: seq<Event<T>>): Trace<T>
    decreases |events|
  {
    if events == [] then Trace(s, [], [])
    else
      var first := Apply(s, maxRequests, events[0]);
      var rest := Run(first.state, maxRequests, events[1..]);
      Trace(rest.state, first.accepted + rest.accepted, first.processed + rest.processed)
  }

  /** The request a queue entry holds, if it is not null. */
  function Kept<T>(entry: Option<T>): (r: seq<T>)
    ensures |r| <= 1
  {
    if entry.Some? then [entry.value] else []
  }

  /** The non-null requests of a queue, in order. */
  function NonNull<T>(q: seq<Option<T>>): seq<T>
  {
    if q == [] then [] else Kept(q[0]) + NonNull(q[1..])
  }

  /** No more requests reach process() than there are queue entries, and each of them was queued. */
  lemma {:induction false} NonNullFromQueue<T>(q: seq<Option<T>>)
    ensures |NonNull(q)| <= |q|
    ensures forall x :: x in NonNull(q) ==> Some(x) in q
    decreases |q|
  {
    if q != [] {
      NonNullFromQueue(q[1..]);
      assert forall x :: x in Kept(q[0]) ==> Some(x) == q[0];
    }
  }

  lemma {:induction false} NonNullConcat<T>(a: seq<Option<T>>, b: seq<Option<T>>)
    ensures NonNull(a + b) == NonNull(a) + NonNull(b)
    decreases |a|
  {
    if a == [] {
      assert a + b == b;
    } else {
      assert (a + b)[0] == a[0];
      assert (a + b)[1..] == a[1..] + b;
      NonNullConcat(a[1..], b);
      calc {
        NonNull(a + b);
        Kept(a[0]) + NonNull(a[1..] + b);
        Kept(a[0]) + (NonNull(a[1..]) + NonNull(b));
        (Kept(a[0]) + NonNull(a[1..])) + NonNull(b);
      }
    }
  }

  /** The queue never holds more than maxRequests + 1 entries once it starts within that bound. */
  lemma {:induction false} RunKeepsBound<T>(s: PoolState<T>, maxRequests: nat, events: seq<Event<T>>)
    requires |s.queue| <= maxRequests + 1
    ensures |Run(s, maxRequests, events).state.queue| <= maxRequests + 1
    decreases |events|
  {
    if events != [] {
      RunKeepsBound(Apply(s, maxRequests, events[0]).state, maxRequests, events[1..]);
    }
  }

  /** The semaphore's count equals the queue's length across any run that starts with them equal. */
  lemma {:induction false} RunKeepsBalance<T>(s: PoolState<T>, maxRequests: nat, events: seq<Event<T>>)
    requires s.sem == |s.queue|
    ensures var t := Run(s, maxRequests, events); t.state.sem == |t.state.queue|
    decreases |events|
  {
    if events != [] {
      RunKeepsBalance(Apply(s, maxRequests, events[0]).state, maxRequests, events[1..]);
    }
  }

  /** One event keeps the queue first-in first-out, whatever is appended after it. */
  lemma ApplyIsFifo<T>(s: PoolState<T>, maxRequests: nat, event: Event<T>, later: seq<Option<T>>)
    ensures var t := Apply(s, maxRequests, event);
      NonNull(s.queue + t.accepted + later) == t.processed + NonNull(t.state.queue + later)
  {
    var t := Apply(s, maxRequests, event);
    if event.Work? && !s.stop && s.sem > 0 && |s.queue| > 0 {
      var q := s.queue + t.accepted + later;
      assert q[0] == s.queue[0] && q[1..] == t.state.queue + later;
      assert NonNull(q) == Kept(s.queue[0]) + NonNull(t.state.queue + later);
    } else if event.Submit? {
      assert s.queue + t.accepted + later == t.state.queue + later;
      assert t.processed == [];
    } else {
      assert t.accepted == [] && t.processed == [] && t.state.queue == s.queue;
      assert s.queue + t.accepted + later == s.queue + later;
    }
  }

  /** Two first-in first-out stretches of a run join into one. */
  lemma FifoChain<T>(q: seq<Option<T>>, a1: seq<Option<T>>, a2: seq<Option<T>>, p1: seq<T>, p2: seq<T>,
                     q1: seq<Option<T>>, q2: seq<Option<T>>)
    requires NonNull(q + a1 + a2) == p1 + NonNull(q1 + a2)
    requires NonNull(q1 + a2) == p2 + NonNull(q2)
    ensures NonNull(q + (a1 + a2)) == (p1 + p2) + NonNull(q2)
  {
    assert q + (a1 + a2) == q + a1 + a2;
  }

  /**
   * FIFO: the non-null requests that were queued or accepted during a run are
   * exactly those processed, in the same order, followed by those still queued.
   */
  lemma {:induction false} RunIsFifo<T>(s: PoolState<T>, maxRequests: nat, events: seq<Event<T>>)
    ensures var t := Run(s, maxRequests, events);
      NonNull(s.queue + t.accepted) == t.processed + NonNull(t.state.queue)
    decreases |events|
  {
    var t := Run(s, maxRequests, events);
    if events == [] {
      assert s.queue + t.accepted == s.queue;
      assert t.processed + NonNull(t.state.queue) == NonNull(s.queue);
    } else {
      var first := Apply(s, maxRequests, events[0]);
      var rest := Run(first.state, maxRequests, events[1..]);
      assert t == Trace(rest.state, first.accepted + rest.accepted, first.processed + rest.processed);
      RunIsFifo(first.state, maxRequests, events[1..]);
      ApplyIsFifo(s, maxRequests, events[0], rest.accepted);
      FifoChain(s.queue, first.accepted, rest.accepted, first.processed, rest.processed, first.state.queue, rest.state.queue);
    }
  }

  /** From an empty queue, requests reach process() in the order append accepted them. */
  lemma FifoFromEmpty<T>(s: PoolState<T>, maxRequests: nat, events: seq<Event<T>>)
    requires s.queue == []
    ensures var t := Run(s, maxRequests, events); t.processed <= NonNull(t.accepted)
  {
    var t := Run(s, maxRequests, events);
    RunIsFifo(s, maxRequests, events);
    assert s.queue + t.accepted == t.accepted;
  }
}
