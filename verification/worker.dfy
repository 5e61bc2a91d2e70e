/**
  One worker of `thread_request_serve_static`, without the threading: its
  private gate counter, the condition under which it may take a request,
  and one dequeue (selection followed by removal).
 */
module Worker {
  import opened RequestQueue
  import opened Dispatch

  /** A worker's private state: `thread_count`, the gate counter. */
  datatype WorkerState = WorkerState(gate: int)

  /** A worker starts with its gate set to the configured number of threads. */
  function StartWorker(numThreads: int): (w: WorkerState)
    ensures w.gate == numThreads
  {
    WorkerState(numThreads)
  }

  /**
    The worker leaves both waiting loops only when the buffer is non-empty
    and holds at least `gate` entries.
   */
  predicate MayDequeue(q: seq<Request>, w: WorkerState)
  {
    |q| > 0 && |q| >= w.gate
  }

  /** Once the gate is at most one, the only wait left is for a non-empty buffer. */
  lemma GateOpenAtOne(q: seq<Request>, w: WorkerState)
    requires w.gate <= 1
    ensures MayDequeue(q, w) <==> |q| > 0
  {
  }

  /** The outcome of one dequeue: the chosen index, the entry, the rest, the new state. */
  datatype Dequeued = Dequeued(index: nat, served: Request, rest: seq<Request>, worker: WorkerState)

  /**
    One pass of the worker loop up to the unlock: pick an index with the
    policy, remove that entry, decrement the gate (no floor, no reset).
   */
  function Dequeue(q: seq<Request>, w: WorkerState, policy: Policy, r: nat): (d: Dequeued)
    requires MayDequeue(q, w)
    ensures d.index < |q| && d.served == q[d.index]
    ensures d.rest == RemoveAt(q, d.index)
    ensures d.worker.gate == w.gate - 1
    ensures |d.rest| - d.worker.gate == |q| - w.gate
    ensures policy == Fifo ==> d.served == q[0] && d.rest == q[1..]
    ensures policy == Random ==> d.index == r % |q|
    ensures policy == SmallestFileFirst ==> IsFirstMinimum(q, d.index)
  {
    var idx := SelectIndex(policy, q, r);
    Dequeued(idx, q[idx], RemoveAt(q, idx), WorkerState(w.gate - 1))
  }

  /** The gate has no floor: a worker whose gate is 0 moves it to -1. */
  lemma GateGoesNegative(q: seq<Request>, policy: Policy, r: nat)
    requires |q| > 0
    ensures Dequeue(q, WorkerState(0), policy, r).worker.gate == -1
  {
  }

  /** The requests a worker served, in order, and the state it is left in. */
  datatype Drained = Drained(served: seq<Request>, worker: WorkerState)

  /**
    A single worker serving the buffer with no admissions in between, using
    `draws[k]` as the `rand()` value of its k-th pass. The gate never blocks
    here: each pass lowers both the count and the gate by one.
   */
  function Drain(q: seq<Request>, w: WorkerState, policy: Policy, draws: seq<nat>): (out: Drained)
    requires |draws| == |q| && w.gate <= |q|
    ensures multiset(out.served) == multiset(q)
    ensures out.worker.gate == w.gate - |q|
    decreases |q|
  {
    if |q| == 0 then Drained([], w)
    else
      var d := Dequeue(q, w, policy, draws[0]);
      var tail := Drain(d.rest, d.worker, policy, draws[1..]);
      Drained([d.served] + tail.served, tail.worker)
  }

  /** The first request drained is the one the first dequeue serves. */
  lemma DrainFirst(q: seq<Request>, w: WorkerState, policy: Policy, draws: seq<nat>)
    requires |draws| == |q| && w.gate <= |q| && |q| > 0
    ensures var d := Dequeue(q, w, policy, draws[0]);
            Drain(q, w, policy, draws).served == [d.served] + Drain(d.rest, d.worker, policy, draws[1..]).served
  {
  }

  /** Under FIFO, requests are served in the order they were admitted. */
  lemma {:induction false} FifoServesInOrder(q: seq<Request>, w: WorkerState, draws: seq<nat>)
    requires |draws| == |q| && w.gate <= |q|
    ensures Drain(q, w, Fifo, draws).served == q
    decreases |q|
  {
    if |q| > 0 {
      var d := Dequeue(q, w, Fifo, draws[0]);
      DrainFirst(q, w, Fifo, draws);
      assert d.served == q[0] && d.rest == q[1..];
      FifoServesInOrder(d.rest, d.worker, draws[1..]);
      assert [q[0]] + q[1..] == q;
    }
  }

  /** File sizes never decrease along a sequence of served requests. */
  ghost predicate SortedBySize(s: seq<Request>)
  {
    forall i, j :: 0 <= i < j < |s| ==> s[i].filesize <= s[j].filesize
  }

  /** A size bound on every entry of `q` holds for any sub-multiset of `q`. */
  lemma LowerBoundCarries(q: seq<Request>, bound: int, t: seq<Request>)
    requires forall j :: 0 <= j < |q| ==> bound <= q[j].filesize
    requires multiset(t) <= multiset(q)
    ensures forall k :: 0 <= k < |t| ==> bound <= t[k].filesize
  {
    forall k | 0 <= k < |t|
      ensures bound <= t[k].filesize
    {
      assert t[k] in multiset(t);
      assert t[k] in q;
    }
  }

  /** A request no larger than anything in a sorted sequence may go in front of it. */
  lemma ConsSorted(x: Request, t: seq<Request>)
    requires SortedBySize(t)
    requires forall k :: 0 <= k < |t| ==> x.filesize <= t[k].filesize
    ensures SortedBySize([x] + t)
  {
  }

  /** Under smallest-file-first, requests are served in non-decreasing size. */
  lemma {:induction false} SmallestFirstServesSorted(q: seq<Request>, w: WorkerState, draws: seq<nat>)
    requires |draws| == |q| && w.gate <= |q|
    ensures SortedBySize(Drain(q, w, SmallestFileFirst, draws).served)
    decreases |q|
  {
    if |q| > 0 {
      var d := Dequeue(q, w, SmallestFileFirst, draws[0]);
      var tail := Drain(d.rest, d.worker, SmallestFileFirst, draws[1..]).served;
      SmallestFirstServesSorted(d.rest, d.worker, draws[1..]);
      assert Drain(q, w, SmallestFileFirst, draws).served == [d.served] + tail;
      assert multiset(tail) <= multiset(q);
      LowerBoundCarries(q, d.served.filesize, tail);
      ConsSorted(d.served, tail);
    }
  }

  /**
    Two admissions of 100 and 10 bytes under smallest-file-first, with the
    gate satisfied: the 10-byte file is served first.
   */
  lemma SmallestFirstScenario(big: Request, small: Request)
    requires big.filesize == 100 && small.filesize == 10
    ensures Drain([big, small], StartWorker(2), SmallestFileFirst, [0, 0]).served == [small, big]
  {
  }

  /** The general step behind the scenario: the smaller second entry is taken first. */
  lemma SmallerSecondIsChosen(big: Request, small: Request)
    requires small.filesize < big.filesize
    ensures var d := Dequeue([big, small], StartWorker(2), SmallestFileFirst, 0);
            d.served == small && d.rest == [big] && d.worker == StartWorker(1)
  {
  }

  /**
    The gate starts at the number of threads and is never reset: after a
    started worker has drained a buffer of at least `numThreads` requests,
    its gate is `numThreads - |q|`, at most 0, and from then on it waits
    only for a non-empty buffer.
   */
  lemma GateOpensAfterStart(numThreads: int, q: seq<Request>, policy: Policy, draws: seq<nat>, later: seq<Request>)
    requires |draws| == |q| && numThreads <= |q|
    ensures Drain(q, StartWorker(numThreads), policy, draws).worker.gate == numThreads - |q| <= 0
    ensures MayDequeue(later, Drain(q, StartWorker(numThreads), policy, draws).worker) <==> |later| > 0
  {
    GateOpenAtOne(later, Drain(q, StartWorker(numThreads), policy, draws).worker);
  }
}
