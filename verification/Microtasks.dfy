/** The microtask queue polyfill of engine/polyfill/polyfill.go: a drain that
    takes whole batches, against a queue that runs one task at a time. */
module Microtasks {
  const MAX_BATCHES := 5000

  /** The queue, the state of everything else, and the tasks run so far. */
  datatype Sim<W, T> = Sim(world: W, queue: seq<T>, ran: seq<T>)

  /** One task: it changes the world and queues further tasks. An exception is
      swallowed, so a task always ends this way. */
  type Effect<!W, !T> = (W, T) -> (W, seq<T>)

  /** The plain queue: take the first task, run it, append what it queues. */
  function RunOne<W, T>(run: Effect<W, T>, s: Sim<W, T>): Sim<W, T>
    requires s.queue != []
  {
    var (world, queued) := run(s.world, s.queue[0]);
    Sim(world, s.queue[1..] + queued, s.ran + [s.queue[0]])
  }

  /** At most k tasks, one at a time. */
  function Fifo<W, T>(run: Effect<W, T>, s: Sim<W, T>, k: nat): Sim<W, T>
    decreases k
  {
    if k == 0 || s.queue == [] then s else Fifo(run, RunOne(run, s), k - 1)
  }

  lemma {:induction false} FifoAdd<W, T>(run: Effect<W, T>, s: Sim<W, T>, j: nat, k: nat)
    ensures Fifo(run, Fifo(run, s, j), k) == Fifo(run, s, j + k)
    decreases j
  {
    if j > 0 && s.queue != [] { FifoAdd(run, RunOne(run, s), j - 1, k); }
  }

  /** Tasks run in the order in which they were queued and none is dropped: what
      has run, followed by what waits, only ever grows at the end. */
  lemma {:induction false} FifoKeepsOrder<W, T>(run: Effect<W, T>, s: Sim<W, T>, k: nat)
    ensures var t := Fifo(run, s, k); s.ran + s.queue <= t.ran + t.queue && s.ran <= t.ran
    ensures var t := Fifo(run, s, k); |t.ran| == |s.ran| + k || (t.queue == [] && |t.ran| <= |s.ran| + k)
    decreases k
  {
    if k > 0 && s.queue != [] {
      var u := RunOne(run, s);
      assert s.queue == [s.queue[0]] + s.queue[1..];
      assert u.ran + u.queue == s.ran + s.queue + run(s.world, s.queue[0]).1;
      FifoKeepsOrder(run, u, k - 1);
    }
  }

  /** n batches: each runs the whole queue as it stands, and what its tasks queue
      waits for the next. */
  function Batches<W, T>(run: Effect<W, T>, s: Sim<W, T>, n: nat): Sim<W, T>
    decreases n
  {
    if n == 0 then s
    else
      var before := Batches(run, s, n - 1);
      Fifo(run, before, |before.queue|)
  }

  lemma {:induction false} BatchesAdd<W, T>(run: Effect<W, T>, s: Sim<W, T>, j: nat, k: nat)
    ensures Batches(run, Batches(run, s, j), k) == Batches(run, s, j + k)
    decreases k
  {
    if k > 0 { BatchesAdd(run, s, j, k - 1); }
  }

  /** Batches of tasks are tasks one at a time: as many as were run, which is at
      least one for each batch that found the queue not empty. */
  lemma {:induction false} BatchesAreFifo<W, T>(run: Effect<W, T>, s: Sim<W, T>, n: nat) returns (k: nat)
    ensures Batches(run, s, n) == Fifo(run, s, k) && |Batches(run, s, n).ran| == |s.ran| + k
    ensures (forall j: nat :: j < n ==> Batches(run, s, j).queue != []) ==> k >= n
    decreases n
  {
    if n == 0 {
      k := 0;
    } else {
      var before := Batches(run, s, n - 1);
      k := BatchesAreFifo(run, s, n - 1);
      FifoAdd(run, s, k, |before.queue|);
      BatchRuns(run, before, |before.queue|);
      k := k + |before.queue|;
    }
  }

  /** A queue of k tasks is enough for k steps. */
  lemma {:induction false} BatchRuns<W, T>(run: Effect<W, T>, s: Sim<W, T>, k: nat)
    requires k <= |s.queue|
    ensures |Fifo(run, s, k).ran| == |s.ran| + k
    decreases k
  {
    if k > 0 { BatchRuns(run, RunOne(run, s), k - 1); }
  }

  class MicrotaskQueue<W, T> {
    var queue: seq<T>
    var world: W
    ghost var ran: seq<T>

    constructor (world: W)
      ensures Now() == Sim(world, [], [])
    {
      queue, this.world, ran := [], world, [];
    }

    ghost function Now(): Sim<W, T>
      reads this
    {
      Sim(world, queue, ran)
    }

    method QueueMicrotask(task: T)
      modifies `queue
      ensures queue == old(queue) + [task]
    {
      queue := queue + [task];
    }

    /** Draining runs batches until the queue is empty or 5000 batches have run,
        each of which found tasks to run. */
    method DrainMicrotasks(run: Effect<W, T>) returns (batches: nat)
      modifies this
      ensures Now() == Batches(run, old(Now()), batches)
      ensures forall j: nat :: j < batches ==> Batches(run, old(Now()), j).queue != []
      ensures batches == 5000 || (batches < 5000 && queue == [])
      ensures forall n: nat :: n <= 5000 && Batches(run, old(Now()), n).queue == [] ==> batches <= n && queue == []
    {
      ghost var start := Now();
      batches := 0;
      while |queue| > 0 && batches < MAX_BATCHES
        invariant batches <= MAX_BATCHES
        invariant Now() == Batches(run, start, batches)
        invariant forall j: nat :: j < batches ==> Batches(run, start, j).queue != []
        decreases MAX_BATCHES - batches
      {
        batches := batches + 1;
        RunBatch(run);
      }
    }

    /** The inner loop: the queue is swapped for an empty one and its tasks run in
        order; what they queue waits. */
    method RunBatch(run: Effect<W, T>)
      modifies this
      ensures Now() == Fifo(run, old(Now()), |old(queue)|)
    {
      ghost var before := Now();
      var batch := queue;
      queue := [];
      var i := 0;
      while i < |batch|
        invariant 0 <= i <= |batch|
        invariant Sim(world, batch[i..] + queue, ran) == Fifo(run, before, i)
      {
        ghost var now := Sim(world, batch[i..] + queue, ran);
        var (world', queued) := run(world, batch[i]);
        assert now.queue[1..] + queued == batch[i + 1..] + (queue + queued);
        assert RunOne(run, now) == Fifo(run, now, 1);
        FifoAdd(run, before, i, 1);
        world, queue := world', queue + queued;
        ran := ran + [batch[i]];
        i := i + 1;
      }
      assert batch[i..] + queue == queue;
    }

    /** A drain cut off at the cap loses nothing: draining again goes on where it
        stopped, and the two together are one run of the plain queue. */
    method DrainAgain(run: Effect<W, T>) returns (first: nat, second: nat)
      modifies this
      ensures Now() == Batches(run, old(Now()), first + second)
      ensures first + second == 10000 || queue == []
      ensures old(ran) + old(queue) <= ran + queue
      ensures exists k: nat :: Now() == Fifo(run, old(Now()), k) && |ran| == |old(ran)| + k
    {
      ghost var start := Now();
      first := DrainMicrotasks(run);
      ghost var mid := Now();
      assert Batches(run, mid, 0) == mid;
      hide Batches, Fifo;
      second := DrainMicrotasks(run);
      BatchesAdd(run, start, first, second);
      ghost var k := BatchesAreFifo(run, start, first + second);
      FifoKeepsOrder(run, start, k);
    }
  }
}
