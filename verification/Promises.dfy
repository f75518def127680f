/** The promise polyfill of engine/polyfill/polyfill.go: promises settle once,
    and every reaction is on a handler list, in the microtask queue, or done. */
module Promises {
  import opened Strings

  datatype Phase = Pending | Fulfilled | Rejected

  /** A resolution value: not a thenable, another promise, a foreign thenable, or
      an object whose `then` getter throws. */
  datatype Value = Plain(id: int) | Ref(p: Promise) | Thenable(id: int) | BadThen(error: int) | SelfResolution

  /** User code, or the two functions that an adopted thenable is handed. */
  datatype Callback = User(id: int) | ResolveFn(p: Promise, latch: Latch) | RejectFn(p: Promise, latch: Latch)

  /** What `then` registers. */
  datatype Reaction = Reaction(id: nat, target: Promise, onFulfilled: Option<Callback>, onRejected: Option<Callback>)

  datatype Job = React(p: Promise, r: Reaction) | Adopt(p: Promise, source: Value, latch: Latch)

  /** The `called` flag shared by the two functions of one adoption. */
  class Latch {
    var called: bool
    constructor () ensures !called { called := false; }
  }

  class Promise {
    var state: Phase
    var value: Value
    var handlers: seq<Reaction>
    /** Every reaction ever registered here, in order. */
    ghost var registered: seq<Reaction>

    constructor ()
      ensures state == Pending && value == Plain(0) && handlers == [] && registered == []
    {
      state, value, handlers, registered := Pending, Plain(0), [], [];
    }
  }

  /** The reactions of p among the jobs, in order. */
  ghost function ReactionsOf(jobs: seq<Job>, p: Promise): seq<Reaction> {
    if jobs == [] then []
    else
      var n := |jobs| - 1;
      ReactionsOf(jobs[..n], p) + (if jobs[n].React? && jobs[n].p == p then [jobs[n].r] else [])
  }

  lemma ReactionsSnoc(jobs: seq<Job>, j: Job, p: Promise)
    ensures ReactionsOf(jobs + [j], p) == ReactionsOf(jobs, p) + (if j.React? && j.p == p then [j.r] else [])
  {
    assert (jobs + [j])[..|jobs|] == jobs;
  }

  ghost function Reacting(p: Promise, hs: seq<Reaction>): (jobs: seq<Job>)
    ensures |jobs| == |hs|
  {
    seq(|hs|, i requires 0 <= i < |hs| => React(p, hs[i]))
  }

  lemma {:induction false} ReactionsAppend(jobs: seq<Job>, p: Promise, hs: seq<Reaction>, q: Promise)
    ensures ReactionsOf(jobs + Reacting(p, hs), q) == ReactionsOf(jobs, q) + (if q == p then hs else [])
    decreases |hs|
  {
    if hs == [] {
      assert jobs + Reacting(p, hs) == jobs;
    } else {
      var n := |hs| - 1;
      assert jobs + Reacting(p, hs) == (jobs + Reacting(p, hs[..n])) + [React(p, hs[n])];
      ReactionsAppend(jobs, p, hs[..n], q);
      ReactionsSnoc(jobs + Reacting(p, hs[..n]), React(p, hs[n]), q);
      assert hs == hs[..n] + [hs[n]];
    }
  }

  /** The state in which resolving a pending promise with v leaves it. */
  ghost predicate ResolvedWith(p: Promise, v: Value)
    reads p
  {
    match v
    case Plain(_) => p.state == Fulfilled && p.value == v
    case SelfResolution => p.state == Fulfilled && p.value == v
    case BadThen(e) => p.state == Rejected && p.value == Plain(e)
    case Ref(q) => if q == p then p.state == Rejected && p.value == SelfResolution else p.state == Pending
    case Thenable(_) => p.state == Pending
  }

  /** How a promise that was open is left by a returned or a thrown value. */
  ghost predicate SettledBy(p: Promise, threw: bool, v: Value)
    reads p
  {
    if threw then p.state == Rejected && p.value == v else ResolvedWith(p, v)
  }

  /** A call that the runtime makes into a callback, or into the `then` of a
      foreign thenable: how it came back, and which promises were pending then. */
  datatype Called =
    | Called(cb: Callback, arg: Value, threw: bool, v: Value, open: set<Promise>)
    | CalledThen(source: Value, p: Promise, latch: Latch, threw: bool, v: Value, used: bool, open: set<Promise>)

  /** What user code comes back with: a value it had, or a promise it made. */
  datatype Return = Given(v: Value) | Made

  /** What user code does in a call: how it comes back, and the promises and
      adoption functions that it leaves alone meanwhile. */
  datatype Answer = Answer(threw: bool, ret: Return, kept: set<Promise>, unused: set<Latch>)

  class Runtime {
    var queue: seq<Job>
    /** The objects a program can reach. */
    var promises: set<Promise>
    var latches: set<Latch>
    /** All jobs ever queued; the first `done` of them have been taken. */
    ghost var log: seq<Job>
    ghost var done: nat
    /** Stands for the identity of the next reaction object. */
    var nextId: nat
    /** The promise each reaction was registered on. */
    ghost var owner: map<nat, Promise>
    /** The calls made by jobs, in order. */
    ghost var calls: seq<Called>

    ghost predicate KnownValue(v: Value)
      reads `promises
    {
      v.Ref? ==> v.p in promises
    }

    ghost predicate KnownCallback(c: Option<Callback>)
      reads `promises, `latches
    {
      c.Some? && !c.value.User? ==> c.value.p in promises && c.value.latch in latches
    }

    ghost predicate KnownReaction(r: Reaction)
      reads `promises, `latches, `owner
    {
      r.id in owner && r.target in promises && KnownCallback(r.onFulfilled) && KnownCallback(r.onRejected)
    }

    ghost predicate KnownJob(j: Job)
      reads `promises, `latches, `owner
    {
      && j.p in promises
      && match j
         case React(_, r) => KnownReaction(r)
         case Adopt(_, source, latch) => KnownValue(source) && latch in latches
    }

    /** Where the reactions of p are: queued or done in the order of their
        registration once p is settled, and all on the handler list before. */
    ghost predicate Accounted(p: Promise)
      reads p`registered, p`handlers, p`state, `log
    {
      && p.registered == ReactionsOf(log, p) + p.handlers
      && (if p.state == Pending then ReactionsOf(log, p) == [] else p.handlers == [])
    }

    ghost predicate KnownPromise(p: Promise)
      reads p`value, p`registered, `promises, `latches, `owner
    {
      && KnownValue(p.value)
      && (forall r :: r in p.registered ==> KnownReaction(r) && owner[r.id] == p)
      && (forall i, j :: 0 <= i < j < |p.registered| ==> p.registered[i].id != p.registered[j].id)
    }

    ghost predicate Valid()
      reads this, promises
    {
      && done <= |log| && queue == log[done..]
      && (forall id :: id in owner ==> id < nextId)
      && (forall j {:trigger KnownJob(j)} :: j in log ==> KnownJob(j))
      && (forall p {:trigger Accounted(p)} :: p in promises ==> Accounted(p))
      && (forall p {:trigger KnownPromise(p)} :: p in promises ==> KnownPromise(p))
    }

    /** What never changes: settled promises, and the order of jobs and reactions. */
    twostate predicate Stable()
      reads this, promises
    {
      && old(calls) <= calls
      && old(promises) <= promises && old(latches) <= latches
      && fresh(promises - old(promises)) && fresh(latches - old(latches))
      && old(log) <= log && old(done) <= done && old(nextId) <= nextId
      && forall p :: p in old(promises) ==>
           && (old(p.state) != Pending ==> p.state == old(p.state) && p.value == old(p.value))
           && old(p.registered) <= p.registered
    }

    ghost predicate KnownAnswer(a: Answer)
      reads `promises
    {
      a.ret.Given? ==> KnownValue(a.ret.v)
    }

    /** v is what the answer says. */
    twostate predicate Returned(a: Answer, new v: Value)
      reads this
    {
      match a.ret
      case Given(w) => v == w
      case Made => v.Ref? && v.p !in old(promises)
    }

    /** What an answer leaves alone is as it was. */
    twostate predicate Kept(a: Answer)
      reads a.kept, a.unused
    {
      && (forall q :: q in a.kept ==> q.state == old(q.state) && q.value == old(q.value))
      && (forall l :: l in a.unused ==> l.called == old(l.called))
    }

    ghost function Open(): set<Promise>
      reads `promises, promises`state
    {
      set p | p in promises && p.state == Pending
    }

    /** A promise that was pending is left as the returned or thrown value says; when
        it is still pending, its adoption of the value is the newest job. */
    ghost predicate Concluded(q: Promise, threw: bool, v: Value)
      reads q, `log
    {
      && SettledBy(q, threw, v)
      && (q.state == Pending ==> log != [] && log[|log| - 1].Adopt? && log[|log| - 1].p == q && log[|log| - 1].source == v)
    }

    /** The effect of the job of reaction h on p. The handler that fits the outcome
        is called once with the value; what it returns resolves, and what it
        throws rejects, the derived promise if that was still pending. Without a
        handler the outcome is passed on. A user's handler comes back as the answer
        says, and when it leaves the derived promise alone that was still pending.
        A handler that is one of the functions of an adoption settles its promise,
        the first time. */
    twostate predicate Reacted(p: Promise, h: Reaction, a: Answer)
      reads this, p, h.target, promises, latches
    {
      var handler := if p.state == Fulfilled then h.onFulfilled else h.onRejected;
      if handler == None then
        && calls == old(calls)
        && (old(h.target.state) == Pending ==> Concluded(h.target, p.state == Rejected, p.value))
      else
        && |calls| == |old(calls)| + 1 && calls[..|old(calls)|] == old(calls)
        && var c := calls[|old(calls)|];
        && c.Called? && c.cb == handler.value && c.arg == p.value
        && Open() <= c.open
        && (h.target in c.open ==> Concluded(h.target, c.threw, c.v))
        && (if handler.value.User? then
              && c.threw == a.threw && Returned(a, c.v)
              && (h.target in a.kept && old(h.target.state) == Pending ==> Concluded(h.target, c.threw, c.v))
            else
              && !c.threw && c.v == Plain(0)
              && (h.target != handler.value.p && old(h.target.state) == Pending ==> Concluded(h.target, false, c.v)))
        && (!handler.value.User? && handler.value.p in promises && handler.value.latch in latches ==>
              var cb := handler.value;
              && cb.latch.called
              && (!old(cb.latch.called) && old(cb.p.state) == Pending && cb.p != h.target ==>
                    SettledBy(cb.p, cb.RejectFn?, p.value)))
    }

    /** The effect of the job that adopts a source for p. A promise gets the two
        functions as a reaction. The `then` of a foreign thenable is called once;
        what it throws rejects p, unless one of the functions was used before. User
        code that leaves p and the functions alone leaves nothing else to decide. */
    twostate predicate Adopted(p: Promise, source: Value, latch: Latch, a: Answer)
      reads this, p, latch, promises, if source.Ref? then {source.p} else {}
    {
      if source.Ref? then
        && calls == old(calls)
        && |source.p.registered| == |old(source.p.registered)| + 1
        && source.p.registered[..|old(source.p.registered)|] == old(source.p.registered)
        && source.p.registered[|old(source.p.registered)|].onFulfilled == Some(ResolveFn(p, latch))
        && source.p.registered[|old(source.p.registered)|].onRejected == Some(RejectFn(p, latch))
      else
        && |calls| == |old(calls)| + 1 && calls[..|old(calls)|] == old(calls)
        && var c := calls[|old(calls)|];
        && c.CalledThen? && c.source == source && c.p == p && c.latch == latch
        && Open() <= c.open
        && (c.threw ==> latch.called)
        && (p in c.open ==> if c.threw && !c.used then SettledBy(p, true, c.v) else p.state == Pending)
        && c.threw == a.threw && Returned(a, c.v)
        && (p in a.kept && latch in a.unused ==>
              && latch.called == (old(latch.called) || c.threw)
              && if c.threw && !old(latch.called) && old(p.state) == Pending then SettledBy(p, true, c.v)
                 else p.state == old(p.state) && p.value == old(p.value))
    }

    constructor ()
      ensures Valid() && promises == {} && latches == {}
    {
      queue, promises, latches, log, done, nextId, owner, calls := [], {}, {}, [], 0, 0, map[], [];
    }

    method QueueMicrotask(j: Job)
      requires done <= |log| && queue == log[done..]
      modifies `queue, `log
      ensures log == old(log) + [j] && queue == log[done..]
    {
      queue := queue + [j];
      log := log + [j];
    }

    method New() returns (p: Promise)
      requires Valid()
      modifies `promises
      ensures Valid() && Stable() && fresh(p) && p.state == Pending && p.registered == []
      ensures promises == old(promises) + {p}
    {
      p := new Promise();
      promises := promises + {p};
      NoReactions(log, p);
      forall j | j in log ensures KnownJob(j) { assert old(KnownJob(j)); }
      forall q | q in old(promises) ensures Accounted(q) && KnownPromise(q) {
        assert old(Accounted(q)) && old(KnownPromise(q));
      }
    }

    /** promiseFlush on a promise that has just settled: every handler becomes a
        job, in order, and none runs. */
    method Flush(p: Promise)
      requires done <= |log| && queue == log[done..] && p in promises && p.state != Pending
      requires (forall j {:trigger KnownJob(j)} :: j in log ==> KnownJob(j)) && KnownPromise(p)
      requires forall id :: id in owner ==> id < nextId
      requires forall q {:trigger Accounted(q)} :: q in promises && q != p ==> Accounted(q)
      requires forall q {:trigger KnownPromise(q)} :: q in promises ==> KnownPromise(q)
      requires ReactionsOf(log, p) == [] && p.registered == p.handlers
      modifies `queue, `log, p`handlers
      ensures Valid() && log == old(log) + Reacting(p, old(p.handlers))
    {
      var hs := p.handlers;
      p.handlers := [];
      QueueAll(p, hs);
      assert forall j :: j in log ==> KnownJob(j) by {
        forall j | j in log ensures KnownJob(j) {
          if j !in old(log) { assert j in Reacting(p, hs) && j.r in p.registered; }
        }
      }
      forall q | q in promises ensures Accounted(q) {
        if q != p { assert old(Accounted(q)); }
        ReactionsAppend(old(log), p, hs, q);
      }
    }

    /** promiseHandle for each handler, first registered first. */
    method QueueAll(p: Promise, hs: seq<Reaction>)
      requires done <= |log| && queue == log[done..]
      modifies `queue, `log
      ensures log == old(log) + Reacting(p, hs) && queue == log[done..]
    {
      for i := 0 to |hs|
        invariant done <= |log| && queue == log[done..]
        invariant log == old(log) + Reacting(p, hs[..i])
      {
        QueueMicrotask(React(p, hs[i]));
        assert Reacting(p, hs[..i + 1]) == Reacting(p, hs[..i]) + [React(p, hs[i])];
      }
      assert hs[..|hs|] == hs;
    }

    /** promiseReject: settles a pending promise, once. */
    method Reject(p: Promise, reason: Value)
      requires Valid() && p in promises && KnownValue(reason)
      modifies `queue, `log, p`state, p`value, p`handlers
      ensures Valid() && Stable()
      ensures old(p.state) == Pending ==>
        p.state == Rejected && p.value == reason && log == old(log) + Reacting(p, old(p.handlers))
      ensures old(p.state) != Pending ==> log == old(log)
    {
      assert Accounted(p) && KnownPromise(p);
      if p.state != Pending { return; }
      Settle(p, Rejected, reason);
    }

    method Settle(p: Promise, state: Phase, value: Value)
      requires Valid() && p in promises && KnownValue(value) && p.state == Pending && state != Pending
      modifies `queue, `log, p`state, p`value, p`handlers
      ensures Valid() && Stable() && p.state == state && p.value == value
      ensures log == old(log) + Reacting(p, old(p.handlers))
    {
      assert Accounted(p) && KnownPromise(p);
      p.state, p.value := state, value;
      forall q | q in promises ensures KnownPromise(q) && (q != p ==> Accounted(q)) {
        assert old(Accounted(q)) && old(KnownPromise(q));
      }
      assert [] + p.handlers == p.handlers;
      Flush(p);
    }

    /** promiseResolve: a plain value fulfils, a thenable is adopted by a later
        job, and the promise itself or a throwing getter rejects. */
    method Resolve(p: Promise, value: Value)
      requires Valid() && p in promises && KnownValue(value)
      modifies `queue, `log, `latches, p`state, p`value, p`handlers
      ensures Valid() && Stable()
      ensures old(p.state) == Pending ==> ResolvedWith(p, value)
      ensures old(p.state) == Pending && value.Plain? ==> p.state == Fulfilled && p.value == value
      ensures old(p.state) == Pending && value.BadThen? ==> p.state == Rejected && p.value == Plain(value.error)
      ensures old(p.state) == Pending && value == Ref(p) ==> p.state == Rejected && p.value == SelfResolution
      ensures old(p.state) == Pending && (value.Thenable? || (value.Ref? && value.p != p)) ==> p.state == Pending
      ensures old(p.state) == Pending && p.state != Pending ==> log == old(log) + Reacting(p, old(p.handlers))
      ensures old(p.state) == Pending && p.state == Pending ==>
        exists latch: Latch :: fresh(latch) && !latch.called && log == old(log) + [Adopt(p, value, latch)]
      ensures old(p.state) != Pending ==> log == old(log)
    {
      if p.state != Pending { return; }
      if value == Ref(p) {
        Reject(p, SelfResolution);
        return;
      }
      match value {
        case BadThen(e) => Reject(p, Plain(e));
        case Ref(_) => QueueAdoption(p, value);
        case Thenable(_) => QueueAdoption(p, value);
        case Plain(_) => Settle(p, Fulfilled, value);
        case SelfResolution => Settle(p, Fulfilled, value);
      }
    }

    method QueueAdoption(p: Promise, source: Value)
      requires Valid() && p in promises && KnownValue(source)
      modifies `queue, `log, `latches
      ensures Valid() && Stable()
      ensures exists latch: Latch :: fresh(latch) && !latch.called && log == old(log) + [Adopt(p, source, latch)]
    {
      var latch := new Latch();
      latches := latches + {latch};
      forall q: Promise ensures ReactionsOf(log + [Adopt(p, source, latch)], q) == ReactionsOf(log, q) {
        ReactionsSnoc(log, Adopt(p, source, latch), q);
      }
      QueueMicrotask(Adopt(p, source, latch));
      forall j | j in log ensures KnownJob(j) {
        if j in old(log) { assert old(KnownJob(j)); }
      }
      forall q | q in promises ensures Accounted(q) && KnownPromise(q) {
        assert old(Accounted(q)) && old(KnownPromise(q));
      }
      assert log == old(log) + [Adopt(p, source, latch)];
    }

    /** Names the next reaction and its promise. */
    method NewReactionId(p: Promise) returns (id: nat)
      requires Valid() && p in promises
      modifies `nextId, `owner
      ensures Valid() && id == old(nextId) && nextId == id + 1 && owner == old(owner)[id := p]
      ensures id !in old(owner)
    {
      id := nextId;
      nextId := nextId + 1;
      owner := owner[id := p];
      forall j | j in log ensures KnownJob(j) { assert old(KnownJob(j)); }
      forall r | r in promises ensures Accounted(r) && KnownPromise(r) {
        assert old(Accounted(r)) && old(KnownPromise(r));
      }
    }

    /** A reaction joins the handler list of a pending promise, or the queue. */
    method Register(p: Promise, h: Reaction)
      requires Valid() && p in promises && KnownReaction(h) && owner[h.id] == p
      requires forall r :: r in p.registered ==> r.id != h.id
      modifies `queue, `log, p`handlers, p`registered
      ensures Valid() && p.registered == old(p.registered) + [h]
      ensures log == if p.state == Pending then old(log) else old(log) + [React(p, h)]
    {
      hide ReactionsOf, KnownCallback;
      assert Accounted(p) && KnownPromise(p);
      p.registered := p.registered + [h];
      if p.state == Pending {
        p.handlers := p.handlers + [h];
      } else {
        QueueMicrotask(React(p, h));
      }
      assert KnownPromise(p);
      forall j | j in log ensures KnownJob(j) {
        if j in old(log) { assert old(KnownJob(j)); }
      }
      forall r | r in promises && r != p ensures Accounted(r) && KnownPromise(r) {
        assert old(Accounted(r)) && old(KnownPromise(r));
        ReactionsSnoc(old(log), React(p, h), r);
      }
      ReactionsSnoc(old(log), React(p, h), p);
    }

    /** `then`: registers a reaction and returns the derived promise; nothing runs. */
    method Then(p: Promise, onFulfilled: Option<Callback>, onRejected: Option<Callback>) returns (q: Promise)
      requires Valid() && p in promises && KnownCallback(onFulfilled) && KnownCallback(onRejected)
      modifies `queue, `log, `promises, `nextId, `owner, p`handlers, p`registered
      ensures Valid() && Stable() && fresh(q) && promises == old(promises) + {q} && q.state == Pending
      ensures done == old(done)
      ensures p.registered == old(p.registered) + [Reaction(old(nextId), q, onFulfilled, onRejected)]
      ensures if old(p.state) == Pending then log == old(log)
        else log == old(log) + [React(p, Reaction(old(nextId), q, onFulfilled, onRejected))]
    {
      q := New();
      assert KnownPromise(p);
      var id := NewReactionId(p);
      Register(p, Reaction(id, q, onFulfilled, onRejected));
    }

    // ------------------------------------------------------- running jobs

    method TakeJob() returns (j: Job)
      requires Valid() && queue != []
      modifies `queue, `done
      ensures Valid() && j == old(queue)[0] && queue == old(queue)[1..] && done == old(done) + 1
      ensures KnownJob(j) && (j.React? ==> j.p.state != Pending)
    {
      j := queue[0];
      queue := queue[1..];
      done := done + 1;
      forall p | p in promises ensures Accounted(p) && KnownPromise(p) {
        assert old(Accounted(p)) && old(KnownPromise(p));
      }
      assert log[done - 1] == j && KnownJob(j);
      if j.React? { TakenIsSettled(j.p, done - 1); }
    }

    /** The two functions handed to an adopted thenable: the first call counts. */
    method CallSettler(p: Promise, latch: Latch, resolve: bool, v: Value)
      requires Valid() && p in promises && latch in latches && KnownValue(v)
      modifies `queue, `log, `latches, latch, p`state, p`value, p`handlers
      ensures Valid() && Stable() && latch.called
      ensures old(latch.called) ==> log == old(log) && p.state == old(p.state) && p.value == old(p.value)
      ensures !old(latch.called) && old(p.state) == Pending ==> SettledBy(p, !resolve, v)
      ensures done == old(done)
    {
      if !latch.called {
        latch.called := true;
        if resolve { Resolve(p, v); } else { Reject(p, v); }
      }
    }

    method AnyValue() returns (v: Value)
      ensures KnownValue(v)
    {
      var n: int := *;
      if {
        case true => v := Plain(n);
        case true => v := Thenable(n);
        case true => v := BadThen(n);
        case promises != {} => var p :| p in promises; v := Ref(p);
      }
    }

    method AnyCallback() returns (c: Option<Callback>)
      ensures KnownCallback(c)
    {
      var n: int := *;
      if {
        case true => c := None;
        case true => c := Some(User(n));
        case promises != {} && latches != {} =>
          var p :| p in promises;
          var latch :| latch in latches;
          c := Some(ResolveFn(p, latch));
        case promises != {} && latches != {} =>
          var p :| p in promises;
          var latch :| latch in latches;
          c := Some(RejectFn(p, latch));
      }
    }

    /** Any one call that user code can make. */
    method AnyCall(a: Answer)
      requires Valid()
      modifies this, promises, latches
      ensures Valid() && Stable() && Kept(a) && done == old(done) && calls == old(calls)
    {
      if promises == {} {
        var fresh' := New();
        return;
      }
      var p :| p in promises;
      if {
        case true => var q := New();
        case true =>
          var f := AnyCallback();
          var g := AnyCallback();
          var q := Then(p, f, g);
        case p !in a.kept => AnySettlement(p, a);
      }
    }

    method AnySettlement(p: Promise, a: Answer)
      requires Valid() && p in promises && p !in a.kept
      modifies `queue, `log, `latches, latches, p`state, p`value, p`handlers
      ensures Valid() && Stable() && Kept(a) && done == old(done)
    {
      var v := AnyValue();
      if {
        case true => Resolve(p, v);
        case true => Reject(p, v);
        case latches - a.unused != {} =>
          var latch :| latch in latches - a.unused;
          var resolve: bool := *;
          CallSettler(p, latch, resolve, v);
      }
    }

    /** User code: any number of calls, none of which runs a job. */
    method UserCode(a: Answer)
      requires Valid()
      modifies this, promises, latches
      ensures Valid() && Stable() && Kept(a) && done == old(done) && calls == old(calls)
    {
      var n: int := *;
      for i := 0 to if n < 0 then 0 else n
        invariant Valid() && Stable() && Kept(a) && done == old(done) && calls == old(calls)
      {
        AnyCall(a);
      }
    }

    /** User code that comes back as the answer says. */
    method Answering(a: Answer) returns (v: Value)
      requires Valid() && KnownAnswer(a)
      modifies this, promises, latches
      ensures Valid() && Stable() && Kept(a) && done == old(done) && calls == old(calls)
      ensures KnownValue(v) && Returned(a, v)
    {
      match a.ret {
        case Given(w) =>
          UserCode(a);
          v := w;
        case Made =>
          var before := promises;
          var q := New();
          UserCode(a);
          assert q in promises - before;
          var p :| p in promises - before;
          v := Ref(p);
      }
    }

    /** Calls a callback with a value; it returns a value or throws one. */
    method Call(cb: Callback, arg: Value, a: Answer) returns (threw: bool, v: Value)
      requires Valid() && KnownCallback(Some(cb)) && KnownValue(arg) && KnownAnswer(a)
      modifies this, promises, latches
      ensures Valid() && Stable() && done == old(done) && KnownValue(v)
      ensures calls == old(calls) + [Called(cb, arg, threw, v, Open())]
      ensures cb.User? ==> threw == a.threw && Returned(a, v) && Kept(a)
      ensures !cb.User? ==>
        && !threw && v == Plain(0) && cb.latch.called
        && (!old(cb.latch.called) && old(cb.p.state) == Pending ==> SettledBy(cb.p, cb.RejectFn?, arg))
        && (forall q :: q in old(promises) && q != cb.p ==> q.state == old(q.state))
    {
      match cb {
        case User(_) =>
          v := Answering(a);
          threw := a.threw;
        case ResolveFn(p, latch) =>
          CallSettler(p, latch, true, arg);
          threw, v := false, Plain(0);
        case RejectFn(p, latch) =>
          CallSettler(p, latch, false, arg);
          threw, v := false, Plain(0);
      }
      Record(Called(cb, arg, threw, v, Open()));
    }

    /** Calls the `then` of a foreign thenable with the two functions of a latch. */
    method CallThen(source: Value, p: Promise, latch: Latch, a: Answer) returns (v: Value)
      requires Valid() && p in promises && latch in latches && KnownAnswer(a)
      modifies this, promises, latches
      ensures Valid() && Stable() && done == old(done) && KnownValue(v) && Returned(a, v) && Kept(a)
      ensures calls == old(calls) + [CalledThen(source, p, latch, a.threw, v, latch.called, Open())]
    {
      v := Answering(a);
      Record(CalledThen(source, p, latch, a.threw, v, latch.called, Open()));
    }

    ghost method Record(c: Called)
      requires Valid()
      modifies `calls
      ensures Valid() && calls == old(calls) + [c]
    {
      calls := calls + [c];
      forall j | j in log ensures KnownJob(j) { assert old(KnownJob(j)); }
      forall p | p in promises ensures Accounted(p) && KnownPromise(p) {
        assert old(Accounted(p)) && old(KnownPromise(p));
      }
    }

    /** The job of a reaction: its promise is settled for good. */
    method RunReaction(p: Promise, h: Reaction, a: Answer)
      requires Valid() && p in promises && KnownReaction(h) && p.state != Pending && KnownAnswer(a)
      modifies this, promises, latches
      ensures Valid() && Stable() && done == old(done)
      ensures Reacted(p, h, a)
    {
      assert KnownPromise(p);
      hide Valid, KnownPromise;
      var cb := if p.state == Fulfilled then h.onFulfilled else h.onRejected;
      if cb == None {
        Conclude(h.target, p.state == Rejected, p.value);
      } else {
        hide Reacted, Stable;
        RunHandler(p, h, cb.value, a);
      }
    }

    method RunHandler(p: Promise, h: Reaction, cb: Callback, a: Answer)
      requires Valid() && p in promises && KnownReaction(h) && p.state != Pending && KnownValue(p.value) && KnownAnswer(a)
      requires Some(cb) == if p.state == Fulfilled then h.onFulfilled else h.onRejected
      modifies this, promises, latches
      ensures Valid() && Stable() && done == old(done)
      ensures Reacted(p, h, a)
    {
      hide Valid, ResolvedWith, SettledBy;
      var threw, v := Call(cb, p.value, a);
      Conclude(h.target, threw, v);
    }

    /** promiseResolve with what was returned, promiseReject with what was thrown. */
    method Conclude(q: Promise, threw: bool, v: Value)
      requires Valid() && q in promises && KnownValue(v)
      modifies `queue, `log, `latches, q`state, q`value, q`handlers
      ensures Valid() && Stable() && Open() <= old(Open())
      ensures old(q.state) == Pending ==> Concluded(q, threw, v)
    {
      if threw { Reject(q, v); } else { Resolve(q, v); }
    }

    /** The job that adopts a thenable. */
    method RunAdoption(p: Promise, source: Value, latch: Latch, a: Answer)
      requires Valid() && p in promises && KnownValue(source) && latch in latches && KnownAnswer(a)
      modifies this, promises, latches
      ensures Valid() && Stable() && done == old(done)
      ensures Adopted(p, source, latch, a)
    {
      hide Valid;
      if source.Ref? {
        var q := Then(source.p, Some(ResolveFn(p, latch)), Some(RejectFn(p, latch)));
        return;
      }
      var e := CallThen(source, p, latch, a);
      if a.threw { CallSettler(p, latch, false, e); }
    }

    /** The next turn: exactly one job is taken, the first, and its effect is that
        of running it. */
    method RunNext(a: Answer)
      requires Valid() && queue != [] && KnownAnswer(a)
      modifies this, promises, latches
      ensures Valid() && Stable() && done == old(done) + 1
      ensures match old(queue[0])
        case React(p, r) => Reacted(p, r, a)
        case Adopt(p, source, latch) => Adopted(p, source, latch, a)
    {
      hide Valid, KnownJob, SettledBy, ResolvedWith, Concluded, Open;
      var j := TakeJob();
      RunJob(j, a);
    }

    method RunJob(j: Job, a: Answer)
      requires Valid() && KnownAnswer(a) && KnownJob(j) && (j.React? ==> j.p.state != Pending)
      modifies this, promises, latches
      ensures Valid() && Stable() && done == old(done)
      ensures match j
        case React(p, r) => Reacted(p, r, a)
        case Adopt(p, source, latch) => Adopted(p, source, latch, a)
    {
      hide Valid, SettledBy, ResolvedWith, Stable, Reacted, Adopted;
      match j {
        case React(p, r) => RunReaction(p, r, a);
        case Adopt(p, source, latch) => RunAdoption(p, source, latch, a);
      }
    }

    lemma TakenIsSettled(p: Promise, k: nat)
      requires Valid() && p in promises && k < |log| && log[k].React? && log[k].p == p
      ensures p.state != Pending
    {
      assert Accounted(p);
      ReactionInLog(log, p, k);
    }

    method AnyAnswer() returns (a: Answer)
      ensures KnownAnswer(a)
    {
      var v := AnyValue();
      var threw: bool, made: bool := *, *;
      var kept: set<Promise>, unused: set<Latch> := *, *;
      a := Answer(threw, if made then Made else Given(v), kept, unused);
    }

    /** Any program: user code and turns of the queue in any order. In every
        reachable state the books balance, settled promises are as they were,
        and jobs leave the queue in the order in which they entered it. */
    method AnyRun(turns: nat)
      requires Valid()
      modifies this, promises, latches
      ensures Valid() && Stable()
    {
      for i := 0 to turns
        invariant Valid() && Stable()
      {
        var a := AnyAnswer();
        if {
          case true => UserCode(a);
          case queue != [] => RunNext(a);
        }
      }
    }

    /** A registered reaction is in exactly one place: on the handler list of its
        still pending promise, or once among the jobs, waiting or taken. */
    lemma ExactlyOnePlace(p: Promise, r: Reaction)
      requires Valid() && p in promises && r in p.registered
      ensures p.state == Pending ==> r in p.handlers && forall k :: 0 <= k < |log| ==> log[k] != React(p, r)
      ensures p.state != Pending ==> p.handlers == [] && exists k :: 0 <= k < |log| && log[k] == React(p, r)
      ensures forall k, l :: 0 <= k < l < |log| && log[k] == React(p, r) ==> log[l] != React(p, r)
      ensures forall q, k :: q in promises && q != p && 0 <= k < |log| && log[k].React? && log[k].p == q ==> log[k].r != r
    {
      assert Accounted(p) && KnownPromise(p);
      assert p.registered == ReactionsOf(log, p) + p.handlers;
      forall k | 0 <= k < |log| && log[k].React? ensures log[k].r in ReactionsOf(log, log[k].p) {
        ReactionInLog(log, log[k].p, k);
      }
      forall q, k | q in promises && q != p && 0 <= k < |log| && log[k].React? && log[k].p == q ensures log[k].r != r {
        assert Accounted(q) && KnownPromise(q);
        assert log[k].r in q.registered;
      }
      if p.state != Pending {
        ReactionFound(log, p, r);
      }
      forall k, l | 0 <= k < l < |log| && log[k] == React(p, r) ensures log[l] != React(p, r) {
        if log[l].React? && log[l].p == p { NeverTwice(p, k, l); }
      }
    }

    /** Reactions on one promise become jobs in registration order. */
    lemma InRegistrationOrder(p: Promise, k: nat, l: nat)
      requires Valid() && p in promises && k < l < |log|
      requires log[k].React? && log[k].p == p && log[l].React? && log[l].p == p
      ensures Precedes(p.registered, log[k].r, log[l].r)
    {
      assert Accounted(p);
      JobsInOrder(log, p, k, l);
      PrecedesExtend(ReactionsOf(log, p), p.handlers, log[k].r, log[l].r);
    }

    lemma NeverTwice(p: Promise, k: nat, l: nat)
      requires Valid() && p in promises && k < l < |log|
      requires log[k].React? && log[k].p == p && log[l].React? && log[l].p == p
      ensures log[k].r != log[l].r
    {
      assert KnownPromise(p);
      InRegistrationOrder(p, k, l);
    }
  }

  lemma {:induction false} ReactionInLog(jobs: seq<Job>, p: Promise, k: nat)
    requires k < |jobs| && jobs[k].React? && jobs[k].p == p
    ensures jobs[k].r in ReactionsOf(jobs, p)
  {
    var n := |jobs| - 1;
    if k < n { ReactionInLog(jobs[..n], p, k); }
  }

  lemma {:induction false} ReactionFound(jobs: seq<Job>, p: Promise, r: Reaction)
    requires r in ReactionsOf(jobs, p)
    ensures exists k :: 0 <= k < |jobs| && jobs[k] == React(p, r)
  {
    var n := |jobs| - 1;
    if r in ReactionsOf(jobs[..n], p) {
      ReactionFound(jobs[..n], p, r);
      var k :| 0 <= k < n && jobs[..n][k] == React(p, r);
      assert jobs[k] == React(p, r);
    } else {
      assert jobs[n] == React(p, r);
    }
  }

  /** a stands before b. */
  ghost predicate Precedes(rs: seq<Reaction>, a: Reaction, b: Reaction) {
    exists i, j :: 0 <= i < j < |rs| && rs[i] == a && rs[j] == b
  }

  lemma PrecedesExtend(rs: seq<Reaction>, more: seq<Reaction>, a: Reaction, b: Reaction)
    ensures Precedes(rs, a, b) ==> Precedes(rs + more, a, b)
    ensures a in rs && b in more ==> Precedes(rs + more, a, b)
  {
    var all := rs + more;
    if Precedes(rs, a, b) {
      var i, j :| 0 <= i < j < |rs| && rs[i] == a && rs[j] == b;
      assert 0 <= i < j < |all| && all[i] == a && all[j] == b;
    }
    if a in rs && b in more {
      var i :| 0 <= i < |rs| && rs[i] == a;
      var j :| 0 <= j < |more| && more[j] == b;
      assert 0 <= i < |rs| + j < |all| && all[i] == a && all[|rs| + j] == b;
    }
  }

  lemma {:induction false} JobsInOrder(jobs: seq<Job>, p: Promise, k: nat, l: nat)
    requires k < l < |jobs|
    requires jobs[k].React? && jobs[k].p == p && jobs[l].React? && jobs[l].p == p
    ensures Precedes(ReactionsOf(jobs, p), jobs[k].r, jobs[l].r)
  {
    var n := |jobs| - 1;
    var before := ReactionsOf(jobs[..n], p);
    if l < n {
      JobsInOrder(jobs[..n], p, k, l);
      PrecedesExtend(before, if jobs[n].React? && jobs[n].p == p then [jobs[n].r] else [], jobs[k].r, jobs[l].r);
    } else {
      ReactionInLog(jobs[..n], p, k);
      PrecedesExtend(before, [jobs[l].r], jobs[k].r, jobs[l].r);
    }
  }

  /** Jobs that do not know p hold no reaction of p. */
  lemma {:induction false} NoReactions(jobs: seq<Job>, p: Promise)
    requires forall j :: j in jobs ==> j.p != p
    ensures ReactionsOf(jobs, p) == []
  {
    if jobs != [] {
      var n := |jobs| - 1;
      assert jobs[n] in jobs;
      NoReactions(jobs[..n], p);
    }
  }
}
