/** The ReadableStream polyfill (engine/polyfill/polyfill.go) and the Go loop
    that drains it (engine/goja/goja.go). The source is an environment that
    enqueues, closes and fails wherever it likes. */
module Streams {
  import opened Strings
  import Utf8

  type Chunk = seq<Utf8.Byte>

  datatype Action = Enqueue(chunk: Chunk) | Close | Error(reason: int)

  /** What the source does around one pull: in start (first pull only), in the
      microtasks after it, in pull, in the microtasks after that, and between
      this pull and the next one. A pull that throws is a failure, after whatever
      the source did before the exception. */
  datatype Turn = Turn(start: seq<Action>, tasks1: seq<Action>, pull: seq<Action>, tasks2: seq<Action>,
                       failure: Option<seq<Action>>, later: seq<Action>)

  /** Whether the stream is closed after the actions. */
  predicate Closes(closed: bool, actions: seq<Action>) {
    closed || exists i :: 0 <= i < |actions| && !actions[i].Enqueue?
  }

  /** The chunks the actions get accepted: those enqueued while the stream is open. */
  function Accepted(closed: bool, actions: seq<Action>): seq<Chunk> {
    if actions == [] then []
    else
      var init, last := actions[..|actions| - 1], actions[|actions| - 1];
      Accepted(closed, init) + if !Closes(closed, init) && last.Enqueue? then [last.chunk] else []
  }

  lemma ClosesConcat(closed: bool, a: seq<Action>, b: seq<Action>)
    ensures Closes(closed, a + b) <==> Closes(Closes(closed, a), b)
  {
    var c := a + b;
    if i :| 0 <= i < |a| && !a[i].Enqueue? { assert !c[i].Enqueue?; }
    if i :| 0 <= i < |b| && !b[i].Enqueue? { assert !c[|a| + i].Enqueue?; }
    if i :| 0 <= i < |c| && !c[i].Enqueue? { assert if i < |a| then !a[i].Enqueue? else !b[i - |a|].Enqueue?; }
  }

  lemma {:induction false} AcceptedConcat(closed: bool, a: seq<Action>, b: seq<Action>)
    ensures Accepted(closed, a + b) == Accepted(closed, a) + Accepted(Closes(closed, a), b)
    decreases |b|
  {
    if b == [] {
      assert a + b == a;
    } else {
      var init := b[..|b| - 1];
      assert (a + b)[..|a + b| - 1] == a + init;
      AcceptedConcat(closed, a, init);
      ClosesConcat(closed, a, init);
    }
  }

  /** The source's calls of `close` and `error`. */
  predicate EndsIt(a: Action) { a.Close? || a.Error? }

  /** The actions before the first such call. */
  function BeforeEnd(actions: seq<Action>): seq<Action> {
    if actions == [] || EndsIt(actions[0]) then [] else [actions[0]] + BeforeEnd(actions[1..])
  }

  function Enqueued(actions: seq<Action>): seq<Chunk> {
    if actions == [] then []
    else (if actions[0].Enqueue? then [actions[0].chunk] else []) + Enqueued(actions[1..])
  }

  /** An open stream accepts exactly what is enqueued before the first call of
      `close` or `error`, and is closed by either; a closed one accepts nothing. */
  lemma {:induction false} AcceptedExactly(closed: bool, actions: seq<Action>)
    ensures Accepted(closed, actions) == if closed then [] else Enqueued(BeforeEnd(actions))
    ensures Closes(closed, actions) <==> closed || exists a :: a in actions && EndsIt(a)
    decreases |actions|
  {
    if actions == [] {
    } else {
      var first, rest := [actions[0]], actions[1..];
      assert actions == first + rest && first[..0] == [];
      AcceptedConcat(closed, first, rest);
      ClosesConcat(closed, first, rest);
      AcceptedExactly(Closes(closed, first), rest);
      assert Accepted(closed, first) == if !closed && actions[0].Enqueue? then [actions[0].chunk] else [];
      if !closed && !EndsIt(actions[0]) {
        assert ([actions[0]] + BeforeEnd(rest))[1..] == BeforeEnd(rest);
      }
    }
  }

  class Controller {
    var chunks: seq<Chunk>
    var closed: bool
    var error: Option<int>
    /** Every chunk ever accepted, and how many of them were handed over. */
    ghost var accepted: seq<Chunk>
    ghost var handed: nat

    ghost predicate Valid()
      reads this
    {
      handed <= |accepted| && chunks == accepted[handed..]
    }

    constructor ()
      ensures Valid() && accepted == [] && handed == 0 && !closed
    {
      chunks, closed, error, accepted, handed := [], false, None, [], 0;
    }

    /** A chunk enqueued after the stream was closed is dropped. */
    method Accept(chunk: Chunk)
      requires Valid()
      modifies this
      ensures Valid() && closed == old(closed) && handed == old(handed)
      ensures accepted == if old(closed) then old(accepted) else old(accepted) + [chunk]
    {
      if closed { return; }
      chunks := chunks + [chunk];
      accepted := accepted + [chunk];
    }

    /** More actions, after those in `first` that brought base to where it is. */
    method PerformMore(ghost base: seq<Chunk>, ghost closed0: bool, ghost first: seq<Action>, actions: seq<Action>)
      requires Valid() && accepted == base + Accepted(closed0, first) && closed == Closes(closed0, first)
      modifies this
      ensures Valid() && handed == old(handed)
      ensures accepted == base + Accepted(closed0, first + actions) && closed == Closes(closed0, first + actions)
    {
      hide Accepted, Closes;
      Perform(actions);
      Grown(closed0, first, actions);
      ConcatAssoc(base, Accepted(closed0, first), Accepted(Closes(closed0, first), actions));
    }

    method Perform(actions: seq<Action>)
      requires Valid()
      modifies this
      ensures Valid() && handed == old(handed)
      ensures accepted == old(accepted) + Accepted(old(closed), actions)
      ensures closed == Closes(old(closed), actions)
      ensures closed <==> old(closed) || exists a :: a in actions && EndsIt(a)
      ensures accepted == old(accepted) + if old(closed) then [] else Enqueued(BeforeEnd(actions))
    {
      hide BeforeEnd, Enqueued, EndsIt;
      for i := 0 to |actions|
        invariant Valid() && handed == old(handed)
        invariant accepted == old(accepted) + Accepted(old(closed), actions[..i])
        invariant closed == Closes(old(closed), actions[..i])
      {
        assert actions[..i + 1] == actions[..i] + [actions[i]];
        ClosesConcat(old(closed), actions[..i], [actions[i]]);
        assert actions[..i + 1][..i] == actions[..i];
        match actions[i] {
          case Enqueue(chunk) => Accept(chunk);
          case Close => closed := true;
          case Error(reason) => error, closed := Some(reason), true;
        }
      }
      assert actions[..|actions|] == actions;
      AcceptedExactly(old(closed), actions);
    }
  }

  lemma Grown(closed: bool, a: seq<Action>, b: seq<Action>)
    ensures Accepted(closed, a + b) == Accepted(closed, a) + Accepted(Closes(closed, a), b)
    ensures Closes(closed, a + b) == Closes(Closes(closed, a), b)
  {
    AcceptedConcat(closed, a, b);
    ClosesConcat(closed, a, b);
  }

  lemma NothingYet(closed: bool)
    ensures Accepted(closed, []) == [] && Closes(closed, []) == closed
  {}

  /** What the source does before the chunks of a pull are collected. */
  function PullActions(turn: Turn, started: bool): seq<Action> {
    (if started then [] else turn.start) + turn.tasks1 + turn.pull + turn.tasks2
  }

  class ReadableStream {
    const controller: Controller
    var started: bool

    constructor ()
      ensures fresh(controller) && controller.Valid() && controller.accepted == [] && controller.handed == 0
      ensures !started && !controller.closed
    {
      controller := new Controller();
      started := false;
    }

    /** `__pullStream__`: everything accepted so far is handed over, in order, and
        `done` is reported only by a closed stream with nothing to hand over. */
    method Pull(turn: Turn) returns (chunks: seq<Chunk>, done: bool)
      requires controller.Valid()
      modifies this, controller
      ensures controller.Valid() && controller.chunks == [] && started
      ensures controller.accepted == old(controller.accepted)
                                     + Accepted(old(controller.closed), PullActions(turn, old(started)))
      ensures controller.closed == Closes(old(controller.closed), PullActions(turn, old(started)))
      ensures controller.handed == |controller.accepted|
      ensures chunks == controller.accepted[old(controller.handed)..]
      ensures done <==> controller.closed && chunks == []
    {
      hide Accepted, Closes;
      ghost var was, closed := controller.accepted, controller.closed;
      ghost var first := if started then [] else turn.start;
      NothingYet(closed);
      assert was + [] == was;
      if !started {
        started := true;
        controller.PerformMore(was, closed, [], turn.start);
        assert [] + turn.start == turn.start;
      }
      controller.PerformMore(was, closed, first, turn.tasks1);
      controller.PerformMore(was, closed, first + turn.tasks1, turn.pull);
      controller.PerformMore(was, closed, first + turn.tasks1 + turn.pull, turn.tasks2);
      chunks := controller.chunks;
      controller.chunks := [];
      controller.handed := |controller.accepted|;
      done := controller.closed && |chunks| == 0;
    }
  }

  // ------------------------------------------------------ what a session sees

  /** All the actions of the first t turns. */
  function History(turns: seq<Turn>, started: bool, t: nat): seq<Action>
    requires t <= |turns|
  {
    if t == 0 then []
    else History(turns, started, t - 1) + PullActions(turns[t - 1], started || t > 1) + turns[t - 1].later
  }

  /** The actions before the chunks of pull t are collected. */
  function UpTo(turns: seq<Turn>, started: bool, t: nat): seq<Action>
    requires t < |turns|
  {
    History(turns, started, t) + PullActions(turns[t], started || t > 0)
  }

  /** What the first t pulls hand over. */
  function Handed(closed: bool, turns: seq<Turn>, started: bool, t: nat): seq<Chunk>
    requires t <= |turns|
  {
    if t == 0 then [] else Accepted(closed, UpTo(turns, started, t - 1))
  }

  /** Pull t reports the end. */
  predicate DoneAt(closed: bool, turns: seq<Turn>, started: bool, t: nat)
    requires t < |turns|
  {
    Closes(closed, UpTo(turns, started, t)) && Handed(closed, turns, started, t + 1) == Handed(closed, turns, started, t)
  }

  /** Each chunk decoded on its own, in order; None when the decoder throws. */
  function DecodeEach(chunks: seq<Chunk>): Option<seq<Utf8.Unit>> {
    if chunks == [] then Some([])
    else
      var n := |chunks| - 1;
      var before, last := DecodeEach(chunks[..n]), Utf8.Decode(chunks[n]);
      if before.None? || last.None? then None else Some(before.value + last.value)
  }

  lemma {:induction false} DecodeEachConcat(a: seq<Chunk>, b: seq<Chunk>)
    ensures DecodeEach(a + b) ==
      if DecodeEach(a).Some? && DecodeEach(b).Some? then Some(DecodeEach(a).value + DecodeEach(b).value) else None
    decreases |b|
  {
    if b == [] {
      assert a + b == a;
      if DecodeEach(a).Some? { assert DecodeEach(a).value + [] == DecodeEach(a).value; }
    } else {
      var n := |b| - 1;
      assert (a + b)[..|a + b| - 1] == a + b[..n];
      DecodeEachConcat(a, b[..n]);
      if DecodeEach(a).Some? && DecodeEach(b).Some? {
        ConcatAssoc(DecodeEach(a).value, DecodeEach(b[..n]).value, Utf8.Decode(b[n]).value);
      }
    }
  }

  datatype Outcome = Finished | PullFailed | DecodeFailed | StillRunning

  /** The decoding loop over the chunks of one pull. */
  method DecodeChunks(chunks: seq<Chunk>) returns (r: Option<seq<Utf8.Unit>>)
    ensures r == DecodeEach(chunks)
  {
    var sb: seq<Utf8.Unit> := [];
    for i := 0 to |chunks|
      invariant DecodeEach(chunks[..i]) == Some(sb)
    {
      var decoded := Utf8.DecodeBytes(chunks[i]);
      assert chunks[..i + 1][..i] == chunks[..i];
      if decoded.None? {
        assert chunks == chunks[..i + 1] + chunks[i + 1..];
        DecodeEachConcat(chunks[..i + 1], chunks[i + 1..]);
        return None;
      }
      sb := sb + decoded.value;
    }
    assert chunks[..|chunks|] == chunks;
    return Some(sb);
  }

  /** The session goes on after t pulls: none threw or reported the end, and what
      they handed over is decoded and written. */
  ghost predicate Running(closed: bool, turns: seq<Turn>, started: bool, t: nat, wroteAny: bool, written: seq<Utf8.Unit>)
    requires t <= |turns|
  {
    && DecodeEach(Handed(closed, turns, started, t)) == Some(written)
    && (wroteAny <==> Handed(closed, turns, started, t) != [])
    && forall k :: 0 <= k < t ==> turns[k].failure == None && !DoneAt(closed, turns, started, k)
  }

  /** How a session ends, after how many pulls, with what accepted: at the first
      pull that throws, that hands over a chunk which does not decode, or that
      reports the end; or still running after all turns. */
  ghost predicate Ended(closed: bool, turns: seq<Turn>, started: bool, outcome: Outcome, pulled: nat,
                        accepted: seq<Chunk>, wroteAny: bool, written: seq<Utf8.Unit>)
    requires pulled <= |turns|
  {
    match outcome
    case StillRunning =>
      && pulled == |turns| && Running(closed, turns, started, pulled, wroteAny, written)
      && accepted == Accepted(closed, History(turns, started, pulled))
    case PullFailed =>
      && pulled < |turns| && turns[pulled].failure.Some? && Running(closed, turns, started, pulled, wroteAny, written)
      && accepted == Accepted(closed, History(turns, started, pulled) + turns[pulled].failure.value)
    case DecodeFailed =>
      && pulled > 0 && turns[pulled - 1].failure == None && Running(closed, turns, started, pulled - 1, wroteAny, written)
      && accepted == Handed(closed, turns, started, pulled) && DecodeEach(accepted) == None
    case Finished =>
      && pulled > 0 && turns[pulled - 1].failure == None && Running(closed, turns, started, pulled - 1, wroteAny, written)
      && DoneAt(closed, turns, started, pulled - 1)
      && accepted == Handed(closed, turns, started, pulled) && DecodeEach(accepted) == Some(written)
  }

  /** drainSession, over at most the given turns, ends as Ended says. At every exit
      what was written is the decoding of the chunks delivered. When it ends
      without error nothing accepted is missing, something was written exactly
      when a chunk was accepted, and nothing can be accepted any more. */
  method DrainSession(s: ReadableStream, turns: seq<Turn>)
    returns (outcome: Outcome, wroteAny: bool, written: seq<Utf8.Unit>, ghost pulled: nat)
    requires s.controller.Valid() && s.controller.accepted == [] && s.controller.handed == 0
    modifies s, s.controller
    ensures s.controller.Valid() && pulled <= |turns|
    ensures Ended(old(s.controller.closed), turns, old(s.started), outcome, pulled, s.controller.accepted, wroteAny, written)
    ensures outcome == Finished ==>
      && s.controller.closed && DecodeEach(s.controller.accepted) == Some(written)
      && (wroteAny <==> s.controller.accepted != [])
    ensures outcome == Finished && !old(s.controller.closed) ==>
      s.controller.accepted == Enqueued(BeforeEnd(History(turns, old(s.started), |turns|)))
    ensures Harmless(turns) ==> forall k :: 0 <= k <= |turns| - 2 && EndedBy(turns, old(s.started), k) ==>
      outcome == Finished && pulled <= k + 2
  {
    ghost var closed, started := s.controller.closed, s.started;
    wroteAny, written, pulled := false, [], 0;
    SessionStarts(s, turns);
    hide *;
    for t := 0 to |turns|
      invariant InSession(s, closed, turns, started, t) && pulled == t
      invariant Running(closed, turns, started, t, wroteAny, written)
    {
      var end;
      end, wroteAny, written := DrainTurn(s, closed, turns, started, t, wroteAny, written);
      if end != Some(PullFailed) { pulled := t + 1; }
      if end.Some? {
        SessionEnds(closed, turns, started, end.value, pulled, s.controller.accepted, wroteAny, written);
        return end.value, wroteAny, written, pulled;
      }
    }
    outcome := StillRunning;
    EndsLate(s, turns, closed, started, wroteAny, written);
    SessionEnds(closed, turns, started, outcome, pulled, s.controller.accepted, wroteAny, written);
  }

  /** a is among what the source does up to the collection of the turn's chunks. */
  predicate InPull(turn: Turn, first: bool, a: Action) {
    (first && a in turn.start) || a in turn.tasks1 || a in turn.pull || a in turn.tasks2
  }

  /** The source has called `close` or `error` by the time pull k collects chunks. */
  ghost predicate EndedBy(turns: seq<Turn>, started: bool, k: nat)
    requires k < |turns|
  {
    exists j, a :: 0 <= j <= k && EndsIt(a)
                   && (InPull(turns[j], !started && j == 0, a) || (j < k && a in turns[j].later))
  }

  /** No pull throws, and every chunk the source enqueues decodes. */
  ghost predicate Harmless(turns: seq<Turn>) {
    forall t :: 0 <= t < |turns| ==>
      && turns[t].failure == None
      && forall a :: (InPull(turns[t], true, a) || a in turns[t].later) && a.Enqueue? ==> Utf8.Decode(a.chunk).Some?
  }

  lemma {:induction false} InHistory(turns: seq<Turn>, started: bool, t: nat, a: Action)
    requires t <= |turns|
    ensures a in History(turns, started, t) <==>
      exists j :: 0 <= j < t && (InPull(turns[j], !started && j == 0, a) || a in turns[j].later)
  {
    if t > 0 {
      InHistory(turns, started, t - 1, a);
      assert a in PullActions(turns[t - 1], started || t > 1) <==> InPull(turns[t - 1], !started && t == 1, a);
    }
  }

  lemma EndedCloses(closed: bool, turns: seq<Turn>, started: bool, k: nat)
    requires k < |turns| && EndedBy(turns, started, k)
    ensures Closes(closed, UpTo(turns, started, k))
  {
    var j, a :| 0 <= j <= k && EndsIt(a)
                && (InPull(turns[j], !started && j == 0, a) || (j < k && a in turns[j].later));
    InHistory(turns, started, k, a);
    assert a in UpTo(turns, started, k) by {
      if j == k { assert a in PullActions(turns[k], started || k > 0); }
    }
    AcceptedExactly(closed, UpTo(turns, started, k));
  }

  /** What is done by pull t is how all that is done begins. */
  lemma {:induction false} UpToBegins(turns: seq<Turn>, started: bool, t: nat, n: nat) returns (more: seq<Action>)
    requires t < n <= |turns|
    ensures History(turns, started, n) == UpTo(turns, started, t) + more
    decreases n
  {
    if t == n - 1 {
      more := turns[t].later;
    } else {
      var before := UpToBegins(turns, started, t, n - 1);
      var last := PullActions(turns[n - 1], started || n > 1) + turns[n - 1].later;
      more := before + last;
      hide UpTo, PullActions;
      ConcatAssoc(UpTo(turns, started, t), before, last);
      ConcatAssoc(History(turns, started, n - 1), PullActions(turns[n - 1], started || n > 1), turns[n - 1].later);
    }
  }

  /** Once closed, what is done later gets nothing accepted. */
  lemma AcceptedOnce(closed: bool, a: seq<Action>, b: seq<Action>)
    requires Closes(closed, a)
    ensures Accepted(closed, a + b) == Accepted(closed, a)
  {
    AcceptedConcat(closed, a, b);
    AcceptedExactly(true, b);
  }

  /** A source that has ended is done with two pulls later at the latest. */
  lemma EndedIsDone(closed: bool, turns: seq<Turn>, started: bool, k: nat)
    requires k + 1 < |turns| && EndedBy(turns, started, k)
    ensures DoneAt(closed, turns, started, k + 1)
  {
    EndedCloses(closed, turns, started, k);
    var more := UpToBegins(turns, started, k, k + 1);
    var now, pull := UpTo(turns, started, k), PullActions(turns[k + 1], true);
    assert UpTo(turns, started, k + 1) == now + (more + pull) by { ConcatAssoc(now, more, pull); }
    AcceptedOnce(closed, now, more + pull);
    ClosesConcat(closed, now, more + pull);
    hide UpTo, Accepted, Closes;
  }

  lemma {:induction false} AllDecode(chunks: seq<Chunk>)
    requires forall i :: 0 <= i < |chunks| ==> Utf8.Decode(chunks[i]).Some?
    ensures DecodeEach(chunks).Some?
  {
    if chunks != [] { AllDecode(chunks[..|chunks| - 1]); }
  }

  lemma {:induction false} EnqueuedAre(actions: seq<Action>, chunk: Chunk)
    requires chunk in Enqueued(BeforeEnd(actions))
    ensures Action.Enqueue(chunk) in actions
  {
    if actions[0] != Action.Enqueue(chunk) {
      assert ([actions[0]] + BeforeEnd(actions[1..]))[1..] == BeforeEnd(actions[1..]);
      EnqueuedAre(actions[1..], chunk);
    }
  }

  lemma HarmlessDecodes(closed: bool, turns: seq<Turn>, started: bool, t: nat)
    requires Harmless(turns) && t <= |turns|
    ensures DecodeEach(Handed(closed, turns, started, t)).Some?
  {
    if t > 0 {
      var h := UpTo(turns, started, t - 1);
      AcceptedExactly(closed, h);
      var chunks := Accepted(closed, h);
      forall i | 0 <= i < |chunks| ensures Utf8.Decode(chunks[i]).Some? {
        EnqueuedAre(h, chunks[i]);
        InHistory(turns, started, t - 1, Action.Enqueue(chunks[i]));
      }
      AllDecode(chunks);
    }
  }

  lemma FinishedAccepts(closed: bool, turns: seq<Turn>, started: bool, t: nat)
    requires t < |turns| && DoneAt(closed, turns, started, t) && !closed
    ensures Handed(closed, turns, started, t + 1) == Enqueued(BeforeEnd(History(turns, started, |turns|)))
  {
    var h := UpTo(turns, started, t);
    var more := UpToBegins(turns, started, t, |turns|);
    hide UpTo, Accepted, Closes, History;
    AcceptedOnce(closed, h, more);
    AcceptedExactly(closed, h + more);
  }

  lemma EndedFinishes(closed: bool, turns: seq<Turn>, started: bool, outcome: Outcome, pulled: nat,
                      accepted: seq<Chunk>, wroteAny: bool, written: seq<Utf8.Unit>, k: nat)
    requires pulled <= |turns| && Ended(closed, turns, started, outcome, pulled, accepted, wroteAny, written)
    requires Harmless(turns) && k + 2 <= |turns| && EndedBy(turns, started, k)
    ensures outcome == Finished && pulled <= k + 2
  {
    hide DoneAt, Handed, EndedBy, History, DecodeEach, Accepted;
    EndedIsDone(closed, turns, started, k);
    HarmlessDecodes(closed, turns, started, pulled);
  }

  /** However a session ends: a source that has ended and does no harm finishes it,
      and what was accepted is exactly what was enqueued before the end. */
  lemma SessionEnds(closed: bool, turns: seq<Turn>, started: bool, outcome: Outcome, pulled: nat,
                    accepted: seq<Chunk>, wroteAny: bool, written: seq<Utf8.Unit>)
    requires pulled <= |turns| && Ended(closed, turns, started, outcome, pulled, accepted, wroteAny, written)
    ensures outcome == Finished && !closed ==> accepted == Enqueued(BeforeEnd(History(turns, started, |turns|)))
    ensures Harmless(turns) ==> forall k :: 0 <= k <= |turns| - 2 && EndedBy(turns, started, k) ==>
      outcome == Finished && pulled <= k + 2
  {
    hide DoneAt, Handed, EndedBy, History, DecodeEach, Accepted, Harmless, BeforeEnd, Enqueued;
    if outcome == Finished && !closed { FinishedAccepts(closed, turns, started, pulled - 1); }
    if Harmless(turns) {
      forall k | 0 <= k <= |turns| - 2 && EndedBy(turns, started, k) ensures outcome == Finished && pulled <= k + 2 {
        EndedFinishes(closed, turns, started, outcome, pulled, accepted, wroteAny, written, k);
      }
    }
  }

  /** One pull of drainSession, its chunks decoded and written. */
  method DrainTurn(s: ReadableStream, ghost closed: bool, turns: seq<Turn>, ghost started: bool, t: nat,
                   wrote: bool, text: seq<Utf8.Unit>)
    returns (end: Option<Outcome>, wroteAny: bool, written: seq<Utf8.Unit>)
    requires t < |turns| && InSession(s, closed, turns, started, t) && Running(closed, turns, started, t, wrote, text)
    modifies s, s.controller
    ensures s.controller.Valid()
    ensures end == None ==>
      InSession(s, closed, turns, started, t + 1) && Running(closed, turns, started, t + 1, wroteAny, written)
    ensures end.Some? ==>
      Ended(closed, turns, started, end.value, if end == Some(PullFailed) then t else t + 1, s.controller.accepted,
            wroteAny, written)
    ensures end == Some(Finished) ==>
      && s.controller.closed && DecodeEach(s.controller.accepted) == Some(written)
      && (wroteAny <==> s.controller.accepted != [])
  {
    hide *;
    wroteAny, written := wrote, text;
    if turns[t].failure.Some? {
      FailTurn(s, closed, turns, started, t, wroteAny, written);
      return Some(PullFailed), wroteAny, written;
    }
    var chunks, done := PullTurn(s, closed, turns, started, t);
    if |chunks| > 0 {
      var decoded := DecodeChunks(chunks);
      if decoded.None? {
        EndsUndecoded(s, turns, closed, started, t, chunks, wroteAny, written);
        return Some(DecodeFailed), wroteAny, written;
      }
      written := written + decoded.value;
      wroteAny := true;
    }
    Writes(turns, closed, started, t, chunks, wrote, text, wroteAny, written);
    if done {
      EndsDone(s, turns, closed, started, t, chunks, wrote, text, wroteAny, written);
      return Some(Finished), wroteAny, written;
    }
    GoesOn(turns, closed, started, t, wrote, text, wroteAny, written);
    LaterInTurn(s, closed, turns, started, t);
    StillValid(s, closed, turns, started, t + 1);
    end := None;
  }

  lemma StillValid(s: ReadableStream, closed: bool, turns: seq<Turn>, started: bool, t: nat)
    requires t <= |turns| && InSession(s, closed, turns, started, t)
    ensures s.controller.Valid()
  {}

  /** A pull that throws: what the source did before stays, and no chunk is read. */
  method FailTurn(s: ReadableStream, ghost closed: bool, turns: seq<Turn>, ghost started: bool, t: nat,
                  ghost wroteAny: bool, ghost written: seq<Utf8.Unit>)
    requires t < |turns| && turns[t].failure.Some? && InSession(s, closed, turns, started, t)
    requires Running(closed, turns, started, t, wroteAny, written)
    modifies s.controller
    ensures Ended(closed, turns, started, PullFailed, t, s.controller.accepted, wroteAny, written) && s.controller.Valid()
  {
    hide Running, History, Handed, Accepted, Closes;
    s.controller.Perform(turns[t].failure.value);
    Grown(closed, History(turns, started, t), turns[t].failure.value);
  }

  lemma EndsLate(s: ReadableStream, turns: seq<Turn>, closed: bool, started: bool, wroteAny: bool, written: seq<Utf8.Unit>)
    requires InSession(s, closed, turns, started, |turns|) && Running(closed, turns, started, |turns|, wroteAny, written)
    ensures Ended(closed, turns, started, StillRunning, |turns|, s.controller.accepted, wroteAny, written)
    ensures s.controller.Valid()
  {
    hide Running, History, Handed, Accepted;
  }

  lemma EndsUndecoded(s: ReadableStream, turns: seq<Turn>, closed: bool, started: bool, t: nat, chunks: seq<Chunk>,
                      wroteAny: bool, written: seq<Utf8.Unit>)
    requires t < |turns| && turns[t].failure == None && AfterPull(s, closed, turns, started, t)
    requires Handed(closed, turns, started, t + 1) == Handed(closed, turns, started, t) + chunks
    requires DecodeEach(chunks) == None && Running(closed, turns, started, t, wroteAny, written)
    ensures Ended(closed, turns, started, DecodeFailed, t + 1, s.controller.accepted, wroteAny, written)
    ensures s.controller.Valid()
  {
    hide Running, Handed, DecodeEach, UpTo, Closes;
    DecodeEachConcat(Handed(closed, turns, started, t), chunks);
  }

  /** What the chunks of a pull add. */
  lemma Writes(turns: seq<Turn>, closed: bool, started: bool, t: nat, chunks: seq<Chunk>, wrote: bool, text: seq<Utf8.Unit>,
               wroteAny: bool, written: seq<Utf8.Unit>)
    requires t < |turns| && Running(closed, turns, started, t, wrote, text)
    requires Handed(closed, turns, started, t + 1) == Handed(closed, turns, started, t) + chunks
    requires if chunks == [] then wroteAny == wrote && written == text
      else wroteAny && DecodeEach(chunks).Some? && written == text + DecodeEach(chunks).value
    ensures DecodeEach(Handed(closed, turns, started, t + 1)) == Some(written)
    ensures wroteAny <==> Handed(closed, turns, started, t + 1) != []
  {
    hide Handed, DecodeEach, DoneAt;
    var before := Handed(closed, turns, started, t);
    DecodeEachConcat(before, chunks);
    assert before + [] == before;
  }

  lemma EndsDone(s: ReadableStream, turns: seq<Turn>, closed: bool, started: bool, t: nat, chunks: seq<Chunk>,
                 wrote: bool, text: seq<Utf8.Unit>, wroteAny: bool, written: seq<Utf8.Unit>)
    requires t < |turns| && turns[t].failure == None
    requires AfterPull(s, closed, turns, started, t) && DoneAt(closed, turns, started, t)
    requires Running(closed, turns, started, t, wrote, text)
    requires Handed(closed, turns, started, t + 1) == Handed(closed, turns, started, t) + chunks
    requires chunks == [] ==> wroteAny == wrote && written == text
    requires DecodeEach(Handed(closed, turns, started, t + 1)) == Some(written)
    requires wroteAny <==> Handed(closed, turns, started, t + 1) != []
    ensures Ended(closed, turns, started, Finished, t + 1, s.controller.accepted, wroteAny, written)
    ensures s.controller.Valid() && s.controller.closed && DecodeEach(s.controller.accepted) == Some(written)
    ensures wroteAny <==> s.controller.accepted != []
  {
    assert chunks == [] by {
      hide Handed, UpTo, Closes;
      assert |Handed(closed, turns, started, t) + chunks| == |Handed(closed, turns, started, t)| + |chunks|;
    }
    assert Closes(closed, UpTo(turns, started, t));
    hide Running, Handed, DecodeEach, UpTo, Closes, DoneAt;
  }

  lemma GoesOn(turns: seq<Turn>, closed: bool, started: bool, t: nat, wrote: bool, text: seq<Utf8.Unit>,
               wroteAny: bool, written: seq<Utf8.Unit>)
    requires t < |turns| && turns[t].failure == None && !DoneAt(closed, turns, started, t)
    requires Running(closed, turns, started, t, wrote, text)
    requires DecodeEach(Handed(closed, turns, started, t + 1)) == Some(written)
    requires wroteAny <==> Handed(closed, turns, started, t + 1) != []
    ensures Running(closed, turns, started, t + 1, wroteAny, written)
  {
    hide Handed, DecodeEach, DoneAt;
  }

  lemma SessionStarts(s: ReadableStream, turns: seq<Turn>)
    requires s.controller.Valid() && s.controller.accepted == [] && s.controller.handed == 0
    ensures InSession(s, s.controller.closed, turns, s.started, 0)
    ensures Running(s.controller.closed, turns, s.started, 0, false, [])
  {}

  /** The session before turn t. */
  ghost predicate InSession(s: ReadableStream, closed: bool, turns: seq<Turn>, started: bool, t: nat)
    requires t <= |turns|
    reads s, s.controller
  {
    var c := s.controller;
    && c.Valid() && s.started == (started || t > 0)
    && c.accepted == Accepted(closed, History(turns, started, t))
    && c.closed == Closes(closed, History(turns, started, t))
    && Handed(closed, turns, started, t) <= c.accepted && c.handed == |Handed(closed, turns, started, t)|
  }

  /** The session after the pull of turn t. */
  ghost predicate AfterPull(s: ReadableStream, closed: bool, turns: seq<Turn>, started: bool, t: nat)
    requires t < |turns|
    reads s, s.controller
  {
    var c := s.controller;
    && c.Valid() && s.started
    && c.accepted == Handed(closed, turns, started, t + 1) && c.handed == |c.accepted|
    && c.closed == Closes(closed, UpTo(turns, started, t))
  }

  method PullTurn(s: ReadableStream, ghost closed: bool, turns: seq<Turn>, ghost started: bool, t: nat)
    returns (chunks: seq<Chunk>, done: bool)
    requires t < |turns| && InSession(s, closed, turns, started, t)
    modifies s, s.controller
    ensures AfterPull(s, closed, turns, started, t)
    ensures Handed(closed, turns, started, t + 1) == Handed(closed, turns, started, t) + chunks
    ensures done <==> DoneAt(closed, turns, started, t)
  {
    hide Handed, History, Accepted, DoneAt, UpTo, Closes, PullActions;
    chunks, done := s.Pull(turns[t]);
    PulledAt(closed, turns, started, t);
    DoneWhenNothing(closed, turns, started, t, chunks);
  }

  method LaterInTurn(s: ReadableStream, ghost closed: bool, turns: seq<Turn>, ghost started: bool, t: nat)
    requires t < |turns| && AfterPull(s, closed, turns, started, t)
    modifies s.controller
    ensures InSession(s, closed, turns, started, t + 1)
  {
    hide Handed, History, Accepted, UpTo, Closes;
    s.controller.Perform(turns[t].later);
    TurnOver(closed, turns, started, t);
  }

  lemma PulledAt(closed: bool, turns: seq<Turn>, started: bool, t: nat)
    requires t < |turns|
    ensures var h := History(turns, started, t);
      var p := PullActions(turns[t], started || t > 0);
      && Handed(closed, turns, started, t + 1) == Accepted(closed, h) + Accepted(Closes(closed, h), p)
      && Closes(closed, UpTo(turns, started, t)) == Closes(Closes(closed, h), p)
  {
    hide Accepted, Closes, PullActions;
    Grown(closed, History(turns, started, t), PullActions(turns[t], started || t > 0));
  }

  lemma DoneWhenNothing(closed: bool, turns: seq<Turn>, started: bool, t: nat, chunks: seq<Chunk>)
    requires t < |turns|
    requires Handed(closed, turns, started, t + 1) == Handed(closed, turns, started, t) + chunks
    ensures DoneAt(closed, turns, started, t) <==> Closes(closed, UpTo(turns, started, t)) && chunks == []
  {
    hide Handed, UpTo;
    var before := Handed(closed, turns, started, t);
    assert |before + chunks| == |before| + |chunks| && before + [] == before;
  }

  lemma TurnOver(closed: bool, turns: seq<Turn>, started: bool, t: nat)
    requires t < |turns|
    ensures var u, l := UpTo(turns, started, t), turns[t].later;
      && Accepted(closed, History(turns, started, t + 1))
         == Handed(closed, turns, started, t + 1) + Accepted(Closes(closed, u), l)
      && Closes(closed, History(turns, started, t + 1)) == Closes(Closes(closed, u), l)
  {
    hide Accepted, Closes, PullActions;
    Grown(closed, UpTo(turns, started, t), turns[t].later);
  }

  /** When every chunk but the last is complete as the decoder reads it, decoding
      one by one is decoding the whole. */
  lemma {:induction false} CompleteChunksJoin(chunks: seq<Chunk>)
    requires forall i :: 0 <= i < |chunks| - 1 ==> Utf8.Complete(chunks[i])
    ensures DecodeEach(chunks) == Utf8.Decode(Utf8.Flatten(chunks))
  {
    if chunks == [] {
    } else {
      hide Utf8.Decode, Utf8.Complete;
      CompleteChunksJoin(chunks[1..]);
      Utf8.CompleteChunks(chunks);
      var one: seq<Chunk> := [chunks[0]];
      assert one[..0] == [] && one[0] == chunks[0] && chunks == one + chunks[1..];
      if Utf8.Decode(chunks[0]).Some? { assert [] + Utf8.Decode(chunks[0]).value == Utf8.Decode(chunks[0]).value; }
      assert DecodeEach(one) == Utf8.Decode(chunks[0]);
      DecodeEachConcat(one, chunks[1..]);
      if |chunks| == 1 && DecodeEach(one).Some? { assert DecodeEach(one).value + [] == DecodeEach(one).value; }
    }
  }

  /** When every chunk is the encoding of a string, what is written is those
      strings one after the other, the same as decoding the chunks joined. */
  lemma {:induction false} EncodedChunksComeBack(strs: seq<seq<Utf8.Unit>>)
    ensures DecodeEach(Utf8.EncodeAll(strs)) == Some(Utf8.Flatten(strs))
    ensures DecodeEach(Utf8.EncodeAll(strs)) == Utf8.Decode(Utf8.Flatten(Utf8.EncodeAll(strs)))
    decreases |strs|
  {
    Utf8.DecodeJoinedChunks(strs);
    hide Utf8.Decode, Utf8.Encode;
    if strs != [] {
      EncodedChunksComeBack(strs[1..]);
      Utf8.RoundTrip(strs[0]);
      var chunks := Utf8.EncodeAll(strs);
      assert chunks == [chunks[0]] + Utf8.EncodeAll(strs[1..]);
      DecodeEachConcat([chunks[0]], Utf8.EncodeAll(strs[1..]));
      var one: seq<Chunk> := [chunks[0]];
      assert one[..0] == [] && [] + strs[0] == strs[0];
      assert DecodeEach(one) == Some(strs[0]);
    }
  }
}
