/** The rebuild pipeline of `Watch` in bundler/esbuild/esbuild.go: a change
    callback and a producer goroutine joined by two one-slot channels, with a
    consumer at the end. Every channel operation is one atomic step. */
module WatchPipeline {
  import opened Strings

  /** A bundle: which build made it, and how many changes had been signalled when
      that build was triggered. */
  datatype Output = Output(build: nat, seen: nat)

  datatype Phase =
    | Initial(out: Output)  // about to send the initial bundle
    | Selecting             // waiting for a trigger or for cancellation
    | Building              // a trigger was taken
    | Built(out: Output)    // about to drop an unread bundle
    | Sending(out: Output)  // about to send
    | Stopped(lost: bool)   // lost: the newest bundle was in hand and is dropped

  datatype State = State(
    trigger: bool,            // the trigger channel's slot
    buffer: Option<Output>,   // the output channel's slot
    phase: Phase,
    consumed: seq<Output>,
    changes: nat,             // change callbacks run so far
    taken: nat,               // of those, the ones before the last trigger was taken
    builds: nat,              // builds begun after the initial one
    newest: Output,           // of the newest successful build
    failed: bool,             // the last build failed
    cancelled: bool)

  datatype Step =
    | Change | TakeTrigger | BuildOk | BuildFails | DropUnread | Send | SendInitial | Consume | Cancel | Stop

  ghost predicate Init(s: State) {
    && !s.trigger && s.buffer == None && s.phase == Initial(s.newest) && s.newest == Output(0, 0)
    && s.consumed == [] && s.changes == s.taken == s.builds == 0 && !s.failed && !s.cancelled
  }

  ghost predicate Next(s: State, step: Step, t: State) {
    match step
    case Change => t == s.(changes := s.changes + 1, trigger := true)
    case SendInitial => s.phase.Initial? && s.buffer == None && t == s.(buffer := Some(s.phase.out), phase := Selecting)
    case TakeTrigger =>
      && s.phase == Selecting && s.trigger
      && t == s.(trigger := false, taken := s.changes, builds := s.builds + 1, phase := Building)
    case BuildOk =>
      && s.phase == Building
      && t == s.(newest := Output(s.builds, s.taken), failed := false, phase := Built(Output(s.builds, s.taken)))
    case BuildFails => s.phase == Building && t == s.(failed := true, phase := Selecting)
    case DropUnread => s.phase.Built? && t == s.(buffer := None, phase := Sending(s.phase.out))
    case Send => s.phase.Sending? && s.buffer == None && t == s.(buffer := Some(s.phase.out), phase := Selecting)
    case Consume => s.buffer.Some? && t == s.(buffer := None, consumed := s.consumed + [s.buffer.value])
    case Cancel => t == s.(cancelled := true)
    case Stop =>
      && s.cancelled && (s.phase.Initial? || s.phase == Selecting || s.phase.Sending?)
      && t == s.(phase := Stopped(InHand(s.phase)))
  }

  predicate InHand(p: Phase) { p.Initial? || p.Built? || p.Sending? }

  /** Outputs come in build order, none twice: consumed, then buffered, then in hand. */
  ghost predicate InOrder(s: State) {
    && (forall i, j :: 0 <= i < j < |s.consumed| ==> s.consumed[i].build < s.consumed[j].build)
    && (forall o :: o in s.consumed ==> o.build <= s.newest.build)
    && (s.buffer.Some? ==> s.buffer.value.build <= s.newest.build
                           && forall o :: o in s.consumed ==> o.build < s.buffer.value.build)
    && (InHand(s.phase) ==> s.phase.out == s.newest
                            && (forall o :: o in s.consumed ==> o.build < s.newest.build)
                            && (s.buffer.Some? ==> s.buffer.value.build < s.newest.build))
    && s.newest.build <= s.builds && (s.phase == Building ==> s.newest.build < s.builds)
  }

  /** The newest successful output is in hand, in the buffer, or was consumed last;
      or it was in hand when the pipeline stopped. */
  ghost predicate NewestSafe(s: State) {
    || InHand(s.phase)
    || s.buffer == Some(s.newest)
    || (s.consumed != [] && s.consumed[|s.consumed| - 1] == s.newest)
    || s.phase == Stopped(true)
  }

  /** What the trigger and the phase say about changes, builds and room to send. */
  ghost predicate Signals(s: State) {
    && s.taken <= s.changes
    && (s.changes > s.taken ==> s.trigger)
    && ((s.phase.Initial? || s.phase.Sending?) ==> s.buffer == None)
    && (s.phase == Selecting && !s.failed ==> s.newest.seen == s.taken)
    && (InHand(s.phase) ==> s.newest.seen == s.taken && !s.failed)
    && (s.phase.Initial? ==> s.consumed == [])
    && (s.phase.Stopped? ==> s.cancelled)
  }

  ghost predicate Inv(s: State) { Signals(s) && InOrder(s) && NewestSafe(s) }

  lemma SignalsStep(s: State, step: Step, t: State)
    requires Signals(s) && Next(s, step, t)
    ensures Signals(t)
  {}

  lemma NewestSafeStep(s: State, step: Step, t: State)
    requires Signals(s) && InOrder(s) && NewestSafe(s) && Next(s, step, t)
    ensures NewestSafe(t)
  {
    if step == Consume { assert t.consumed[|t.consumed| - 1] == s.buffer.value; }
  }

  lemma InOrderStep(s: State, step: Step, t: State)
    requires Signals(s) && InOrder(s) && Next(s, step, t)
    ensures InOrder(t)
  {
    if step == Consume {
      ConsumeInOrder(s, t);
    } else {
      assert t.consumed == s.consumed;
    }
  }

  lemma ConsumeInOrder(s: State, t: State)
    requires InOrder(s) && Next(s, Consume, t)
    ensures InOrder(t)
  {
    forall o | o in t.consumed ensures o in s.consumed || o == s.buffer.value {}
  }

  lemma StepKeepsInv(s: State, step: Step, t: State)
    requires Inv(s) && Next(s, step, t)
    ensures Inv(t)
  {
    hide Signals, InOrder, NewestSafe;
    SignalsStep(s, step, t);
    InOrderStep(s, step, t);
    NewestSafeStep(s, step, t);
  }

  ghost predicate Linked(states: seq<State>, steps: seq<Step>, i: nat)
    requires |states| == |steps| + 1 && i < |steps|
  {
    Next(states[i], steps[i], states[i + 1])
  }

  ghost predicate Run(states: seq<State>, steps: seq<Step>) {
    && |states| == |steps| + 1 && Init(states[0])
    && forall i :: 0 <= i < |steps| ==> Linked(states, steps, i)
  }

  lemma {:induction false} RunKeepsInv(states: seq<State>, steps: seq<Step>, i: nat)
    requires Run(states, steps) && i < |states|
    ensures Inv(states[i])
    decreases i
  {
    if i > 0 {
      RunKeepsInv(states, steps, i - 1);
      assert Linked(states, steps, i - 1);
      StepKeepsInv(states[i - 1], steps[i - 1], states[i]);
    }
  }

  /** A change signalled after the last trigger was taken keeps the trigger
      channel full, so another rebuild follows. */
  lemma NoSignalLost(states: seq<State>, steps: seq<Step>, i: nat)
    requires Run(states, steps) && i < |states|
    ensures states[i].changes > states[i].taken ==> states[i].trigger
  {
    RunKeepsInv(states, steps, i);
  }

  /** When the producer rests with no trigger pending and the last build did not
      fail, the newest bundle was built after every change, and the consumer has
      it or finds it in the channel. */
  lemma QuietMeansCurrent(states: seq<State>, steps: seq<Step>, i: nat)
    requires Run(states, steps) && i < |states|
    requires states[i].phase == Selecting && !states[i].trigger && !states[i].failed
    ensures var s := states[i];
      && s.newest.seen == s.changes
      && (s.buffer == Some(s.newest) || (s.consumed != [] && s.consumed[|s.consumed| - 1] == s.newest))
  {
    RunKeepsInv(states, steps, i);
  }

  ghost predicate CanStep(s: State, step: Step) { exists t :: Next(s, step, t) }

  /** The steps of the producer, those of a build aside. */
  predicate Producing(step: Step) {
    step in {SendInitial, TakeTrigger, BuildOk, BuildFails, DropUnread, Send, Stop}
  }

  /** The producer stops only when cancelled, a failed build or not; until then it
      can go on, except that it rests when no trigger is pending. */
  lemma ProducerGoesOn(states: seq<State>, steps: seq<Step>, i: nat)
    requires Run(states, steps) && i < |states|
    ensures states[i].phase.Stopped? ==> states[i].cancelled
    ensures var s := states[i];
      (exists step :: Producing(step) && CanStep(s, step)) <==>
        !(s.phase.Stopped? || (s.phase == Selecting && !s.trigger && !s.cancelled))
    ensures states[i].phase == Selecting && states[i].trigger ==> CanStep(states[i], TakeTrigger)
  {
    RunKeepsInv(states, steps, i);
    var s := states[i];
    match s.phase {
      case Initial(out) => Steps(s, SendInitial, s.(buffer := Some(out), phase := Selecting));
      case Selecting =>
        if s.trigger {
          Steps(s, TakeTrigger, s.(trigger := false, taken := s.changes, builds := s.builds + 1, phase := Building));
        } else if s.cancelled {
          Steps(s, Stop, s.(phase := Stopped(false)));
        }
      case Building => Steps(s, BuildFails, s.(failed := true, phase := Selecting));
      case Built(out) => Steps(s, DropUnread, s.(buffer := None, phase := Sending(out)));
      case Sending(out) => Steps(s, Send, s.(buffer := Some(out), phase := Selecting));
      case Stopped(_) =>
    }
  }

  lemma Steps(s: State, step: Step, t: State)
    requires Next(s, step, t)
    ensures CanStep(s, step)
  {}

  /** Consumed outputs are in build order without repetition, and the newest one
      is never lost, unless it was in hand at the stop. */
  lemma OutputsInOrder(states: seq<State>, steps: seq<Step>, i: nat)
    requires Run(states, steps) && i < |states|
    ensures forall j, k :: 0 <= j < k < |states[i].consumed| ==> states[i].consumed[j].build < states[i].consumed[k].build
    ensures NewestSafe(states[i])
  {
    RunKeepsInv(states, steps, i);
  }

  /** After an unread bundle was dropped the send finds room: the producer never
      waits for the consumer. */
  lemma SendNeverBlocks(states: seq<State>, steps: seq<Step>, i: nat)
    requires Run(states, steps) && i < |states|
    requires states[i].phase.Sending? || states[i].phase.Initial?
    ensures states[i].buffer == None
    ensures var s := states[i];
      Next(s, if s.phase.Sending? then Send else SendInitial, s.(buffer := Some(s.phase.out), phase := Selecting))
  {
    RunKeepsInv(states, steps, i);
  }
}
