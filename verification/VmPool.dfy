/** The bounded VM pool of vmpool/vmpool.go. Every channel operation and every
    locked region is one atomic step; clients interleave arbitrarily. */
module VmPool {
  import opened Strings

  type Vm = nat
  type Client = nat

  datatype Config = Config(minSize: int, maxSize: int) {
    /** `Config.defaults`: at least one VM is kept, and never more than the maximum. */
    function Defaults(): (c: Config)
      ensures 1 <= c.minSize <= c.maxSize
      ensures c.maxSize == if maxSize >= 1 then maxSize else 64
      ensures minSize >= 1 ==> c.minSize == minSize || c.minSize == c.maxSize < minSize
      ensures minSize < 1 ==> c.minSize == 1
    {
      var lo := if minSize <= 0 then 1 else minSize;
      var hi := if maxSize <= 0 then 64 else maxSize;
      Config(if lo > hi then hi else lo, hi)
    }
  }

  /** Where a client is inside Acquire, Release or Close. A client that is in
      no call has no program point. */
  datatype Point =
    | Trying            // Acquire: the idle channel was empty
    | Creating          // Acquire: holds a token, the factory runs
    | Failing           // Acquire: the factory failed, the token goes back
    | Waiting           // Acquire: at capacity, blocked on the idle channel
    | Resetting(vm: Vm) // Release: before the lock
    | Returning(vm: Vm) // Release: the pool was open, about to send
    | Retiring(vm: Vm)  // Release: the pool was closed, about to dispose
    | Freeing           // Release: disposed, about to take a token
    | Draining          // Close: about to poll the idle channel
    | DrainHold(vm: Vm) // Close: took a VM, about to dispose
    | DrainFreeing      // Close: disposed, about to take a token
  {
    function Carries(): set<Vm> {
      match this
      case Resetting(vm) => {vm}
      case Returning(vm) => {vm}
      case Retiring(vm) => {vm}
      case DrainHold(vm) => {vm}
      case _ => {}
    }

    /** The client owns one of the semaphore's tokens. */
    predicate OwnsToken() { Carries() != {} || Creating? || Failing? || Freeing? || DrainFreeing? }

    predicate AfterClose() { Retiring? || Freeing? || Draining? || DrainHold? || DrainFreeing? }
  }

  datatype State = State(
    minSize: nat,
    maxSize: nat,
    idle: seq<Vm>,             // the idle channel's buffer
    sem: nat,                  // tokens in the semaphore channel
    closed: bool,
    held: map<Vm, Client>,     // handed out and not yet given back
    at: map<Client, Point>,
    created: set<Vm>,
    disposed: seq<Vm>)         // in the order of the dispose calls

  datatype Step =
    | AcquireIdle(c: Client) | AcquireMiss(c: Client) | TakeToken(c: Client) | NoToken(c: Client)
    | Created(c: Client, vm: Vm) | CreateFails(c: Client) | GiveBack(c: Client) | WaitOver(c: Client)
    | ReleaseStart(c: Client, vm: Vm) | ReleaseOpen(c: Client) | ReleaseClosed(c: Client) | Send(c: Client)
    | Dispose(c: Client) | FreeToken(c: Client)
    | CloseFirst(c: Client) | CloseAgain(c: Client)
    | DrainTake(c: Client) | DrainDone(c: Client) | DrainDispose(c: Client) | DrainFree(c: Client)

  predicate AtPoint(s: State, c: Client, p: Point) { c in s.at && s.at[c] == p }

  function Leave(s: State, c: Client): map<Client, Point> { s.at - {c} }

  /** One atomic step. Its guard is when the Go operation can proceed: a receive
      needs a full buffer, a send needs room, a `default` case needs neither. */
  ghost predicate Next(s: State, step: Step, t: State) {
    match step
    case AcquireIdle(c) =>
      && c !in s.at && s.idle != []
      && t == s.(idle := s.idle[1..], held := s.held[s.idle[0] := c])
    case AcquireMiss(c) => c !in s.at && s.idle == [] && t == s.(at := s.at[c := Trying])
    case TakeToken(c) =>
      AtPoint(s, c, Trying) && s.sem < s.maxSize && t == s.(sem := s.sem + 1, at := s.at[c := Creating])
    case NoToken(c) => AtPoint(s, c, Trying) && s.sem >= s.maxSize && t == s.(at := s.at[c := Waiting])
    case Created(c, vm) =>
      && AtPoint(s, c, Creating) && vm !in s.created
      && t == s.(at := Leave(s, c), held := s.held[vm := c], created := s.created + {vm})
    case CreateFails(c) => AtPoint(s, c, Creating) && t == s.(at := s.at[c := Failing])
    case GiveBack(c) => AtPoint(s, c, Failing) && s.sem > 0 && t == s.(sem := s.sem - 1, at := Leave(s, c))
    case WaitOver(c) =>
      && AtPoint(s, c, Waiting) && s.idle != []
      && t == s.(idle := s.idle[1..], at := Leave(s, c), held := s.held[s.idle[0] := c])
    case ReleaseStart(c, vm) =>
      && c !in s.at && vm in s.held && s.held[vm] == c
      && t == s.(held := s.held - {vm}, at := s.at[c := Resetting(vm)])
    case ReleaseOpen(c) =>
      && c in s.at && s.at[c].Resetting? && !s.closed
      && t == s.(at := s.at[c := Returning(s.at[c].vm)])
    case ReleaseClosed(c) =>
      && c in s.at && s.at[c].Resetting? && s.closed
      && t == s.(at := s.at[c := Retiring(s.at[c].vm)])
    case Send(c) =>
      && c in s.at && s.at[c].Returning? && |s.idle| < s.maxSize
      && t == s.(idle := s.idle + [s.at[c].vm], at := Leave(s, c))
    case Dispose(c) =>
      && c in s.at && s.at[c].Retiring?
      && t == s.(disposed := s.disposed + [s.at[c].vm], at := s.at[c := Freeing])
    case FreeToken(c) => AtPoint(s, c, Freeing) && s.sem > 0 && t == s.(sem := s.sem - 1, at := Leave(s, c))
    case CloseFirst(c) => c !in s.at && !s.closed && t == s.(closed := true, at := s.at[c := Draining])
    case CloseAgain(c) => c !in s.at && s.closed && t == s
    case DrainTake(c) =>
      && AtPoint(s, c, Draining) && s.idle != []
      && t == s.(idle := s.idle[1..], at := s.at[c := DrainHold(s.idle[0])])
    case DrainDone(c) => AtPoint(s, c, Draining) && s.idle == [] && t == s.(at := Leave(s, c))
    case DrainDispose(c) =>
      && c in s.at && s.at[c].DrainHold?
      && t == s.(disposed := s.disposed + [s.at[c].vm], at := s.at[c := DrainFreeing])
    case DrainFree(c) =>
      AtPoint(s, c, DrainFreeing) && s.sem > 0 && t == s.(sem := s.sem - 1, at := s.at[c := Draining])
  }

  /** What New leaves behind: minSize fresh VMs, each with its token. */
  ghost predicate Init(s: State) {
    && 1 <= s.minSize <= s.maxSize
    && |s.idle| == s.sem == s.minSize && Distinct(s.idle)
    && !s.closed && s.held == map[] && s.at == map[] && s.disposed == []
    && s.created == Elements(s.idle)
  }

  ghost predicate Distinct(vms: seq<Vm>) { forall i, j :: 0 <= i < j < |vms| ==> vms[i] != vms[j] }

  ghost function Elements(vms: seq<Vm>): set<Vm> { set v | v in vms }

  // ------------------------------------------------------------- invariant

  /** The clients that own a token on their way through a call. */
  ghost function Carriers(at: map<Client, Point>): set<Client> {
    set c | c in at && at[c].OwnsToken()
  }

  /** Conservation: every token belongs to an idle VM, a VM handed out, or a
      client that is creating, returning or disposing one. */
  ghost predicate Counted(s: State) {
    && 1 <= s.minSize <= s.maxSize
    && s.sem == |s.idle| + |s.held| + |Carriers(s.at)|
    && s.sem <= s.maxSize
  }

  ghost predicate Carried(at: map<Client, Point>, v: Vm) {
    exists c :: c in at && v in at[c].Carries()
  }

  /** Every created VM is in exactly one place: idle, handed out, carried by one
      client, or disposed. */
  ghost predicate Placed(s: State) {
    && Distinct(s.idle) && Distinct(s.disposed)
    && (forall v :: v in s.created <==> v in s.idle || v in s.held || v in s.disposed || Carried(s.at, v))
    && (forall v :: v in s.idle ==> v !in s.held && v !in s.disposed && !Carried(s.at, v))
    && (forall v :: v in s.held ==> v !in s.disposed && !Carried(s.at, v))
    && (forall v :: v in s.disposed ==> !Carried(s.at, v))
    && OneCarrier(s.at)
  }

  ghost predicate OneCarrier(at: map<Client, Point>) {
    forall c, d :: c in at && d in at && c != d ==> at[c].Carries() !! at[d].Carries()
  }

  /** Before Close nothing is retired, so no VM is ever lost. */
  ghost predicate OpenKeepsAll(s: State) {
    && |s.created| >= s.minSize
    && (!s.closed ==> s.disposed == [] && forall c :: c in s.at ==> !s.at[c].AfterClose())
  }

  ghost predicate Inv(s: State) { Counted(s) && Placed(s) && OpenKeepsAll(s) }

  // ------------------------------------------------ effects on the parts

  function Token(at: map<Client, Point>, c: Client): nat {
    if c in at && at[c].OwnsToken() then 1 else 0
  }

  lemma MoveClient(at: map<Client, Point>, c: Client, p: Point)
    ensures |Carriers(at[c := p])| == |Carriers(at)| - Token(at, c) + (if p.OwnsToken() then 1 else 0)
  {
    RemoveClient(at, c);
    var others := Carriers(at - {c});
    if p.OwnsToken() {
      assert Carriers(at[c := p]) == others + {c};
    } else {
      assert Carriers(at[c := p]) == others;
    }
  }

  lemma RemoveClient(at: map<Client, Point>, c: Client)
    ensures |Carriers(at - {c})| == |Carriers(at)| - Token(at, c)
  {
    assert Carriers(at - {c}) == Carriers(at) - {c};
    assert c in Carriers(at) <==> c in at && at[c].OwnsToken();
  }

  lemma Unhold(held: map<Vm, Client>, v: Vm)
    requires v in held
    ensures |held - {v}| == |held| - 1
  {
    assert (held - {v}).Keys == held.Keys - {v};
  }

  /** Steps that hand a VM out or take it back. */
  predicate Hands(step: Step) {
    step.AcquireIdle? || step.WaitOver? || step.Created? || step.ReleaseStart?
  }

  lemma CountedHands(s: State, step: Step, t: State)
    requires Counted(s) && Next(s, step, t) && Hands(step)
    requires s.idle != [] ==> s.idle[0] !in s.held
    requires step.Created? ==> step.vm !in s.held
    ensures Counted(t)
  {
    hide Carriers;
    if step.ReleaseStart? {
      CountedGivesBack(s, step.c, step.vm, t);
    } else {
      RemoveClient(s.at, step.c);
    }
  }

  lemma CountedGivesBack(s: State, c: Client, vm: Vm, t: State)
    requires Counted(s) && Next(s, ReleaseStart(c, vm), t)
    ensures Counted(t)
  {
    hide Carriers;
    MoveClient(s.at, c, Resetting(vm));
    Unhold(s.held, vm);
  }

  lemma CountedLeaves(s: State, step: Step, t: State)
    requires Counted(s) && Next(s, step, t) && !Hands(step) && step.c !in t.at
    ensures Counted(t)
  {
    RemoveClient(s.at, step.c);
  }

  lemma CountedMoves(s: State, step: Step, t: State)
    requires Counted(s) && Next(s, step, t) && !Hands(step) && step.c in t.at
    ensures Counted(t)
  {
    MoveClient(s.at, step.c, t.at[step.c]);
  }

  /** Conservation of tokens survives every step. */
  lemma CountedStep(s: State, step: Step, t: State)
    requires Counted(s) && Placed(s) && Next(s, step, t)
    ensures Counted(t)
  {
    if Hands(step) {
      assert s.idle != [] ==> s.idle[0] in s.idle;
      CountedHands(s, step, t);
    } else if step.c in t.at {
      CountedMoves(s, step, t);
    } else {
      CountedLeaves(s, step, t);
    }
  }

  lemma OpenKeepsAllStep(s: State, step: Step, t: State)
    requires OpenKeepsAll(s) && Next(s, step, t)
    ensures OpenKeepsAll(t)
  {
    if step.Created? { assert |t.created| == |s.created| + 1; }
  }

  /** What a client carries after it moves on or leaves. */
  lemma CarriedAfter(at: map<Client, Point>, c: Client, at': map<Client, Point>, now: set<Vm>)
    requires OneCarrier(at)
    requires at' - {c} == at - {c} && now == CarriesAt(at', c)
    requires forall v :: v in now ==> !Carried(at, v) || v in CarriesAt(at, c)
    ensures OneCarrier(at')
    ensures forall v :: Carried(at', v) <==> v in now || (Carried(at, v) && v !in CarriesAt(at, c))
  {
    assert forall d :: d != c ==> (d in at <==> d in at') && (d in at ==> at[d] == at'[d]) by {
      forall d | d != c ensures (d in at <==> d in at') && (d in at ==> at[d] == at'[d]) {
        assert d in at <==> d in at - {c};
        assert d in at' <==> d in at' - {c};
        if d in at { assert (at - {c})[d] == at[d] && (at' - {c})[d] == at'[d]; }
      }
    }
    forall v ensures Carried(at', v) <==> v in now || (Carried(at, v) && v !in CarriesAt(at, c)) {
      if Carried(at', v) {
        var d :| d in at' && v in at'[d].Carries();
        if d != c { assert d in at && v in at[d].Carries(); }
      }
      if Carried(at, v) {
        var d :| d in at && v in at[d].Carries();
        if d != c { assert d in at' && v in at'[d].Carries(); }
      }
    }
    forall d, e | d in at' && e in at' && d != e ensures at'[d].Carries() !! at'[e].Carries() {
      if d != c { assert forall v :: v in at[d].Carries() ==> Carried(at, v); }
      if e != c { assert forall v :: v in at[e].Carries() ==> Carried(at, v); }
    }
  }

  ghost function CarriesAt(at: map<Client, Point>, c: Client): set<Vm> {
    if c in at then at[c].Carries() else {}
  }

  /** The client moves on and no VM changes its place. */
  lemma PlacedStill(s: State, c: Client, t: State)
    requires Placed(s) && t.at - {c} == s.at - {c} && CarriesAt(t.at, c) == CarriesAt(s.at, c)
    requires t.idle == s.idle && t.held == s.held && t.disposed == s.disposed && t.created == s.created
    ensures Placed(t)
  {
    assert forall v :: v in CarriesAt(s.at, c) ==> Carried(s.at, v);
    CarriedAfter(s.at, c, t.at, CarriesAt(t.at, c));
  }

  lemma DistinctTail(vms: seq<Vm>)
    requires Distinct(vms) && vms != []
    ensures Distinct(vms[1..]) && forall v :: v in vms[1..] <==> v in vms && v != vms[0]
  {
    forall v ensures v in vms[1..] <==> v in vms && v != vms[0] {
      if v in vms[1..] {
        var i :| 0 <= i < |vms[1..]| && vms[1..][i] == v;
        assert vms[i + 1] == v;
      }
      if v in vms && v != vms[0] {
        var i :| 0 <= i < |vms| && vms[i] == v;
        assert vms[1..][i - 1] == v;
      }
    }
  }

  /** The first idle VM is handed out. */
  lemma PlacedHandOut(s: State, c: Client, t: State)
    requires Placed(s) && s.idle != [] && CarriesAt(s.at, c) == {}
    requires t == s.(idle := s.idle[1..], at := Leave(s, c), held := s.held[s.idle[0] := c])
    ensures Placed(t)
  {
    var v := s.idle[0];
    DistinctTail(s.idle);
    CarriedAfter(s.at, c, t.at, {});
  }

  /** Close takes the first idle VM. */
  lemma PlacedDrainTake(s: State, c: Client, t: State)
    requires Placed(s) && s.idle != [] && CarriesAt(s.at, c) == {}
    requires t == s.(idle := s.idle[1..], at := s.at[c := DrainHold(s.idle[0])])
    ensures Placed(t)
  {
    DistinctTail(s.idle);
    assert s.idle[0] in s.idle;
    CarriedAfter(s.at, c, t.at, {s.idle[0]});
  }

  lemma PlacedCreated(s: State, c: Client, vm: Vm, t: State)
    requires Placed(s) && vm !in s.created && CarriesAt(s.at, c) == {}
    requires t == s.(at := Leave(s, c), held := s.held[vm := c], created := s.created + {vm})
    ensures Placed(t)
  {
    CarriedAfter(s.at, c, t.at, {});
  }

  lemma PlacedGiveBack(s: State, c: Client, vm: Vm, t: State)
    requires Placed(s) && c !in s.at && vm in s.held
    requires t == s.(held := s.held - {vm}, at := s.at[c := Resetting(vm)])
    ensures Placed(t)
  {
    CarriedAfter(s.at, c, t.at, {vm});
  }

  lemma DistinctSnoc(vms: seq<Vm>, v: Vm)
    requires Distinct(vms) && v !in vms
    ensures Distinct(vms + [v]) && forall w :: w in vms + [v] <==> w in vms || w == v
  {}

  lemma PlacedSend(s: State, c: Client, t: State)
    requires Placed(s) && c in s.at && s.at[c].Returning?
    requires t == s.(idle := s.idle + [s.at[c].vm], at := Leave(s, c))
    ensures Placed(t)
  {
    var v := s.at[c].vm;
    assert v in s.at[c].Carries() && Carried(s.at, v);
    DistinctSnoc(s.idle, v);
    CarriedAfter(s.at, c, t.at, {});
  }

  lemma PlacedDispose(s: State, c: Client, p: Point, t: State)
    requires Placed(s) && c in s.at && (s.at[c].Retiring? || s.at[c].DrainHold?) && p.Carries() == {}
    requires t == s.(disposed := s.disposed + [s.at[c].vm], at := s.at[c := p])
    ensures Placed(t)
  {
    var v := s.at[c].vm;
    assert v in s.at[c].Carries() && Carried(s.at, v);
    DistinctSnoc(s.disposed, v);
    CarriedAfter(s.at, c, t.at, {});
  }

  /** Every VM stays in exactly one place. */
  lemma PlacedStep(s: State, step: Step, t: State)
    requires Placed(s) && Next(s, step, t)
    ensures Placed(t)
  {
    hide Placed;
    var c := step.c;
    match step {
      case AcquireIdle(_) => assert Leave(s, c) == s.at; PlacedHandOut(s, c, t);
      case WaitOver(_) => PlacedHandOut(s, c, t);
      case DrainTake(_) => PlacedDrainTake(s, c, t);
      case Created(_, vm) => PlacedCreated(s, c, vm, t);
      case ReleaseStart(_, vm) => PlacedGiveBack(s, c, vm, t);
      case Send(_) => PlacedSend(s, c, t);
      case Dispose(_) => PlacedDispose(s, c, Freeing, t);
      case DrainDispose(_) => PlacedDispose(s, c, DrainFreeing, t);
      case _ => PlacedStill(s, c, t);
    }
  }

  // ------------------------------------------------------ over whole runs

  lemma {:induction false} StepKeepsInv(s: State, step: Step, t: State)
    requires Inv(s) && Next(s, step, t)
    ensures Inv(t)
  {
    CountedStep(s, step, t);
    PlacedStep(s, step, t);
    OpenKeepsAllStep(s, step, t);
  }

  /** A run: consecutive states are linked by steps of any clients. */
  ghost predicate Run(states: seq<State>, steps: seq<Step>) {
    && |states| == |steps| + 1 && Init(states[0])
    && forall i :: 0 <= i < |steps| ==> Linked(states, steps, i)
  }

  ghost predicate Linked(states: seq<State>, steps: seq<Step>, i: nat)
    requires |states| == |steps| + 1 && i < |steps|
  {
    Next(states[i], steps[i], states[i + 1])
  }

  lemma InitInv(s: State)
    requires Init(s)
    ensures Inv(s)
  {
    assert Carriers(s.at) == {};
    DistinctSize(s.idle);
  }

  lemma {:induction false} DistinctSize(vms: seq<Vm>)
    requires Distinct(vms)
    ensures |Elements(vms)| == |vms|
  {
    if vms != [] {
      DistinctTail(vms);
      DistinctSize(vms[1..]);
      assert Elements(vms) == Elements(vms[1..]) + {vms[0]};
    }
  }

  lemma {:induction false} RunKeepsInv(states: seq<State>, steps: seq<Step>, i: nat)
    requires Run(states, steps) && i < |states|
    ensures Inv(states[i])
    decreases i
  {
    if i == 0 {
      InitInv(states[0]);
    } else {
      RunKeepsInv(states, steps, i - 1);
      assert Linked(states, steps, i - 1);
      StepKeepsInv(states[i - 1], steps[i - 1], states[i]);
    }
  }

  /** Over every interleaving: one token per idle VM, held VM or client under
      way, never more than maxSize; and the VMs themselves are accounted for. */
  lemma TokensConserved(states: seq<State>, steps: seq<Step>, i: nat)
    requires Run(states, steps) && i < |states|
    ensures var s := states[i];
      && s.sem == |s.idle| + |s.held| + |Carriers(s.at)| <= s.maxSize
      && (s.at == map[] ==> s.sem == |s.idle| + |s.held|
                            && s.created == Elements(s.idle) + s.held.Keys + Elements(s.disposed))
  {
    RunKeepsInv(states, steps, i);
    var s := states[i];
    if s.at == map[] {
      assert Carriers(s.at) == {};
      forall v ensures v in s.created <==> v in Elements(s.idle) + s.held.Keys + Elements(s.disposed) {}
    }
  }

  /** A client in Release, Close or a failed Acquire never waits for a channel:
      there is room for its VM, and a token for it to take. */
  lemma ReleaseNeverBlocks(states: seq<State>, steps: seq<Step>, i: nat, c: Client)
    requires Run(states, steps) && i < |states| && c in states[i].at
    ensures states[i].at[c].Returning? ==> |states[i].idle| < states[i].maxSize
    ensures states[i].at[c].Freeing? || states[i].at[c].DrainFreeing? || states[i].at[c].Failing? ==> states[i].sem > 0
  {
    RunKeepsInv(states, steps, i);
    var s := states[i];
    if s.at[c].OwnsToken() {
      assert c in Carriers(s.at);
      assert |Carriers(s.at)| > 0;
    }
  }

  /** The VMs and clients that count against the maximum: idle, held, or under way. */
  ghost function InUse(s: State): nat { |s.idle| + |s.held| + |Carriers(s.at)| }

  /** An Acquire that found nothing idle creates a VM exactly while fewer than
      maxSize are in use, and waits exactly when maxSize are. */
  lemma CapacityDecides(states: seq<State>, steps: seq<Step>, i: nat, c: Client)
    requires Run(states, steps) && i < |states| && AtPoint(states[i], c, Trying)
    ensures (exists t :: Next(states[i], TakeToken(c), t)) <==> InUse(states[i]) < states[i].maxSize
    ensures (exists t :: Next(states[i], NoToken(c), t)) <==> InUse(states[i]) == states[i].maxSize
    ensures states[i].maxSize == states[0].maxSize
  {
    TokensConserved(states, steps, i);
    SizesStay(states, steps, i);
    var s := states[i];
    if s.sem < s.maxSize {
      assert Next(s, TakeToken(c), s.(sem := s.sem + 1, at := s.at[c := Creating]));
    } else {
      assert Next(s, NoToken(c), s.(at := s.at[c := Waiting]));
    }
  }

  /** Who creates or waits has found the idle channel empty, in this very call. */
  lemma {:induction false} TriedInVain(states: seq<State>, steps: seq<Step>, j: nat, c: Client)
    requires Run(states, steps) && j < |states| && c in states[j].at
    requires var p := states[j].at[c]; p.Trying? || p.Creating? || p.Failing? || p.Waiting?
    ensures exists i :: 0 <= i < j && steps[i] == AcquireMiss(c) && states[i].idle == []
                        && forall k :: i < k <= j ==> c in states[k].at
    decreases j
  {
    if j > 0 {
      assert Linked(states, steps, j - 1);
      if steps[j - 1] == AcquireMiss(c) {
        assert states[j - 1].idle == [];
      } else {
        TriedInVain(states, steps, j - 1, c);
        var i :| 0 <= i < j - 1 && steps[i] == AcquireMiss(c) && states[i].idle == []
                 && forall k :: i < k <= j - 1 ==> c in states[k].at;
        assert forall k :: i < k <= j ==> c in states[k].at;
      }
    }
  }

  lemma {:induction false} SizesStay(states: seq<State>, steps: seq<Step>, i: nat)
    requires Run(states, steps) && i < |states|
    ensures states[i].maxSize == states[0].maxSize && states[i].minSize == states[0].minSize
    decreases i
  {
    if i > 0 {
      SizesStay(states, steps, i - 1);
      assert Linked(states, steps, i - 1);
    }
  }

  ghost predicate CanMove(s: State, c: Client) {
    exists step: Step, t :: step.c == c && Next(s, step, t)
  }

  lemma Moves(s: State, step: Step, t: State)
    requires Next(s, step, t)
    ensures CanMove(s, step.c)
  {}

  /** In a reachable state every client inside a call can take a step, except an
      Acquire that waits on an empty idle channel. */
  lemma OnlyWaitingBlocks(states: seq<State>, steps: seq<Step>, i: nat, c: Client)
    requires Run(states, steps) && i < |states| && c in states[i].at
    ensures CanMove(states[i], c) <==> !(states[i].at[c].Waiting? && states[i].idle == [])
  {
    ReleaseNeverBlocks(states, steps, i, c);
    hide CanMove, Run;
    var s := states[i];
    match s.at[c] {
      case Trying =>
        if s.sem < s.maxSize {
          Moves(s, TakeToken(c), s.(sem := s.sem + 1, at := s.at[c := Creating]));
        } else {
          Moves(s, NoToken(c), s.(at := s.at[c := Waiting]));
        }
      case Creating => Moves(s, CreateFails(c), s.(at := s.at[c := Failing]));
      case Failing => Moves(s, GiveBack(c), s.(sem := s.sem - 1, at := Leave(s, c)));
      case Waiting => WaitingMoves(s, c);
      case Resetting(vm) =>
        if s.closed {
          Moves(s, ReleaseClosed(c), s.(at := s.at[c := Retiring(vm)]));
        } else {
          Moves(s, ReleaseOpen(c), s.(at := s.at[c := Returning(vm)]));
        }
      case Returning(vm) => Moves(s, Send(c), s.(idle := s.idle + [vm], at := Leave(s, c)));
      case Retiring(vm) => Moves(s, Dispose(c), s.(disposed := s.disposed + [vm], at := s.at[c := Freeing]));
      case Freeing => Moves(s, FreeToken(c), s.(sem := s.sem - 1, at := Leave(s, c)));
      case Draining =>
        if s.idle == [] {
          Moves(s, DrainDone(c), s.(at := Leave(s, c)));
        } else {
          Moves(s, DrainTake(c), s.(idle := s.idle[1..], at := s.at[c := DrainHold(s.idle[0])]));
        }
      case DrainHold(vm) => Moves(s, DrainDispose(c), s.(disposed := s.disposed + [vm], at := s.at[c := DrainFreeing]));
      case DrainFreeing => Moves(s, DrainFree(c), s.(sem := s.sem - 1, at := s.at[c := Draining]));
    }
  }

  lemma WaitingMoves(s: State, c: Client)
    requires AtPoint(s, c, Waiting)
    ensures CanMove(s, c) <==> s.idle != []
  {
    if s.idle != [] {
      Moves(s, WaitOver(c), s.(idle := s.idle[1..], at := Leave(s, c), held := s.held[s.idle[0] := c]));
    }
  }

  /** Closed, and v is not on its way back to the idle channel. */
  predicate NotReturned(s: State, v: Vm) {
    s.closed && forall d :: d in s.at ==> s.at[d] != Returning(v)
  }

  predicate Drains(s: State, c: Client) {
    c in s.at && (s.at[c].Draining? || s.at[c].DrainHold? || s.at[c].DrainFreeing?)
  }

  lemma DrainingStep(s: State, step: Step, t: State, c: Client, v: Vm)
    requires Next(s, step, t) && NotReturned(s, v) && (Drains(s, c) || v !in s.idle)
    ensures NotReturned(t, v) && (Drains(t, c) || v !in t.idle) && (v !in s.idle ==> v !in t.idle)
  {
    assert forall d :: d in t.at && t.at[d] == Returning(v) ==> d in s.at && s.at[d] == Returning(v);
    if v !in s.idle { assert v !in t.idle; }
  }

  lemma {:induction false} DrainingOn(states: seq<State>, steps: seq<Step>, i: nat, j: nat, c: Client, v: Vm)
    requires Run(states, steps) && i <= j < |states|
    requires NotReturned(states[i], v) && (Drains(states[i], c) || v !in states[i].idle)
    ensures NotReturned(states[j], v) && (Drains(states[j], c) || v !in states[j].idle)
    ensures v !in states[i].idle ==> v !in states[j].idle
    decreases j
  {
    if i < j {
      DrainingOn(states, steps, i, j - 1, c, v);
      assert Linked(states, steps, j - 1);
      DrainingStep(states[j - 1], steps[j - 1], states[j], c, v);
    }
  }

  /** When the first Close has returned, no VM is idle that was idle when it began,
      then or ever after. */
  lemma CloseDrains(states: seq<State>, steps: seq<Step>, i: nat, j: nat, k: nat, c: Client, v: Vm)
    requires Run(states, steps) && i < j <= k < |states|
    requires steps[i] == CloseFirst(c) && c !in states[j].at && v in states[i].idle
    ensures v !in states[k].idle
  {
    RunKeepsInv(states, steps, i);
    assert Linked(states, steps, i);
    assert NotReturned(states[i + 1], v) by {
      forall d | d in states[i].at && states[i].at[d].Returning? ensures states[i].at[d].vm != v {
        assert states[i].at[d].vm in states[i].at[d].Carries();
      }
    }
    hide Next, Run, Inv, NotReturned;
    DrainingOn(states, steps, i + 1, j, c, v);
    DrainingOn(states, steps, j, k, c, v);
  }

  lemma {:induction false} DisposedGrows(states: seq<State>, steps: seq<Step>, i: nat, j: nat)
    requires Run(states, steps) && i <= j < |states|
    ensures states[i].disposed <= states[j].disposed
    ensures states[i].created <= states[j].created
    ensures states[i].closed ==> states[j].closed
    ensures states[i].minSize == states[j].minSize
    decreases j
  {
    if i < j {
      DisposedGrows(states, steps, i, j - 1);
      assert Linked(states, steps, j - 1);
    }
  }

  /** Once disposed, a VM is never idle, handed out or carried again, and the
      log of dispose calls never lists it twice. */
  lemma DisposedForGood(states: seq<State>, steps: seq<Step>, i: nat, j: nat, v: Vm)
    requires Run(states, steps) && i <= j < |states| && v in states[i].disposed
    ensures v !in states[j].held && v !in states[j].idle && !Carried(states[j].at, v)
    ensures v in states[j].disposed && Distinct(states[j].disposed)
  {
    DisposedGrows(states, steps, i, j);
    RunKeepsInv(states, steps, j);
    var k :| 0 <= k < |states[i].disposed| && states[i].disposed[k] == v;
    assert states[j].disposed[k] == v;
  }

  /** A VM that is handed out is in nobody else's hands. */
  lemma HandedOutOnce(states: seq<State>, steps: seq<Step>, i: nat)
    requires Run(states, steps) && i < |steps|
    requires steps[i].AcquireIdle? || steps[i].WaitOver? || steps[i].Created?
    ensures exists v ::
      && v !in states[i].held && !Carried(states[i].at, v) && v !in states[i].disposed
      && (if steps[i].Created? then v == steps[i].vm else states[i].idle != [] && v == states[i].idle[0])
      && states[i + 1].held == states[i].held[v := steps[i].c]
  {
    RunKeepsInv(states, steps, i);
    assert Linked(states, steps, i);
    var v := if steps[i].Created? then steps[i].vm else states[i].idle[0];
    assert v !in states[i].held && v !in states[i].disposed && !Carried(states[i].at, v);
    assert states[i + 1].held == states[i].held[v := steps[i].c];
  }

  ghost function Live(s: State): set<Vm> { s.created - Elements(s.disposed) }

  /** Before Close the live VMs only grow, and there are at least minSize. */
  lemma LiveNeverDrops(states: seq<State>, steps: seq<Step>, i: nat, j: nat)
    requires Run(states, steps) && i <= j < |states| && !states[j].closed
    ensures Live(states[i]) <= Live(states[j])
    ensures |Live(states[j])| >= states[j].minSize >= 1
  {
    DisposedGrows(states, steps, i, j);
    RunKeepsInv(states, steps, j);
    assert Elements(states[j].disposed) == {};
    assert Live(states[j]) == states[j].created;
  }

  /** A client that holds a VM, or is on its way to give one back. */
  ghost predicate HasVm(s: State, d: Client) {
    || (exists v :: v in s.held && s.held[v] == d)
    || (d in s.at && (s.at[d].Resetting? || s.at[d].Returning?))
  }

  /** An Acquire blocked on the empty idle channel of an open pool waits for
      somebody who has a VM; when the blocked client holds none itself, that is
      another client. */
  lemma BlockedMeansBusy(states: seq<State>, steps: seq<Step>, i: nat, c: Client)
    requires Run(states, steps) && i < |states|
    requires !states[i].closed && states[i].idle == [] && AtPoint(states[i], c, Waiting)
    ensures exists d :: HasVm(states[i], d)
    ensures !HasVm(states[i], c) ==> exists d :: d != c && HasVm(states[i], d)
  {
    RunKeepsInv(states, steps, i);
    LiveNeverDrops(states, steps, i, i);
    var s := states[i];
    var v :| v in Live(s);
    if v in s.held {
      assert HasVm(s, s.held[v]);
    } else {
      var d :| d in s.at && v in s.at[d].Carries();
      assert !s.at[d].AfterClose();
      assert HasVm(s, d);
    }
  }

  predicate Returns(s: State) { exists d :: d in s.at && s.at[d].Returning? }

  /** Once the pool is closed and empty with nobody about to send, nothing is ever
      sent again: a blocked Acquire waits for good. */
  lemma {:induction false} WaitsForGood(states: seq<State>, steps: seq<Step>, i: nat, j: nat, c: Client)
    requires Run(states, steps) && i <= j < |states|
    requires states[i].closed && states[i].idle == [] && !Returns(states[i]) && AtPoint(states[i], c, Waiting)
    ensures states[j].closed && states[j].idle == [] && !Returns(states[j]) && AtPoint(states[j], c, Waiting)
    decreases j
  {
    if i < j {
      WaitsForGood(states, steps, i, j - 1, c);
      assert Linked(states, steps, j - 1);
      assert forall d :: d in states[j].at && states[j].at[d].Returning? ==>
        d in states[j - 1].at && states[j - 1].at[d].Returning?;
    }
  }

  // ------------------------------------------- the sequential parts: New, drain

  class Pool {
    const maxSize: nat
    var idle: seq<Vm>
    var sem: nat
    var closed: bool
    var disposed: seq<Vm>

    constructor (maxSize: nat)
      ensures this.maxSize == maxSize && idle == [] && sem == 0 && !closed && disposed == []
    {
      this.maxSize := maxSize;
      idle, sem, closed, disposed := [], 0, false, [];
    }

    /** The pool as the state in which its clients start. */
    ghost function View(minSize: nat): State
      reads this
    {
      State(minSize, maxSize, idle, sem, closed, map[], map[], Elements(idle), disposed)
    }

    /** Disposes what is idle, in order, giving one token back for each. */
    method DrainAndDispose()
      requires |idle| <= sem
      modifies `idle, `sem, `disposed
      ensures idle == [] && sem == old(sem) - |old(idle)|
      ensures disposed == old(disposed) + old(idle)
    {
      ghost var k := 0;
      while |idle| > 0
        invariant 0 <= k <= |old(idle)| && idle == old(idle)[k..]
        invariant sem == old(sem) - k && disposed == old(disposed) + old(idle)[..k]
        decreases |idle|
      {
        var v := idle[0];
        idle := idle[1..];
        disposed := disposed + [v];
        sem := sem - 1;
        k := k + 1;
      }
      assert old(idle)[..k] == old(idle);
    }
  }

  /** The VMs of the first n factory calls. */
  function Made(factory: nat -> Option<Vm>, n: nat): seq<Vm>
    requires forall i :: 0 <= i < n ==> factory(i).Some?
  {
    seq(n, i requires 0 <= i < n => factory(i).value)
  }

  /** New pre-warms minSize VMs. It succeeds exactly when all those factory
      calls do, and then clients start in an initial state, provided that the
      factory made as many VMs as it was asked for; otherwise every VM it made
      is disposed, in order, and no token stays behind. */
  method New(cfg: Config, factory: nat -> Option<Vm>) returns (ok: bool, p: Pool)
    ensures fresh(p)
    ensures ok <==> forall i :: 0 <= i < cfg.Defaults().minSize ==> factory(i).Some?
    ensures ok ==> p.idle == Made(factory, cfg.Defaults().minSize) && p.sem == |p.idle| && p.disposed == []
    ensures ok ==> (Init(p.View(cfg.Defaults().minSize)) <==> Distinct(p.idle))
    ensures !ok ==> p.idle == [] && p.sem == 0 && exists n: nat ::
      n < cfg.Defaults().minSize && factory(n).None? && (forall i :: 0 <= i < n ==> factory(i).Some?)
      && p.disposed == Made(factory, n)
  {
    var c := cfg.Defaults();
    p := new Pool(c.maxSize);
    var n := 0;
    while n < c.minSize
      invariant 0 <= n <= c.minSize
      invariant forall i :: 0 <= i < n ==> factory(i).Some?
      invariant p.idle == Made(factory, n) && p.sem == n && p.disposed == [] && !p.closed
    {
      var v := factory(n);
      if v.None? {
        p.DrainAndDispose();
        return false, p;
      }
      p.idle := p.idle + [v.value];
      p.sem := p.sem + 1;
      n := n + 1;
    }
    ok := true;
  }
}
