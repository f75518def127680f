/** The event bus of internal/eventbus.go under concurrent clients. A Publish
    holds the read lock, so its offers interleave with those of other Publishes
    and with receives; Subscribe and Close hold the write lock and run whole. */
module EventBusRuns {
  import opened Strings

  type Client = nat
  type Data = seq<int>

  /** A subscription's topics and its one-slot channel. */
  datatype Sub = Sub(topics: seq<string>, slot: Option<Data>, closed: bool)

  /** A Publish under way: the subscribers it has not offered to yet. */
  datatype Pub = Pub(topic: string, data: Data, rest: set<nat>)

  datatype State = State(
    topics: map<string, set<nat>>,
    subs: map<nat, Sub>,
    cid: nat,
    readers: map<Client, Pub>,
    panicked: bool)          // a send reached a closed channel

  datatype Step =
    | PublishStart(c: Client, topic: string, data: Data)
    | OfferTo(c: Client, id: nat)
    | PublishEnd(c: Client)
    | Subscribe(names: seq<string>)
    | Close(id: nat)
    | Receive(id: nat)

  function Listeners(s: State, topic: string): set<nat> { if topic in s.topics then s.topics[topic] else {} }

  /** The send that does not wait. */
  function Offered(sub: Sub, data: Data): Sub { if sub.slot == None then sub.(slot := Some(data)) else sub }

  function Joined(topics: map<string, set<nat>>, names: seq<string>, id: nat): map<string, set<nat>> {
    map t | t in topics.Keys + (set n | n in names) ::
      (if t in topics then topics[t] else {}) + (if t in names then {id} else {})
  }

  function Gone(topics: map<string, set<nat>>, names: seq<string>, id: nat): map<string, set<nat>> {
    map t | t in topics :: if t in names then topics[t] - {id} else topics[t]
  }

  ghost predicate Next(s: State, step: Step, t: State) {
    match step
    case PublishStart(c, topic, data) =>
      c !in s.readers && t == s.(readers := s.readers[c := Pub(topic, data, Listeners(s, topic))])
    case OfferTo(c, id) =>
      && c in s.readers && id in s.readers[c].rest && id in s.subs
      && if s.subs[id].closed then t == s.(panicked := true)
         else t == s.(subs := s.subs[id := Offered(s.subs[id], s.readers[c].data)],
                      readers := s.readers[c := s.readers[c].(rest := s.readers[c].rest - {id})])
    case PublishEnd(c) =>
      c in s.readers && s.readers[c].rest == {} && t == s.(readers := s.readers - {c})
    case Subscribe(names) =>
      && s.readers == map[]
      && t == s.(topics := Joined(s.topics, names, s.cid), subs := s.subs[s.cid := Sub(names, None, false)],
                 cid := s.cid + 1)
    case Close(id) =>
      && s.readers == map[] && id in s.subs
      && t == s.(topics := Gone(s.topics, s.subs[id].topics, id), subs := s.subs[id := s.subs[id].(closed := true)])
    case Receive(id) =>
      id in s.subs && t == s.(subs := s.subs[id := s.subs[id].(slot := None)])
  }

  ghost predicate Init(s: State) { s == State(map[], map[], 0, map[], false) }

  /** Who listens is subscribed and open; a Publish under way has only listeners left. */
  ghost predicate Inv(s: State) {
    && !s.panicked
    && (forall id :: id in s.subs ==> id < s.cid)
    && (forall t, id :: id in Listeners(s, t) <==> id in s.subs && !s.subs[id].closed && t in s.subs[id].topics)
    && (forall c :: c in s.readers ==> s.readers[c].rest <= Listeners(s, s.readers[c].topic))
  }

  lemma SubscribeKeeps(s: State, names: seq<string>, t: State)
    requires Inv(s) && Next(s, Subscribe(names), t)
    ensures Inv(t)
  {
    forall topic, id
      ensures id in Listeners(t, topic) <==> id in t.subs && !t.subs[id].closed && topic in t.subs[id].topics
    {
      assert id in Listeners(s, topic) <==> id in s.subs && !s.subs[id].closed && topic in s.subs[id].topics;
    }
  }

  lemma CloseKeeps(s: State, id: nat, t: State)
    requires Inv(s) && Next(s, Close(id), t)
    ensures Inv(t)
  {
    forall topic, k ensures k in Listeners(t, topic) <==> k in t.subs && !t.subs[k].closed && topic in t.subs[k].topics {
      assert k in Listeners(s, topic) <==> k in s.subs && !s.subs[k].closed && topic in s.subs[k].topics;
    }
  }

  /** An offer meets an open channel. */
  lemma OfferKeeps(s: State, c: Client, id: nat, t: State)
    requires Inv(s) && Next(s, OfferTo(c, id), t)
    ensures Inv(t) && !s.subs[id].closed
  {
    assert id in Listeners(s, s.readers[c].topic);
    forall topic, k ensures k in Listeners(t, topic) <==> k in t.subs && !t.subs[k].closed && topic in t.subs[k].topics {
      assert Listeners(t, topic) == Listeners(s, topic);
    }
  }

  lemma StepKeepsInv(s: State, step: Step, t: State)
    requires Inv(s) && Next(s, step, t)
    ensures Inv(t)
  {
    match step {
      case PublishStart(c, topic, data) => assert forall x :: Listeners(t, x) == Listeners(s, x);
      case OfferTo(c, id) => OfferKeeps(s, c, id, t);
      case PublishEnd(c) => assert forall x :: Listeners(t, x) == Listeners(s, x);
      case Subscribe(names) => SubscribeKeeps(s, names, t);
      case Close(id) => CloseKeeps(s, id, t);
      case Receive(id) => assert forall x :: Listeners(t, x) == Listeners(s, x);
    }
  }

  ghost predicate Linked(states: seq<State>, steps: seq<Step>, i: nat)
    requires |states| == |steps| + 1 && i < |steps|
  {
    Next(states[i], steps[i], states[i + 1])
  }

  ghost predicate Run(states: seq<State>, steps: seq<Step>) {
    |states| == |steps| + 1 && Init(states[0]) && forall i :: 0 <= i < |steps| ==> Linked(states, steps, i)
  }

  lemma {:induction false} RunKeepsInv(states: seq<State>, steps: seq<Step>, i: nat)
    requires Run(states, steps) && i < |states|
    ensures Inv(states[i])
    decreases i
  {
    if i > 0 {
      RunKeepsInv(states, steps, i - 1);
      assert Linked(states, steps, i - 1);
      StepKeepsInv(states[i - 1], steps[i - 1], states[i]);
    }
  }

  /** In every interleaving an offer meets an open channel and leaves its slot
      full, with the new data when it was empty, and every other slot as it was. */
  lemma OfferFills(states: seq<State>, steps: seq<Step>, i: nat)
    requires Run(states, steps) && i < |steps| && steps[i].OfferTo?
    ensures var s, t, id := states[i], states[i + 1], steps[i].id;
      && steps[i].c in s.readers && id in s.subs && id in t.subs && !s.subs[id].closed && !t.panicked
      && t.subs[id].slot == (if s.subs[id].slot == None then Some(s.readers[steps[i].c].data) else s.subs[id].slot)
      && t.subs - {id} == s.subs - {id}
  {
    RunKeepsInv(states, steps, i);
    assert Linked(states, steps, i);
    OfferKeeps(states[i], steps[i].c, steps[i].id, states[i + 1]);
  }

  ghost predicate OfferedBetween(steps: seq<Step>, i: nat, j: nat, c: Client, id: nat) {
    exists k :: i < k < j && k < |steps| && steps[k] == OfferTo(c, id)
  }

  /** While a Publish is under way each subscriber is still to be offered to, or was. */
  lemma {:induction false} StillToOffer(states: seq<State>, steps: seq<Step>, i: nat, j: nat, id: nat)
    requires Run(states, steps) && i < j <= |steps| && steps[i].PublishStart? && id in Listeners(states[i], steps[i].topic)
    requires forall k :: i < k < j ==> steps[k] != PublishEnd(steps[i].c)
    ensures var c := steps[i].c;
      && c in states[j].readers
      && states[j].readers[c].topic == steps[i].topic && states[j].readers[c].data == steps[i].data
      && (id in states[j].readers[c].rest <==> !OfferedBetween(steps, i, j, c, id))
      && Listeners(states[j], steps[i].topic) == Listeners(states[i], steps[i].topic)
    decreases j
  {
    assert Linked(states, steps, j - 1);
    if j > i + 1 {
      var c := steps[i].c;
      StillToOffer(states, steps, i, j - 1, id);
      RunKeepsInv(states, steps, j - 1);
      if steps[j - 1].OfferTo? { OfferKeeps(states[j - 1], steps[j - 1].c, steps[j - 1].id, states[j]); }
      assert OfferedBetween(steps, i, j, c, id) <==>
        OfferedBetween(steps, i, j - 1, c, id) || steps[j - 1] == OfferTo(c, id);
    }
  }

  /** Between the start of a Publish and its end every subscriber of the topic is
      offered the data exactly once, its channel open, and its slot full at that
      moment; whoever else publishes or receives meanwhile. */
  lemma PublishReachesAll(states: seq<State>, steps: seq<Step>, i: nat, j: nat, id: nat) returns (k: nat)
    requires Run(states, steps) && i < j < |steps|
    requires steps[i].PublishStart? && steps[j] == PublishEnd(steps[i].c) && id in Listeners(states[i], steps[i].topic)
    requires forall m :: i < m < j ==> steps[m] != PublishEnd(steps[i].c)
    ensures i < k < j && steps[k] == OfferTo(steps[i].c, id)
    ensures forall l :: i < l < j && steps[l] == OfferTo(steps[i].c, id) ==> l == k
    ensures id in states[k + 1].subs && states[k + 1].subs[id].slot.Some? && !states[k + 1].subs[id].closed
    ensures id in states[k].subs && (states[k].subs[id].slot == None ==> states[k + 1].subs[id].slot == Some(steps[i].data))
  {
    StillToOffer(states, steps, i, j, id);
    assert Linked(states, steps, j);
    k :| i < k < j && steps[k] == OfferTo(steps[i].c, id);
    forall l | i < l < j && steps[l] == OfferTo(steps[i].c, id) ensures l == k {
      OfferedOnce(states, steps, i, if l < k then l else k, if l < k then k else l, id);
    }
    OfferFills(states, steps, k);
    StillToOffer(states, steps, i, k, id);
    assert Linked(states, steps, k);
  }

  lemma OfferedOnce(states: seq<State>, steps: seq<Step>, i: nat, k: nat, l: nat, id: nat)
    requires Run(states, steps) && i < k <= l < |steps|
    requires steps[i].PublishStart? && id in Listeners(states[i], steps[i].topic)
    requires forall m :: i < m < l ==> steps[m] != PublishEnd(steps[i].c)
    requires steps[k] == OfferTo(steps[i].c, id) && steps[l] == OfferTo(steps[i].c, id)
    ensures k == l
  {
    StillToOffer(states, steps, i, l, id);
    assert Linked(states, steps, l);
    assert !OfferedBetween(steps, i, l, steps[i].c, id);
  }
}
