/** The in-process event bus of internal/eventbus.go, as one client at a time
    sees it: Subscribe and Close hold the write lock and run whole, and a Publish
    here is not interleaved with anything. How Publishes, which share the read
    lock, mix with each other and with receives is in EventBusRuns. */
module EventBus {
  import opened Strings

  type Data = seq<int>

  /** A one-slot channel. */
  class Channel {
    var slot: Option<Data>
    var closed: bool
    constructor () ensures slot == None && !closed { slot, closed := None, false; }

    /** A send that does not wait: dropped when the slot is full. Sending on a
        closed channel panics, so it is required to be open. */
    method TrySend(data: Data)
      requires !closed
      modifies `slot
      ensures slot == if old(slot) == None then Some(data) else old(slot)
    {
      if slot == None { slot := Some(data); }
    }
  }

  /** What a slot holds after data was offered to it, or was not. */
  function Offer(offered: bool, slot: Option<Data>, data: Data): Option<Data> {
    if offered && slot == None then Some(data) else slot
  }

  class Subscription {
    const id: nat
    const ch: Channel
    const topics: seq<string>
    /** The `sync.Once` of the closer. */
    var once: bool

    constructor (id: nat, ch: Channel, topics: seq<string>)
      ensures this.id == id && this.ch == ch && this.topics == topics && !once
    {
      this.id, this.ch, this.topics, once := id, ch, topics, false;
    }
  }

  class EventBus {
    var topics: map<string, map<nat, Channel>>
    var cid: nat
    /** Every subscription ever made. */
    ghost var subs: map<nat, Subscription>

    ghost function Channels(): set<Channel>
      reads this, subs.Values
    {
      set id | id in subs :: subs[id].ch
    }

    ghost predicate Listens(topic: string, id: nat)
      reads `topics
    {
      topic in topics && id in topics[topic]
    }

    /** A subscription is on exactly its topics until it is closed, and on none
        afterwards; no two share a channel. */
    ghost predicate Valid()
      reads this, subs.Values, Channels()
    {
      && (forall id :: id in subs ==> id < cid && subs[id].id == id)
      && (forall i, j :: i in subs && j in subs && i != j ==> subs[i].ch != subs[j].ch && subs[i] != subs[j])
      && (forall t, id :: Listens(t, id) ==> id in subs && topics[t][id] == subs[id].ch)
      && (forall id, t :: id in subs ==> (Listens(t, id) <==> t in subs[id].topics && !subs[id].once))
      && (forall id :: id in subs ==> subs[id].ch.closed == subs[id].once)
    }

    constructor ()
      ensures Valid() && subs == map[] && topics == map[]
    {
      topics, cid, subs := map[], 0, map[];
    }

    /** Offers data to every subscriber of the topic, in any order: an empty slot
        takes it, a full one keeps what it has, and nobody else is touched. No
        send reaches a closed channel. */
    method Publish(topic: string, data: Data)
      requires Valid()
      modifies Channels()
      ensures Valid()
      ensures forall id :: id in subs ==>
        subs[id].ch.slot ==
          if topic in subs[id].topics && !subs[id].once && old(subs[id].ch.slot) == None then Some(data)
          else old(subs[id].ch.slot)
    {
      if topic !in topics { return; }
      var rest := topics[topic];
      while rest != map[]
        invariant rest.Keys <= topics[topic].Keys && (forall id :: id in rest ==> rest[id] == topics[topic][id])
        invariant forall id :: id in subs ==> subs[id].ch.closed == old(subs[id].ch.closed)
        invariant forall id :: id in subs ==>
          subs[id].ch.slot == Offer(id in topics[topic] && id !in rest, old(subs[id].ch.slot), data)
        decreases |rest|
      {
        var id :| id in rest;
        var ch := rest[id];
        assert Listens(topic, id);
        rest := rest - {id};
        ch.TrySend(data);
      }
      forall id | id in subs ensures id in topics[topic] <==> topic in subs[id].topics && !subs[id].once {
        assert Listens(topic, id) <==> id in topics[topic];
      }
    }

    /** Puts the channel on one topic, which it creates when it has to. */
    method Register(name: string, id: nat, ch: Channel)
      modifies `topics
      ensures forall t, k :: Listens(t, k) <==> old(Listens(t, k)) || (k == id && t == name)
      ensures Listens(name, id) && topics[name][id] == ch
      ensures forall t, k :: old(Listens(t, k)) && !(t == name && k == id) ==>
        Listens(t, k) && topics[t][k] == old(topics)[t][k]
    {
      var subscribers: map<nat, Channel> := if name in topics then topics[name] else map[];
      topics := topics[name := subscribers[id := ch]];
    }

    /** A new subscription listens on all its topics at once. */
    method Subscribe(names: seq<string>) returns (s: Subscription)
      requires Valid()
      modifies this
      ensures Valid() && fresh(s) && fresh(s.ch) && s.topics == names && !s.once && s.ch.slot == None
      ensures s.id == old(cid) && subs == old(subs)[s.id := s]
    {
      var ch := new Channel();
      var id := cid;
      assert forall t :: !Listens(t, id);
      var i := 0;
      while i < |names|
        modifies `topics
        invariant 0 <= i <= |names|
        invariant forall t, k :: Listens(t, k) <==> old(Listens(t, k)) || (k == id && t in names[..i])
        invariant forall t, k :: old(Listens(t, k)) ==> topics[t][k] == old(topics)[t][k]
        invariant forall t :: Listens(t, id) ==> topics[t][id] == ch
      {
        var name := names[i];
        assert names[..i + 1] == names[..i] + [name];
        Register(name, id, ch);
        i := i + 1;
      }
      assert names[..i] == names;
      cid := cid + 1;
      s := new Subscription(id, ch, names);
      subs := subs[id := s];
    }

    /** Takes the channel off one topic. */
    method Delete(name: string, id: nat)
      modifies `topics
      ensures forall t, k :: Listens(t, k) <==> old(Listens(t, k)) && !(k == id && t == name)
      ensures forall t, k :: old(Listens(t, k)) && !(k == id && t == name) ==>
        Listens(t, k) && topics[t][k] == old(topics)[t][k]
    {
      if name in topics { topics := topics[name := topics[name] - {id}]; }
    }

    /** The closer: unsubscribes everywhere, and closes the channel the first time. */
    method Close(s: Subscription)
      requires Valid() && s.id in subs && subs[s.id] == s
      modifies `topics, s, s.ch
      ensures Valid() && s.once && s.ch.closed && s.ch.slot == old(s.ch.slot)
      ensures forall t :: !Listens(t, s.id)
      ensures forall t, id :: id != s.id ==> (Listens(t, id) <==> old(Listens(t, id)))
    {
      var i := 0;
      while i < |s.topics|
        modifies `topics
        invariant 0 <= i <= |s.topics|
        invariant forall t, k :: Listens(t, k) <==> old(Listens(t, k)) && !(k == s.id && t in s.topics[..i])
        invariant forall t, k :: Listens(t, k) ==> topics[t][k] == old(topics)[t][k]
      {
        var name := s.topics[i];
        assert s.topics[..i + 1] == s.topics[..i] + [name];
        Delete(name, s.id);
        i := i + 1;
      }
      assert s.topics[..i] == s.topics;
      if !s.once {
        s.once := true;
        s.ch.closed := true;
      }
    }

    /** A receive: takes what is in the slot, and sees the end only when the
        channel is closed and empty. */
    method Receive(s: Subscription) returns (data: Option<Data>, ended: bool)
      requires Valid() && s.id in subs && subs[s.id] == s
      modifies s.ch`slot
      ensures Valid() && data == old(s.ch.slot) && s.ch.slot == None
      ensures ended <==> data == None && s.ch.closed
    {
      data := s.ch.slot;
      s.ch.slot := None;
      ended := data == None && s.ch.closed;
    }
  }
}
