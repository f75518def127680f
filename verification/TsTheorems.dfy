/** What the interface worklist of internal/actionbridge/gen_ts.go promises over
    all its runs: which interfaces are emitted, whether they are the right ones,
    and when the order of map iterations shows. */
module TsTheorems {
  import opened Strings
  import opened TsInterfaces

  // --------------------------------------------------------------- outcomes

  lemma {:induction false} RunIsGood(w: World, start: map<string, StructId>, s: Work, t: Work, n: nat)
    requires WorldOk(w, start) && Starts(start, s) && RunTo(w, s, t, n)
    ensures Good(w, start, t)
    decreases n
  {
    if n == 0 {
      StartIsGood(w, start, s);
    } else {
      var u :| RunTo(w, s, u, n - 1) && Turn(w, u, t);
      hide Good, Turn, Starts, WorldOk;
      RunIsGood(w, start, s, u, n - 1);
      TurnIsGood(w, start, u, t);
    }
  }

  /** Every outcome has one interface for each name within its registration, which
      has settled. */
  lemma OutcomeSettles(w: World, start: map<string, StructId>, t: Work)
    requires WorldOk(w, start) && Outcome(w, start, t)
    ensures Settled(w, start, t.m) && Emits(w, t.m, t.buf) && Names(t.buf) == t.m.Keys
  {
    var s, n: nat :| Starts(start, s) && RunTo(w, s, t, n);
    RunIsGood(w, start, s, t, n);
    GoodSettles(w, start, t);
  }

  lemma {:induction false} Enumerate(names: set<string>) returns (q: seq<string>)
    ensures Enumerates(q, names)
    decreases |names|
  {
    if names == {} {
      q := [];
    } else {
      var n :| n in names;
      var rest := Enumerate(names - {n});
      q := [n] + rest;
    }
  }

  lemma {:induction false} QueuedExists(m: map<string, StructId>, emitted: set<string>, q: seq<string>, fs: seq<Field>)
    returns (q': seq<string>)
    ensures Queued(m, emitted, q, fs, q')
    decreases |fs|
  {
    if fs == [] {
      q' := q;
    } else {
      var q1 := QueuedExists(m, emitted, q, fs[..|fs| - 1]);
      q' := LastExists(m, emitted, q1, fs);
      assert Queued(m, emitted, q, fs[..|fs| - 1], q1) && QueueLast(m, emitted, q1, fs, q');
    }
  }

  lemma LastExists(m: map<string, StructId>, emitted: set<string>, q: seq<string>, fs: seq<Field>) returns (q': seq<string>)
    requires fs != []
    ensures QueueLast(m, emitted, q, fs, q')
  {
    var f := fs[|fs| - 1];
    if Lists(f) {
      var added := Enumerate(Missing(FieldsRegistered(m, fs), emitted, q));
      q' := q + added;
      assert q'[|q|..] == added;
    } else {
      q' := if Embeds(f) && f.typ.NamedStruct? && f.typ.name !in emitted then q + [f.typ.name] else q;
    }
  }

  lemma TurnExists(w: World, start: map<string, StructId>, s: Work) returns (t: Work)
    requires Good(w, start, s) && s.queue != []
    ensures Turn(w, s, t)
  {
    var name, rest := s.queue[0], s.queue[1..];
    if name in Names(s.buf) {
      t := s.(queue := rest);
      SkipTurn(w, s, name, rest);
    } else {
      Resolves(w, start, s, name);
      t := TurnWith(w, s, name, rest);
    }
  }

  lemma TurnWith(w: World, s: Work, name: string, rest: seq<string>) returns (t: Work)
    requires s.queue != [] && s.queue[0] == name && s.queue[1..] == rest && name !in Names(s.buf)
    requires name in s.m && s.m[name] in w
    ensures Turn(w, s, t)
  {
    hide Queued, Names, FieldsRegistered, Render;
    var fs := w[s.m[name]];
    var q := QueuedExists(s.m, Names(s.buf) + {name}, rest, fs);
    t := Work(FieldsRegistered(s.m, fs), s.buf + [Render(name, fs)], q);
    NamedTurn(w, s, name, rest, t);
  }

  // ------------------------------------------------------ the right interfaces

  lemma {:induction false} ReachedIsSettled(w: World, start: map<string, StructId>, m: map<string, StructId>,
                                            x: Mention, n: nat)
    requires Settled(w, start, m) && Coherent(w, start) && ReachedIn(w, start, x, n)
    ensures x.name in m && m[x.name] == x.id
    decreases n
  {
    hide Mentions;
    if n > 0 {
      var y :| ReachedIn(w, start, y, n - 1) && y.id in w && x in Mentions(w[y.id]);
      ReachedIsSettled(w, start, m, y, n - 1);
      assert Reached(w, start, x) && Reached(w, start, Mention(x.name, m[x.name]));
    }
  }

  /** When no two structs within reach share a name, the emitted names are exactly
      those within reach. */
  lemma EmittedIsReach(w: World, start: map<string, StructId>, m: map<string, StructId>)
    requires Coherent(w, start) && Settled(w, start, m)
    ensures forall x :: Reached(w, start, x) <==> x.name in m && m[x.name] == x.id
  {
    forall x | Reached(w, start, x) ensures x.name in m && m[x.name] == x.id {
      var n: nat :| ReachedIn(w, start, x, n);
      ReachedIsSettled(w, start, m, x, n);
    }
    forall x: Mention | x.name in m && m[x.name] == x.id ensures Reached(w, start, x) {
      assert x == Mention(x.name, m[x.name]);
    }
  }

  lemma {:induction false} DistinctFaces(buf: seq<Interface>, x: Interface)
    requires forall j, k :: 0 <= j < k < |buf| ==> buf[j].name != buf[k].name
    ensures multiset(buf)[x] == if x in buf then 1 else 0
  {
    if buf != [] {
      var n := |buf| - 1;
      DistinctFaces(buf[..n], x);
      assert buf == buf[..n] + [buf[n]];
      assert buf[n] !in buf[..n];
    }
  }

  lemma SameFaces(w: World, m: map<string, StructId>, a: seq<Interface>, b: seq<Interface>)
    requires Emits(w, m, a) && Emits(w, m, b) && Names(a) == m.Keys == Names(b)
    ensures forall x :: x in a ==> x in b
  {
    hide Render;
    forall x | x in a ensures x in b {
      var j :| 0 <= j < |a| && a[j] == x;
      assert x.name in Names(b);
      var k :| 0 <= k < |b| && b[k].name == x.name;
      assert b[k] == x;
    }
  }

  /** Then the registration and the interfaces, their order apart, are the same in
      every outcome. */
  lemma OrderDoesNotMatter(w: World, start: map<string, StructId>, t: Work, t': Work)
    requires WorldOk(w, start) && Coherent(w, start) && Outcome(w, start, t) && Outcome(w, start, t')
    ensures t.m == t'.m && multiset(t.buf) == multiset(t'.buf)
  {
    hide Outcome, WorldOk, Reached, Coherent, Emits, Names;
    OutcomeSettles(w, start, t);
    OutcomeSettles(w, start, t');
    SettledAlike(w, start, t.m, t'.m);
    SameFaces(w, t.m, t.buf, t'.buf);
    SameFaces(w, t.m, t'.buf, t.buf);
    forall x ensures multiset(t.buf)[x] == multiset(t'.buf)[x] {
      EmitsDistinct(w, t.m, t.buf);
      EmitsDistinct(w, t.m, t'.buf);
      DistinctFaces(t.buf, x);
      DistinctFaces(t'.buf, x);
    }
  }

  lemma EmitsDistinct(w: World, m: map<string, StructId>, buf: seq<Interface>)
    requires Emits(w, m, buf)
    ensures forall j, k :: 0 <= j < k < |buf| ==> buf[j].name != buf[k].name
  {
    hide Render;
  }

  lemma SettledAlike(w: World, start: map<string, StructId>, m: map<string, StructId>, m': map<string, StructId>)
    requires Coherent(w, start) && Settled(w, start, m) && Settled(w, start, m')
    ensures m == m'
  {
    hide Mentions, Reached, Coherent;
    EmittedIsReach(w, start, m);
    EmittedIsReach(w, start, m');
    forall n | n in m ensures n in m' && m'[n] == m[n] {
      assert Reached(w, start, Mention(n, m[n]));
    }
    forall n | n in m' ensures n in m {
      assert Reached(w, start, Mention(n, m'[n]));
    }
  }

  lemma {:induction false} FaithfulReaches(w: World, start: map<string, StructId>, m: map<string, StructId>,
                                           x: Mention, n: nat)
    requires Settled(w, start, m) && Faithful(w, m) && ReachedIn(w, start, x, n)
    ensures x.name in m && m[x.name] == x.id
    decreases n
  {
    hide Mentions;
    if n > 0 {
      var y :| ReachedIn(w, start, y, n - 1) && y.id in w && x in Mentions(w[y.id]);
      FaithfulReaches(w, start, m, y, n - 1);
    }
  }

  /** The interface under a name is the right one wherever the name is used, if
      and only if no two structs within reach share a name. */
  lemma FaithfulIffCoherent(w: World, start: map<string, StructId>, m: map<string, StructId>)
    requires Settled(w, start, m)
    ensures Faithful(w, m) <==> Coherent(w, start)
  {
    if Coherent(w, start) {
      forall n, x | n in m && x in Mentions(w[m[n]]) ensures x.name in m && m[x.name] == x.id {
        ReachedStep(w, start, Mention(n, m[n]), x);
        EmittedIsReach(w, start, m);
      }
    }
    if Faithful(w, m) {
      forall x, y | Reached(w, start, x) && Reached(w, start, y) && x.name == y.name ensures x == y {
        var i: nat :| ReachedIn(w, start, x, i);
        var j: nat :| ReachedIn(w, start, y, j);
        FaithfulReaches(w, start, m, x, i);
        FaithfulReaches(w, start, m, y, j);
      }
    }
  }

  lemma MentionsSnoc(fs: seq<Field>, f: Field)
    ensures Mentions(fs + [f]) == Mentions(fs) + FieldMentions(f)
    ensures Embedded(fs + [f]) == Embedded(fs) + if Embeds(f) then [f.typ.name] else []
  {
    assert (fs + [f])[..|fs|] == fs;
  }

  /** Two packages with a struct of the same name: one of them gets the other's interface. */
  lemma SameNameLosesOne(w: World, start: map<string, StructId>, m: map<string, StructId>)
    requires start == map["Page" := 0] && Settled(w, start, m)
    requires 0 in w && w[0] == [Field(true, false, NamedStruct("User", Some("a"), 1), "author", false)]
                               + [Field(true, false, NamedStruct("User", Some("b"), 2), "editor", false)]
    ensures !Faithful(w, m)
  {
    var a := Field(true, false, NamedStruct("User", Some("a"), 1), "author", false);
    MentionsSnoc([], a);
    MentionsSnoc([a], Field(true, false, NamedStruct("User", Some("b"), 2), "editor", false));
    assert [] + [a] == [a];
    assert Mention("User", 1) in Mentions(w[0]) && Mention("User", 2) in Mentions(w[0]);
    assert "Page" in m && m["Page"] == 0;
  }

  // --------------------------------------------------------------- `extends`

  lemma {:induction false} EmbeddedAre(fs: seq<Field>)
    ensures forall p :: p in Embedded(fs) <==> exists i :: 0 <= i < |fs| && Embeds(fs[i]) && fs[i].typ.name == p
  {
    if fs != [] {
      var k := |fs| - 1;
      EmbeddedAre(fs[..k]);
      forall p ensures p in Embedded(fs) <==> exists i :: 0 <= i < |fs| && Embeds(fs[i]) && fs[i].typ.name == p {
        if i :| 0 <= i < |fs| && Embeds(fs[i]) && fs[i].typ.name == p { if i < k { assert fs[..k][i] == fs[i]; } }
        if p in Embedded(fs[..k]) {
          var i :| 0 <= i < k && Embeds(fs[..k][i]) && fs[..k][i].typ.name == p;
          assert fs[i] == fs[..k][i];
        }
      }
    }
  }

  lemma {:induction false} MentionedBy(fs: seq<Field>, i: nat)
    requires i < |fs|
    ensures FieldMentions(fs[i]) <= Mentions(fs)
  {
    if i < |fs| - 1 {
      MentionedBy(fs[..|fs| - 1], i);
    }
  }

  /** An embedded struct always has its interface. */
  lemma EmbeddedStructIsEmitted(w: World, start: map<string, StructId>, m: map<string, StructId>, n: string, i: nat)
    requires Settled(w, start, m) && n in m && i < |w[m[n]]|
    requires Embeds(w[m[n]][i]) && w[m[n]][i].typ.NamedStruct?
    ensures w[m[n]][i].typ.name in m
  {
    var f := w[m[n]][i];
    MentionedBy(w[m[n]], i);
    assert Mention(f.typ.name, f.typ.id) in Mentions(w[m[n]]);
  }

  ghost predicate NameReached(w: World, start: map<string, StructId>, name: string) {
    exists x :: Reached(w, start, x) && x.name == name
  }

  /** Every embedded type within reach that is not a struct has the name of one. */
  ghost predicate EmbedsNamesakes(w: World, start: map<string, StructId>) {
    forall y, i :: Reached(w, start, y) && y.id in w && 0 <= i < |w[y.id]|
                   && Embeds(w[y.id][i]) && w[y.id][i].typ.NamedOther? ==>
      NameReached(w, start, w[y.id][i].typ.name)
  }

  ghost predicate ParentsEmitted(w: World, m: map<string, StructId>)
    requires forall n :: n in m ==> m[n] in w
  {
    forall n, p :: n in m && p in Embedded(w[m[n]]) ==> p in m
  }

  /** Every registered struct embeds, besides structs, only namesakes of registered ones. */
  ghost predicate EmbedsRegistered(w: World, m: map<string, StructId>)
    requires forall n :: n in m ==> m[n] in w
  {
    forall n, i :: n in m && 0 <= i < |w[m[n]]| && Embeds(w[m[n]][i]) && w[m[n]][i].typ.NamedOther? ==>
      w[m[n]][i].typ.name in m
  }

  /** All names in `extends` clauses have interfaces exactly when every embedded
      type that is not a struct has the name of a registered one; with no shared
      names, of one within reach. */
  lemma ParentsAreEmitted(w: World, start: map<string, StructId>, m: map<string, StructId>)
    requires Settled(w, start, m)
    ensures ParentsEmitted(w, m) <==> EmbedsRegistered(w, m)
    ensures Coherent(w, start) ==> (ParentsEmitted(w, m) <==> EmbedsNamesakes(w, start))
  {
    hide Mentions, Reached, Embedded, Coherent;
    if ParentsEmitted(w, m) {
      forall n | n in m { EmbeddedAre(w[m[n]]); }
    }
    if EmbedsRegistered(w, m) {
      forall n, p | n in m && p in Embedded(w[m[n]]) ensures p in m {
        EmbeddedAre(w[m[n]]);
        var i :| 0 <= i < |w[m[n]]| && Embeds(w[m[n]][i]) && w[m[n]][i].typ.name == p;
        if w[m[n]][i].typ.NamedStruct? { EmbeddedStructIsEmitted(w, start, m, n, i); }
      }
    }
    if Coherent(w, start) { RegisteredNamesakes(w, start, m); }
  }

  lemma RegisteredNamesakes(w: World, start: map<string, StructId>, m: map<string, StructId>)
    requires Settled(w, start, m) && Coherent(w, start)
    ensures EmbedsRegistered(w, m) <==> EmbedsNamesakes(w, start)
  {
    hide Mentions, Reached, Embedded, Coherent;
    EmittedIsReach(w, start, m);
    if EmbedsRegistered(w, m) {
      forall y, i | Reached(w, start, y) && y.id in w && 0 <= i < |w[y.id]|
                    && Embeds(w[y.id][i]) && w[y.id][i].typ.NamedOther?
        ensures NameReached(w, start, w[y.id][i].typ.name)
      {
        var p := w[m[y.name]][i].typ.name;
        assert Reached(w, start, Mention(p, m[p]));
      }
    }
    if EmbedsNamesakes(w, start) {
      forall n, i | n in m && 0 <= i < |w[m[n]]| && Embeds(w[m[n]][i]) && w[m[n]][i].typ.NamedOther?
        ensures w[m[n]][i].typ.name in m
      {
        assert Reached(w, start, Mention(n, m[n]));
        assert NameReached(w, start, w[m[n]][i].typ.name);
      }
    }
  }

  /** A struct that embeds a named map type extends an interface that nobody emits. */
  lemma EmbeddedMapIsNotEmitted(w: World, start: map<string, StructId>, m: map<string, StructId>)
    requires start == map["Page" := 0] && Settled(w, start, m)
    requires w == map[0 := [Field(true, true, NamedOther("Tags", Some("a"), Map(Basic(StringKind), Basic(StringKind))),
                                  "Tags", false)]]
    ensures !ParentsEmitted(w, m)
  {
    var f := w[0][0];
    MentionsSnoc([], f);
    assert [] + [f] == w[0];
    assert "Page" in m && m["Page"] == 0 && Mentions(w[0]) == {} && "Tags" in Embedded(w[0]);
    assert "Tags" !in m by {
      forall x, k: nat | ReachedIn(w, start, x, k) ensures x.name != "Tags" { NothingMentioned(w, start, x, k); }
      assert "Tags" in m ==> Reached(w, start, Mention("Tags", m["Tags"]));
    }
  }

  lemma NothingMentioned(w: World, start: map<string, StructId>, x: Mention, k: nat)
    requires (forall id :: id in w ==> Mentions(w[id]) == {}) && ReachedIn(w, start, x, k)
    ensures x.name in start
  {
    hide Mentions;
  }
}
