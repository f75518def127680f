/** When the order of map iterations shows in the generated interfaces
    (internal/actionbridge/gen_ts.go): each scan of the registered names appends
    the missing ones in an order that the language leaves open. */
module TsOrder {
  import opened Strings
  import opened TsInterfaces
  import opened TsTheorems

  // -------------------------------------------------------------- one scan

  lemma {:induction false} EnumerationSize(q: seq<string>, names: set<string>)
    requires Enumerates(q, names)
    ensures |q| == |names|
  {
    if q == [] {
      assert names == {};
    } else {
      assert q == [q[0]] + q[1..];
      EnumerationSize(q[1..], names - {q[0]});
    }
  }

  lemma OneElement(names: set<string>, n: string)
    requires n in names && |names| <= 1
    ensures names == {n}
  {
    assert |names - {n}| == |names| - 1;
    assert names - {n} == {};
  }

  lemma TwoElements(names: set<string>) returns (a: string, b: string)
    requires |names| > 1
    ensures a in names && b in names && a != b
  {
    a :| a in names;
    assert |names - {a}| == |names| - 1;
    b :| b in names - {a};
  }

  /** The queue after one scan is open in its order exactly when two names are missing. */
  lemma ScanIsForced(m: map<string, StructId>, emitted: set<string>, q: seq<string>)
    ensures (forall a, b :: Scanned(m, emitted, q, a) && Scanned(m, emitted, q, b) ==> a == b)
       <==> |Missing(m, emitted, q)| <= 1
  {
    var names := Missing(m, emitted, q);
    if |names| <= 1 {
      forall a, b | Scanned(m, emitted, q, a) && Scanned(m, emitted, q, b) ensures a == b {
        ForcedScan(m, emitted, q, a, b);
      }
    } else {
      var x, y := TwoElements(names);
      var a := ScanWith(m, emitted, q, x, y);
      var b := ScanWith(m, emitted, q, y, x);
      assert a[|q|] != b[|q|];
    }
  }

  lemma ForcedScan(m: map<string, StructId>, emitted: set<string>, q: seq<string>, a: seq<string>, b: seq<string>)
    requires |Missing(m, emitted, q)| <= 1 && Scanned(m, emitted, q, a) && Scanned(m, emitted, q, b)
    ensures a == b
  {
    var names := Missing(m, emitted, q);
    EnumerationSize(a[|q|..], names);
    EnumerationSize(b[|q|..], names);
    if |names| == 1 {
      assert a[|q|..][0] in names && b[|q|..][0] in names;
      OneElement(names, a[|q|..][0]);
    }
    assert a == q + a[|q|..] && b == q + b[|q|..];
  }

  /** A scan can put any missing name right behind the queue, and any other next. */
  lemma ScanWith(m: map<string, StructId>, emitted: set<string>, q: seq<string>, x: string, y: string)
    returns (q': seq<string>)
    requires x in Missing(m, emitted, q) && y in Missing(m, emitted, q) && x != y
    ensures Scanned(m, emitted, q, q') && |q'| > |q| + 1 && q'[|q|] == x && q'[|q| + 1] == y
  {
    var rest := Enumerate(Missing(m, emitted, q) - {x, y});
    q' := q + ([x, y] + rest);
    assert q'[|q|..] == [x, y] + rest;
  }

  // ------------------------------------------------------- forced turns

  /** The names that field i of a struct newly registers. */
  function Brings(m: map<string, StructId>, fs: seq<Field>, i: nat): set<string>
    requires i < |fs|
  {
    FieldsRegistered(m, fs[..i + 1]).Keys - FieldsRegistered(m, fs[..i]).Keys
  }

  /** No field of the struct brings in two new names. */
  ghost predicate OneByOne(m: map<string, StructId>, fs: seq<Field>) {
    forall i :: 0 <= i < |fs| ==> |Brings(m, fs, i)| <= 1
  }

  /** The next turn has no choice. */
  ghost predicate ForcedTurn(w: World, s: Work) {
    s.queue != [] && s.queue[0] !in Names(s.buf) && s.queue[0] in s.m && s.m[s.queue[0]] in w ==>
      OneByOne(s.m, w[s.m[s.queue[0]]])
  }

  /** No run ever meets a struct with a field that brings in two new names. */
  ghost predicate AlwaysForced(w: World, start: map<string, StructId>) {
    forall s, t, n: nat :: Starts(start, s) && RunTo(w, s, t, n) ==> ForcedTurn(w, t)
  }

  /** What is missing after a field is what the field brought in. */
  lemma MissingIsNew(m: map<string, StructId>, emitted: set<string>, q: seq<string>, f: Field)
    requires Pending(m, emitted, q)
    ensures Missing(FieldRegistered(m, f), emitted, q) == FieldRegistered(m, f).Keys - m.Keys
  {
    hide Registered;
    RegisteredAdds(m, f.typ);
  }

  lemma LastField(m: map<string, StructId>, fs: seq<Field>)
    requires fs != []
    ensures var k := |fs| - 1;
      && FieldsRegistered(m, fs) == FieldRegistered(FieldsRegistered(m, fs[..k]), fs[k])
      && Brings(m, fs, k) == FieldsRegistered(m, fs).Keys - FieldsRegistered(m, fs[..k]).Keys
      && forall i :: 0 <= i < k ==> Brings(m, fs[..k], i) == Brings(m, fs, i)
  {
    hide FieldRegistered;
    var k := |fs| - 1;
    assert fs[..k + 1] == fs;
    forall i | 0 <= i < k ensures Brings(m, fs[..k], i) == Brings(m, fs, i) {
      hide FieldsRegistered;
      assert fs[..k][..i + 1] == fs[..i + 1] && fs[..k][..i] == fs[..i];
    }
  }

  lemma OneByOneInit(m: map<string, StructId>, fs: seq<Field>)
    requires fs != [] && OneByOne(m, fs)
    ensures OneByOne(m, fs[..|fs| - 1]) && |Brings(m, fs, |fs| - 1)| <= 1
  {
    LastField(m, fs);
    hide Brings;
  }

  lemma {:induction false} ForcedQueue(m: map<string, StructId>, emitted: set<string>, q: seq<string>, fs: seq<Field>,
                                       a: seq<string>, b: seq<string>)
    requires Pending(m, emitted, q) && OneByOne(m, fs)
    requires Queued(m, emitted, q, fs, a) && Queued(m, emitted, q, fs, b)
    ensures a == b
    decreases |fs|
  {
    if fs != [] {
      var init, f := fs[..|fs| - 1], fs[|fs| - 1];
      var a1 :| Queued(m, emitted, q, init, a1) && QueueLast(m, emitted, a1, fs, a);
      var b1 :| Queued(m, emitted, q, init, b1) && QueueLast(m, emitted, b1, fs, b);
      LastField(m, fs);
      OneByOneInit(m, fs);
      ForcedQueue(m, emitted, q, init, a1, b1);
      QueuedPending(m, emitted, q, init, a1);
      MissingIsNew(FieldsRegistered(m, init), emitted, a1, f);
      if Lists(f) { ForcedScan(FieldsRegistered(m, fs), emitted, a1, a, b); }
    }
  }

  /** A turn that emits, taken apart. */
  lemma EmittingTurn(w: World, start: map<string, StructId>, s: Work, name: string, rest: seq<string>)
    requires Good(w, start, s) && s.queue != [] && name == s.queue[0] && rest == s.queue[1..]
    ensures s.queue == [name] + rest && name in s.m && s.m[name] in w && Render(name, w[s.m[name]]).name == name
    ensures Pending(s.m, Names(s.buf) + {name}, rest)
    ensures name !in Names(s.buf) ==> forall t :: Turn(w, s, t) ==>
      && t.m == FieldsRegistered(s.m, w[s.m[name]]) && t.buf == s.buf + [Render(name, w[s.m[name]])]
      && Names(t.buf) == Names(s.buf) + {name}
      && Queued(s.m, Names(s.buf) + {name}, rest, w[s.m[name]], t.queue)
  {
    assert s.queue == [name] + rest;
    hide Queued, FieldsRegistered, Progress, Emits;
    Resolves(w, start, s, name);
    NamesSnoc(s.buf, Render(name, w[s.m[name]]));
  }

  lemma ForcedTurns(w: World, start: map<string, StructId>, s: Work, a: Work, b: Work)
    requires Good(w, start, s) && ForcedTurn(w, s) && Turn(w, s, a) && Turn(w, s, b)
    ensures a == b
  {
    var name, rest := s.queue[0], s.queue[1..];
    hide Good, Queued, FieldsRegistered, Names, Render, OneByOne;
    if name !in Names(s.buf) {
      EmittingTurn(w, start, s, name, rest);
      ForcedQueue(s.m, Names(s.buf) + {name}, rest, w[s.m[name]], a.queue, b.queue);
    }
  }

  // ----------------------------------------------------------- forced runs

  lemma {:induction false} OrderedUnique(a: seq<string>, b: seq<string>, names: set<string>)
    requires Ordered(a) && Ordered(b) && Enumerates(a, names) && Enumerates(b, names)
    ensures a == b
    decreases |a|
  {
    EnumerationSize(a, names);
    EnumerationSize(b, names);
    if a != [] {
      assert a[0] in b && b[0] in a by { assert a[0] in names; }
      LessTotal(a[0], b[0]);
      assert a == [a[0]] + a[1..] && b == [b[0]] + b[1..];
      OrderedUnique(a[1..], b[1..], names - {a[0]});
    }
  }

  lemma StartIsForced(start: map<string, StructId>, s: Work, s': Work)
    requires Starts(start, s) && Starts(start, s')
    ensures s == s'
  {
    OrderedUnique(s.queue, s'.queue, start.Keys);
  }

  lemma {:induction false} ForcedRun(w: World, start: map<string, StructId>, s: Work, a: Work, b: Work, n: nat)
    requires WorldOk(w, start) && Starts(start, s) && AlwaysForced(w, start)
    requires RunTo(w, s, a, n) && RunTo(w, s, b, n)
    ensures a == b
    decreases n
  {
    hide Turn, Starts, WorldOk, ForcedTurn;
    if n > 0 {
      var a1 :| RunTo(w, s, a1, n - 1) && Turn(w, a1, a);
      var b1 :| RunTo(w, s, b1, n - 1) && Turn(w, b1, b);
      hide RunTo;
      assert ForcedTurn(w, a1);
      ForcedRun(w, start, s, a1, b1, n - 1);
      RunIsGood(w, start, s, a1, n - 1);
      ForcedTurns(w, start, a1, a, b);
    }
  }

  /** A longer run passes through a state of each shorter length. */
  lemma {:induction false} Passes(w: World, s: Work, t: Work, k: nat, n: nat) returns (u: Work)
    requires RunTo(w, s, t, n) && k < n
    ensures RunTo(w, s, u, k) && u.queue != []
    decreases n
  {
    hide Queued, FieldsRegistered;
    var v :| RunTo(w, s, v, n - 1) && Turn(w, v, t);
    if k == n - 1 { u := v; } else { u := Passes(w, s, v, k, n - 1); }
  }

  /** One outcome when every turn is forced, whether or not structs share names. */
  lemma ForcedOutcome(w: World, start: map<string, StructId>, t: Work, t': Work)
    requires WorldOk(w, start) && AlwaysForced(w, start) && Outcome(w, start, t) && Outcome(w, start, t')
    ensures t == t'
  {
    var s, n: nat :| Starts(start, s) && RunTo(w, s, t, n);
    var s', n': nat :| Starts(start, s') && RunTo(w, s', t', n');
    StartIsForced(start, s, s');
    if n < n' {
      var u := Passes(w, s, t', n, n');
      ForcedRun(w, start, s, t, u, n);
    } else if n' < n {
      var u := Passes(w, s, t, n', n);
      ForcedRun(w, start, s, t', u, n');
    } else {
      ForcedRun(w, start, s, t, t', n);
    }
  }

  // ------------------------------------------------------- choices show

  /** a stands in q before any b. */
  ghost predicate Before(q: seq<string>, a: string, b: string) { exists i :: 0 <= i < |q| && q[i] == a && b !in q[..i] }

  function NamesInOrder(buf: seq<Interface>): (names: seq<string>)
    ensures |names| == |buf|
  {
    seq(|buf|, i requires 0 <= i < |buf| => buf[i].name)
  }

  lemma InOrder(buf: seq<Interface>)
    ensures forall n :: n in NamesInOrder(buf) <==> n in Names(buf)
  {
    var names := NamesInOrder(buf);
    forall n | n in names ensures n in Names(buf) {
      var i :| 0 <= i < |names| && names[i] == n;
      assert buf[i].name == n;
    }
    forall n | n in Names(buf) ensures n in names {
      var i :| 0 <= i < |buf| && buf[i].name == n;
      assert names[i] == n;
    }
  }

  /** What is emitted, followed by what waits, has a before b. */
  ghost predicate Ahead(s: Work, a: string, b: string) { Before(NamesInOrder(s.buf) + s.queue, a, b) }

  lemma BeforeExtends(q: seq<string>, q': seq<string>, a: string, b: string)
    requires Before(q, a, b) && q <= q'
    ensures Before(q', a, b)
  {
    var i :| 0 <= i < |q| && q[i] == a && b !in q[..i];
    assert q'[i] == a && q'[..i] == q[..i];
  }

  /** Dropping a repeated entry changes nothing about who comes first. */
  lemma BeforeSkips(front: seq<string>, x: string, rest: seq<string>, a: string, b: string)
    requires Before(front + ([x] + rest), a, b) && x in front
    ensures Before(front + rest, a, b)
  {
    var q := front + ([x] + rest);
    var q' := front + rest;
    var i :| 0 <= i < |q| && q[i] == a && b !in q[..i];
    if i < |front| {
      assert q'[i] == a && q'[..i] == q[..i];
    } else if i == |front| {
      var j :| 0 <= j < |front| && front[j] == x;
      assert q'[j] == a;
      assert forall k :: 0 <= k < j ==> q'[k] == q[..i][k];
      assert b !in q'[..j];
    } else {
      assert q'[i - 1] == a;
      forall k | 0 <= k < i - 1 ensures q'[k] != b {
        assert q'[k] == q[..i][if k < |front| then k else k + 1];
      }
    }
  }

  lemma TurnKeepsAhead(w: World, start: map<string, StructId>, s: Work, t: Work, a: string, b: string)
    requires Good(w, start, s) && Turn(w, s, t) && Ahead(s, a, b)
    ensures Ahead(t, a, b)
  {
    hide *;
    QueueNotEmpty(w, s, t);
    var name, rest := s.queue[0], s.queue[1..];
    EmittingTurn(w, start, s, name, rest);
    if name in Names(s.buf) {
      SkipKeepsAhead(w, s, t, name, rest, a, b);
    } else {
      QueuedPending(s.m, Names(s.buf) + {name}, rest, w[s.m[name]], t.queue);
      NamesInOrderSnoc(s.buf, Render(name, w[s.m[name]]));
      assert NamesInOrder(s.buf) + s.queue == NamesInOrder(s.buf) + [name] + rest;
      assert t.queue == rest + t.queue[|rest|..];
      AheadGrows(s, t, a, b);
    }
  }

  lemma QueueNotEmpty(w: World, s: Work, t: Work)
    requires Turn(w, s, t)
    ensures s.queue != []
  {
    hide Queued, FieldsRegistered;
  }

  lemma SkipKeepsAhead(w: World, s: Work, t: Work, name: string, rest: seq<string>, a: string, b: string)
    requires Turn(w, s, t) && s.queue == [name] + rest && name in Names(s.buf) && Ahead(s, a, b)
    ensures Ahead(t, a, b)
  {
    assert s.queue[1..] == rest && t == s.(queue := rest);
    hide Turn, NamesInOrder, Names, Before;
    InOrder(s.buf);
    BeforeSkips(NamesInOrder(s.buf), name, rest, a, b);
  }

  lemma NamesInOrderSnoc(buf: seq<Interface>, face: Interface)
    ensures NamesInOrder(buf + [face]) == NamesInOrder(buf) + [face.name]
  {}

  lemma AheadGrows(s: Work, t: Work, a: string, b: string)
    requires Ahead(s, a, b) && NamesInOrder(s.buf) + s.queue <= NamesInOrder(t.buf) + t.queue
    ensures Ahead(t, a, b)
  {
    BeforeExtends(NamesInOrder(s.buf) + s.queue, NamesInOrder(t.buf) + t.queue, a, b);
  }

  /** Every run can be finished, and keeps the order it has on the way. */
  lemma {:induction false} Finishes(w: World, start: map<string, StructId>, s0: Work, s: Work, n: nat, a: string, b: string)
    returns (t: Work)
    requires WorldOk(w, start) && Starts(start, s0) && RunTo(w, s0, s, n) && Ahead(s, a, b)
    ensures Outcome(w, start, t) && Ahead(t, a, b)
    decreases Left(w, start, s), |s.queue|
  {
    hide *;
    RunIsGood(w, start, s0, s, n);
    if s.queue == [] {
      t := s;
      Ends(w, start, s0, s, n);
    } else {
      var u := TurnExists(w, start, s);
      TurnIsGood(w, start, s, u);
      TurnKeepsAhead(w, start, s, u, a, b);
      RunOn(w, s0, s, u, n);
      if u.buf == s.buf { LeftFollows(w, start, s, u); }
      t := Finishes(w, start, s0, u, n + 1, a, b);
    }
  }

  lemma LeftFollows(w: World, start: map<string, StructId>, s: Work, u: Work)
    requires u.buf == s.buf
    ensures Left(w, start, u) == Left(w, start, s)
  {}

  lemma NotBoth(q: seq<string>, a: string, b: string)
    requires a != b && Before(q, a, b)
    ensures !Before(q, b, a)
  {
    var i :| 0 <= i < |q| && q[i] == a && b !in q[..i];
    forall k | 0 <= k < i ensures q[k] != b { assert q[..i][k] == q[k]; }
    forall j | 0 <= j < |q| && q[j] == b ensures a in q[..j] { assert q[..j][i] == a; }
  }

  /** A struct with a field that brings in two new names can queue them either way. */
  lemma {:induction false} OpenQueue(m: map<string, StructId>, emitted: set<string>, q: seq<string>, fs: seq<Field>, i: nat,
                                     x: string, y: string) returns (q': seq<string>)
    requires Pending(m, emitted, q) && i < |fs|
    requires x in Brings(m, fs, i) && y in Brings(m, fs, i) && x != y
    ensures Queued(m, emitted, q, fs, q') && Before(q', x, y) && q <= q'
    decreases |fs|
  {
    var init, f := fs[..|fs| - 1], fs[|fs| - 1];
    LastField(m, fs);
    if i == |fs| - 1 {
      var q1 := QueuedExists(m, emitted, q, init);
      QueuedPending(m, emitted, q, init, q1);
      q' := OpenField(FieldsRegistered(m, init), emitted, q1, f, x, y);
      assert QueueLast(m, emitted, q1, fs, q');
      assert Queued(m, emitted, q, fs[..|fs| - 1], q1) && QueueLast(m, emitted, q1, fs, q');
    } else {
      assert fs[..|fs| - 1][..i + 1] == fs[..i + 1] && fs[..|fs| - 1][..i] == fs[..i];
      var q1 := OpenQueue(m, emitted, q, init, i, x, y);
      q' := LastExists(m, emitted, q1, fs);
      assert Queued(m, emitted, q, fs[..|fs| - 1], q1) && QueueLast(m, emitted, q1, fs, q');
      LastExtends(m, emitted, q1, fs, q');
      BeforeExtends(q1, q', x, y);
    }
    QueuedPending(m, emitted, q, fs, q');
  }

  lemma LastExtends(m: map<string, StructId>, emitted: set<string>, q: seq<string>, fs: seq<Field>, q': seq<string>)
    requires fs != [] && QueueLast(m, emitted, q, fs, q')
    ensures q <= q'
  {}

  lemma OpenField(m: map<string, StructId>, emitted: set<string>, q: seq<string>, f: Field, x: string, y: string)
    returns (q': seq<string>)
    requires Pending(m, emitted, q) && x != y
    requires x in FieldRegistered(m, f) && x !in m && y in FieldRegistered(m, f) && y !in m
    ensures QueueStep(FieldRegistered(m, f), emitted, q, f, q') && Before(q', x, y)
  {
    MissingIsNew(m, emitted, q, f);
    assert Lists(f);
    q' := ScanWith(FieldRegistered(m, f), emitted, q, x, y);
    assert y !in q && q'[..|q|] == q;
    assert q'[|q|] == x && y !in q'[..|q|];
  }

  /** From a turn with a choice there is a finished run with x before y. */
  lemma OpenTurn(w: World, start: map<string, StructId>, s0: Work, s: Work, n: nat, i: nat, x: string, y: string)
    returns (t: Work)
    requires WorldOk(w, start) && Starts(start, s0) && RunTo(w, s0, s, n)
    requires s.queue != [] && s.queue[0] !in Names(s.buf) && s.queue[0] in s.m && s.m[s.queue[0]] in w
    requires i < |w[s.m[s.queue[0]]]| && x != y
    requires x in Brings(s.m, w[s.m[s.queue[0]]], i) && y in Brings(s.m, w[s.m[s.queue[0]]], i)
    ensures Outcome(w, start, t) && Ahead(t, x, y)
  {
    hide *;
    RunIsGood(w, start, s0, s, n);
    var name, rest := s.queue[0], s.queue[1..];
    var fs := w[s.m[name]];
    var emitted := Names(s.buf) + {name};
    EmittingTurn(w, start, s, name, rest);
    NewIsNotOld(s.m, fs, i);
    PendingKnown(s.m, emitted, rest);
    var q := OpenQueue(s.m, emitted, rest, fs, i, x, y);
    var u := Work(FieldsRegistered(s.m, fs), s.buf + [Render(name, fs)], q);
    NamedTurn(w, s, name, rest, u);
    InOrder(u.buf);
    AheadInQueue(u, x, y);
    RunOn(w, s0, s, u, n);
    t := Finishes(w, start, s0, u, n + 1, x, y);
  }

  lemma PendingKnown(m: map<string, StructId>, emitted: set<string>, q: seq<string>)
    requires Pending(m, emitted, q)
    ensures forall n :: n in emitted ==> n in m
  {}

  lemma NewIsNotOld(m: map<string, StructId>, fs: seq<Field>, i: nat)
    requires i < |fs|
    ensures forall x :: x in Brings(m, fs, i) ==> x !in m
  {
    hide Mentions;
    FieldsAdd(m, fs[..i]);
  }

  lemma AheadInQueue(s: Work, x: string, y: string)
    requires Before(s.queue, x, y) && y !in NamesInOrder(s.buf)
    ensures Ahead(s, x, y)
  {
    var front := NamesInOrder(s.buf);
    var q := front + s.queue;
    var i :| 0 <= i < |s.queue| && s.queue[i] == x && y !in s.queue[..i];
    assert q[|front| + i] == x && q[..|front| + i] == front + s.queue[..i];
  }

  /** The generated interfaces, their order included, are determined exactly when
      no run meets a struct with a field that brings in two new names. */
  lemma TextIsDetermined(w: World, start: map<string, StructId>)
    requires WorldOk(w, start)
    ensures (forall t, t' :: Outcome(w, start, t) && Outcome(w, start, t') ==> t.buf == t'.buf)
       <==> AlwaysForced(w, start)
  {
    if AlwaysForced(w, start) {
      forall t, t' | Outcome(w, start, t) && Outcome(w, start, t') ensures t.buf == t'.buf {
        ForcedOutcome(w, start, t, t');
      }
    } else {
      var s0, s, n: nat :| Starts(start, s0) && RunTo(w, s0, s, n) && !ForcedTurn(w, s);
      var fs := w[s.m[s.queue[0]]];
      var i :| 0 <= i < |fs| && |Brings(s.m, fs, i)| > 1;
      var x, y := TwoElements(Brings(s.m, fs, i));
      hide *;
      var t := OpenTurn(w, start, s0, s, n, i, x, y);
      var t' := OpenTurn(w, start, s0, s, n, i, y, x);
      Differ(w, start, t, t', x, y);
      assert Outcome(w, start, t) && Outcome(w, start, t') && t.buf != t'.buf;
    }
  }

  lemma Differ(w: World, start: map<string, StructId>, t: Work, t': Work, x: string, y: string)
    requires Outcome(w, start, t) && Outcome(w, start, t') && Ahead(t, x, y) && Ahead(t', y, x) && x != y
    ensures t.buf != t'.buf
  {
    hide RunTo, Starts, NamesInOrder, Before;
    NotBoth(NamesInOrder(t.buf) + t.queue, x, y);
  }

  // ------------------------------------------ two registrations of one world

  function NamedField(t: GoType): Field { Field(true, false, t, "f", false) }

  /** A struct whose one field mentions two others, which mention a u each: one with
      a string in it, one with a boolean. */
  function TwoUsers(a: string, b: string, u: string): World {
    map[
      0 := [NamedField(Map(NamedStruct(a, None, 1), NamedStruct(b, None, 2)))],
      1 := [NamedField(NamedStruct(u, Some("a"), 3))],
      2 := [NamedField(NamedStruct(u, Some("b"), 4))],
      3 := [NamedField(Basic(StringKind))],
      4 := [NamedField(Basic(BoolKind))]]
  }

  /** The turn of a struct with one listed field. */
  lemma OneFieldTurn(w: World, s: Work, emitted: set<string>, name: string, rest: seq<string>, f: Field, added: seq<string>)
    returns (t: Work)
    requires s.queue == [name] + rest && Names(s.buf) == emitted && name !in emitted
    requires name in s.m && s.m[name] in w && w[s.m[name]] == [f] && Lists(f)
    requires Enumerates(added, Missing(Registered(s.m, f.typ), emitted + {name}, rest))
    ensures Turn(w, s, t) && Names(t.buf) == emitted + {name}
    ensures t.m == Registered(s.m, f.typ) && t.queue == rest + added
  {
    var fs := [f];
    assert fs[..0] == [] && s.queue[1..] == rest;
    assert FieldsRegistered(s.m, []) == s.m;
    t := Work(FieldsRegistered(s.m, fs), s.buf + [Render(name, fs)], rest + added);
    assert t.queue[|rest|..] == added;
    assert QueueLast(s.m, emitted + {name}, rest, fs, t.queue);
    assert Queued(s.m, emitted + {name}, rest, fs[..|fs| - 1], rest);
    hide Registered, Render, Names;
    NamedTurn(w, s, name, rest, t);
  }

  /** The run that takes x before y registers x's u. */
  lemma PickFirst(w: World, start: map<string, StructId>, m: map<string, StructId>, root: string, x: string, y: string,
                  u: string, f: Field, fx: Field, fy: Field, fu: Field, user: StructId) returns (t: Work)
    requires start == map[root := 0] && m.Keys == {root, x, y} && m[root] == 0
    requires root != x && root != y && root != u && x != y && x != u && y != u
    requires 0 in w && w[0] == [f] && Lists(f) && Registered(start, f.typ) == m
    requires m[x] in w && w[m[x]] == [fx] && Lists(fx) && Registered(m, fx.typ) == m[u := user]
    requires m[y] in w && w[m[y]] == [fy] && Lists(fy) && Registered(m[u := user], fy.typ) == m[u := user]
    requires user in w && w[user] == [fu] && Lists(fu) && Registered(m[u := user], fu.typ) == m[u := user]
    ensures Outcome(w, start, t) && t.m == m[u := user]
  {
    hide Registered, Lists, Turn, RunTo, Outcome, Names, Less;
    var s0 := Work(start, [], [root]);
    NoNames();
    assert Starts(start, s0);
    assert s0.queue == [root] + [];
    var s1 := OneFieldTurn(w, s0, {}, root, [], f, [x, y]);
    assert s1.queue == [x] + [y];
    var s2 := OneFieldTurn(w, s1, {} + {root}, x, [y], fx, [u]);
    assert s2.queue == [y] + [u];
    var s3 := OneFieldTurn(w, s2, {} + {root} + {x}, y, [u], fy, []);
    assert s3.queue == [u] + [];
    t := OneFieldTurn(w, s3, {} + {root} + {x} + {y}, u, [], fu, []);
    hide *;
    RunNone(w, s0);
    RunOn(w, s0, s0, s1, 0);
    RunOn(w, s0, s1, s2, 1);
    RunOn(w, s0, s2, s3, 2);
    RunOn(w, s0, s3, t, 3);
    Ends(w, start, s0, t, 4);
  }

  lemma TwoUsersAre(w: World, a: string, b: string, u: string)
    requires w == TwoUsers(a, b, u)
    ensures w.Keys == {0, 1, 2, 3, 4}
    ensures w[0] == [NamedField(Map(NamedStruct(a, None, 1), NamedStruct(b, None, 2)))]
    ensures w[1] == [NamedField(NamedStruct(u, Some("a"), 3))] && w[2] == [NamedField(NamedStruct(u, Some("b"), 4))]
    ensures w[3] == [NamedField(Basic(StringKind))] && w[4] == [NamedField(Basic(BoolKind))]
  {}

  lemma TwoUsersResolve(w: World, start: map<string, StructId>, root: string, a: string, b: string, u: string)
    requires w == TwoUsers(a, b, u) && start == map[root := 0]
    ensures WorldOk(w, start)
  {
    TwoUsersAre(w, a, b, u);
    hide TwoUsers;
    forall id | id in w ensures Mentions(w[id]) == Mentioned(w[id][0].typ) { OneMentions(w[id][0]); }
    hide Mentions;
    assert Mentioned(w[0][0].typ) == {Mention(a, 1), Mention(b, 2)};
    assert Mentioned(w[1][0].typ) == {Mention(u, 3)} && Mentioned(w[2][0].typ) == {Mention(u, 4)};
    assert Mentioned(w[3][0].typ) == {} && Mentioned(w[4][0].typ) == {};
  }

  lemma OneMentions(f: Field)
    requires Lists(f)
    ensures Mentions([f]) == Mentioned(f.typ)
  {
    assert [f][..0] == [];
  }

  /** Structs that render differently under one name make different outcomes. */
  lemma FacesDiffer(w: World, m: map<string, StructId>, m': map<string, StructId>, buf: seq<Interface>,
                    buf': seq<Interface>, u: string)
    requires Emits(w, m, buf) && Names(buf) == m.Keys && Emits(w, m', buf')
    requires u in m && u in m' && Render(u, w[m[u]]) != Render(u, w[m'[u]])
    ensures multiset(buf) != multiset(buf')
  {
    hide Render;
    var k :| 0 <= k < |buf| && buf[k].name == u;
    assert buf[k] in multiset(buf) && buf[k] !in buf';
  }

  /** In that world both structs called u are registered in some run of the
      worklist, and what is emitted differs: only the order of one scan decides. */
  lemma OrderCanMatter(w: World, start: map<string, StructId>, root: string, a: string, b: string, u: string)
    returns (t: Work, t': Work)
    requires root != a && root != b && root != u && a != b && a != u && b != u
    requires w == TwoUsers(a, b, u) && start == map[root := 0]
    ensures Outcome(w, start, t) && u in t.m && t.m[u] == 3
    ensures Outcome(w, start, t') && u in t'.m && t'.m[u] == 4
    ensures multiset(t.buf) != multiset(t'.buf)
  {
    TwoUsersAre(w, a, b, u);
    hide TwoUsers;
    var m := map[root := 0, a := 1, b := 2];
    var f, fa, fb, f3, f4 := w[0][0], w[1][0], w[2][0], w[3][0], w[4][0];
    assert Registered(start, f.typ) == m by {
      assert Registered(start, f.typ.key) == map[root := 0, a := 1];
    }
    assert Registered(m, fa.typ) == m[u := 3] && Registered(m[u := 3], fb.typ) == m[u := 3];
    assert Registered(m, fb.typ) == m[u := 4] && Registered(m[u := 4], fa.typ) == m[u := 4];
    assert Registered(m[u := 3], f3.typ) == m[u := 3] && Registered(m[u := 4], f4.typ) == m[u := 4];
    assert w[0] == [f] && w[1] == [fa] && w[2] == [fb] && w[3] == [f3] && w[4] == [f4];
    assert Lists(f) && Lists(fa) && Lists(fb) && Lists(f3) && Lists(f4);
    RenderedApart(u, f3, f4);
    TwoUsersResolve(w, start, root, a, b, u);
    hide *;
    t := PickFirst(w, start, m, root, a, b, u, f, fa, fb, f3, 3);
    t' := PickFirst(w, start, m, root, b, a, u, f, fb, fa, f4, 4);
    OutcomeSettles(w, start, t);
    OutcomeSettles(w, start, t');
    FacesDiffer(w, t.m, t'.m, t.buf, t'.buf, u);
  }

  lemma RenderedApart(u: string, f: Field, g: Field)
    requires f == NamedField(Basic(StringKind)) && g == NamedField(Basic(BoolKind))
    ensures Render(u, [f]) != Render(u, [g])
  {
    assert [f][..0] == [] && [g][..0] == [];
    assert Entries([f]) == [] + [Entry("f", "string", false)] && Entries([g]) == [] + [Entry("f", "boolean", false)];
    assert Render(u, [f]).entries[0].tsType[0] == 's' && Render(u, [g]).entries[0].tsType[0] == 'b';
  }
}
