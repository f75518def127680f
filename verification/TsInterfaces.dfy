/** TypeScript interfaces for Go structs: the recursive type walk of
    internal/actionbridge/typemap.go and the worklist of
    internal/actionbridge/gen_ts.go, over a map that both of them extend. */
module TsInterfaces {
  import opened Strings

  /** The identity of a *types.Struct. */
  type StructId = nat

  datatype BasicKind = StringKind | BoolKind | NumberKind | OtherKind

  /** types.Type as TSType tells its cases apart. */
  datatype GoType =
    | Basic(kind: BasicKind)
    | Pointer(elem: GoType)
    | Slice(elem: GoType)
    | Array(elem: GoType)
    | Map(key: GoType, elem: GoType)
    | NamedStruct(name: string, pkg: Option<string>, id: StructId)
    | NamedOther(name: string, pkg: Option<string>, underlying: GoType)
    | Unknown

  datatype Field = Field(exported: bool, anonymous: bool, typ: GoType, jsonName: string, optional: bool)

  /** The fields of every struct; structs refer to each other by identity, in cycles too. */
  type World = map<StructId, seq<Field>>

  datatype Mention = Mention(name: string, id: StructId)

  predicate IsTime(t: GoType) { t.NamedStruct? && t.name == "Time" && t.pkg == Some("time") }

  predicate IsError(t: GoType) { t.NamedOther? && t.name == "error" && t.pkg == None }

  // ------------------------------------------------------------- the type walk

  function TsBasic(kind: BasicKind): string {
    match kind
    case StringKind => "string"
    case BoolKind => "boolean"
    case NumberKind => "number"
    case OtherKind => "unknown"
  }

  /** The TypeScript text; it does not depend on what is registered. */
  function Ts(t: GoType): string {
    match t
    case Basic(kind) => TsBasic(kind)
    case Pointer(elem) => Ts(elem) + " | null"
    case Slice(elem) => Ts(elem) + "[]"
    case Array(elem) => Ts(elem) + "[]"
    case Map(key, elem) => "Record<" + Ts(key) + ", " + Ts(elem) + ">"
    case NamedStruct(name, _, _) => if IsTime(t) then "string" else name
    case NamedOther(_, _, underlying) => if IsError(t) then "string" else Ts(underlying)
    case Unknown => "unknown"
  }

  /** The structs a type's TypeScript text names. */
  function Mentioned(t: GoType): set<Mention> {
    match t
    case Pointer(elem) => Mentioned(elem)
    case Slice(elem) => Mentioned(elem)
    case Array(elem) => Mentioned(elem)
    case Map(key, elem) => Mentioned(key) + Mentioned(elem)
    case NamedStruct(name, _, id) => if IsTime(t) then {} else {Mention(name, id)}
    case NamedOther(_, _, underlying) => if IsError(t) then {} else Mentioned(underlying)
    case _ => {}
  }

  /** First come, first registered. */
  function Entered(m: map<string, StructId>, name: string, id: StructId): map<string, StructId> {
    if name in m then m else m[name := id]
  }

  /** The map after the walk over a type, element types and keys first. */
  function Registered(m: map<string, StructId>, t: GoType): map<string, StructId>
    decreases t
  {
    match t
    case Pointer(elem) => Registered(m, elem)
    case Slice(elem) => Registered(m, elem)
    case Array(elem) => Registered(m, elem)
    case Map(key, elem) => Registered(Registered(m, key), elem)
    case NamedStruct(name, _, id) => if IsTime(t) then m else Entered(m, name, id)
    case NamedOther(_, _, underlying) => if IsError(t) then m else Registered(m, underlying)
    case _ => m
  }

  /** m' is m and the mentioned names that m lacks, each with a struct mentioned under it. */
  ghost predicate Adds(m: map<string, StructId>, mentions: set<Mention>, m': map<string, StructId>) {
    && (forall n :: n in m ==> n in m' && m'[n] == m[n])
    && (forall n :: n in m' ==> n in m || Mention(n, m'[n]) in mentions)
    && (forall x :: x in mentions ==> x.name in m')
  }

  lemma AddsTogether(m: map<string, StructId>, a: set<Mention>, m1: map<string, StructId>, b: set<Mention>,
                     m2: map<string, StructId>)
    requires Adds(m, a, m1) && Adds(m1, b, m2)
    ensures Adds(m, a + b, m2)
  {}

  /** The walk registers exactly the names its text mentions and the map lacked. */
  lemma {:induction false} RegisteredAdds(m: map<string, StructId>, t: GoType)
    ensures Adds(m, Mentioned(t), Registered(m, t))
    decreases t
  {
    match t {
      case Pointer(elem) => RegisteredAdds(m, elem);
      case Slice(elem) => RegisteredAdds(m, elem);
      case Array(elem) => RegisteredAdds(m, elem);
      case Map(key, elem) =>
        RegisteredAdds(m, key);
        RegisteredAdds(Registered(m, key), elem);
        AddsTogether(m, Mentioned(key), Registered(m, key), Mentioned(elem), Registered(m, t));
      case NamedOther(_, _, underlying) => if !IsError(t) { RegisteredAdds(m, underlying); }
      case _ =>
    }
  }

  /** A Go map that callers share. */
  class NamedTypes {
    var m: map<string, StructId>
    constructor (m: map<string, StructId>) ensures this.m == m { this.m := m; }

    method Enter(name: string, id: StructId)
      modifies this
      ensures m == Entered(old(m), name, id)
    {
      if name !in m { m := m[name := id]; }
    }
  }

  method TSType(t: GoType, namedTypes: NamedTypes) returns (ts: string)
    modifies namedTypes
    ensures ts == Ts(t)
    ensures namedTypes.m == Registered(old(namedTypes.m), t)
    decreases t
  {
    match t {
      case Basic(kind) => ts := TsBasic(kind);
      case Pointer(elem) =>
        var inner := TSType(elem, namedTypes);
        ts := inner + " | null";
      case Slice(elem) =>
        var inner := TSType(elem, namedTypes);
        ts := inner + "[]";
      case Array(elem) =>
        var inner := TSType(elem, namedTypes);
        ts := inner + "[]";
      case Map(key, elem) =>
        var k := TSType(key, namedTypes);
        var v := TSType(elem, namedTypes);
        ts := "Record<" + k + ", " + v + ">";
      case NamedStruct(name, pkg, id) =>
        if pkg == Some("time") && name == "Time" { return "string"; }
        namedTypes.Enter(name, id);
        ts := name;
      case NamedOther(name, pkg, underlying) =>
        if name == "error" && pkg == None { return "string"; }
        ts := TSType(underlying, namedTypes);
      case Unknown => ts := "unknown";
    }
  }

  // ------------------------------------------------------------ the interfaces

  datatype Entry = Entry(jsonName: string, tsType: string, optional: bool)

  datatype Interface = Interface(name: string, parents: seq<string>, entries: seq<Entry>)

  predicate Embeds(f: Field) { f.exported && f.anonymous && (f.typ.NamedStruct? || f.typ.NamedOther?) }

  predicate Lists(f: Field) { f.exported && !f.anonymous && f.jsonName != "-" }

  function Embedded(fs: seq<Field>): seq<string> {
    if fs == [] then []
    else
      var f := fs[|fs| - 1];
      Embedded(fs[..|fs| - 1]) + if Embeds(f) then [f.typ.name] else []
  }

  function Entries(fs: seq<Field>): seq<Entry> {
    if fs == [] then []
    else
      var f := fs[|fs| - 1];
      Entries(fs[..|fs| - 1]) + if Lists(f) then [Entry(f.jsonName, Ts(f.typ), f.optional)] else []
  }

  function Render(name: string, fs: seq<Field>): Interface { Interface(name, Embedded(fs), Entries(fs)) }

  /** The structs a field needs: an embedded struct, or those its type names. */
  function FieldMentions(f: Field): set<Mention> {
    if Lists(f) then Mentioned(f.typ)
    else if Embeds(f) && f.typ.NamedStruct? then {Mention(f.typ.name, f.typ.id)}
    else {}
  }

  function Mentions(fs: seq<Field>): set<Mention> {
    if fs == [] then {} else Mentions(fs[..|fs| - 1]) + FieldMentions(fs[|fs| - 1])
  }

  /** Struct identities in the world, or a mention in it, always resolve. */
  ghost predicate WorldOk(w: World, m: map<string, StructId>) {
    && (forall n :: n in m ==> m[n] in w)
    && (forall id, x :: id in w && x in Mentions(w[id]) ==> x.id in w)
  }

  // ---------------------------------------------------- what should be emitted

  /** x is reached from the names registered at the start in n mentions. */
  ghost predicate ReachedIn(w: World, start: map<string, StructId>, x: Mention, n: nat)
    decreases n
  {
    if n == 0 then x.name in start && start[x.name] == x.id
    else exists y :: ReachedIn(w, start, y, n - 1) && y.id in w && x in Mentions(w[y.id])
  }

  ghost predicate Reached(w: World, start: map<string, StructId>, x: Mention) {
    exists n: nat :: ReachedIn(w, start, x, n)
  }

  /** No two structs within reach share a name. */
  ghost predicate Coherent(w: World, start: map<string, StructId>) {
    forall x, y :: Reached(w, start, x) && Reached(w, start, y) && x.name == y.name ==> x == y
  }

  /** A registration that has settled: it kept what it started with, holds only
      what is within reach, and knows every name its structs mention. */
  ghost predicate Settled(w: World, start: map<string, StructId>, m: map<string, StructId>) {
    && (forall n :: n in start ==> n in m && m[n] == start[n])
    && (forall n :: n in m ==> m[n] in w && Reached(w, start, Mention(n, m[n])))
    && (forall n, x :: n in m && x in Mentions(w[m[n]]) ==> x.name in m)
  }

  /** Each name stands for the very struct that is meant wherever it is mentioned. */
  ghost predicate Faithful(w: World, m: map<string, StructId>)
    requires forall n :: n in m ==> m[n] in w
  {
    forall n, x :: n in m && x in Mentions(w[m[n]]) ==> x.name in m && m[x.name] == x.id
  }

  // ------------------------------------------------------------- runs

  function FieldRegistered(m: map<string, StructId>, f: Field): map<string, StructId> {
    if Lists(f) then Registered(m, f.typ)
    else if Embeds(f) && f.typ.NamedStruct? then Entered(m, f.typ.name, f.typ.id)
    else m
  }

  /** The map after a struct's fields, whatever the queue. */
  function FieldsRegistered(m: map<string, StructId>, fs: seq<Field>): map<string, StructId> {
    if fs == [] then m else FieldRegistered(FieldsRegistered(m, fs[..|fs| - 1]), fs[|fs| - 1])
  }

  lemma {:induction false} FieldsAdd(m: map<string, StructId>, fs: seq<Field>)
    ensures Adds(m, Mentions(fs), FieldsRegistered(m, fs))
  {
    if fs != [] {
      var init, f := fs[..|fs| - 1], fs[|fs| - 1];
      FieldsAdd(m, init);
      RegisteredAdds(FieldsRegistered(m, init), f.typ);
      AddsTogether(m, Mentions(init), FieldsRegistered(m, init), FieldMentions(f), FieldsRegistered(m, fs));
    }
  }

  ghost predicate Distinct(q: seq<string>) { forall i, j :: 0 <= i < j < |q| ==> q[i] != q[j] }

  /** q lists the names, each once, in some order. */
  ghost predicate Enumerates(q: seq<string>, names: set<string>) {
    Distinct(q) && forall n :: n in q <==> n in names
  }

  function Missing(m: map<string, StructId>, emitted: set<string>, queue: seq<string>): set<string> {
    set n | n in m && n !in emitted && n !in queue
  }

  /** One scan of the map appends the missing names in some order. */
  ghost predicate Scanned(m: map<string, StructId>, emitted: set<string>, q: seq<string>, q': seq<string>) {
    q <= q' && Enumerates(q'[|q|..], Missing(m, emitted, q))
  }

  ghost predicate QueueStep(m: map<string, StructId>, emitted: set<string>, q: seq<string>, f: Field, q': seq<string>) {
    if Lists(f) then Scanned(m, emitted, q, q')
    else if Embeds(f) && f.typ.NamedStruct? && f.typ.name !in emitted then q' == q + [f.typ.name]
    else q' == q
  }

  /** q' is a queue that a struct's fields can leave behind. */
  ghost predicate Queued(m: map<string, StructId>, emitted: set<string>, q: seq<string>, fs: seq<Field>, q': seq<string>)
    decreases |fs|
  {
    if fs == [] then q' == q
    else exists q1 ::
      Queued(m, emitted, q, fs[..|fs| - 1], q1) && QueueLast(m, emitted, q1, fs, q')
  }

  /** The last of the fields takes the queue from q to q'. */
  ghost predicate QueueLast(m: map<string, StructId>, emitted: set<string>, q: seq<string>, fs: seq<Field>, q': seq<string>)
    requires fs != []
  {
    QueueStep(FieldsRegistered(m, fs), emitted, q, fs[|fs| - 1], q')
  }

  /** The state of the worklist between two turns. */
  datatype Work = Work(m: map<string, StructId>, buf: seq<Interface>, queue: seq<string>)

  function Names(buf: seq<Interface>): set<string> { set k | 0 <= k < |buf| :: buf[k].name }

  lemma NamesSnoc(buf: seq<Interface>, face: Interface)
    ensures Names(buf + [face]) == Names(buf) + {face.name}
  {
    var all := buf + [face];
    assert all[|buf|] == face && forall k :: 0 <= k < |buf| ==> all[k] == buf[k];
  }

  /** One turn of the loop. */
  ghost predicate Turn(w: World, s: Work, t: Work) {
    && s.queue != []
    && var name, rest := s.queue[0], s.queue[1..];
    if name in Names(s.buf) then t == s.(queue := rest)
    else
      && name in s.m && s.m[name] in w
      && var fs := w[s.m[name]];
      && t.m == FieldsRegistered(s.m, fs)
      && t.buf == s.buf + [Render(name, fs)]
      && Queued(s.m, Names(t.buf), rest, fs, t.queue)
  }

  ghost predicate RunTo(w: World, s: Work, t: Work, n: nat)
    decreases n
  {
    if n == 0 then t == s else exists u :: RunTo(w, s, u, n - 1) && Turn(w, u, t)
  }

  ghost predicate Ordered(q: seq<string>) { forall i, j :: 0 <= i < j < |q| ==> !Less(q[j], q[i]) }

  /** The queue starts with the registered names, sorted. */
  ghost predicate Starts(start: map<string, StructId>, s: Work) {
    s.m == start && s.buf == [] && Ordered(s.queue) && Enumerates(s.queue, start.Keys)
  }

  /** t is a state in which the loop can end. */
  ghost predicate Outcome(w: World, start: map<string, StructId>, t: Work) {
    t.queue == [] && exists s, n: nat :: Starts(start, s) && RunTo(w, s, t, n)
  }

  function InsertName(q: seq<string>, x: string): seq<string> {
    if q == [] || Less(x, q[0]) then [x] + q else [q[0]] + InsertName(q[1..], x)
  }

  /** `sort.Strings`. */
  function SortNames(q: seq<string>): seq<string> {
    if q == [] then [] else InsertName(SortNames(q[1..]), q[0])
  }

  lemma {:induction false} InsertNameOrdered(q: seq<string>, x: string)
    requires Ordered(q) && Distinct(q) && x !in q
    ensures Ordered(InsertName(q, x)) && Distinct(InsertName(q, x))
    ensures forall n :: n in InsertName(q, x) <==> n in q || n == x
  {
    if q == [] {
    } else if Less(x, q[0]) {
      forall j | 0 <= j < |q| ensures !Less(q[j], x) {
        LessTotal(x, q[j]);
        if j > 0 && Less(q[j], x) { LessTransitive(q[j], x, q[0]); }
      }
    } else {
      InsertNameOrdered(q[1..], x);
      var more := InsertName(q[1..], x);
      forall j | 0 <= j < |more| ensures !Less(more[j], q[0]) && more[j] != q[0] {
        assert more[j] in more;
        if more[j] != x {
          var k :| 1 <= k < |q| && q[k] == more[j];
        }
      }
    }
  }

  lemma {:induction false} SortNamesOrdered(q: seq<string>, names: set<string>)
    requires Enumerates(q, names)
    ensures Ordered(SortNames(q)) && Enumerates(SortNames(q), names)
  {
    if q != [] {
      assert q == [q[0]] + q[1..];
      assert Enumerates(q[1..], names - {q[0]});
      SortNamesOrdered(q[1..], names - {q[0]});
      InsertNameOrdered(SortNames(q[1..]), q[0]);
    }
  }

  // -------------------------------------------------------------- the worklist

  /** Everything registered is emitted or waiting, and nothing else is. */
  ghost predicate Pending(m: map<string, StructId>, emitted: set<string>, queue: seq<string>) {
    && (forall n :: n in m ==> n in emitted || n in queue)
    && (forall n :: n in emitted || n in queue ==> n in m)
  }

  /** The scan of the registered names, in any order: those that are neither
      emitted nor queued join the end of the queue, each once. */
  method Enqueue(m: map<string, StructId>, emitted: set<string>, before: seq<string>) returns (queue: seq<string>)
    ensures Scanned(m, emitted, before, queue)
  {
    queue := before;
    var rest := m.Keys;
    while rest != {}
      invariant rest <= m.Keys && before <= queue
      invariant Enumerates(queue[|before|..], Missing(m, emitted, before) - rest)
      decreases |rest|
    {
      assert queue == before + queue[|before|..];
      var n :| n in rest;
      rest := rest - {n};
      if n !in emitted && n !in queue {
        assert (queue + [n])[|before|..] == queue[|before|..] + [n];
        queue := queue + [n];
      }
    }
  }

  /** One interface: the loop over a struct's fields. */
  method EmitOne(name: string, fs: seq<Field>, namedTypes: NamedTypes, emitted: set<string>, before: seq<string>)
    returns (face: Interface, queue: seq<string>)
    modifies namedTypes
    ensures face == Render(name, fs)
    ensures namedTypes.m == FieldsRegistered(old(namedTypes.m), fs)
    ensures Queued(old(namedTypes.m), emitted, before, fs, queue)
  {
    hide Mentions, Registered, Scanned, FieldMentions;
    ghost var m := namedTypes.m;
    queue := before;
    var embedded := [];
    var entries := [];
    for i := 0 to |fs|
      invariant embedded == Embedded(fs[..i]) && entries == Entries(fs[..i])
      invariant namedTypes.m == FieldsRegistered(m, fs[..i])
      invariant Queued(m, emitted, before, fs[..i], queue)
    {
      var f := fs[i];
      ghost var was := queue;
      assert fs[..i + 1][..i] == fs[..i] && fs[..i + 1][i] == f;
      if !f.exported {
        assert QueueLast(m, emitted, was, fs[..i + 1], queue);
        continue;
      }
      if f.anonymous {
        if f.typ.NamedStruct? || f.typ.NamedOther? {
          if f.typ.NamedStruct? {
            namedTypes.Enter(f.typ.name, f.typ.id);
            if f.typ.name !in emitted { queue := queue + [f.typ.name]; }
          }
          embedded := embedded + [f.typ.name];
        }
        assert QueueLast(m, emitted, was, fs[..i + 1], queue);
        continue;
      }
      if f.jsonName == "-" {
        assert QueueLast(m, emitted, was, fs[..i + 1], queue);
        continue;
      }
      var tsType := TSType(f.typ, namedTypes);
      queue := Enqueue(namedTypes.m, emitted, queue);
      assert QueueLast(m, emitted, was, fs[..i + 1], queue);
      entries := entries + [Entry(f.jsonName, tsType, f.optional)];
    }
    assert fs[..|fs|] == fs;
    face := Interface(name, embedded, entries);
  }

  // ------------------------------------------------- what every turn keeps

  /** What the loop has achieved: Settled, but only for the structs emitted. */
  ghost predicate Progress(w: World, start: map<string, StructId>, m: map<string, StructId>, emitted: set<string>) {
    && emitted <= m.Keys
    && (forall n :: n in start ==> n in m && m[n] == start[n])
    && (forall n :: n in m ==> m[n] in w && Reached(w, start, Mention(n, m[n])))
    && (forall n, x :: n in emitted && x in Mentions(w[m[n]]) ==> x.name in m)
  }

  /** Each interface renders the struct its name stands for, and no name has two. */
  ghost predicate Emits(w: World, m: map<string, StructId>, buf: seq<Interface>) {
    && (forall n :: n in m ==> m[n] in w)
    && (forall k :: 0 <= k < |buf| ==> buf[k].name in m && buf[k] == Render(buf[k].name, w[m[buf[k].name]]))
    && (forall j, k :: 0 <= j < k < |buf| ==> buf[j].name != buf[k].name)
  }

  ghost predicate Good(w: World, start: map<string, StructId>, s: Work) {
    && Progress(w, start, s.m, Names(s.buf))
    && Pending(s.m, Names(s.buf), s.queue)
    && Emits(w, s.m, s.buf)
  }

  lemma StartIsGood(w: World, start: map<string, StructId>, s: Work)
    requires WorldOk(w, start) && Starts(start, s)
    ensures Good(w, start, s)
  {
    forall n | n in start ensures Reached(w, start, Mention(n, start[n])) {
      assert ReachedIn(w, start, Mention(n, start[n]), 0);
    }
  }

  lemma ReachedStep(w: World, start: map<string, StructId>, y: Mention, x: Mention)
    requires Reached(w, start, y) && y.id in w && x in Mentions(w[y.id])
    ensures Reached(w, start, x)
  {
    var n: nat :| ReachedIn(w, start, y, n);
    assert ReachedIn(w, start, x, n + 1);
  }

  lemma ProgressGrows(w: World, start: map<string, StructId>, m: map<string, StructId>, emitted: set<string>,
                      name: string, m': map<string, StructId>)
    requires WorldOk(w, start) && Progress(w, start, m, emitted)
    requires name in m && Adds(m, Mentions(w[m[name]]), m')
    ensures Progress(w, start, m', emitted + {name})
  {
    hide Mentions, ReachedIn, Reached;
    forall n | n in m' ensures m'[n] in w && Reached(w, start, Mention(n, m'[n])) {
      if n !in m { ReachedStep(w, start, Mention(name, m[name]), Mention(n, m'[n])); }
    }
  }

  lemma EmitsGrows(w: World, m: map<string, StructId>, buf: seq<Interface>, name: string,
                   m': map<string, StructId>, face: Interface)
    requires Emits(w, m, buf) && name in m && name !in Names(buf) && face == Render(name, w[m[name]])
    requires (forall n :: n in m ==> n in m' && m'[n] == m[n]) && (forall n :: n in m' ==> m'[n] in w)
    ensures Emits(w, m', buf + [face])
  {
    hide Embedded, Entries;
    forall k | 0 <= k < |buf| ensures buf[k].name != name { assert buf[k].name in Names(buf); }
  }

  lemma {:induction false} QueuedPending(m: map<string, StructId>, emitted: set<string>, q: seq<string>,
                                         fs: seq<Field>, q': seq<string>)
    requires Pending(m, emitted, q) && Queued(m, emitted, q, fs, q')
    ensures Pending(FieldsRegistered(m, fs), emitted, q') && q <= q'
    decreases |fs|
  {
    if fs != [] {
      var init, f := fs[..|fs| - 1], fs[|fs| - 1];
      var q1 :| Queued(m, emitted, q, init, q1) && QueueLast(m, emitted, q1, fs, q');
      QueuedPending(m, emitted, q, init, q1);
      var m1 := FieldsRegistered(m, init);
      RegisteredAdds(m1, f.typ);
      assert QueueStep(FieldRegistered(m1, f), emitted, q1, f, q');
      if Lists(f) { ScannedPending(Registered(m1, f.typ), emitted, q1, q'); }
    }
  }

  lemma ScannedPending(m: map<string, StructId>, emitted: set<string>, q: seq<string>, q': seq<string>)
    requires Scanned(m, emitted, q, q') && forall n :: n in emitted || n in q ==> n in m
    ensures Pending(m, emitted, q')
  {
    assert q' == q + q'[|q|..];
  }

  /** Every name that can ever be registered. */
  ghost function Universe(w: World, start: map<string, StructId>): set<string> {
    start.Keys + set id, x | id in w && x in Mentions(w[id]) :: x.name
  }

  lemma WithinUniverse(w: World, start: map<string, StructId>, m: map<string, StructId>, emitted: set<string>)
    requires Progress(w, start, m, emitted)
    ensures m.Keys <= Universe(w, start)
  {
    forall n | n in m ensures n in Universe(w, start) {
      var x := Mention(n, m[n]);
      var k: nat :| ReachedIn(w, start, x, k);
      if k > 0 {
        var y :| ReachedIn(w, start, y, k - 1) && y.id in w && x in Mentions(w[y.id]);
        assert x.name == n;
      }
    }
  }

  lemma FewerLeft(all: set<string>, done: set<string>, name: string)
    requires name in all && name !in done
    ensures |all - (done + {name})| < |all - done|
  {
    assert all - (done + {name}) == (all - done) - {name};
  }

  ghost function Left(w: World, start: map<string, StructId>, s: Work): nat { |Universe(w, start) - Names(s.buf)| }

  /** A turn keeps the invariant, and emits one more name or shortens the queue. */
  lemma TurnIsGood(w: World, start: map<string, StructId>, s: Work, t: Work)
    requires WorldOk(w, start) && Good(w, start, s) && Turn(w, s, t)
    ensures Good(w, start, t)
    ensures Left(w, start, t) < Left(w, start, s) || (t.buf == s.buf && |t.queue| < |s.queue|)
  {
    var name, rest := s.queue[0], s.queue[1..];
    assert s.queue == [name] + rest;
    if name !in Names(s.buf) {
      EmitTurn(w, start, s, t, name, rest);
    }
  }

  lemma EmitTurn(w: World, start: map<string, StructId>, s: Work, t: Work, name: string, rest: seq<string>)
    requires WorldOk(w, start) && Good(w, start, s) && Turn(w, s, t)
    requires s.queue == [name] + rest && name !in Names(s.buf)
    ensures Good(w, start, t) && Left(w, start, t) < Left(w, start, s)
  {
    var fs := w[s.m[name]];
    NamesSnoc(s.buf, Render(name, fs));
    assert s.queue[1..] == rest && t.m == FieldsRegistered(s.m, fs) && t.buf == s.buf + [Render(name, fs)];
    assert Names(t.buf) == Names(s.buf) + {name};
    assert Queued(s.m, Names(t.buf), rest, fs, t.queue) && Pending(s.m, Names(t.buf), rest);
    WithinUniverse(w, start, s.m, Names(s.buf));
    hide Names, Reached, Mentions, Queued, FieldsRegistered, Render, Universe, ReachedIn;
    FieldsAdd(s.m, fs);
    ProgressGrows(w, start, s.m, Names(s.buf), name, t.m);
    QueuedPending(s.m, Names(t.buf), rest, fs, t.queue);
    EmitsGrows(w, s.m, s.buf, name, t.m, Render(name, fs));
    FewerLeft(Universe(w, start), Names(s.buf), name);
  }

  lemma GoodSettles(w: World, start: map<string, StructId>, t: Work)
    requires Good(w, start, t) && t.queue == []
    ensures Settled(w, start, t.m) && Emits(w, t.m, t.buf) && Names(t.buf) == t.m.Keys
  {
    hide Mentions, ReachedIn, Reached, Names;
  }

  /** The worklist ends, in one of the outcomes of its runs, with one interface for
      every registered name, those registered on the way included. */
  method EmitNamedTypes(w: World, namedTypes: NamedTypes) returns (buf: seq<Interface>)
    requires WorldOk(w, namedTypes.m)
    modifies namedTypes
    ensures Outcome(w, old(namedTypes.m), Work(namedTypes.m, buf, []))
    ensures Settled(w, old(namedTypes.m), namedTypes.m)
    ensures Emits(w, namedTypes.m, buf) && Names(buf) == namedTypes.m.Keys
  {
    hide Mentions, Reached, Settled, Emits, Progress, WorldOk, Queued, FieldsRegistered, Ordered;
    ghost var start := namedTypes.m;
    buf := [];
    var emitted := {};
    var queue := Enqueue(namedTypes.m, emitted, []);
    assert Enumerates(queue, start.Keys) by {
      assert queue[0..] == queue && Missing(start, {}, []) == start.Keys;
    }
    SortNamesOrdered(queue, start.Keys);
    queue := SortNames(queue);
    ghost var first, turns: nat := Work(start, buf, queue), 0;
    StartIsGood(w, start, first);
    hide *;
    assert Names([]) == {} by { NoNames(); }
    assert RunTo(w, first, first, 0) by { RunNone(w, first); }
    while queue != []
      invariant emitted == Names(buf) && Starts(start, first)
      invariant Good(w, start, Work(namedTypes.m, buf, queue))
      invariant RunTo(w, first, Work(namedTypes.m, buf, queue), turns)
      decreases Left(w, start, Work(namedTypes.m, buf, queue)), |queue|
    {
      ghost var before := Work(namedTypes.m, buf, queue);
      var name := queue[0];
      queue := queue[1..];
      Resolves(w, start, before, name);
      if name in emitted {
        SkipTurn(w, before, name, queue);
      } else {
        ghost var rest := queue;
        emitted := emitted + {name};
        var face;
        face, queue := EmitOne(name, w[namedTypes.m[name]], namedTypes, emitted, queue);
        buf := buf + [face];
        NamedTurn(w, before, name, rest, Work(namedTypes.m, buf, queue));
      }
      TurnIsGood(w, start, before, Work(namedTypes.m, buf, queue));
      RunOn(w, first, before, Work(namedTypes.m, buf, queue), turns);
      turns := turns + 1;
    }
    GoodSettles(w, start, Work(namedTypes.m, buf, []));
    Ends(w, start, first, Work(namedTypes.m, buf, []), turns);
  }

  lemma SkipTurn(w: World, s: Work, name: string, rest: seq<string>)
    requires s.queue != [] && s.queue[0] == name && s.queue[1..] == rest && name in Names(s.buf)
    ensures Turn(w, s, s.(queue := rest))
  {}

  lemma NamedTurn(w: World, s: Work, name: string, rest: seq<string>, t: Work)
    requires s.queue != [] && s.queue[0] == name && s.queue[1..] == rest && name !in Names(s.buf)
    requires name in s.m && s.m[name] in w
    requires t.m == FieldsRegistered(s.m, w[s.m[name]]) && t.buf == s.buf + [Render(name, w[s.m[name]])]
    requires Queued(s.m, Names(s.buf) + {name}, rest, w[s.m[name]], t.queue)
    ensures Turn(w, s, t) && Names(t.buf) == Names(s.buf) + {name}
  {
    NamesSnoc(s.buf, Render(name, w[s.m[name]]));
  }

  lemma RunNone(w: World, s: Work)
    ensures RunTo(w, s, s, 0)
  {}

  lemma RunOn(w: World, s: Work, u: Work, t: Work, n: nat)
    requires RunTo(w, s, u, n) && Turn(w, u, t)
    ensures RunTo(w, s, t, n + 1)
  {
    hide Turn;
  }

  lemma Ends(w: World, start: map<string, StructId>, s: Work, t: Work, n: nat)
    requires Starts(start, s) && RunTo(w, s, t, n) && t.queue == []
    ensures Outcome(w, start, t)
  {
    hide RunTo, Starts;
  }

  lemma NoNames()
    ensures Names([]) == {}
  {}

  lemma Resolves(w: World, start: map<string, StructId>, s: Work, name: string)
    requires Good(w, start, s) && name in s.queue
    ensures name in s.m && s.m[name] in w
  {}
}
