/** What RouteTable.Match promises, stated on route lists and request paths:
    the least matching route whatever the listing order, and agreement with the
    reference matcher, with the exact conditions under which they differ. */
module RouteTheorems {
  import opened Strings
  import opened PatternMatch
  import opened Specificity
  import opened RouteSearch
  import opened Radix

  /** `NewRouteTable(routes).Match(path)`, by the contracts of those two methods. */
  function Lookup(routes: seq<CompiledRoute>, path: string): Option<Found> {
    Search(SortedRoutes(routes), [], SplitSegments(NormalizePath(path)))
  }

  /** The table built from `routes` answers with Lookup. */
  method LookupByTable(routes: seq<CompiledRoute>, path: string) returns (r: Option<(CompiledRoute, map<string, Value>)>)
    ensures r == ToResult(Lookup(routes, path))
  {
    var table := NewRouteTable(routes);
    r := table.Match(path);
  }

  lemma SortedKeepsRoutes(routes: seq<CompiledRoute>)
    ensures forall r :: r in SortedRoutes(routes) <==> r in routes
  {
    SortedRoutesPermutes(routes);
    forall r ensures r in SortedRoutes(routes) <==> r in routes {
      assert r in multiset(SortedRoutes(routes)) <==> r in multiset(routes);
    }
  }

  /** The trie answers exactly when some pattern matches segment by segment, and
      with the least such pattern. */
  lemma LookupIsBest(routes: seq<CompiledRoute>, path: string)
    requires Canonical(routes)
    ensures var segments := SplitSegments(NormalizePath(path));
      && (Lookup(routes, path).Some? <==> exists r :: r in routes && SegMatches(Segs(r), segments))
      && (Lookup(routes, path).Some? ==> IsBest(routes, segments, Lookup(routes, path).value.route))
  {
    SortedKeepsRoutes(routes);
    SortedRoutesSorted(routes);
    SearchFindsBest(SortedRoutes(routes), SplitSegments(NormalizePath(path)));
  }

  /** The answer, parameters included, does not depend on the listing order. */
  lemma LookupForgetsOrder(routes: seq<CompiledRoute>, routes': seq<CompiledRoute>, path: string)
    requires Canonical(routes) && multiset(routes) == multiset(routes')
    ensures Lookup(routes, path) == Lookup(routes', path)
  {
    SortForgetsOrder(routes, routes');
  }

  // ------------------------------------------------- the reference matcher

  /** A path written back from its segments. */
  function Render(path: seq<string>): string {
    if path == [] then "" else ['/'] + path[0] + Render(path[1..])
  }

  ghost predicate SlashFree(path: seq<string>) { AllWithout(path, '/') }

  predicate Trimmed(path: seq<string>) { path == [] || path[|path| - 1] != "" }

  /** No dynamic segment would capture the empty string. */
  predicate ParamsFilled(segs: seq<Segment>, path: seq<string>) {
    if segs == [] || path == [] || segs[0].ConsumesRest() then true
    else (segs[0].kind.Dynamic? ==> path[0] != "") && ParamsFilled(segs[1..], path[1..])
  }

  /** What a catch-all would capture holds no line feed. */
  predicate RestOnOneLine(segs: seq<Segment>, path: seq<string>) {
    if segs == [] || path == [] then true
    else if segs[0].ConsumesRest() then '\n' !in Join(path, '/')
    else RestOnOneLine(segs[1..], path[1..])
  }

  /** What a catch-all would capture is not empty. */
  predicate RestFilled(segs: seq<Segment>, path: seq<string>) {
    if segs == [] || path == [] then true
    else if segs[0].ConsumesRest() then Join(path, '/') != ""
    else RestFilled(segs[1..], path[1..])
  }

  /** The capture groups, computed on segments. */
  function SegCaptures(segs: seq<Segment>, path: seq<string>): seq<string>
    requires SegMatches(segs, path)
  {
    if segs == [] then []
    else if segs[0].ConsumesRest() then [Join(path, '/')]
    else if segs[0].kind.Dynamic? then [path[0]] + SegCaptures(segs[1..], path[1..])
    else SegCaptures(segs[1..], path[1..])
  }

  lemma {:induction false} RenderJoin(path: seq<string>)
    requires path != []
    ensures Render(path) == ['/'] + Join(path, '/')
  {
    if |path| == 1 {
      assert Render(path[1..]) == "";
    } else {
      RenderJoin(path[1..]);
    }
  }

  lemma {:induction false} JoinNotEmpty(path: seq<string>)
    requires path != [] && Trimmed(path)
    ensures Join(path, '/') != "" && Join(path, '/')[|Join(path, '/')| - 1] == Last(path)
  {
    if |path| > 1 {
      JoinNotEmpty(path[1..]);
    }
  }

  function Last(path: seq<string>): char
    requires path != [] && Trimmed(path)
  {
    path[|path| - 1][|path[|path| - 1]| - 1]
  }

  lemma {:induction false} UpToSlashRender(head: string, tail: seq<string>)
    requires '/' !in head
    ensures UpToSlash(head + Render(tail)) == head
  {
    if head != "" {
      assert (head + Render(tail))[1..] == head[1..] + Render(tail);
      UpToSlashRender(head[1..], tail);
      assert [head[0]] + head[1..] == head;
    } else {
      assert head + Render(tail) == Render(tail);
    }
  }

  /** A slash-free text at the start of a segment stays inside the segment. */
  lemma {:induction false} PrefixFits(text: string, head: string, tail: string)
    requires text <= head + tail && '/' !in text && (tail == "" || tail[0] == '/')
    ensures text <= head
  {
    assert head == "" ==> head + tail == tail;
    assert text != "" ==> text[0] == (head + tail)[0];
    if text != "" && head != "" {
      assert (head + tail)[1..] == head[1..] + tail;
      PrefixFits(text[1..], head[1..], tail);
      assert [text[0]] + text[1..] == text && [head[0]] + head[1..] == head;
    }
  }

  /** After a literal that stops inside a segment nothing can match. */
  lemma StuckInSegment(ps: seq<Piece>, rest: string)
    requires rest != "" && rest[0] != '/'
    ensures MatchPieces(ps, rest).None?
  {}

  predicate RefAccepts(segs: seq<Segment>, path: seq<string>) {
    SegMatches(segs, path) && ParamsFilled(segs, path) && RestFilled(segs, path) && RestOnOneLine(segs, path)
  }

  /** The path ends in a slash: its last segment is empty. */
  predicate EndsOpen(path: seq<string>) { path != [] && path[|path| - 1] == "" }

  function Init(path: seq<string>): seq<string>
    requires path != []
  {
    path[..|path| - 1]
  }

  /** What the expression captures: the segments as they are, or else without the
      empty one behind a final slash. */
  function Accepted(segs: seq<Segment>, path: seq<string>): Option<seq<string>> {
    if RefAccepts(segs, path) then Some(SegCaptures(segs, path))
    else if EndsOpen(path) && RefAccepts(segs, Init(path)) then Some(SegCaptures(segs, Init(path)))
    else None
  }

  /** The regular expression of a pattern, run on a rendered path, accepts exactly
      the segment-wise matches with filled parameters and a filled one-line rest,
      with or without a final slash, and captures what the segments say. */
  lemma {:induction false} PiecesAgree(segs: seq<Segment>, path: seq<string>)
    requires WellFormed(segs) && SlashFree(path)
    ensures MatchPieces(PiecesOf(segs), Render(path)) == Accepted(segs, path)
    decreases |segs|
  {
    if segs == [] {
      if path != [] { RenderJoin(path); }
    } else {
      WellFormedTail(segs);
      match segs[0].kind {
        case Static => PiecesAgreeStatic(segs, path);
        case Dynamic => PiecesAgreeDynamic(segs, path);
        case CatchAll => PiecesAgreeRest(segs, path);
        case OptCatchAll => PiecesAgreeRest(segs, path);
      }
    }
  }

  lemma PiecesAgreeRest(segs: seq<Segment>, path: seq<string>)
    requires WellFormed(segs) && SlashFree(path)
    requires segs != [] && segs[0].ConsumesRest()
    ensures MatchPieces(PiecesOf(segs), Render(path)) == Accepted(segs, path)
  {
    if path != [] {
      RenderJoin(path);
      assert Render(path)[1..] == Join(path, '/');
      assert Join(path, '/') == "" ==> path == [""];
      if path == [""] { assert Init(path) == []; }
      if EndsOpen(path) && |path| > 1 { InitOneLine(path); }
    }
  }

  lemma {:induction false} InitOneLine(path: seq<string>)
    requires |path| > 1 && path[|path| - 1] == ""
    ensures Join(path, '/') == Join(Init(path), '/') + "/"
  {
    if |path| > 2 {
      assert Init(path)[1..] == Init(path[1..]);
      InitOneLine(path[1..]);
    } else {
      assert path[1..] == [""];
    }
  }

  /** A segment that is not a catch-all is compared on its own. */
  lemma AcceptedStep(segs: seq<Segment>, path: seq<string>)
    requires segs != [] && !segs[0].ConsumesRest() && path != []
    ensures (segs[0].kind.Static? && path[0] != segs[0].value) || (segs[0].kind.Dynamic? && path[0] == "") ==>
      Accepted(segs, path) == None
    ensures segs[0].kind.Static? && path[0] == segs[0].value ==> Accepted(segs, path) == Accepted(segs[1..], path[1..])
    ensures segs[0].kind.Dynamic? && path[0] != "" ==>
      Accepted(segs, path) == match Accepted(segs[1..], path[1..])
        case None => None
        case Some(caps) => Some([path[0]] + caps)
  {
    if |path| > 1 {
      assert Init(path)[1..] == Init(path[1..]) && Init(path)[0] == path[0];
    } else {
      assert Init(path) == [] && path[1..] == [];
    }
  }

  lemma {:induction false} PiecesAgreeStatic(segs: seq<Segment>, path: seq<string>)
    requires WellFormed(segs) && SlashFree(path)
    requires segs != [] && segs[0].kind.Static?
    ensures MatchPieces(PiecesOf(segs), Render(path)) == Accepted(segs, path)
    decreases |segs|, 0
  {
    WellFormedTail(segs);
    var text, s := segs[0].value, Render(path);
    if path != [] {
      AcceptedStep(segs, path);
      hide Accepted, WellFormed, Join, SegMatches;
      assert '/' !in path[0] && '/' !in text;
      assert s == ['/'] + path[0] + Render(path[1..]);
      LiteralInSegment(text, path[0], path[1..], PiecesOf(segs)[1..]);
      if text == path[0] { PiecesAgree(segs[1..], path[1..]); }
    }
  }

  /** A literal piece passes a segment exactly when it is that segment. */
  lemma LiteralInSegment(text: string, seg: string, rest: seq<string>, more: seq<Piece>)
    requires '/' !in text && '/' !in seg
    ensures var s := ['/'] + seg + Render(rest);
      && (text == seg ==> ['/'] + text <= s && s[1 + |text|..] == Render(rest))
      && (text != seg && ['/'] + text <= s ==> MatchPieces(more, s[1 + |text|..]) == None)
  {
    hide Join;
    var tail := Render(rest);
    var s := ['/'] + seg + tail;
    if ['/'] + text <= s {
      assert s[1..] == seg + tail && text <= s[1..];
      PrefixFits(text, seg, tail);
      if |text| < |seg| {
        assert s[1 + |text|..][0] == seg[|text|];
        StuckInSegment(more, s[1 + |text|..]);
      }
    }
  }

  lemma {:induction false} PiecesAgreeDynamic(segs: seq<Segment>, path: seq<string>)
    requires WellFormed(segs) && SlashFree(path)
    requires segs != [] && segs[0].kind.Dynamic?
    ensures MatchPieces(PiecesOf(segs), Render(path)) == Accepted(segs, path)
    decreases |segs|, 0
  {
    WellFormedTail(segs);
    if path != [] {
      AcceptedStep(segs, path);
      hide Accepted;
      var s := Render(path);
      assert '/' !in path[0];
      assert s[1..] == path[0] + Render(path[1..]);
      UpToSlashRender(path[0], path[1..]);
      assert s[1 + |path[0]|..] == Render(path[1..]);
      PiecesAgree(segs[1..], path[1..]);
    }
  }

  // -------------------------------------------------- agreement on paths

  /** A normalised request path: the root, or a path that does not end in a slash. */
  predicate RequestPath(s: string) {
    s == "/" || (|s| > 1 && s[0] == '/' && s[|s| - 1] != '/')
  }

  lemma {:induction false} JoinEndsInSep(path: seq<string>)
    requires path != [] && path[|path| - 1] == ""
    ensures Join(path, '/') == "" || Join(path, '/')[|Join(path, '/')| - 1] == '/'
  {
    if |path| > 1 {
      JoinEndsInSep(path[1..]);
      assert path[1..][|path[1..]| - 1] == "";
    }
  }

  lemma RequestPathSegments(s: string)
    requires RequestPath(s) && s != "/"
    ensures var path := SplitSegments(s);
      path != [] && SlashFree(path) && Trimmed(path) && Render(path) == s && NormalizePath(s) == s
  {
    var path := SplitSegments(s);
    JoinSplit(s[1..], '/');
    RenderJoin(path);
    assert s == ['/'] + s[1..];
    if path[|path| - 1] == "" { JoinEndsInSep(path); }
  }

  /** A pattern whose first segment is not an empty literal. */
  predicate RootSafe(r: CompiledRoute) { Segs(r) == [] || Segs(r)[0] != Segment(Static, "") }

  /** On every path that starts with a slash the reference matcher accepts a route
      exactly when its segments match those behind the slashes, no parameter or
      rest is empty and the rest is on one line; or when they do so without a
      final slash. */
  lemma ReferenceAccepts(r: CompiledRoute, s: string)
    requires r == Compile(r.pattern) && "/" <= s
    ensures Captures(r.re, s) == Accepted(Segs(r), Split(s[1..], '/'))
  {
    var path := Split(s[1..], '/');
    ParseWellFormed(r.pattern);
    JoinSplit(s[1..], '/');
    RenderJoin(path);
    assert s == ['/'] + s[1..] && Render(path) == s;
    PiecesAgree(Segs(r), path);
    if r.pattern == "/" { RootAccepts(path); }
  }

  lemma RootAccepts(path: seq<string>)
    requires path != []
    ensures Accepted([], path) == if Render(path) == "/" then Some([]) else None
  {
    RenderJoin(path);
    assert Join(path, '/') == "" ==> path == [""];
  }

  /** On a normalised request path the final slash plays no part. */
  lemma RequestAccepts(r: CompiledRoute, s: string)
    requires r == Compile(r.pattern) && RequestPath(s) && (s == "/" ==> RootSafe(r))
    ensures Captures(r.re, s) ==
      if RefAccepts(Segs(r), SplitSegments(s)) then Some(SegCaptures(Segs(r), SplitSegments(s))) else None
  {
    ReferenceAccepts(r, s);
    hide Compile, Captures, Join, SegMatches, SegCaptures;
    if s == "/" {
      RootAcceptsEmpty(Segs(r));
    } else {
      RequestPathSegments(s);
    }
  }

  lemma RootAcceptsEmpty(segs: seq<Segment>)
    requires segs == [] || segs[0] != Segment(Static, "")
    ensures Accepted(segs, Split("/"[1..], '/')) == if RefAccepts(segs, []) then Some(SegCaptures(segs, [])) else None
  {
    assert "/"[1..] == "" && Split("", '/') == [""] && Init([""]) == [];
    RootMisses(segs);
  }

  lemma RootMisses(segs: seq<Segment>)
    requires segs == [] || segs[0] != Segment(Static, "")
    ensures !RefAccepts(segs, [""])
  {}

  /** A normalised path without empty segments and line feeds. */
  predicate PlainPath(s: string) {
    RequestPath(s) && "" !in SplitSegments(s) && '\n' !in s
  }

  lemma {:induction false} JoinWithout(path: seq<string>, c: char)
    requires c != '/' && AllWithout(path, c)
    ensures c !in Join(path, '/')
  {
    JoinChars(path, '/', c);
  }

  lemma {:induction false} PartsWithout(s: string, c: char)
    requires c !in s
    ensures AllWithout(Split(s, '/'), c)
  {
    if s != "" { PartsWithout(s[1..], c); }
  }

  lemma {:induction false} PlainAccepts(segs: seq<Segment>, path: seq<string>)
    requires "" !in path && AllWithout(path, '\n')
    ensures ParamsFilled(segs, path) && RestFilled(segs, path) && RestOnOneLine(segs, path)
  {
    if segs != [] && path != [] {
      if segs[0].ConsumesRest() {
        JoinWithout(path, '\n');
      } else {
        assert AllWithout(path[1..], '\n');
        PlainAccepts(segs[1..], path[1..]);
      }
    }
  }

  lemma PlainSegments(s: string)
    requires PlainPath(s)
    ensures NormalizePath(s) == s
    ensures var path := SplitSegments(s);
      SlashFree(path) && "" !in path && AllWithout(path, '\n')
  {
    if s != "/" {
      RequestPathSegments(s);
      PartsWithout(s[1..], '\n');
    }
  }

  // ------------------------------------------------------------ parameters

  /** The bindings along a route when wildcards are named by `nameAt`. */
  function PathBindings(rs: seq<CompiledRoute>, p: seq<Step>, segs: seq<Segment>, path: seq<string>): seq<Binding>
    requires SegMatches(segs, path)
    decreases |path|
  {
    if segs == [] || path == [] then []
    else match segs[0].kind
      case Static => PathBindings(rs, p + [Text(path[0])], segs[1..], path[1..])
      case Dynamic =>
        [Binding(WildName(rs, p), Single(Decode(path[0])))] + PathBindings(rs, p + [Wild], segs[1..], path[1..])
      case CatchAll => [Binding(segs[0].value, Many(DecodeAll(path)))]
      case OptCatchAll => [Binding(segs[0].value, Many(DecodeAll(path)))]
  }

  /** The bindings of a route under its own parameter names. */
  function OwnBindings(segs: seq<Segment>, path: seq<string>): seq<Binding>
    requires SegMatches(segs, path)
  {
    if segs == [] || path == [] then []
    else match segs[0].kind
      case Static => OwnBindings(segs[1..], path[1..])
      case Dynamic => [Binding(segs[0].value, Single(Decode(path[0])))] + OwnBindings(segs[1..], path[1..])
      case CatchAll => [Binding(segs[0].value, Many(DecodeAll(path)))]
      case OptCatchAll => [Binding(segs[0].value, Many(DecodeAll(path)))]
  }

  /** A successful search binds exactly the values along the trie path of the
      route it returns, and nothing of the branches it gave up. */
  lemma {:induction false} SearchBindings(rs: seq<CompiledRoute>, p: seq<Step>, path: seq<string>)
    requires Search(rs, p, path).Some?
    ensures var f := Search(rs, p, path).value;
      && MatchesBelow(rs, f.route, p, path)
      && f.bindings == PathBindings(rs, p, Below(f.route, p), path)
    decreases |path|
  {
    SearchBest(rs, p, path);
    var f := Search(rs, p, path).value;
    if path != [] {
      var lit, wild := Search(rs, p + [Text(path[0])], path[1..]), Search(rs, p + [Wild], path[1..]);
      if lit.Some? {
        SearchBindings(rs, p + [Text(path[0])], path[1..]);
        BelowUp(f.route, p, Text(path[0]));
      } else if wild.Some? {
        SearchBindings(rs, p + [Wild], path[1..]);
        BelowUp(f.route, p, Wild);
      } else {
        OneLeft(f.route, p);
        SpineEdges(Segs(f.route));
      }
    }
  }

  /** Routes that run through the same wildcard give it the same name. */
  ghost predicate Coherent(rs: seq<CompiledRoute>) {
    forall a, b, p :: a in rs && b in rs && PassesWild(a, p) && PassesWild(b, p) ==>
      Segs(a)[|p|].value == Segs(b)[|p|].value
  }

  /** The trie names every wildcard on r's way as r does. */
  ghost predicate NamedAsOwn(rs: seq<CompiledRoute>, r: CompiledRoute) {
    forall p :: PassesWild(r, p) ==> WildName(rs, p) == Segs(r)[|p|].value
  }

  lemma {:induction false} WildNameIsShared(rs: seq<CompiledRoute>, r: CompiledRoute, p: seq<Step>)
    requires r in rs && PassesWild(r, p)
    ensures exists a :: a in rs && PassesWild(a, p) && WildName(rs, p) == Segs(a)[|p|].value
  {
    if PassesWild(rs[0], p) {
      assert rs[0] in rs;
    } else {
      assert r in rs[1..];
      WildNameIsShared(rs[1..], r, p);
      var a :| a in rs[1..] && PassesWild(a, p) && WildName(rs[1..], p) == Segs(a)[|p|].value;
      assert a in rs;
    }
  }

  lemma CoherentNaming(rs: seq<CompiledRoute>, r: CompiledRoute)
    requires Coherent(rs) && r in rs
    ensures NamedAsOwn(rs, r)
  {
    forall p | PassesWild(r, p) ensures WildName(rs, p) == Segs(r)[|p|].value {
      WildNameIsShared(rs, r, p);
    }
  }

  ghost predicate NamedBelow(rs: seq<CompiledRoute>, r: CompiledRoute, p: seq<Step>) {
    forall q :: PassesWild(r, q) ==> p <= q ==> WildName(rs, q) == Segs(r)[|q|].value
  }

  lemma NamedStep(rs: seq<CompiledRoute>, r: CompiledRoute, p: seq<Step>, s: Step)
    requires p + [s] <= Spine(r)
    ensures NamedBelow(rs, r, p) <==>
      (s == Wild ==> WildName(rs, p) == Segs(r)[|p|].value) && NamedBelow(rs, r, p + [s])
  {
    forall q ensures p <= q && PassesWild(r, q) <==> (q == p && s == Wild) || (p + [s] <= q && PassesWild(r, q)) {
      NextWild(r, p, s, q);
    }
    if s == Wild { assert PassesWild(r, p); }
  }

  /** The trie's bindings are the route's own exactly when the wildcards on its
      way are named alike. */
  lemma {:induction false} BindingsFollowNames(rs: seq<CompiledRoute>, r: CompiledRoute, p: seq<Step>, path: seq<string>)
    requires MatchesBelow(rs, r, p, path)
    ensures PathBindings(rs, p, Below(r, p), path) == OwnBindings(Below(r, p), path) <==> NamedBelow(rs, r, p)
    decreases |path|
  {
    var segs := Below(r, p);
    if segs == [] || path == [] || segs[0].ConsumesRest() {
      forall q | p <= q ensures !PassesWild(r, q) {
        NoWildBelow(r, p, q, path);
      }
    } else {
      MatchesDown(rs, r, p, path);
      BelowStep(r, p);
      var s := if segs[0].kind.Static? then Text(path[0]) else Wild;
      assert StepOf(segs[0]) == s;
      BindingsFollowNames(rs, r, p + [s], path[1..]);
      NamedStep(rs, r, p, s);
      if segs[0].kind.Dynamic? {
        var xs, ys := PathBindings(rs, p + [s], segs[1..], path[1..]), OwnBindings(segs[1..], path[1..]);
        var x, y := Binding(WildName(rs, p), Single(Decode(path[0]))), Binding(segs[0].value, Single(Decode(path[0])));
        ConsEqual(x, xs, y, ys);
      }
    }
  }

  lemma ConsEqual<T>(x: T, xs: seq<T>, y: T, ys: seq<T>)
    ensures [x] + xs == [y] + ys <==> x == y && xs == ys
  {
    assert ([x] + xs)[0] == x && ([x] + xs)[1..] == xs;
    assert ([y] + ys)[0] == y && ([y] + ys)[1..] == ys;
  }

  lemma NextWild(r: CompiledRoute, p: seq<Step>, s: Step, q: seq<Step>)
    requires p + [s] <= Spine(r)
    ensures p <= q && PassesWild(r, q) <==> (q == p && s == Wild) || (p + [s] <= q && PassesWild(r, q))
  {
    if p <= q && PassesWild(r, q) {
      assert Spine(r)[|p|] == (p + [s])[|p|] == s;
      if |q| == |p| {
        assert q == p && (q + [Wild])[|p|] == Wild;
      } else {
        assert q[|p|] == (q + [Wild])[|p|] == s;
        assert p + [s] <= q;
      }
    }
    if p + [s] <= q { assert p == (p + [s])[..|p|] == q[..|p|]; }
  }

  lemma NoWildBelow(r: CompiledRoute, p: seq<Step>, q: seq<Step>, path: seq<string>)
    requires p <= Spine(r) && p <= q && SegMatches(Below(r, p), path)
    requires Below(r, p) == [] || path == [] || Below(r, p)[0].ConsumesRest()
    ensures !PassesWild(r, q)
  {
    SpineEdges(Segs(r));
  }

  lemma ConsMiddle(c: char, x: string, y: string)
    ensures [c] + (x + ['/'] + y) == [c] + x + ['/'] + y
  {}

  /** `url.PathUnescape` works slash by slash. */
  lemma {:induction false} UnescapeConcat(a: string, t: string)
    ensures var x, y := PathUnescape(a), PathUnescape(t);
      PathUnescape(a + ['/'] + t) == if x.Some? && y.Some? then Some(x.value + ['/'] + y.value) else None
  {
    var s := a + ['/'] + t;
    if a == "" {
      assert s[1..] == t;
      assert forall y: string :: "" + ['/'] + y == ['/'] + y;
    } else {
      var k := if a[0] == '%' then 3 else 1;
      if |a| >= k {
        assert s[k..] == a[k..] + ['/'] + t;
        UnescapeConcat(a[k..], t);
        assert k == 3 ==> s[1] == a[1] && s[2] == a[2];
        if PathUnescape(a).Some? && PathUnescape(t).Some? {
          ConsMiddle(PathUnescape(a).value[0], PathUnescape(a[k..]).value, PathUnescape(t).value);
        }
      }
    }
  }

  predicate AllUnescape(path: seq<string>) { forall i :: 0 <= i < |path| ==> PathUnescape(path[i]).Some? }

  lemma {:induction false} UnescapeJoin(path: seq<string>)
    requires path != []
    ensures PathUnescape(Join(path, '/')) == if AllUnescape(path) then Some(Join(DecodeAll(path), '/')) else None
  {
    if |path| == 1 {
      assert DecodeAll(path) == [Decode(path[0])];
    } else {
      UnescapeJoin(path[1..]);
      UnescapeConcat(path[0], Join(path[1..], '/'));
      assert DecodeAll(path)[1..] == DecodeAll(path[1..]);
      assert AllUnescape(path) <==> PathUnescape(path[0]).Some? && AllUnescape(path[1..]) by {
        if PathUnescape(path[0]).Some? && AllUnescape(path[1..]) {
          forall i | 0 <= i < |path| ensures PathUnescape(path[i]).Some? {
            if i > 0 { assert path[1..][i - 1] == path[i]; }
          }
        }
      }
    }
  }

  lemma SplitJoinExactly(parts: seq<string>)
    requires parts != []
    ensures Split(Join(parts, '/'), '/') == parts <==> SlashFree(parts)
  {
    if SlashFree(parts) { SplitJoin(parts, '/'); }
  }

  /** Every segment unescapes, none to a text with a slash; or some segment is
      malformed and no other one changes. */
  predicate UnescapesAlike(path: seq<string>) {
    if AllUnescape(path) then forall i :: 0 <= i < |path| ==> '/' !in Decode(path[i])
    else forall i :: 0 <= i < |path| ==> Decode(path[i]) == path[i]
  }

  /** The trie splits a catch-all and then unescapes, the reference matcher
      unescapes and then splits: they agree exactly when UnescapesAlike. */
  lemma CatchAllValuesAgree(path: seq<string>)
    requires path != [] && SlashFree(path)
    ensures Split(Decode(Join(path, '/')), '/') == DecodeAll(path) <==> UnescapesAlike(path)
  {
    UnescapeJoin(path);
    DecodeAllSlashes(path);
    if AllUnescape(path) {
      SplitJoinExactly(DecodeAll(path));
    } else {
      SplitJoin(path, '/');
    }
  }

  lemma DecodeAllSlashes(path: seq<string>)
    ensures SlashFree(DecodeAll(path)) <==> forall i :: 0 <= i < |path| ==> '/' !in Decode(path[i])
    ensures DecodeAll(path) == path <==> forall i :: 0 <= i < |path| ==> Decode(path[i]) == path[i]
  {
    var ds := DecodeAll(path);
    assert forall i :: 0 <= i < |path| ==> ds[i] == Decode(path[i]);
  }

  predicate RestUnescapesAlike(segs: seq<Segment>, path: seq<string>) {
    if segs == [] || path == [] then true
    else if segs[0].ConsumesRest() then UnescapesAlike(path)
    else RestUnescapesAlike(segs[1..], path[1..])
  }

  /** The reference matcher reads the same values off its capture groups. */
  lemma {:induction false} ReferenceBindings(segs: seq<Segment>, path: seq<string>)
    requires WellFormed(segs) && SegMatches(segs, path) && RestUnescapesAlike(segs, path)
    requires SlashFree(path) && "" !in path
    ensures |SegCaptures(segs, path)| == |Params(segs)|
    ensures RefBindings(Names(Params(segs)), Kinds(Params(segs)), SegCaptures(segs, path)) == OwnBindings(segs, path)
    decreases |segs|
  {
    if segs != [] {
      WellFormedTail(segs);
      if segs[0].ConsumesRest() {
        ReferenceRest(segs[0], path);
        assert segs == [segs[0]] && Params(segs) == [segs[0]];
      } else {
        assert SlashFree(path[1..]);
        ReferenceBindings(segs[1..], path[1..]);
        if segs[0].kind.Dynamic? { ParamsCons(segs); }
      }
    }
  }

  lemma ParamsCons(segs: seq<Segment>)
    requires segs != [] && !segs[0].kind.Static?
    ensures Params(segs) == [segs[0]] + Params(segs[1..])
    ensures Names(Params(segs))[0] == segs[0].value && Names(Params(segs))[1..] == Names(Params(segs[1..]))
    ensures Kinds(Params(segs))[0] == segs[0].kind && Kinds(Params(segs))[1..] == Kinds(Params(segs[1..]))
  {}

  lemma ReferenceRest(seg: Segment, path: seq<string>)
    requires seg.ConsumesRest() && SlashFree(path) && "" !in path && UnescapesAlike(path)
    requires seg.kind.CatchAll? ==> path != []
    ensures RefBindings([seg.value], [seg.kind], [Join(path, '/')]) == OwnBindings([seg], path)
  {
    if path != [] {
      CatchAllValuesAgree(path);
      JoinNotEmpty(path);
    }
  }

  lemma ParametersAgree(r: CompiledRoute, s: string)
    requires r == Compile(r.pattern) && PlainPath(s) && (s == "/" ==> RootSafe(r))
    requires SegMatches(Segs(r), SplitSegments(s)) && RestUnescapesAlike(Segs(r), SplitSegments(s))
    ensures |r.paramNames| == |r.paramKinds|
    ensures RefMatch(r, s) == Some(Bind(map[], OwnBindings(Segs(r), SplitSegments(s))))
  {
    PlainSegments(s);
    PlainAccepts(Segs(r), SplitSegments(s));
    RequestAccepts(r, s);
    ParseWellFormed(r.pattern);
    ReferenceBindings(Segs(r), SplitSegments(s));
  }

  /** On plain paths the trie and the reference matcher tell the same story:
      the trie misses exactly when every route's expression misses, and on a hit,
      under coherent naming, the parameters are those of the returned route. */
  lemma TrieAgreesWithReference(routes: seq<CompiledRoute>, s: string)
    requires Canonical(routes) && PlainPath(s)
    requires s == "/" ==> forall r :: r in routes ==> RootSafe(r)
    ensures Lookup(routes, s).Some? <==> exists r :: r in routes && Captures(r.re, s).Some?
    ensures Lookup(routes, s).Some? ==>
      var f := Lookup(routes, s).value;
      && SegMatches(Segs(f.route), SplitSegments(s)) && f.route in routes
      && |f.route.paramNames| == |f.route.paramKinds|
      && (Coherent(routes) && RestUnescapesAlike(Segs(f.route), SplitSegments(s)) ==>
            RefMatch(f.route, s) == Some(Bind(map[], f.bindings)))
  {
    PlainSegments(s);
    var path := SplitSegments(s);
    LookupIsBest(routes, s);
    forall r | r in routes ensures Captures(r.re, s).Some? <==> SegMatches(Segs(r), path) {
      PlainAccepts(Segs(r), path);
      RequestAccepts(r, s);
    }
    if Lookup(routes, s).Some? {
      var r := Lookup(routes, s).value.route;
      if Coherent(routes) && RestUnescapesAlike(Segs(r), path) {
        HitBindings(routes, s);
        var rs := SortedRoutes(routes);
        SortedKeepsRoutes(routes);
        CoherentNaming(rs, r);
        BindingsFollowNames(rs, r, [], path);
        ParametersAgree(r, s);
      }
    }
  }

  lemma HitBindings(routes: seq<CompiledRoute>, s: string)
    requires Lookup(routes, s).Some?
    ensures var f, rs, path := Lookup(routes, s).value, SortedRoutes(routes), SplitSegments(NormalizePath(s));
      && MatchesBelow(rs, f.route, [], path) && Below(f.route, []) == Segs(f.route)
      && f.bindings == PathBindings(rs, [], Segs(f.route), path)
  {
    SearchBindings(SortedRoutes(routes), [], SplitSegments(NormalizePath(s)));
    assert Below(Lookup(routes, s).value.route, []) == Segs(Lookup(routes, s).value.route);
  }

  // ------------------------------------ exactly when the parameters agree

  ghost predicate DistinctNames(bs: seq<Binding>) {
    forall i, j :: 0 <= i < j < |bs| ==> bs[i].name != bs[j].name
  }

  ghost predicate DistinctValues(bs: seq<Binding>) {
    forall i, j :: 0 <= i < j < |bs| ==> bs[i].value != bs[j].value
  }

  lemma {:induction false} BindDomain(m: map<string, Value>, bs: seq<Binding>, k: string)
    ensures k in Bind(m, bs) ==>
      || (k in m && m[k] == Bind(m, bs)[k])
      || exists i :: 0 <= i < |bs| && bs[i] == Binding(k, Bind(m, bs)[k])
    ensures (k in m || exists i :: 0 <= i < |bs| && bs[i].name == k) ==> k in Bind(m, bs)
    decreases bs
  {
    if bs != [] {
      var m' := m[bs[0].name := bs[0].value];
      BindDomain(m', bs[1..], k);
      if k in Bind(m, bs) && !(k in m' && m'[k] == Bind(m, bs)[k]) {
        var i :| 0 <= i < |bs[1..]| && bs[1..][i] == Binding(k, Bind(m, bs)[k]);
        assert bs[i + 1] == Binding(k, Bind(m, bs)[k]);
      }
      if i :| 0 <= i < |bs| && bs[i].name == k {
        if i > 0 { assert bs[1..][i - 1].name == k; }
      }
    }
  }

  /** Bindings with distinct names are all visible in the map. */
  lemma BindVisible(bs: seq<Binding>, i: nat)
    requires i < |bs| && DistinctNames(bs)
    ensures bs[i].name in Bind(map[], bs) && Bind(map[], bs)[bs[i].name] == bs[i].value
  {
    BindDomain(map[], bs, bs[i].name);
  }

  /** Same distinct values, distinct names on one side: equal maps mean equal names. */
  lemma BindDetermines(xs: seq<Binding>, ys: seq<Binding>)
    requires |xs| == |ys| && DistinctNames(ys) && DistinctValues(ys)
    requires forall i :: 0 <= i < |xs| ==> xs[i].value == ys[i].value
    ensures Bind(map[], xs) == Bind(map[], ys) <==> xs == ys
  {
    if Bind(map[], xs) == Bind(map[], ys) {
      forall i | 0 <= i < |xs| ensures xs[i] == ys[i] {
        BindVisible(ys, i);
        BindDomain(map[], xs, ys[i].name);
      }
    }
  }

  lemma {:induction false} SameValues(rs: seq<CompiledRoute>, p: seq<Step>, segs: seq<Segment>, path: seq<string>)
    requires SegMatches(segs, path)
    ensures var xs, ys := PathBindings(rs, p, segs, path), OwnBindings(segs, path);
      |xs| == |ys| && forall i :: 0 <= i < |xs| ==> xs[i].value == ys[i].value
    decreases |path|
  {
    if segs != [] && path != [] {
      if segs[0].kind.Static? { SameValues(rs, p + [Text(path[0])], segs[1..], path[1..]); }
      if segs[0].kind.Dynamic? { SameValues(rs, p + [Wild], segs[1..], path[1..]); }
    }
  }

  /** For a hit whose route names its parameters apart and captures pairwise
      different values, the trie's parameters are the reference matcher's
      exactly when the trie names the route's wildcards as the route does. */
  lemma ParametersAgreeExactly(routes: seq<CompiledRoute>, s: string)
    requires Canonical(routes) && PlainPath(s) && Lookup(routes, s).Some?
    requires var r := Lookup(routes, s).value.route;
      && (s == "/" ==> RootSafe(r))
      && SegMatches(Segs(r), SplitSegments(s)) && RestUnescapesAlike(Segs(r), SplitSegments(s))
      && DistinctNames(OwnBindings(Segs(r), SplitSegments(s))) && DistinctValues(OwnBindings(Segs(r), SplitSegments(s)))
    ensures var f := Lookup(routes, s).value;
      && |f.route.paramNames| == |f.route.paramKinds|
      && (RefMatch(f.route, s) == Some(Bind(map[], f.bindings)) <==> NamedAsOwn(SortedRoutes(routes), f.route))
  {
    PlainSegments(s);
    var f, rs, path := Lookup(routes, s).value, SortedRoutes(routes), SplitSegments(s);
    SortedKeepsRoutes(routes);
    HitBindings(routes, s);
    ParametersAgree(f.route, s);
    BindingsFollowNames(rs, f.route, [], path);
    SameValues(rs, [], Segs(f.route), path);
    BindDetermines(f.bindings, OwnBindings(Segs(f.route), path));
  }

  // ------------------------------------------------------- witnesses

  /** Two routes that name the shared wildcard differently: the request gets
      the value under the other route's name. */
  lemma NamingCanDisagree()
    ensures var a, b := Compile("/:a/x"), Compile("/:b/y");
      Lookup([a, b], "/1/y") == Some(Found(b, [Binding("a", Single("1"))]))
  {
    WitnessPatterns();
    WitnessPath();
    WitnessHit(Compile("/:a/x"), Compile("/:b/y"), "/1/y");
  }

  lemma WitnessPath()
    ensures SplitSegments(NormalizePath("/1/y")) == ["1", "y"]
  {
    assert "/1/y"[1..] == "1" + ['/'] + "y";
    SplitFirst("1", "y", '/');
    SplitWithout("y", '/');
  }

  lemma WitnessHit(a: CompiledRoute, b: CompiledRoute, s: string)
    requires a == Compile("/:a/x") && b == Compile("/:b/y")
    requires Segs(a) == [Segment(Dynamic, "a"), Segment(Static, "x")]
    requires Segs(b) == [Segment(Dynamic, "b"), Segment(Static, "y")]
    requires SplitSegments(NormalizePath(s)) == ["1", "y"]
    ensures Lookup([a, b], s) == Some(Found(b, [Binding("a", Single("1"))]))
  {
    WitnessMatches(Segs(a), Segs(b));
    WitnessName(a, b);
    assert Canonical([a, b]);
    assert PathBindings(SortedRoutes([a, b]), [], Segs(b), ["1", "y"]) == [Binding("a", Single("1"))];
    hide *;
    OnlyHit(a, b, s, ["1", "y"], "a", Single("1"));
  }

  /** Of two routes the one that matches answers, its wildcard named as the table names it. */
  lemma OnlyHit(a: CompiledRoute, b: CompiledRoute, s: string, path: seq<string>, name: string, v: Value)
    requires Canonical([a, b]) && WildName(SortedRoutes([a, b]), []) == name
    requires path == SplitSegments(NormalizePath(s)) && !SegMatches(Segs(a), path) && SegMatches(Segs(b), path)
    requires PathBindings(SortedRoutes([a, b]), [], Segs(b), path) == [Binding(name, v)]
    ensures Lookup([a, b], s) == Some(Found(b, [Binding(name, v)]))
  {
    hide Canonical, WildName, SortedRoutes, SplitSegments, NormalizePath, SegMatches, PathBindings, Segs, Lookup;
    LookupIsBest([a, b], s);
    assert b in [a, b];
    HitBindings([a, b], s);
  }

  lemma WitnessPatterns()
    ensures Parse("/:a/x") == [Segment(Dynamic, "a"), Segment(Static, "x")]
    ensures Parse("/:b/y") == [Segment(Dynamic, "b"), Segment(Static, "y")]
  {
    assert "/:a/x" == "/" + ":a" + "/" + "x" && "/:b/y" == "/" + ":b" + "/" + "y";
    ParseTwo(":a", "x");
    ParseTwo(":b", "y");
  }

  lemma WitnessMatches(a: seq<Segment>, b: seq<Segment>)
    requires a == [Segment(Dynamic, "a"), Segment(Static, "x")]
    requires b == [Segment(Dynamic, "b"), Segment(Static, "y")]
    ensures !SegMatches(a, ["1", "y"]) && SegMatches(b, ["1", "y"])
    ensures forall rs :: PathBindings(rs, [], b, ["1", "y"]) == [Binding(WildName(rs, []), Single("1"))]
  {
    var path := ["1", "y"];
    assert path[1..] == ["y"] && path[1..][1..] == [];
    assert a[1..] == [Segment(Static, "x")] && b[1..] == [Segment(Static, "y")];
    assert b[1..][1..] == [];
    DecodeIdentity("1");
    forall rs ensures PathBindings(rs, [], b, path) == [Binding(WildName(rs, []), Single("1"))] {
      assert PathBindings(rs, [Wild] + [Text("y")], [], []) == [];
      assert [] + [Wild] == [Wild];
      assert PathBindings(rs, [Wild], b[1..], path[1..]) == [];
    }
  }

  lemma WitnessOrder(a: CompiledRoute, b: CompiledRoute)
    requires a.pattern == "/:a/x" && b.pattern == "/:b/y" && a.segments == b.segments
    ensures !RouteLess(b, a)
  {
    MoreSpecificTotal(a.segments, b.segments);
    assert Less(a.pattern, b.pattern);
    LessTotal(a.pattern, b.pattern);
  }

  lemma TwoInOrder(a: CompiledRoute, b: CompiledRoute)
    requires !RouteLess(b, a)
    ensures SortedRoutes([a, b]) == [a, b]
  {
    assert [a, b][..1] == [a] && [a][..0] == [];
    assert SortedRoutes([a]) == [a];
  }

  lemma WitnessName(a: CompiledRoute, b: CompiledRoute)
    requires a == Compile("/:a/x") && b == Compile("/:b/y")
    requires Segs(a) == [Segment(Dynamic, "a"), Segment(Static, "x")]
    requires Segs(b) == [Segment(Dynamic, "b"), Segment(Static, "y")]
    ensures WildName(SortedRoutes([a, b]), []) == "a"
  {
    assert Kinds(Segs(a)) == Kinds(Segs(b));
    WitnessOrder(a, b);
    TwoInOrder(a, b);
    SpineEdges(Segs(a));
    assert Spine(a)[0] == Wild && PassesWild(a, []);
  }

  lemma ParseTwo(a: string, b: string)
    requires '/' !in a && '/' !in b && a != "" && !ParsePart(a).ConsumesRest() && !ParsePart(b).ConsumesRest()
    ensures Parse("/" + a + "/" + b) == [ParsePart(a), ParsePart(b)]
  {
    var s := "/" + a + "/" + b;
    assert s == "" + ['/'] + (a + ['/'] + b);
    SplitFirst("", a + ['/'] + b, '/');
    SplitFirst(a, b, '/');
    SplitWithout(b, '/');
    assert Split(s, '/')[1..] == [a, b];
    assert |s| > 1;
    ParsePair(a, b);
  }

  lemma ParsePair(a: string, b: string)
    requires !ParsePart(a).ConsumesRest() && !ParsePart(b).ConsumesRest()
    ensures ParseParts([a, b]) == [ParsePart(a), ParsePart(b)]
  {
    assert [a, b][1..] == [b] && [b][1..] == [];
    assert ParseParts([b]) == [ParsePart(b)] + [];
  }
}
