/** Over all the paths a route answers: when the trie and the reference matcher
    agree on its parameters, and inputs on which the two matchers part. */
module RouteNaming {
  import opened Strings
  import opened PatternMatch
  import opened Specificity
  import opened RouteSearch
  import opened Radix
  import opened RouteTheorems

  // ------------------------------------------------ the same route, fresh values

  /** Texts that no pattern spells, one for each number. */
  function Fresh(n: nat): (text: string)
    ensures |text| == n + 1 && (forall c :: c in text ==> c == 'x')
  {
    seq(n + 1, i => 'x')
  }

  function AllFresh(n: nat, count: nat): (texts: seq<string>)
    ensures |texts| == count
  {
    seq(count, i => Fresh(n))
  }

  /** The path with fresh texts where the segments leave the choice. */
  function Refreshed(segs: seq<Segment>, path: seq<string>, n: nat): (renewed: seq<string>)
    requires SegMatches(segs, path)
    ensures |renewed| == |path|
  {
    if segs == [] || path == [] then []
    else if segs[0].ConsumesRest() then AllFresh(n, |path|)
    else if segs[0].kind.Dynamic? then [Fresh(n)] + Refreshed(segs[1..], path[1..], n + 1)
    else [path[0]] + Refreshed(segs[1..], path[1..], n)
  }

  /** No literal of the segments is longer than n. */
  ghost predicate Short(segs: seq<Segment>, n: nat) {
    forall i :: 0 <= i < |segs| && segs[i].kind.Static? ==> |segs[i].value| <= n
  }

  lemma {:induction false} ShortFrom(segs: seq<Segment>) returns (n: nat)
    ensures Short(segs, n)
  {
    if segs == [] {
      n := 0;
    } else {
      n := ShortFrom(segs[1..]);
      n := n + |segs[0].value|;
      assert forall i :: 1 <= i < |segs| ==> segs[i] == segs[1..][i - 1];
    }
  }

  lemma {:induction false} AllShort(rs: seq<CompiledRoute>) returns (n: nat)
    ensures forall r :: r in rs ==> Short(Segs(r), n)
  {
    if rs == [] {
      n := 0;
    } else {
      var a := ShortFrom(Segs(rs[0]));
      var b := AllShort(rs[1..]);
      n := a + b;
    }
  }

  lemma {:induction false} StillMatches(segs: seq<Segment>, path: seq<string>, n: nat)
    requires SegMatches(segs, path)
    ensures SegMatches(segs, Refreshed(segs, path, n))
    decreases |segs|
  {
    if segs != [] && path != [] && !segs[0].ConsumesRest() {
      var m := if segs[0].kind.Dynamic? then n + 1 else n;
      StillMatches(segs[1..], path[1..], m);
      assert Refreshed(segs, path, n)[1..] == Refreshed(segs[1..], path[1..], m);
    }
  }

  /** Whatever matches the fresh path matched the old one. */
  lemma {:induction false} MatchedBefore(other: seq<Segment>, segs: seq<Segment>, path: seq<string>, n: nat)
    requires SegMatches(segs, path) && Short(other, n) && SegMatches(other, Refreshed(segs, path, n))
    ensures SegMatches(other, path)
    decreases |path|
  {
    if other != [] && !other[0].ConsumesRest() {
      var renewed := Refreshed(segs, path, n);
      assert Short(other[1..], n) && Short(other[1..], n + 1) by {
        assert forall i :: 0 <= i < |other| - 1 ==> other[1..][i] == other[i + 1];
      }
      if segs[0].ConsumesRest() {
        MatchedByRest(other, path, n);
      } else {
        var m := if segs[0].kind.Dynamic? then n + 1 else n;
        assert renewed[1..] == Refreshed(segs[1..], path[1..], m);
        MatchedBefore(other[1..], segs[1..], path[1..], m);
      }
    }
  }

  lemma {:induction false} MatchedByRest(other: seq<Segment>, path: seq<string>, n: nat)
    requires Short(other, n) && SegMatches(other, AllFresh(n, |path|))
    ensures SegMatches(other, path)
    decreases |path|
  {
    if other != [] && !other[0].ConsumesRest() {
      assert AllFresh(n, |path|)[1..] == AllFresh(n, |path[1..]|) && AllFresh(n, |path|)[0] == Fresh(n);
      assert Short(other[1..], n) by {
        assert forall i :: 0 <= i < |other| - 1 ==> other[1..][i] == other[i + 1];
      }
      MatchedByRest(other[1..], path[1..], n);
    }
  }

  /** So the route that answered still does. */
  lemma StillBest(rs: seq<CompiledRoute>, path: seq<string>, r: CompiledRoute, n: nat)
    requires IsBest(rs, path, r) && forall r' :: r' in rs ==> Short(Segs(r'), n)
    ensures IsBest(rs, Refreshed(Segs(r), path, n), r)
  {
    var renewed := Refreshed(Segs(r), path, n);
    StillMatches(Segs(r), path, n);
    forall r' | r' in rs && SegMatches(Segs(r'), renewed) ensures r' == r || Better(r, r') {
      MatchedBefore(Segs(r'), Segs(r), path, n);
    }
  }

  // ------------------------------------------------------ the values are distinct

  ghost predicate Plain(path: seq<string>) {
    SlashFree(path) && "" !in path && AllWithout(path, '\n')
  }

  lemma {:induction false} RefreshedPlain(segs: seq<Segment>, path: seq<string>, n: nat)
    requires SegMatches(segs, path) && Plain(path)
    ensures Plain(Refreshed(segs, path, n))
    decreases |segs|
  {
    if segs != [] && path != [] && !segs[0].ConsumesRest() {
      assert Plain(path[1..]);
      RefreshedPlain(segs[1..], path[1..], if segs[0].kind.Dynamic? then n + 1 else n);
    }
  }

  lemma FreshDecodes(n: nat)
    ensures Decode(Fresh(n)) == Fresh(n) && PathUnescape(Fresh(n)) == Some(Fresh(n))
  {
    DecodeIdentity(Fresh(n));
  }

  lemma {:induction false} RefreshedUnescapes(segs: seq<Segment>, path: seq<string>, n: nat)
    requires SegMatches(segs, path) && SegMatches(segs, Refreshed(segs, path, n))
    ensures RestUnescapesAlike(segs, Refreshed(segs, path, n))
    decreases |segs|
  {
    if segs != [] && path != [] {
      var renewed := Refreshed(segs, path, n);
      if segs[0].ConsumesRest() {
        FreshDecodes(n);
        assert forall i :: 0 <= i < |path| ==> renewed[i] == Fresh(n);
      } else {
        var m := if segs[0].kind.Dynamic? then n + 1 else n;
        assert renewed[1..] == Refreshed(segs[1..], path[1..], m);
        RefreshedUnescapes(segs[1..], path[1..], m);
      }
    }
  }

  /** A list of texts, or one text of more than n characters. */
  predicate LongerThan(v: Value, n: nat) { v.Single? ==> |v.text| > n }

  lemma {:induction false} RefreshedApart(segs: seq<Segment>, path: seq<string>, n: nat)
    requires SegMatches(segs, path) && SegMatches(segs, Refreshed(segs, path, n)) && WellFormed(segs)
    ensures var bs := OwnBindings(segs, Refreshed(segs, path, n));
      DistinctValues(bs) && forall i :: 0 <= i < |bs| ==> LongerThan(bs[i].value, n)
    decreases |segs|
  {
    if segs != [] && path != [] && !segs[0].ConsumesRest() {
      WellFormedTail(segs);
      var m := if segs[0].kind.Dynamic? then n + 1 else n;
      var renewed := Refreshed(segs, path, n);
      assert renewed[1..] == Refreshed(segs[1..], path[1..], m);
      RefreshedApart(segs[1..], path[1..], m);
      FreshDecodes(n);
    }
  }

  /** The route names its parameters apart. */
  ghost predicate DistinctParams(segs: seq<Segment>) {
    var names := Names(Params(segs));
    forall i, j :: 0 <= i < j < |names| ==> names[i] != names[j]
  }

  lemma {:induction false} OwnNames(segs: seq<Segment>, path: seq<string>)
    requires SegMatches(segs, path)
    ensures |OwnBindings(segs, path)| <= |Params(segs)|
    ensures forall i :: 0 <= i < |OwnBindings(segs, path)| ==> OwnBindings(segs, path)[i].name == Names(Params(segs))[i]
    decreases |segs|
  {
    if segs != [] && path != [] {
      if !segs[0].kind.Static? { ParamsCons(segs); }
      if !segs[0].ConsumesRest() { OwnNames(segs[1..], path[1..]); }
    }
  }

  // ------------------------------------------------------------- the theorem

  lemma RenderedPlain(path: seq<string>)
    requires path != [] && Plain(path)
    ensures PlainPath(Render(path)) && Render(path) != "/" && SplitSegments(Render(path)) == path
    ensures NormalizePath(Render(path)) == Render(path)
  {
    var s := Render(path);
    RenderJoin(path);
    assert path[|path| - 1] in path;
    JoinNotEmpty(path);
    assert s[1..] == Join(path, '/') && s[|s| - 1] == Join(path, '/')[|Join(path, '/')| - 1];
    assert path[|path| - 1][|path[|path| - 1]| - 1] != '/';
    SplitJoin(path, '/');
    JoinWithout(path, '\n');
  }

  /** The route that the table answers s with. */
  ghost predicate Answers(routes: seq<CompiledRoute>, s: string, r: CompiledRoute) {
    PlainPath(s) && Lookup(routes, s).Some? && Lookup(routes, s).value.route == r
  }

  /** The two matchers give the same parameters for r on s. */
  ghost predicate SameParameters(routes: seq<CompiledRoute>, s: string, r: CompiledRoute)
    requires Answers(routes, s, r) && |r.paramNames| == |r.paramKinds|
  {
    RefMatch(r, s) == Some(Bind(map[], Lookup(routes, s).value.bindings))
  }

  /** r is compared fairly on s: at the root it has no empty literal in front, and
      what a catch-all takes unescapes alike. */
  ghost predicate Fair(s: string, r: CompiledRoute) {
    (s == "/" ==> RootSafe(r)) && RestUnescapesAlike(Segs(r), SplitSegments(s))
  }

  ghost predicate AlwaysSame(routes: seq<CompiledRoute>, r: CompiledRoute)
    requires |r.paramNames| == |r.paramKinds|
  {
    forall s :: Answers(routes, s, r) && Fair(s, r) ==> SameParameters(routes, s, r)
  }

  lemma AnswerMatches(routes: seq<CompiledRoute>, s: string, r: CompiledRoute)
    requires Canonical(routes) && Answers(routes, s, r)
    ensures r in routes && NormalizePath(s) == s && Plain(SplitSegments(s)) && IsBest(routes, SplitSegments(s), r)
    ensures SegMatches(Segs(r), SplitSegments(s))
  {
    PlainSegments(s);
    LookupIsBest(routes, s);
  }

  lemma NamedAgrees(routes: seq<CompiledRoute>, s: string, r: CompiledRoute)
    requires Canonical(routes) && Answers(routes, s, r) && Fair(s, r) && NamedAsOwn(SortedRoutes(routes), r)
    ensures |r.paramNames| == |r.paramKinds| && SameParameters(routes, s, r)
  {
    AnswerMatches(routes, s, r);
    HitBindings(routes, s);
    BindingsFollowNames(SortedRoutes(routes), r, [], SplitSegments(s));
    ParametersAgree(r, s);
  }

  /** A path with fresh values that r answers too. */
  lemma FreshPath(routes: seq<CompiledRoute>, s: string, r: CompiledRoute) returns (renewed: string)
    requires Canonical(routes) && Answers(routes, s, r) && SplitSegments(s) != [] && DistinctParams(Segs(r))
    ensures Answers(routes, renewed, r) && Fair(renewed, r) && SegMatches(Segs(r), SplitSegments(renewed))
    ensures DistinctNames(OwnBindings(Segs(r), SplitSegments(renewed)))
    ensures DistinctValues(OwnBindings(Segs(r), SplitSegments(renewed)))
  {
    AnswerMatches(routes, s, r);
    var segs, path := Segs(r), SplitSegments(s);
    var n := AllShort(routes);
    var refreshed := Refreshed(segs, path, n);
    renewed := Render(refreshed);
    hide Refreshed, Render, Lookup, Short, IsBest, Compile, SegMatches, RestUnescapesAlike, OwnBindings;
    StillMatches(segs, path, n);
    RefreshedPlain(segs, path, n);
    RenderedPlain(refreshed);
    StillBest(routes, path, r, n);
    BestAnswers(routes, renewed, r);
    RefreshedUnescapes(segs, path, n);
    ParseWellFormed(r.pattern);
    RefreshedApart(segs, path, n);
    OwnNames(segs, refreshed);
  }

  lemma BestAnswers(routes: seq<CompiledRoute>, s: string, r: CompiledRoute)
    requires Canonical(routes) && PlainPath(s) && NormalizePath(s) == s && IsBest(routes, SplitSegments(s), r)
    ensures Answers(routes, s, r)
  {
    hide Lookup, SplitSegments;
    LookupIsBest(routes, s);
    BestIsUnique(routes, SplitSegments(s), r, Lookup(routes, s).value.route);
  }

  /** A route that answers some path and names its parameters apart gets its own
      parameters on every path it answers if and only if the trie names the
      wildcards on its way as the route does. */
  lemma NamesDecide(routes: seq<CompiledRoute>, r: CompiledRoute, s: string)
    requires Canonical(routes) && Answers(routes, s, r) && DistinctParams(Segs(r))
    ensures |r.paramNames| == |r.paramKinds|
    ensures AlwaysSame(routes, r) <==> NamedAsOwn(SortedRoutes(routes), r)
  {
    AnswerMatches(routes, s, r);
    CompiledCaptures(r, s);
    if NamedAsOwn(SortedRoutes(routes), r) {
      forall t | Answers(routes, t, r) && Fair(t, r) ensures SameParameters(routes, t, r) { NamedAgrees(routes, t, r); }
    }
    if AlwaysSame(routes, r) {
      if SplitSegments(s) == [] {
        NoWildAtRoot(SortedRoutes(routes), r);
      } else {
        var renewed := FreshPath(routes, s, r);
        hide Lookup, OwnBindings, SegMatches, RestUnescapesAlike, NamedAsOwn;
        ParametersAgreeExactly(routes, renewed);
      }
    }
  }

  lemma NoWildAtRoot(rs: seq<CompiledRoute>, r: CompiledRoute)
    requires SegMatches(Segs(r), [])
    ensures NamedAsOwn(rs, r)
  {
    assert Spine(r) == [];
  }

  // --------------------------------------------------- where the matchers part

  lemma ParseOne(a: string)
    requires '/' !in a && a != "" && !ParsePart(a).ConsumesRest()
    ensures Parse("/" + a) == [ParsePart(a)]
  {
    assert "/" + a == "" + ['/'] + a;
    SplitFirst("", a, '/');
    SplitWithout(a, '/');
    assert Split("/" + a, '/')[1..] == [a] && [a][1..] == [];
    assert ParseParts([a]) == [ParsePart(a)] + [];
  }

  /** The expression of `/a` puts up with one more slash than the trie: the request
      `/a//` is normalised to `/a/`, which the expression accepts. */
  lemma SlashForExpressionOnly(a: CompiledRoute)
    requires a == Compile("/a")
    ensures NormalizePath("/a//") == "/a/"
    ensures Lookup([a], "/a//") == None && Captures(a.re, "/a/") == Some([])
  {
    ParseOne("a");
    assert "/" + "a" == "/a";
    assert Segs(a) == [Segment(Static, "a")];
    var s := "/a/";
    assert s[1..] == "a" + ['/'] + "";
    SplitFirst("a", "", '/');
    var path := ["a", ""];
    assert SplitSegments(s) == path && path[1..] == [""] && path[1..][1..] == [] && Init(path) == ["a"];
    assert "/a//"[..3] == s;
    LookupIsBest([a], "/a//");
    ReferenceAccepts(a, s);
    assert !SegMatches(Segs(a), path) && RefAccepts(Segs(a), ["a"]);
  }

  lemma EmptyFirstSegment()
    ensures Split("//x"[1..], '/') == ["", "x"] && SplitSegments("//x") == ["", "x"] && NormalizePath("//x") == "//x"
  {
    assert "//x"[1..] == "" + ['/'] + "x";
    SplitFirst("", "x", '/');
    SplitWithout("x", '/');
  }

  /** The trie fills a parameter with an empty segment, the expression refuses it. */
  lemma EmptyForTrieOnly(a: CompiledRoute)
    requires a == Compile("/:a/x")
    ensures Lookup([a], "//x").Some? && Captures(a.re, "//x") == None
  {
    WitnessPatterns();
    EmptyFirstSegment();
    assert Segs(a) == [Segment(Dynamic, "a"), Segment(Static, "x")];
    hide Compile, Segs, Parse, Captures, Split, SplitSegments, NormalizePath, Lookup;
    var path := ["", "x"];
    assert path[1..] == ["x"] && path[1..][1..] == [];
    assert a in [a] && SegMatches(Segs(a), path);
    assert !RefAccepts(Segs(a), path);
    hide *;
    LookupIsBest([a], "//x");
    ReferenceAccepts(a, "//x");
    NeitherAccepts(Segs(a), path);
  }

  /** Without a final slash to drop, what the segments refuse is refused. */
  lemma NeitherAccepts(segs: seq<Segment>, path: seq<string>)
    requires !RefAccepts(segs, path) && !EndsOpen(path)
    ensures Accepted(segs, path) == None
  {}
}
