/** URL patterns derived from package paths: routes/pathconv.go, splitActions and
    the derivation passes of Discover in routes/spec.go, and relativePackagePath
    in routes/routes.go. */
module RoutePattern {
  import opened Strings

  // ------------------------------------------------------------- the derivation

  function After(parts: seq<string>): (rest: seq<string>)
    ensures forall p :: p in rest ==> p in parts
  {
    if parts == [] then [] else if parts[0] == "routes" then parts[1..] else After(parts[1..])
  }

  /** The directories below the first `routes` segment; none when there is no such segment. */
  function Below(pkgPath: string): seq<string> { After(Split(pkgPath, '/')) }

  /** `relativePackagePath`, as a value. */
  function Relative(pkgPath: string): string { Join(Below(pkgPath), '/') }

  predicate Suffix(s: string, suffix: string) { |suffix| <= |s| && s[|s| - |suffix|..] == suffix }

  function Singularize(s: string): (r: string)
    ensures '/' !in s ==> '/' !in r
  {
    if Suffix(s, "ies") && |s| > 3 then s[..|s| - 3] + "y"
    else if Suffix(s, "ses") || Suffix(s, "xes") || Suffix(s, "zes") || Suffix(s, "ches") || Suffix(s, "shes")
    then s[..|s| - 2]
    else if Suffix(s, "s") && !Suffix(s, "ss") then s[..|s| - 1]
    else s
  }

  /** Whether a parameter goes in front of segment i. */
  predicate Member(segments: seq<string>, i: nat, registered: set<string>, override: Option<bool>)
    requires i < |segments|
  {
    i > 0 &&
    if i == |segments| - 1 && override.Some? then override.value else Join(segments[..i], '/') in registered
  }

  function Param(segments: seq<string>, i: nat): string
    requires 0 < i < |segments|
  {
    ":" + if i == 1 then "id" else Singularize(segments[i - 1]) + "_id"
  }

  /** The pattern's segments for the first n directories. */
  function Parts(segments: seq<string>, n: nat, registered: set<string>, override: Option<bool>): seq<string>
    requires n <= |segments|
  {
    if n == 0 then []
    else
      Parts(segments, n - 1, registered, override)
      + (if Member(segments, n - 1, registered, override) then [Param(segments, n - 1)] else [])
      + [segments[n - 1]]
  }

  function Pattern(segments: seq<string>, registered: set<string>, override: Option<bool>): string {
    "/" + Join(Parts(segments, |segments|, registered, override), '/')
  }

  method BuildPattern(segments: seq<string>, registered: set<string>, override: Option<bool>) returns (pattern: string)
    ensures pattern == Pattern(segments, registered, override)
  {
    var parts := [];
    var lastIdx := |segments| - 1;
    for i := 0 to |segments|
      invariant parts == Parts(segments, i, registered, override)
    {
      if i > 0 {
        var isMember := Join(segments[..i], '/') in registered;
        if i == lastIdx && override.Some? { isMember := override.value; }
        if isMember {
          var paramName := Singularize(segments[i - 1]) + "_id";
          if i == 1 { paramName := "id"; }
          parts := parts + [":" + paramName];
        }
      }
      parts := parts + [segments[i]];
    }
    pattern := "/" + Join(parts, '/');
  }

  method PathToPattern(pkgPath: string, registered: set<string>, override: Option<bool>) returns (pattern: string)
    ensures pattern == Pattern(Below(pkgPath), registered, override)
  {
    var parts := Split(pkgPath, '/');
    var routesIdx := -1;
    var i := 0;
    while i < |parts|
      invariant i <= |parts| && routesIdx == -1 && After(parts[i..]) == Below(pkgPath)
    {
      if parts[i] == "routes" {
        routesIdx := i;
        break;
      }
      assert parts[i..][1..] == parts[i + 1..];
      i := i + 1;
    }
    if routesIdx == -1 { return "/"; }
    assert parts[i..][1..] == parts[i + 1..];
    var segments := parts[routesIdx + 1..];
    if |segments| == 0 { return "/"; }
    pattern := BuildPattern(segments, registered, override);
  }

  method RelativePackagePath(pkgPath: string) returns (rel: string)
    ensures rel == Relative(pkgPath)
  {
    var parts := Split(pkgPath, '/');
    for i := 0 to |parts|
      invariant After(parts[i..]) == Below(pkgPath)
    {
      assert parts[i..][1..] == parts[i + 1..];
      if parts[i] == "routes" { return Join(parts[i + 1..], '/'); }
    }
    return "";
  }

  // --------------------------------------------------------------------- specs

  datatype RouteSpec = RouteSpec(httpMethod: string, pattern: string)

  predicate MemberMethod(m: string) { m == "PUT" || m == "PATCH" || m == "DELETE" }

  function TrimSlash(s: string): string { if Suffix(s, "/") then s[..|s| - 1] else s }

  function Mounted(base: string, m: string): string {
    if MemberMethod(m) then TrimSlash(base) + "/:id" else base
  }

  method SplitActions(base: string, methods: seq<string>) returns (specs: seq<RouteSpec>)
    ensures |specs| == |methods|
    ensures forall i :: 0 <= i < |methods| ==> specs[i] == RouteSpec(methods[i], Mounted(base, methods[i]))
    ensures forall i :: 0 <= i < |methods| ==>
      specs[i].pattern == if methods[i] in ["PUT", "PATCH", "DELETE"] then TrimSlash(base) + "/:id" else base
  {
    specs := [];
    for i := 0 to |methods|
      invariant |specs| == i
      invariant forall j :: 0 <= j < i ==> specs[j] == RouteSpec(methods[j], Mounted(base, methods[j]))
    {
      var pattern := base;
      if MemberMethod(methods[i]) { pattern := TrimSlash(base) + "/:id"; }
      specs := specs + [RouteSpec(methods[i], pattern)];
    }
  }

  /** A struct route or a function route; a function route has one method and no override. */
  datatype Registration = Registration(pkgPath: string, override: Option<bool>, methods: seq<string>)

  /** One method of one registration. */
  datatype Action = Action(pkgPath: string, override: Option<bool>, httpMethod: string)

  function ActionsOf(r: Registration): seq<Action> {
    seq(|r.methods|, i requires 0 <= i < |r.methods| => Action(r.pkgPath, r.override, r.methods[i]))
  }

  function Actions(rs: seq<Registration>): seq<Action> {
    if rs == [] then [] else Actions(rs[..|rs| - 1]) + ActionsOf(rs[|rs| - 1])
  }

  function Registered(rs: seq<Registration>): set<string> {
    set i | 0 <= i < |rs| && Relative(rs[i].pkgPath) != "" :: Relative(rs[i].pkgPath)
  }

  function SpecOf(a: Action, registered: set<string>): RouteSpec {
    RouteSpec(a.httpMethod, Mounted(Pattern(Below(a.pkgPath), registered, a.override), a.httpMethod))
  }

  function Specs(rs: seq<Registration>, registered: set<string>): seq<RouteSpec> {
    var actions := Actions(rs);
    seq(|actions|, i requires 0 <= i < |actions| => SpecOf(actions[i], registered))
  }

  /** The two passes of Discover, over struct routes and then function routes: all
      package paths are collected before any pattern is derived. */
  method Discover(rs: seq<Registration>) returns (specs: seq<RouteSpec>)
    ensures specs == Specs(rs, Registered(rs))
  {
    var registered: set<string> := {};
    for i := 0 to |rs|
      invariant registered == Registered(rs[..i])
    {
      var rel := RelativePackagePath(rs[i].pkgPath);
      RegisterOne(rs, i);
      if rel != "" { registered := registered + {rel}; }
    }
    assert rs[..|rs|] == rs;
    specs := [];
    hide Registered;
    for i := 0 to |rs|
      invariant specs == Specs(rs[..i], registered)
    {
      hide Specs;
      var base := PathToPattern(rs[i].pkgPath, registered, rs[i].override);
      var more := SplitActions(base, rs[i].methods);
      SpecsGrow(rs, i, registered, base, more);
      specs := specs + more;
    }
  }

  lemma SpecsGrow(rs: seq<Registration>, i: nat, registered: set<string>, base: string, more: seq<RouteSpec>)
    requires i < |rs| && base == Pattern(Below(rs[i].pkgPath), registered, rs[i].override)
    requires |more| == |rs[i].methods|
    requires forall j :: 0 <= j < |more| ==> more[j] == RouteSpec(rs[i].methods[j], Mounted(base, rs[i].methods[j]))
    ensures Specs(rs[..i + 1], registered) == Specs(rs[..i], registered) + more
  {
    assert rs[..i + 1][..i] == rs[..i];
    assert Actions(rs[..i + 1]) == Actions(rs[..i]) + ActionsOf(rs[i]);
    hide Actions, Pattern, Mounted, Below;
  }

  lemma RegisterOne(rs: seq<Registration>, i: nat)
    requires i < |rs|
    ensures var rel := Relative(rs[i].pkgPath);
      Registered(rs[..i + 1]) == Registered(rs[..i]) + if rel != "" then {rel} else {}
  {
    var was, now := rs[..i], rs[..i + 1];
    assert now[i] == rs[i] && forall j :: 0 <= j < i ==> now[j] == was[j];
  }

  // -------------------------------------------------------------- reading back

  /** What Go's rules for import paths leave of a directory name that matters here. */
  predicate ValidSegment(s: string) { s != "" && s[0] != ':' && '/' !in s }

  predicate ValidPath(pkgPath: string) { forall s :: s in Below(pkgPath) ==> ValidSegment(s) }

  predicate IsParam(s: string) { s != "" && s[0] == ':' }

  function Keep(parts: seq<string>): seq<string> {
    if parts == [] then []
    else Keep(parts[..|parts| - 1]) + if IsParam(parts[|parts| - 1]) then [] else [parts[|parts| - 1]]
  }

  /** A pattern without its parameter segments and leading slash. */
  function Erase(pattern: string): string
    requires pattern != ""
  {
    Join(Keep(Split(pattern[1..], '/')), '/')
  }

  lemma KeepSnoc(parts: seq<string>, p: string)
    ensures Keep(parts + [p]) == Keep(parts) + if IsParam(p) then [] else [p]
  {
    assert (parts + [p])[..|parts|] == parts;
  }

  lemma {:induction false} PartsErase(segments: seq<string>, n: nat, registered: set<string>, override: Option<bool>)
    requires n <= |segments| && forall s :: s in segments ==> ValidSegment(s)
    ensures Keep(Parts(segments, n, registered, override)) == segments[..n]
    ensures AllWithout(Parts(segments, n, registered, override), '/')
  {
    if n > 0 {
      PartsErase(segments, n - 1, registered, override);
      var before := Parts(segments, n - 1, registered, override);
      var seg := segments[n - 1];
      assert ValidSegment(seg);
      assert segments[..n] == segments[..n - 1] + [seg];
      if Member(segments, n - 1, registered, override) {
        ParamErases(segments, n - 1, before);
      } else {
        SegmentErases(before, seg);
      }
    }
  }

  lemma SegmentErases(before: seq<string>, seg: string)
    requires AllWithout(before, '/') && ValidSegment(seg)
    ensures var parts := before + [] + [seg];
      Keep(parts) == Keep(before) + [seg] && AllWithout(parts, '/')
  {
    hide Keep;
    assert before + [] == before;
    KeepSnoc(before, seg);
  }

  /** A parameter and a directory added to the parts leave the directory. */
  lemma ParamErases(segments: seq<string>, i: nat, before: seq<string>)
    requires 0 < i < |segments| && ValidSegment(segments[i - 1]) && ValidSegment(segments[i])
    requires AllWithout(before, '/')
    ensures var parts := before + [Param(segments, i)] + [segments[i]];
      Keep(parts) == Keep(before) + [segments[i]] && AllWithout(parts, '/')
  {
    hide Keep;
    var param := Param(segments, i);
    KeepSnoc(before, param);
    KeepSnoc(before + [param], segments[i]);
    assert Keep(before) + [] == Keep(before);
    assert '/' !in param by { hide Suffix; }
  }

  lemma {:induction false} JoinSnoc(parts: seq<string>, p: string)
    requires parts != []
    ensures Join(parts + [p], '/') == Join(parts, '/') + "/" + p
  {
    if |parts| > 1 {
      assert (parts + [p])[1..] == parts[1..] + [p];
      JoinSnoc(parts[1..], p);
    } else {
      assert (parts + [p])[1..] == [p];
    }
  }

  lemma SplitBack(parts: seq<string>)
    requires parts != [] && AllWithout(parts, '/')
    ensures Split(("/" + Join(parts, '/'))[1..], '/') == parts
  {
    SplitJoin(parts, '/');
    assert ("/" + Join(parts, '/'))[1..] == Join(parts, '/');
  }

  lemma LastPart(segments: seq<string>, registered: set<string>, override: Option<bool>)
    requires segments != []
    ensures var parts := Parts(segments, |segments|, registered, override);
      parts != [] && parts[|parts| - 1] == segments[|segments| - 1]
  {}

  /** A derived pattern never ends in a slash, the root apart. */
  lemma MountedParts(segments: seq<string>, registered: set<string>, override: Option<bool>, m: string)
    requires segments != [] && forall s :: s in segments ==> ValidSegment(s)
    ensures var parts := Parts(segments, |segments|, registered, override);
      Mounted(Pattern(segments, registered, override), m)
      == "/" + Join(parts + if MemberMethod(m) then [":id"] else [], '/')
  {
    hide Parts;
    var parts := Parts(segments, |segments|, registered, override);
    LastPart(segments, registered, override);
    assert ValidSegment(segments[|segments| - 1]);
    NoTrailingSlash(parts);
    assert parts + [] == parts;
    JoinSnoc(parts, ":id");
    assert "/" + (Join(parts, '/') + "/" + ":id") == "/" + Join(parts, '/') + "/:id";
  }

  lemma {:induction false} JoinEnds(parts: seq<string>) returns (front: string)
    requires parts != []
    ensures Join(parts, '/') == front + parts[|parts| - 1]
  {
    if |parts| == 1 {
      front := "";
      assert "" + parts[0] == parts[0];
    } else {
      var more := JoinEnds(parts[1..]);
      front := parts[0] + "/" + more;
      ConcatAssoc(parts[0] + "/", more, parts[|parts| - 1]);
    }
  }

  lemma NoTrailingSlash(parts: seq<string>)
    requires parts != [] && ValidSegment(parts[|parts| - 1])
    ensures !Suffix("/" + Join(parts, '/'), "/")
  {
    hide Join, Suffix, ValidSegment;
    var front := JoinEnds(parts);
    ConcatAssoc("/", front, parts[|parts| - 1]);
    EndsIn("/" + front, parts[|parts| - 1]);
  }

  lemma EndsIn(front: string, last: string)
    requires ValidSegment(last)
    ensures !Suffix(front + last, "/")
  {
    var s := front + last;
    assert s[|s| - 1..] == [last[|last| - 1]] && last[|last| - 1] in last;
  }

  lemma EraseJoined(parts: seq<string>)
    requires parts != [] && AllWithout(parts, '/')
    ensures Erase("/" + Join(parts, '/')) == Join(Keep(parts), '/')
  {
    hide Keep, Join, Split;
    SplitBack(parts);
  }

  /** The parts a pattern is mounted on, and what is left of them. */
  lemma MountedErases(parts: seq<string>, segments: seq<string>, m: string)
    requires parts != [] && AllWithout(parts, '/') && Keep(parts) == segments
    ensures Erase("/" + Join(parts + if MemberMethod(m) then [":id"] else [], '/')) == Join(segments, '/')
  {
    hide Keep, Join, Split, Erase;
    if MemberMethod(m) {
      KeepSnoc(parts, ":id");
      assert Keep(parts) + [] == Keep(parts);
      EraseJoined(parts + [":id"]);
    } else {
      assert parts + [] == parts;
      EraseJoined(parts);
    }
  }

  /** Erasing the inserted segments of any mounted pattern gives back the
      package's relative path, whatever is registered or overridden. */
  lemma ErasingGivesBack(pkgPath: string, registered: set<string>, override: Option<bool>, m: string)
    requires ValidPath(pkgPath)
    ensures var p := Mounted(Pattern(Below(pkgPath), registered, override), m);
      p != "" && Erase(p) == Relative(pkgPath)
  {
    var segments := Below(pkgPath);
    if segments == [] {
      RootErases(m);
    } else {
      hide Keep, Join, Split, Erase, After, Pattern, Mounted, Parts;
      var parts := Parts(segments, |segments|, registered, override);
      PartsErase(segments, |segments|, registered, override);
      assert segments[..|segments|] == segments;
      LastPart(segments, registered, override);
      MountedParts(segments, registered, override, m);
      MountedErases(parts, segments, m);
    }
  }

  lemma RootErases(m: string)
    ensures Mounted("/" + Join([], '/'), m) == if MemberMethod(m) then "/:id" else "/"
    ensures Erase("/") == "" && Erase("/:id") == ""
  {
    RootMounted(m);
    assert "/"[1..] == "" && "/:id"[1..] == ":id";
    SplitWithout("", '/');
    SplitWithout(":id", '/');
    KeepSnoc([], "");
    KeepSnoc([], ":id");
    assert [] + [":id"] == [":id"] && [] + [""] == [""];
    assert Keep([""]) == [""] && Keep([":id"]) == [];
    hide Keep, Split, Mounted;
  }

  lemma RootMounted(m: string)
    ensures Mounted("/" + Join([], '/'), m) == if MemberMethod(m) then "/:id" else "/"
  {
    assert "/" + Join([], '/') == "/" && TrimSlash("/") == "" && "" + "/:id" == "/:id";
    hide MemberMethod;
  }

  /** Routes from distinct relative paths have distinct patterns, base or mounted. */
  lemma DistinctPathsDistinctPatterns(a: Action, b: Action, registered: set<string>)
    requires ValidPath(a.pkgPath) && ValidPath(b.pkgPath)
    requires SpecOf(a, registered).pattern == SpecOf(b, registered).pattern
    ensures Relative(a.pkgPath) == Relative(b.pkgPath)
  {
    ErasingGivesBack(a.pkgPath, registered, a.override, a.httpMethod);
    ErasingGivesBack(b.pkgPath, registered, b.override, b.httpMethod);
  }

  // ------------------------------------------------------ where parameters stand

  lemma {:induction false} PartsPrefix(segments: seq<string>, n: nat, registered: set<string>, override: Option<bool>)
    requires n <= |segments|
    ensures Parts(segments, n, registered, override) <= Parts(segments, |segments|, registered, override)
    decreases |segments| - n
  {
    if n < |segments| { PartsPrefix(segments, n + 1, registered, override); }
  }

  /** In front of every directory but the first there is a parameter if and only if
      the directories before it are a registered package, the override deciding for
      the last one; it is `:id` for the first and named after its parent otherwise. */
  lemma ParameterInFront(segments: seq<string>, i: nat, registered: set<string>, override: Option<bool>)
    returns (j: nat)
    requires 0 < i < |segments| && forall s :: s in segments ==> ValidSegment(s)
    ensures var parts := Parts(segments, |segments|, registered, override);
      && 0 < j < |parts| && parts[j] == segments[i] && Keep(parts[..j]) == segments[..i]
      && (IsParam(parts[j - 1]) <==>
            if i == |segments| - 1 && override.Some? then override.value else Join(segments[..i], '/') in registered)
      && (IsParam(parts[j - 1]) ==>
            parts[j - 1] == if i == 1 then ":id" else ":" + (Singularize(segments[i - 1]) + "_id"))
  {
    var all := Parts(segments, |segments|, registered, override);
    var before, upTo := Parts(segments, i, registered, override), Parts(segments, i + 1, registered, override);
    PartsErase(segments, i, registered, override);
    PartsPrefix(segments, i + 1, registered, override);
    j := |upTo| - 1;
    assert ValidSegment(segments[i - 1]);
    assert before[|before| - 1] == segments[i - 1];
    assert all[..j] == upTo[..j];
    if Member(segments, i, registered, override) {
      var param := Param(segments, i);
      assert upTo[..j] == before + [param];
      KeepSnoc(before, param);
      assert Keep(before) + [] == Keep(before);
    } else {
      assert upTo[..j] == before;
    }
  }

  lemma {:induction false} AfterFirst(front: seq<string>, rest: seq<string>)
    requires "routes" !in front
    ensures After(front + ["routes"] + rest) == rest && After(front) == []
  {
    var parts := front + ["routes"] + rest;
    if front == [] {
      assert parts[1..] == rest;
    } else {
      assert parts[1..] == front[1..] + ["routes"] + rest && parts[0] == front[0];
      AfterFirst(front[1..], rest);
    }
  }

  /** What counts is below the first `routes` directory, and without one nothing does. */
  lemma BelowFirstRoutes(front: seq<string>, rest: seq<string>)
    requires "routes" !in front && AllWithout(front, '/') && AllWithout(rest, '/')
    ensures Below(Join(front + ["routes"] + rest, '/')) == rest
    ensures front != [] ==> Below(Join(front, '/')) == []
  {
    var parts := front + ["routes"] + rest;
    assert AllWithout(parts, '/');
    SplitJoin(parts, '/');
    if front != [] { SplitJoin(front, '/'); }
    hide Split, Join, After;
    AfterFirst(front, rest);
  }

  /** Whether a text ends in a suffix shows in its ending. */
  lemma EndingDecides(stem: string, end: string, suffix: string)
    requires |suffix| <= |end|
    ensures Suffix(stem + end, suffix) <==> Suffix(end, suffix)
  {
    var s := stem + end;
    assert s[|s| - |suffix|..] == end[|end| - |suffix|..];
  }

  lemma NoPlural(stem: string, suffix: string)
    requires |suffix| >= 2 && suffix[|suffix| - 2] != 's'
    ensures !Suffix(stem + "ss", suffix)
  {
    var s := stem + "ss";
    assert |suffix| <= |s| ==> s[|s| - |suffix|..][|suffix| - 2] == s[|s| - 2];
  }

  lemma PluralOf(stem: string, end: string)
    requires end in ["ses", "xes", "zes", "ches", "shes"]
    ensures Singularize(stem + end) == stem + end[..|end| - 2]
  {
    EndingDecides(stem, end, "ies");
    EndingDecides(stem, end, end);
    assert Suffix(end, end) && !Suffix(end, "ies");
    assert (stem + end)[..|stem + end| - 2] == stem + end[..|end| - 2];
    hide Suffix;
  }

  /** The plural endings that are undone, and the one that is none. */
  lemma Plurals(stem: string, end: string)
    ensures stem != "" ==> Singularize(stem + "ies") == stem + "y"
    ensures end in ["ses", "xes", "zes", "ches", "shes"] ==> Singularize(stem + end) == stem + end[..|end| - 2]
    ensures Singularize(stem + "ss") == stem + "ss"
  {
    if end in ["ses", "xes", "zes", "ches", "shes"] { PluralOf(stem, end); }
    EndingDecides(stem, "ies", "ies");
    EndingDecides(stem, "ss", "ss");
    NoPlural(stem, "ies");
    NoPlural(stem, "ses");
    NoPlural(stem, "xes");
    NoPlural(stem, "zes");
    NoPlural(stem, "ches");
    NoPlural(stem, "shes");
    assert Suffix("ies", "ies") && Suffix("ss", "ss");
    hide Suffix;
    assert (stem + "ies")[..|stem + "ies"| - 3] == stem;
  }

  // ------------------------------------------------------------ clashing specs

  /** Whether the last directory is mounted under its parent's parameter. */
  predicate LastIsMember(a: Action, registered: set<string>) {
    var segments := Below(a.pkgPath);
    segments != [] && Member(segments, |segments| - 1, registered, a.override)
  }

  /** The same route: one method, one relative path, one way under the last parent. */
  predicate SameRoute(a: Action, b: Action, registered: set<string>) {
    a.httpMethod == b.httpMethod && Relative(a.pkgPath) == Relative(b.pkgPath)
    && LastIsMember(a, registered) == LastIsMember(b, registered)
  }

  lemma SameDirectories(a: string, b: string)
    requires ValidPath(a) && ValidPath(b) && Relative(a) == Relative(b)
    ensures Below(a) == Below(b)
  {
    NonEmptyJoin(a);
    NonEmptyJoin(b);
    if Below(a) != [] && Below(b) != [] {
      SplitJoin(Below(a), '/');
      SplitJoin(Below(b), '/');
    }
  }

  lemma NonEmptyJoin(a: string)
    requires ValidPath(a)
    ensures AllWithout(Below(a), '/')
    ensures Below(a) == [] <==> Relative(a) == ""
  {
    var segments := Below(a);
    forall i | 0 <= i < |segments| ensures '/' !in segments[i] { assert ValidSegment(segments[i]); }
    if segments != [] { assert ValidSegment(segments[0]); }
  }

  /** Up to the last directory nothing depends on the override. */
  lemma {:induction false} PartsBeforeLast(segments: seq<string>, n: nat, registered: set<string>,
                                             o: Option<bool>, o': Option<bool>)
    requires n < |segments|
    ensures Parts(segments, n, registered, o) == Parts(segments, n, registered, o')
  {
    if n > 0 { PartsBeforeLast(segments, n - 1, registered, o, o'); }
  }

  lemma PatternsAgree(segments: seq<string>, registered: set<string>, o: Option<bool>, o': Option<bool>)
    requires segments != []
    ensures var k := |segments| - 1;
      var parts, parts' := Parts(segments, k + 1, registered, o), Parts(segments, k + 1, registered, o');
      if Member(segments, k, registered, o) == Member(segments, k, registered, o') then parts == parts'
      else |parts| != |parts'|
  {
    PartsBeforeLast(segments, |segments| - 1, registered, o, o');
  }

  /** Two actions get the same method and pattern exactly when they have the same
      method and relative path and agree on the last parent's parameter. */
  lemma ClashExactly(a: Action, b: Action, registered: set<string>)
    requires ValidPath(a.pkgPath) && ValidPath(b.pkgPath)
    ensures SpecOf(a, registered) == SpecOf(b, registered) <==> SameRoute(a, b, registered)
  {
    if a.httpMethod == b.httpMethod {
      if Relative(a.pkgPath) == Relative(b.pkgPath) {
        SameDirectories(a.pkgPath, b.pkgPath);
        SameClash(Below(a.pkgPath), registered, a.override, b.override, a.httpMethod);
      } else if SpecOf(a, registered) == SpecOf(b, registered) {
        DistinctPathsDistinctPatterns(a, b, registered);
      }
    }
  }

  lemma SameClash(segments: seq<string>, registered: set<string>, o: Option<bool>, o': Option<bool>, m: string)
    requires forall s :: s in segments ==> ValidSegment(s)
    ensures Mounted(Pattern(segments, registered, o), m) == Mounted(Pattern(segments, registered, o'), m)
       <==> segments == []
            || Member(segments, |segments| - 1, registered, o) == Member(segments, |segments| - 1, registered, o')
  {
    if segments != [] {
      var parts, parts' := Parts(segments, |segments|, registered, o), Parts(segments, |segments|, registered, o');
      PatternsAgree(segments, registered, o, o');
      PartsErase(segments, |segments|, registered, o);
      PartsErase(segments, |segments|, registered, o');
      LastPart(segments, registered, o);
      LastPart(segments, registered, o');
      MountedParts(segments, registered, o, m);
      MountedParts(segments, registered, o', m);
      hide Parts, Join, Split, Mounted, Pattern, Member;
      MountsApart(parts, parts', m);
    }
  }

  /** Joined parts give themselves away. */
  lemma MountsApart(a: seq<string>, b: seq<string>, m: string)
    requires a != [] && b != [] && AllWithout(a, '/') && AllWithout(b, '/')
    ensures var id := if MemberMethod(m) then [":id"] else [];
      "/" + Join(a + id, '/') == "/" + Join(b + id, '/') <==> a == b
  {
    hide Join, Split;
    var id := if MemberMethod(m) then [":id"] else [];
    SplitBack(a + id);
    SplitBack(b + id);
    assert a == (a + id)[..|a + id| - |id|] && b == (b + id)[..|b + id| - |id|];
  }

  lemma {:induction false} ActionsValid(rs: seq<Registration>)
    requires forall r :: r in rs ==> ValidPath(r.pkgPath)
    ensures forall a :: a in Actions(rs) ==> ValidPath(a.pkgPath)
  {
    if rs != [] { ActionsValid(rs[..|rs| - 1]); }
  }

  /** Discovery yields two equal (method, pattern) pairs exactly when two of its
      actions are the same route, for any set of registrations. */
  lemma DiscoveryClashes(rs: seq<Registration>, i: nat, j: nat)
    requires forall r :: r in rs ==> ValidPath(r.pkgPath)
    requires i < j < |Actions(rs)|
    ensures var specs := Specs(rs, Registered(rs));
      specs[i] == specs[j] <==> SameRoute(Actions(rs)[i], Actions(rs)[j], Registered(rs))
  {
    hide ValidPath;
    ActionsValid(rs);
    ClashExactly(Actions(rs)[i], Actions(rs)[j], Registered(rs));
  }
}
