/** The validator's verdict on the nodes themselves: what it counts, which limits
    it holds each kept node to, and what a failure says. */
module SizeTheorems {
  import opened Strings
  import opened Validate
  import opened SanitizeTheorems

  type Path = seq<Selector>

  /** What one node adds to the total. */
  function Weight(v: JsonValue): nat {
    match v
    case Str(s) => |s|
    case Arr(items) => |items| + 1
    case _ => 0
  }

  ghost function WeightAt(v: JsonValue, path: Path): nat {
    match At(v, path) case Some(w) => Weight(w) case None => 0
  }

  /** The sum over a set of paths, in whatever order. */
  ghost function Sum(v: JsonValue, paths: set<Path>): nat {
    if paths == {} then 0 else var p :| p in paths; WeightAt(v, p) + Sum(v, paths - {p})
  }

  lemma {:induction false} SumAnyPath(v: JsonValue, paths: set<Path>, p: Path)
    requires p in paths
    ensures Sum(v, paths) == WeightAt(v, p) + Sum(v, paths - {p})
    decreases |paths|
  {
    var q :| q in paths && Sum(v, paths) == WeightAt(v, q) + Sum(v, paths - {q});
    if q != p {
      SumAnyPath(v, paths - {q}, p);
      SumAnyPath(v, paths - {p}, q);
      assert paths - {q} - {p} == paths - {p} - {q};
    }
  }

  lemma {:induction false} SumTogether(v: JsonValue, a: set<Path>, b: set<Path>)
    requires a !! b
    ensures Sum(v, a + b) == Sum(v, a) + Sum(v, b)
    decreases |a|
  {
    if a == {} {
      assert a + b == b;
    } else {
      var p :| p in a;
      SumAnyPath(v, a, p);
      SumAnyPath(v, a + b, p);
      assert a + b - {p} == (a - {p}) + b;
      SumTogether(v, a - {p}, b);
    }
  }

  /** The paths of w as paths of the value that has w at s. */
  ghost function Under(s: Selector, paths: set<Path>): set<Path> { set p | p in paths :: [s] + p }

  lemma AtUnder(v: JsonValue, s: Selector, p: Path)
    requires At(v, [s]).Some?
    ensures At(v, [s] + p) == At(At(v, [s]).value, p)
  {
    assert ([s] + p)[1..] == p && [s][1..] == [];
  }

  lemma {:induction false} SumUnder(v: JsonValue, s: Selector, paths: set<Path>)
    requires At(v, [s]).Some?
    ensures Sum(v, Under(s, paths)) == Sum(At(v, [s]).value, paths)
    decreases |paths|
  {
    if paths == {} {
      assert Under(s, paths) == {};
    } else {
      var p :| p in paths;
      SumUnder(v, s, paths - {p});
      AtUnder(v, s, p);
      SumAnyPath(At(v, [s]).value, paths, p);
      SumAnyPath(v, Under(s, paths), [s] + p);
      UnderWithout(s, paths, p);
    }
  }

  lemma UnderWithout(s: Selector, paths: set<Path>, p: Path)
    requires p in paths
    ensures Under(s, paths) - {[s] + p} == Under(s, paths - {p})
  {
    forall q | q in paths && [s] + q == [s] + p ensures q == p { assert ([s] + q)[1..] == ([s] + p)[1..]; }
  }

  /** The paths of the kept nodes. */
  ghost function KeptPaths(v: JsonValue): set<Path>
    decreases v, 1
  {
    {[]} + match v
           case Arr(items) => KeptItems(v, items)
           case Obj(fields) => KeptFields(v, fields)
           case _ => {}
  }

  /** Below the first elements of an array. */
  ghost function KeptItems(v: JsonValue, items: seq<JsonValue>): set<Path>
    requires forall i :: 0 <= i < |items| ==> items[i] < v
    decreases v, 0, |items|
  {
    if items == [] then {}
    else KeptItems(v, items[..|items| - 1]) + Under(Index(|items| - 1), KeptPaths(items[|items| - 1]))
  }

  /** Below some keys of an object. */
  ghost function KeptFields(v: JsonValue, fields: map<string, JsonValue>): set<Path>
    requires forall k :: k in fields ==> fields[k] < v
    decreases v, 0
  {
    set k, p | k in fields && !IsDangerousProperty(k) && p in KeptPaths(fields[k]) :: [Key(k)] + p
  }

  lemma {:induction false} KeptItemsAre(v: JsonValue, items: seq<JsonValue>, p: Path)
    requires forall i :: 0 <= i < |items| ==> items[i] < v
    ensures p in KeptItems(v, items) <==>
      p != [] && p[0].Index? && p[0].i < |items| && p[1..] in KeptPaths(items[p[0].i])
    decreases |items|
  {
    if items != [] {
      var n := |items| - 1;
      KeptItemsAre(v, items[..n], p);
      UnderAre(Index(n), KeptPaths(items[n]), p);
    }
  }

  lemma UnderAre(s: Selector, paths: set<Path>, p: Path)
    ensures p in Under(s, paths) <==> p != [] && p[0] == s && p[1..] in paths
  {
    if p != [] && p[0] == s { assert p == [s] + p[1..]; }
    if p in Under(s, paths) {
      var q :| q in paths && p == [s] + q;
      assert p[1..] == q;
    }
  }

  lemma KeptFieldsAre(v: JsonValue, fields: map<string, JsonValue>, p: Path)
    requires forall k :: k in fields ==> fields[k] < v
    ensures p in KeptFields(v, fields) <==>
      p != [] && p[0].Key? && p[0].k in fields && !IsDangerousProperty(p[0].k) && p[1..] in KeptPaths(fields[p[0].k])
  {
    hide KeptPaths, IsDangerousProperty;
    if p != [] { assert p == [p[0]] + p[1..]; }
    if p in KeptFields(v, fields) {
      var k, q :| k in fields && !IsDangerousProperty(k) && q in KeptPaths(fields[k]) && p == [Key(k)] + q;
      assert p[1..] == q;
    }
  }

  /** They are the paths that lead to a node and through no dangerous key. */
  lemma {:induction false} KeptPathsAre(v: JsonValue, p: Path)
    ensures p in KeptPaths(v) <==> Clean(p) && At(v, p).Some?
    decreases p
  {
    if p != [] {
      AtCons(v, p[0], p[1..]);
      assert p == [p[0]] + p[1..];
      assert Clean([p[0]]) <==> (p[0].Key? ==> !IsDangerousProperty(p[0].k));
      match v {
        case Arr(items) =>
          KeptItemsAre(v, items, p);
          if p[0].Index? && p[0].i < |items| { KeptPathsAre(items[p[0].i], p[1..]); }
        case Obj(fields) =>
          KeptFieldsAre(v, fields, p);
          if p[0].Key? && p[0].k in fields { KeptPathsAre(fields[p[0].k], p[1..]); }
        case _ =>
      }
    }
  }

  /** The count of the walk is the sum, over the kept nodes, of the string lengths
      and of the array lengths plus one. */
  lemma {:induction false} SizeIsSum(v: JsonValue)
    ensures Size(v) == Sum(v, KeptPaths(v))
    decreases v, 2
  {
    SumRoot(v);
    match v {
      case Arr(items) =>
        ItemsAreSum(v, |items|);
        assert items[..|items|] == items;
        KeptItemsAre(v, items, []);
        SumTogether(v, {[]}, KeptItems(v, items));
      case Obj(fields) =>
        FieldsAreSum(v, fields);
        KeptFieldsAre(v, fields, []);
        SumTogether(v, {[]}, KeptFields(v, fields));
      case _ => assert KeptPaths(v) == {[]};
    }
  }

  lemma SumRoot(v: JsonValue)
    ensures Sum(v, {[]}) == Weight(v)
  {
    var root: set<Path> := {[]};
    SumAnyPath(v, root, []);
    assert root - {[]} == {};
  }

  lemma {:induction false} ItemsAreSum(v: JsonValue, n: nat)
    requires v.Arr? && n <= |v.items|
    ensures SizeItems(v, v.items[..n]) == Sum(v, KeptItems(v, v.items[..n]))
    decreases v, 1, n
  {
    if n > 0 {
      var items, last := v.items[..n - 1], v.items[n - 1];
      assert v.items[..n][..n - 1] == items;
      ItemsAreSum(v, n - 1);
      SizeIsSum(last);
      assert [Index(n - 1)][1..] == [] && At(v, [Index(n - 1)]) == Some(last);
      SumUnder(v, Index(n - 1), KeptPaths(last));
      forall p | p in KeptItems(v, items) ensures p !in Under(Index(n - 1), KeptPaths(last)) {
        KeptItemsAre(v, items, p);
        UnderAre(Index(n - 1), KeptPaths(last), p);
      }
      SumTogether(v, KeptItems(v, items), Under(Index(n - 1), KeptPaths(last)));
    }
  }

  lemma KeptFieldsWithout(v: JsonValue, fields: map<string, JsonValue>, k: string)
    requires k in fields && forall k :: k in fields ==> fields[k] < v
    ensures KeptFields(v, fields) ==
      KeptFields(v, fields - {k}) + if IsDangerousProperty(k) then {} else Under(Key(k), KeptPaths(fields[k]))
    ensures KeptFields(v, fields - {k}) !! Under(Key(k), KeptPaths(fields[k]))
  {
    hide KeptFields, KeptPaths, IsDangerousProperty, Under;
    var less, under := fields - {k}, Under(Key(k), KeptPaths(fields[k]));
    forall p ensures p in KeptFields(v, fields) <==> p in KeptFields(v, less) || (!IsDangerousProperty(k) && p in under) {
      KeptFieldsAre(v, fields, p);
      KeptFieldsAre(v, less, p);
      UnderAre(Key(k), KeptPaths(fields[k]), p);
    }
    forall p | p in KeptFields(v, less) ensures p !in under {
      KeptFieldsAre(v, less, p);
      UnderAre(Key(k), KeptPaths(fields[k]), p);
    }
  }

  lemma {:induction false} FieldsAreSum(v: JsonValue, fields: map<string, JsonValue>)
    requires v.Obj? && forall k :: k in fields ==> k in v.fields && fields[k] == v.fields[k]
    ensures SizeFields(v, fields) == Sum(v, KeptFields(v, fields))
    decreases v, 1, |fields|
  {
    hide KeptFields, IsDangerousProperty, At, Size;
    if fields == map[] {
      forall p ensures p !in KeptFields(v, fields) { KeptFieldsAre(v, fields, p); }
    } else {
      var k :| k in fields;
      FieldsAreSum(v, fields - {k});
      SizeIsSum(fields[k]);
      OneField(v, fields, k);
    }
  }

  lemma OneField(v: JsonValue, fields: map<string, JsonValue>, k: string)
    requires v.Obj? && k in fields && forall k :: k in fields ==> k in v.fields && fields[k] == v.fields[k]
    requires SizeFields(v, fields - {k}) == Sum(v, KeptFields(v, fields - {k}))
    requires Size(fields[k]) == Sum(fields[k], KeptPaths(fields[k]))
    ensures SizeFields(v, fields) == Sum(v, KeptFields(v, fields))
  {
    hide KeptFields, IsDangerousProperty, At, Size, SizeFields, Sum, KeptPaths, Under;
    SizeFieldsAnyKey(v, fields, k);
    KeptFieldsWithout(v, fields, k);
    if !IsDangerousProperty(k) {
      AtKey(v, k);
      SumUnder(v, Key(k), KeptPaths(fields[k]));
      SumTogether(v, KeptFields(v, fields - {k}), Under(Key(k), KeptPaths(fields[k])));
    } else {
      assert KeptFields(v, fields) == KeptFields(v, fields - {k});
    }
  }

  lemma AtKey(v: JsonValue, k: string)
    requires v.Obj? && k in v.fields
    ensures At(v, [Key(k)]) == Some(v.fields[k])
  {
    assert [Key(k)][1..] == [];
  }

  // ----------------------------------------------------------- the verdict

  /** The limits of one kept node, one by one. */
  predicate Within(w: JsonValue, cfg: Config, depth: int) {
    && depth <= cfg.maxDepth
    && (w.Str? ==> |w.s| <= cfg.maxStringLength)
    && (w.Arr? ==> |w.items| <= cfg.maxArrayLength)
    && (w.Obj? ==> |w.fields| <= cfg.maxObjectKeys)
    && (w.Num? ==> (w.n.Finite? || cfg.allowSpecialNum) && (w.n.NaN? || w.n.digits <= 300))
  }

  ghost predicate AllWithin(v: JsonValue, cfg: Config) {
    forall path :: Clean(path) && At(v, path).Some? ==> Within(At(v, path).value, cfg, |path|)
  }

  ghost function NodeTotal(args: seq<JsonValue>): nat {
    if args == [] then 0
    else NodeTotal(args[..|args| - 1]) + Sum(args[|args| - 1], KeptPaths(args[|args| - 1]))
  }

  lemma {:induction false} TotalIsSum(args: seq<JsonValue>)
    ensures TotalSize(args) == NodeTotal(args)
  {
    if args != [] {
      TotalIsSum(args[..|args| - 1]);
      SizeIsSum(args[|args| - 1]);
    }
  }

  lemma WithinIsOk(v: JsonValue, cfg: Config)
    ensures AllWithin(v, cfg) <==> AllOk(v, cfg, 0)
  {
    AllOkIsEveryKeptNode(v, cfg, 0);
    forall path | At(v, path).Some?
      ensures Within(At(v, path).value, cfg, |path|) <==> NodeOk(At(v, path).value, cfg, 0 + |path|) {}
    hide Within, NodeOk, At, Clean;
  }

  ghost predicate SomeFork(args: seq<JsonValue>) {
    exists i, path :: 0 <= i < |args| && Forks(args[i], path)
  }

  lemma SomeForkIsAnyFork(args: seq<JsonValue>)
    ensures SomeFork(args) <==> AnyFork(args)
  {
    forall i | 0 <= i < |args| ensures HasFork(args[i]) <==> exists path :: Forks(args[i], path) {
      HasForkIsSomeKeptArray(args[i]);
    }
    hide HasFork, Forks;
  }

  /** The verdict on the nodes: each kept one within its limits, and if a kept array
      has two elements, no more than the maximum in all. */
  lemma AcceptableByNodes(args: seq<JsonValue>, cfg: Config)
    ensures Acceptable(args, cfg) <==>
      && (forall i :: 0 <= i < |args| ==> AllWithin(args[i], cfg))
      && (SomeFork(args) ==> NodeTotal(args) <= cfg.maxTotalElements)
  {
    TotalIsSum(args);
    SomeForkIsAnyFork(args);
    forall i | 0 <= i < |args| ensures AllWithin(args[i], cfg) <==> AllOk(args[i], cfg, 0) { WithinIsOk(args[i], cfg); }
    hide AllWithin, AllOk, SomeFork, AnyFork, NodeTotal, TotalSize;
  }

  ghost predicate BreaksAt(v: JsonValue, cfg: Config, depth: int, failure: Failure, path: Path) {
    Clean(path) && At(v, path).Some? && NodeBreaks(At(v, path).value, cfg, depth + |path|, failure)
  }

  /** The limit a failure names is broken by some kept node. */
  lemma {:induction false} BreaksIsSomeKeptNode(v: JsonValue, cfg: Config, depth: int, failure: Failure)
    ensures Breaks(v, cfg, depth, failure) <==> exists path :: BreaksAt(v, cfg, depth, failure, path)
    decreases v
  {
    if Breaks(v, cfg, depth, failure) {
      if NodeBreaks(v, cfg, depth, failure) {
        assert BreaksAt(v, cfg, depth, failure, []);
      } else {
        var s, w := BrokenChild(v, cfg, depth, failure);
        BreaksIsSomeKeptNode(w, cfg, depth + 1, failure);
        var path :| BreaksAt(w, cfg, depth + 1, failure, path);
        AtCons(v, s, path);
        AtUnder(v, s, path);
        assert BreaksAt(v, cfg, depth, failure, [s] + path);
      }
    }
    if path :| BreaksAt(v, cfg, depth, failure, path) { BreaksFromPath(v, cfg, depth, failure, path); }
  }

  lemma BrokenChild(v: JsonValue, cfg: Config, depth: int, failure: Failure) returns (s: Selector, w: JsonValue)
    requires Breaks(v, cfg, depth, failure) && !NodeBreaks(v, cfg, depth, failure)
    ensures Clean([s]) && At(v, [s]) == Some(w) && w < v && Breaks(w, cfg, depth + 1, failure)
  {
    match v {
      case Arr(items) =>
        var i :| 0 <= i < |items| && Breaks(items[i], cfg, depth + 1, failure);
        s, w := Index(i), items[i];
      case Obj(fields) =>
        var k :| k in fields && !IsDangerousProperty(k) && Breaks(fields[k], cfg, depth + 1, failure);
        s, w := Key(k), fields[k];
    }
    assert [s][1..] == [];
  }

  lemma {:induction false} BreaksFromPath(v: JsonValue, cfg: Config, depth: int, failure: Failure, path: Path)
    requires BreaksAt(v, cfg, depth, failure, path)
    ensures Breaks(v, cfg, depth, failure)
    decreases path
  {
    if path != [] {
      assert path == [path[0]] + path[1..];
      AtCons(v, path[0], path[1..]);
      assert Clean([path[0]]) ==> path[0].Key? ==> !IsDangerousProperty([path[0]][0].k);
      match (v, path[0]) {
        case (Arr(items), Index(i)) => BreaksFromPath(items[i], cfg, depth + 1, failure, path[1..]);
        case (Obj(fields), Key(k)) => BreaksFromPath(fields[k], cfg, depth + 1, failure, path[1..]);
      }
    }
  }

  /** Key by key: sanitizing takes exactly the seven dangerous ones. */
  lemma SanitizedKeys(v: JsonValue, path: Path, k: string)
    requires Clean(path) && At(v, path + [Key(k)]).Some?
    ensures At(Sanitize(v), path + [Key(k)]).Some? <==>
      k !in ["__proto__", "constructor", "prototype", "__defineGetter__", "__defineSetter__", "__lookupGetter__",
             "__lookupSetter__"]
  {
    SanitizedAt(v, path + [Key(k)]);
    var full := path + [Key(k)];
    assert full[|path|] == Key(k) && forall i :: 0 <= i < |path| ==> full[i] == path[i];
    assert Clean(full) <==> !IsDangerousProperty(k);
  }
}
