/** What the validator's verdict and result mean, node by node. */
module SanitizeTheorems {
  import opened Strings
  import opened Validate

  /** One step into a value. */
  datatype Selector = Index(i: nat) | Key(k: string)

  /** The node a path leads to. */
  function At(v: JsonValue, path: seq<Selector>): Option<JsonValue>
    decreases path
  {
    if path == [] then Some(v)
    else match (v, path[0])
      case (Arr(items), Index(i)) => if i < |items| then At(items[i], path[1..]) else None
      case (Obj(fields), Key(k)) => if k in fields then At(fields[k], path[1..]) else None
      case _ => None
  }

  predicate Clean(path: seq<Selector>) {
    forall i :: 0 <= i < |path| ==> path[i].Key? ==> !IsDangerousProperty(path[i].k)
  }

  lemma {:induction false} OkAtPath(v: JsonValue, cfg: Config, depth: int, path: seq<Selector>)
    requires AllOk(v, cfg, depth) && Clean(path) && At(v, path).Some?
    ensures NodeOk(At(v, path).value, cfg, depth + |path|)
    decreases path
  {
    if path != [] {
      assert path[0] == path[0];
      match (v, path[0]) {
        case (Arr(items), Index(i)) => OkAtPath(items[i], cfg, depth + 1, path[1..]);
        case (Obj(fields), Key(k)) => OkAtPath(fields[k], cfg, depth + 1, path[1..]);
      }
    }
  }

  /** A path below one step of v is a path of v. */
  lemma AtCons(v: JsonValue, s: Selector, path: seq<Selector>)
    ensures ([s] + path)[0] == s && ([s] + path)[1..] == path && |[s] + path| == |path| + 1
    ensures Clean([s] + path) <==> Clean([s]) && Clean(path)
  {
    assert Clean([s] + path) ==> Clean(path) by {
      assert forall i :: 0 <= i < |path| ==> ([s] + path)[i + 1] == path[i];
    }
  }

  ghost predicate EveryKeptNodeOk(v: JsonValue, cfg: Config, depth: int) {
    forall path :: Clean(path) && At(v, path).Some? ==> NodeOk(At(v, path).value, cfg, depth + |path|)
  }

  lemma BelowOk(v: JsonValue, cfg: Config, depth: int, s: Selector)
    requires EveryKeptNodeOk(v, cfg, depth) && Clean([s]) && At(v, [s]).Some?
    ensures EveryKeptNodeOk(At(v, [s]).value, cfg, depth + 1)
  {
    var w := At(v, [s]).value;
    assert [s][1..] == [];
    forall path | Clean(path) && At(w, path).Some? ensures NodeOk(At(w, path).value, cfg, depth + 1 + |path|) {
      AtCons(v, s, path);
      assert At(v, [s] + path) == At(w, path);
    }
  }

  lemma OkEverywhere(v: JsonValue, cfg: Config, depth: int)
    requires AllOk(v, cfg, depth)
    ensures EveryKeptNodeOk(v, cfg, depth)
  {
    hide AllOk, NodeOk, At;
    forall path | Clean(path) && At(v, path).Some? ensures NodeOk(At(v, path).value, cfg, depth + |path|) {
      OkAtPath(v, cfg, depth, path);
    }
  }

  lemma RootOk(v: JsonValue, cfg: Config, depth: int)
    requires EveryKeptNodeOk(v, cfg, depth)
    ensures NodeOk(v, cfg, depth)
  {
    hide NodeOk;
    assert Clean([]) && At(v, []) == Some(v);
  }

  lemma ItemEverywhere(items: seq<JsonValue>, cfg: Config, depth: int, i: nat)
    requires EveryKeptNodeOk(Arr(items), cfg, depth) && i < |items|
    ensures EveryKeptNodeOk(items[i], cfg, depth + 1)
  {
    assert Clean([Index(i)]) && At(Arr(items), [Index(i)]) == Some(items[i]) by {
      assert [Index(i)][1..] == [] && At(items[i], []) == Some(items[i]);
    }
    hide *;
    BelowOk(Arr(items), cfg, depth, Index(i));
  }

  lemma FieldEverywhere(fields: map<string, JsonValue>, cfg: Config, depth: int, k: string)
    requires EveryKeptNodeOk(Obj(fields), cfg, depth) && k in fields && !IsDangerousProperty(k)
    ensures EveryKeptNodeOk(fields[k], cfg, depth + 1)
  {
    assert Clean([Key(k)]) && At(Obj(fields), [Key(k)]) == Some(fields[k]) by {
      assert [Key(k)][1..] == [] && At(fields[k], []) == Some(fields[k]);
    }
    hide *;
    BelowOk(Obj(fields), cfg, depth, Key(k));
  }

  lemma {:induction false} EverywhereOk(v: JsonValue, cfg: Config, depth: int)
    requires EveryKeptNodeOk(v, cfg, depth)
    ensures AllOk(v, cfg, depth)
    decreases v
  {
    hide NodeOk, EveryKeptNodeOk, IsDangerousProperty;
    RootOk(v, cfg, depth);
    match v {
      case Arr(items) =>
        forall i | 0 <= i < |items| ensures AllOk(items[i], cfg, depth + 1) {
          ItemEverywhere(items, cfg, depth, i);
          EverywhereOk(items[i], cfg, depth + 1);
        }
      case Obj(fields) =>
        forall k | k in fields && !IsDangerousProperty(k) ensures AllOk(fields[k], cfg, depth + 1) {
          FieldEverywhere(fields, cfg, depth, k);
          EverywhereOk(fields[k], cfg, depth + 1);
        }
      case _ =>
    }
  }

  /** The recursive limit check is the check of every node that no dangerous
      key leads to, each at its own depth. */
  lemma AllOkIsEveryKeptNode(v: JsonValue, cfg: Config, depth: int)
    ensures AllOk(v, cfg, depth) <==> EveryKeptNodeOk(v, cfg, depth)
  {
    hide *;
    if AllOk(v, cfg, depth) { OkEverywhere(v, cfg, depth); }
    if EveryKeptNodeOk(v, cfg, depth) { EverywhereOk(v, cfg, depth); }
  }

  ghost predicate Forks(v: JsonValue, path: seq<Selector>) {
    Clean(path) && At(v, path).Some? && At(v, path).value.Arr? && |At(v, path).value.items| > 1
  }

  /** A fork is a kept array with more than one element. */
  lemma {:induction false} HasForkIsSomeKeptArray(v: JsonValue)
    ensures HasFork(v) <==> exists path :: Forks(v, path)
    decreases v
  {
    if HasFork(v) {
      match v {
        case Arr(items) =>
          if |items| > 1 { assert Forks(v, []); } else {
            HasForkIsSomeKeptArray(items[0]);
            var path :| Forks(items[0], path);
            AtCons(v, Index(0), path);
            assert Forks(v, [Index(0)] + path);
          }
        case Obj(fields) =>
          var k :| k in fields && !IsDangerousProperty(k) && HasFork(fields[k]);
          HasForkIsSomeKeptArray(fields[k]);
          var path :| Forks(fields[k], path);
          AtCons(v, Key(k), path);
          assert Forks(v, [Key(k)] + path);
      }
    }
    if path :| Forks(v, path) {
      ForkAtPath(v, path);
    }
  }

  lemma {:induction false} ForkAtPath(v: JsonValue, path: seq<Selector>)
    requires Forks(v, path)
    ensures HasFork(v)
    decreases path
  {
    if path != [] {
      assert path[0] == path[0];
      match (v, path[0]) {
        case (Arr(items), Index(i)) => ForkAtPath(items[i], path[1..]);
        case (Obj(fields), Key(k)) => ForkAtPath(fields[k], path[1..]);
      }
    }
  }

  /** Path by path: the sanitized value has exactly the kept nodes of the input,
      and no path through a dangerous key. */
  lemma {:induction false} SanitizedAt(v: JsonValue, path: seq<Selector>)
    ensures At(Sanitize(v), path) ==
      if Clean(path) && At(v, path).Some? then Some(Sanitize(At(v, path).value)) else None
    decreases path
  {
    if path != [] {
      AtCons(v, path[0], path[1..]);
      assert path == [path[0]] + path[1..];
      match (v, path[0]) {
        case (Arr(items), Index(i)) =>
          if i < |items| { SanitizedAt(items[i], path[1..]); }
        case (Obj(fields), Key(k)) =>
          assert Clean([Key(k)]) <==> !IsDangerousProperty(k);
          if k in fields && !IsDangerousProperty(k) { SanitizedAt(fields[k], path[1..]); }
        case _ =>
      }
    }
  }

  /** At each kept node sanitizing changes nothing but the set of keys. */
  lemma SanitizeKeepsNode(v: JsonValue)
    ensures !v.Arr? && !v.Obj? ==> Sanitize(v) == v
    ensures v.Arr? ==> Sanitize(v).Arr? && |Sanitize(v).items| == |v.items|
    ensures v.Obj? ==> Sanitize(v).Obj? && Sanitize(v).fields.Keys == set k | k in v.fields && !IsDangerousProperty(k)
  {}

  lemma {:induction false} SanitizeIdempotent(v: JsonValue)
    ensures Sanitize(Sanitize(v)) == Sanitize(v)
    decreases v
  {
    match v {
      case Arr(items) =>
        forall i | 0 <= i < |items| ensures Sanitize(Sanitize(items[i])) == Sanitize(items[i]) {
          SanitizeIdempotent(items[i]);
        }
      case Obj(fields) =>
        forall k | k in fields && !IsDangerousProperty(k) ensures Sanitize(Sanitize(fields[k])) == Sanitize(fields[k]) {
          SanitizeIdempotent(fields[k]);
        }
        assert Sanitize(Sanitize(v)).fields == Sanitize(v).fields;
      case _ =>
    }
  }

  lemma SubmapSize(big: map<string, JsonValue>, small: map<string, JsonValue>)
    requires small.Keys <= big.Keys
    ensures |small| <= |big|
  {
    SubsetSize(small.Keys, big.Keys);
  }

  lemma {:induction false} SubsetSize(a: set<string>, b: set<string>)
    requires a <= b
    ensures |a| <= |b|
  {
    if a != {} {
      var x :| x in a;
      SubsetSize(a - {x}, b - {x});
    }
  }

  lemma SanitizeKeepsObject(fields: map<string, JsonValue>, cfg: Config, depth: int)
    requires NodeOk(Obj(fields), cfg, depth)
    requires forall k :: k in fields && !IsDangerousProperty(k) ==> AllOk(Sanitize(fields[k]), cfg, depth + 1)
    ensures AllOk(Sanitize(Obj(fields)), cfg, depth)
  {
    var kept := map k | k in fields && !IsDangerousProperty(k) :: Sanitize(fields[k]);
    assert Sanitize(Obj(fields)) == Obj(kept);
    SubmapSize(fields, kept);
  }

  lemma {:induction false} SanitizeKeepsLimits(v: JsonValue, cfg: Config, depth: int)
    requires AllOk(v, cfg, depth)
    ensures AllOk(Sanitize(v), cfg, depth)
    decreases v
  {
    match v {
      case Arr(items) =>
        assert Sanitize(v).items == seq(|items|, i requires 0 <= i < |items| => Sanitize(items[i]));
        forall i | 0 <= i < |items| ensures AllOk(Sanitize(v).items[i], cfg, depth + 1) {
          SanitizeKeepsLimits(items[i], cfg, depth + 1);
        }
      case Obj(fields) =>
        forall k | k in fields && !IsDangerousProperty(k) ensures AllOk(Sanitize(fields[k]), cfg, depth + 1) {
          SanitizeKeepsLimits(fields[k], cfg, depth + 1);
        }
        SanitizeKeepsObject(fields, cfg, depth);
      case _ =>
    }
  }

  lemma SanitizeKeepsFork(v: JsonValue)
    ensures HasFork(Sanitize(v)) <==> HasFork(v)
  {
    HasForkIsSomeKeptArray(v);
    HasForkIsSomeKeptArray(Sanitize(v));
    forall path ensures Forks(Sanitize(v), path) <==> Forks(v, path) {
      SanitizedAt(v, path);
      if At(v, path).Some? { SanitizeKeepsNode(At(v, path).value); }
    }
  }

  lemma {:induction false} SanitizeKeepsSize(v: JsonValue)
    ensures Size(Sanitize(v)) == Size(v)
    decreases v, 1
  {
    match v {
      case Arr(items) => SanitizeKeepsItems(v, |items|);
      case Obj(fields) =>
        assert (map k | k in fields && !IsDangerousProperty(k) :: Sanitize(fields[k])) == Sanitize(v).fields;
        SanitizeKeepsFields(v, fields, Sanitize(v).fields);
      case _ =>
    }
  }

  lemma {:induction false} SanitizeKeepsItems(v: JsonValue, n: nat)
    requires v.Arr? && n <= |v.items|
    ensures SizeItems(Sanitize(v), Sanitize(v).items[..n]) == SizeItems(v, v.items[..n])
    ensures v.items[..|v.items|] == v.items && Sanitize(v).items[..|v.items|] == Sanitize(v).items
    decreases v, 0, n
  {
    if n > 0 {
      SanitizeKeepsItems(v, n - 1);
      assert v.items[..n][..n - 1] == v.items[..n - 1];
      assert Sanitize(v).items[..n][..n - 1] == Sanitize(v).items[..n - 1];
      SanitizeKeepsSize(v.items[n - 1]);
    }
  }

  lemma KeptWithout(fields: map<string, JsonValue>, kept: map<string, JsonValue>, k: string)
    requires k in fields && kept == map k | k in fields && !IsDangerousProperty(k) :: Sanitize(fields[k])
    ensures kept - {k} == map j | j in fields - {k} && !IsDangerousProperty(j) :: Sanitize((fields - {k})[j])
    ensures if IsDangerousProperty(k) then kept - {k} == kept else k in kept && kept[k] == Sanitize(fields[k])
  {
    hide Sanitize, IsDangerousProperty;
  }

  lemma {:induction false} SanitizeKeepsFields(v: JsonValue, fields: map<string, JsonValue>, kept: map<string, JsonValue>)
    requires v.Obj? && (forall k :: k in fields ==> k in v.fields && fields[k] == v.fields[k])
    requires kept == map k | k in fields && !IsDangerousProperty(k) :: Sanitize(fields[k])
    requires forall k :: k in kept ==> kept[k] < Sanitize(v)
    ensures SizeFields(Sanitize(v), kept) == SizeFields(v, fields)
    decreases v, 0, |fields|
  {
    if fields == map[] {
      assert kept == map[];
    } else {
      hide Size, IsDangerousProperty, Sanitize;
      var k :| k in fields;
      KeptWithout(fields, kept, k);
      assert (fields - {k}).Keys == fields.Keys - {k};
      SizeFieldsAnyKey(v, fields, k);
      SanitizeKeepsFields(v, fields - {k}, kept - {k});
      if !IsDangerousProperty(k) {
        SizeFieldsAnyKey(Sanitize(v), kept, k);
        SanitizeKeepsSize(fields[k]);
      }
    }
  }

  lemma {:induction false} SanitizeKeepsTotal(args: seq<JsonValue>, n: nat)
    requires n <= |args|
    ensures TotalSize(SanitizeArgs(args)[..n]) == TotalSize(args[..n])
    ensures AnyFork(SanitizeArgs(args)) <==> AnyFork(args)
  {
    forall i | 0 <= i < |args| ensures HasFork(SanitizeArgs(args)[i]) <==> HasFork(args[i]) {
      SanitizeKeepsFork(args[i]);
    }
    if n > 0 {
      SanitizeKeepsTotal(args, n - 1);
      assert args[..n][..n - 1] == args[..n - 1];
      assert SanitizeArgs(args)[..n][..n - 1] == SanitizeArgs(args)[..n - 1];
      SanitizeKeepsSize(args[n - 1]);
    }
  }

  /** Validating a sanitized argument list again succeeds and changes nothing. */
  lemma RevalidationIsIdentity(args: seq<JsonValue>, cfg: Config)
    requires Acceptable(args, cfg)
    ensures Acceptable(SanitizeArgs(args), cfg)
    ensures SanitizeArgs(SanitizeArgs(args)) == SanitizeArgs(args)
  {
    var out := SanitizeArgs(args);
    SanitizeKeepsTotal(args, |args|);
    assert out[..|args|] == out && args[..|args|] == args;
    forall i | 0 <= i < |args| ensures AllOk(out[i], cfg, 0) && Sanitize(out[i]) == out[i] {
      SanitizeKeepsLimits(args[i], cfg, 0);
      SanitizeIdempotent(args[i]);
    }
  }
}
