/** Argument validation of serveraction/validate.go: a walk that threads a
    running counter and a latching flag through values whose objects are
    visited in an arbitrary order. */
module Validate {
  /** A decoded number. `digits` is the digit estimate the code computes for it. */
  datatype Number = NaN | Inf(digits: int) | Finite(id: int, digits: int)

  datatype JsonValue =
    | Null
    | Bool(b: bool)
    | Str(s: string)
    | Num(n: Number)
    | Arr(items: seq<JsonValue>)
    | Obj(fields: map<string, JsonValue>)
    | Other(tag: int)

  datatype Config = Config(
    maxDepth: int,
    maxStringLength: int,
    maxArrayLength: int,
    maxObjectKeys: int,
    maxTotalElements: int,
    allowSpecialNum: bool)

  datatype Failure = TooDeep | StringTooLong | BadNumber | ArrayTooLarge | TooManyKeys | TotalExceeded

  datatype Result<+T> = Ok(value: T) | Err(failure: Failure)

  const MAX_DIGITS := 300

  predicate IsDangerousProperty(key: string) {
    key in {"__proto__", "constructor", "prototype", "__defineGetter__", "__defineSetter__",
            "__lookupGetter__", "__lookupSetter__"}
  }

  // ------------------------------------------------------------ specification

  predicate NumberOk(n: Number, cfg: Config) {
    (cfg.allowSpecialNum || n.Finite?) && (n.NaN? || n.digits <= MAX_DIGITS)
  }

  /** The limits of one node, whatever hangs below it. */
  predicate NodeOk(v: JsonValue, cfg: Config, depth: int) {
    && depth <= cfg.maxDepth
    && match v
       case Str(s) => |s| <= cfg.maxStringLength
       case Num(n) => NumberOk(n, cfg)
       case Arr(items) => |items| <= cfg.maxArrayLength
       case Obj(fields) => |fields| <= cfg.maxObjectKeys
       case _ => true
  }

  /** A node is kept unless a dangerous key leads to it. */
  predicate AllOk(v: JsonValue, cfg: Config, depth: int) {
    && NodeOk(v, cfg, depth)
    && match v
       case Arr(items) => forall i :: 0 <= i < |items| ==> AllOk(items[i], cfg, depth + 1)
       case Obj(fields) => forall k :: k in fields && !IsDangerousProperty(k) ==> AllOk(fields[k], cfg, depth + 1)
       case _ => true
  }

  /** The limit of a node that a failure names. */
  predicate NodeBreaks(v: JsonValue, cfg: Config, depth: int, failure: Failure) {
    match failure
    case TooDeep => depth > cfg.maxDepth
    case StringTooLong => v.Str? && |v.s| > cfg.maxStringLength
    case BadNumber => v.Num? && !NumberOk(v.n, cfg)
    case ArrayTooLarge => v.Arr? && |v.items| > cfg.maxArrayLength
    case TooManyKeys => v.Obj? && |v.fields| > cfg.maxObjectKeys
    case TotalExceeded => false
  }

  /** Some kept node breaks that limit. */
  predicate Breaks(v: JsonValue, cfg: Config, depth: int, failure: Failure) {
    || NodeBreaks(v, cfg, depth, failure)
    || match v
       case Arr(items) => exists i :: 0 <= i < |items| && Breaks(items[i], cfg, depth + 1, failure)
       case Obj(fields) => exists k :: k in fields && !IsDangerousProperty(k) && Breaks(fields[k], cfg, depth + 1, failure)
       case _ => false
  }

  /** Some kept array has more than one element. */
  predicate HasFork(v: JsonValue) {
    match v
    case Arr(items) => |items| > 1 || exists i :: 0 <= i < |items| && HasFork(items[i])
    case Obj(fields) => exists k :: k in fields && !IsDangerousProperty(k) && HasFork(fields[k])
    case _ => false
  }

  /** The total the walk counts: string lengths, and array lengths plus one. */
  ghost function Size(v: JsonValue): nat
    decreases v, 2
  {
    match v
    case Str(s) => |s|
    case Arr(items) => |items| + 1 + SizeItems(v, items)
    case Obj(fields) => SizeFields(v, fields)
    case _ => 0
  }

  ghost function SizeItems(v: JsonValue, items: seq<JsonValue>): nat
    requires forall i :: 0 <= i < |items| ==> items[i] < v
    decreases v, 1, |items|
  {
    if items == [] then 0 else SizeItems(v, items[..|items| - 1]) + Size(items[|items| - 1])
  }

  ghost function KeptSize(k: string, v: JsonValue, field: JsonValue): nat
    requires field < v
    decreases v, 0
  {
    if IsDangerousProperty(k) then 0 else Size(field)
  }

  ghost function SizeFields(v: JsonValue, fields: map<string, JsonValue>): nat
    requires forall k :: k in fields ==> fields[k] < v
    decreases v, 1, |fields|
  {
    if fields == map[] then 0
    else var k :| k in fields; KeptSize(k, v, fields[k]) + SizeFields(v, fields - {k})
  }

  /** The total does not depend on the order in which keys are taken. */
  lemma {:induction false} SizeFieldsAnyKey(v: JsonValue, fields: map<string, JsonValue>, k: string)
    requires forall k :: k in fields ==> fields[k] < v
    requires k in fields
    ensures SizeFields(v, fields) == KeptSize(k, v, fields[k]) + SizeFields(v, fields - {k})
    decreases |fields|
  {
    var c :| c in fields && SizeFields(v, fields) == KeptSize(c, v, fields[c]) + SizeFields(v, fields - {c});
    if c != k {
      SizeFieldsAnyKey(v, fields - {c}, k);
      SizeFieldsAnyKey(v, fields - {k}, c);
      assert fields - {c} - {k} == fields - {k} - {c};
    }
  }

  /** The value without its dangerous keys, at every depth. */
  function Sanitize(v: JsonValue): JsonValue {
    match v
    case Arr(items) => Arr(seq(|items|, i requires 0 <= i < |items| => Sanitize(items[i])))
    case Obj(fields) => Obj(map k | k in fields && !IsDangerousProperty(k) :: Sanitize(fields[k]))
    case _ => v
  }

  /** The counter passes the maximum while a fork has been seen. */
  predicate Overflows(cfg: Config, total: int, fork: bool) { total > cfg.maxTotalElements && fork }

  // ------------------------------------------------------------------ the walk

  class ValidationContext {
    var totalElements: int
    var hasFork: bool

    constructor ()
      ensures totalElements == 0 && !hasFork
    {
      totalElements, hasFork := 0, false;
    }

    method Bump(count: int, cfg: Config) returns (ok: bool)
      modifies `totalElements
      ensures totalElements == old(totalElements) + count
      ensures ok == !Overflows(cfg, totalElements, hasFork)
    {
      totalElements := totalElements + count;
      ok := !(totalElements > cfg.maxTotalElements && hasFork);
    }
  }

  /** What the walk over v does to the context and answers, given the context
      it starts from. Both directions: it fails exactly when a kept node breaks
      a limit or the total overflows with a fork in sight. */
  ghost predicate Walked(v: JsonValue, cfg: Config, depth: int, total: int, fork: bool,
                         total': int, fork': bool, r: Result<JsonValue>)
  {
    var fits := !Overflows(cfg, total + Size(v), fork || HasFork(v));
    && (r.Ok? <==> AllOk(v, cfg, depth) && fits)
    && (r.Ok? ==> r.value == Sanitize(v) && total' == total + Size(v) && fork' == (fork || HasFork(v)))
    && (r.Err? ==> if r.failure == TotalExceeded then !fits else Breaks(v, cfg, depth, r.failure))
  }

  method ValidateValue(v: JsonValue, cfg: Config, depth: int, ctx: ValidationContext) returns (r: Result<JsonValue>)
    requires !Overflows(cfg, ctx.totalElements, ctx.hasFork)
    modifies ctx
    ensures Walked(v, cfg, depth, old(ctx.totalElements), old(ctx.hasFork), ctx.totalElements, ctx.hasFork, r)
    decreases v, 1
  {
    if depth > cfg.maxDepth { return Err(TooDeep); }
    match v {
      case Null => return Ok(v);
      case Bool(_) => return Ok(v);
      case Str(s) =>
        if |s| > cfg.maxStringLength { return Err(StringTooLong); }
        var ok := ctx.Bump(|s|, cfg);
        if !ok { return Err(TotalExceeded); }
        return Ok(v);
      case Num(n) =>
        if !cfg.allowSpecialNum && !n.Finite? { return Err(BadNumber); }
        if !n.NaN? && n.digits > MAX_DIGITS { return Err(BadNumber); }
        return Ok(v);
      case Arr(items) =>
        r := ValidateArray(v, cfg, depth, ctx);
      case Obj(fields) =>
        r := ValidateObject(v, cfg, depth, ctx);
      case Other(_) => return Ok(v);
    }
  }

  /** The part of an array walked so far, and what it adds up to. */
  ghost predicate ItemsDone(v: JsonValue, cfg: Config, depth: int, i: int, out: seq<JsonValue>)
    requires v.Arr? && 0 <= i <= |v.items|
  {
    && |out| == i
    && forall j :: 0 <= j < i ==> AllOk(v.items[j], cfg, depth + 1) && out[j] == Sanitize(v.items[j])
  }

  ghost predicate ItemsCounted(v: JsonValue, i: int, total: int, fork: bool, total': int, fork': bool)
    requires v.Arr? && 0 <= i <= |v.items|
  {
    && total' == total + |v.items| + 1 + SizeItems(v, v.items[..i])
    && fork' == (fork || |v.items| > 1 || ForkBefore(v.items, i))
  }

  ghost predicate ForkBefore(items: seq<JsonValue>, i: int)
    requires 0 <= i <= |items|
  {
    exists j :: 0 <= j < i && HasFork(items[j])
  }

  lemma {:induction false} SizeItemsGrows(v: JsonValue, items: seq<JsonValue>, i: nat)
    requires forall i :: 0 <= i < |items| ==> items[i] < v
    requires i <= |items|
    ensures SizeItems(v, items[..i]) <= SizeItems(v, items)
    ensures i < |items| ==> SizeItems(v, items[..i]) + Size(items[i]) == SizeItems(v, items[..i + 1])
    decreases |items|
  {
    if i < |items| {
      assert items[..i + 1][..i] == items[..i];
      var n := |items| - 1;
      if i < n {
        SizeItemsGrows(v, items[..n], i);
        assert items[..n][..i] == items[..i];
      } else {
        assert items[..n] == items[..i] && items[..i + 1] == items;
      }
    } else {
      assert items[..i] == items;
    }
  }

  lemma CountItem(v: JsonValue, i: int, total: int, fork: bool, total': int, fork': bool)
    requires v.Arr? && 0 <= i < |v.items| && ItemsCounted(v, i, total, fork, total', fork')
    ensures ItemsCounted(v, i + 1, total, fork, total' + Size(v.items[i]), fork' || HasFork(v.items[i]))
    ensures total' + Size(v.items[i]) <= total + Size(v)
    ensures fork' || HasFork(v.items[i]) ==> fork || HasFork(v)
  {
    SizeItemsGrows(v, v.items, i);
    SizeItemsGrows(v, v.items, i + 1);
  }

  /** A failure below one element is a failure of the array. */
  lemma ItemFails(v: JsonValue, cfg: Config, depth: int, i: int,
                  total: int, fork: bool, total': int, fork': bool, t: int, f: bool, e: Result<JsonValue>)
    requires v.Arr? && 0 <= i < |v.items| && ItemsCounted(v, i, total, fork, total', fork')
    requires e.Err? && Walked(v.items[i], cfg, depth + 1, total', fork', t, f, e)
    ensures Walked(v, cfg, depth, total, fork, t, f, e)
  {
    CountItem(v, i, total, fork, total', fork');
  }

  lemma AllItemsDone(v: JsonValue, cfg: Config, depth: int, out: seq<JsonValue>,
                     total: int, fork: bool, total': int, fork': bool)
    requires v.Arr? && ItemsDone(v, cfg, depth, |v.items|, out) && NodeOk(v, cfg, depth)
    requires ItemsCounted(v, |v.items|, total, fork, total', fork') && !Overflows(cfg, total', fork')
    ensures Walked(v, cfg, depth, total, fork, total', fork', Ok(Arr(out)))
  {
    assert v.items[..|v.items|] == v.items;
    assert Arr(out) == Sanitize(v);
  }

  method ValidateArray(v: JsonValue, cfg: Config, depth: int, ctx: ValidationContext) returns (r: Result<JsonValue>)
    requires v.Arr? && depth <= cfg.maxDepth && !Overflows(cfg, ctx.totalElements, ctx.hasFork)
    modifies ctx
    ensures Walked(v, cfg, depth, old(ctx.totalElements), old(ctx.hasFork), ctx.totalElements, ctx.hasFork, r)
    decreases v, 0
  {
    var items := v.items;
    ghost var total, fork := ctx.totalElements, ctx.hasFork;
    if |items| > cfg.maxArrayLength { return Err(ArrayTooLarge); }
    if |items| > 1 { ctx.hasFork := true; }
    var ok := ctx.Bump(|items| + 1, cfg);
    if !ok { return Err(TotalExceeded); }
    assert NodeOk(v, cfg, depth) && ItemsCounted(v, 0, total, fork, ctx.totalElements, ctx.hasFork);
    hide Walked, NodeOk, Size, SizeItems, HasFork;
    var out := [];
    var i := 0;
    while i < |items|
      invariant 0 <= i <= |items| && ItemsDone(v, cfg, depth, i, out)
      invariant ItemsCounted(v, i, total, fork, ctx.totalElements, ctx.hasFork)
      invariant !Overflows(cfg, ctx.totalElements, ctx.hasFork)
    {
      ghost var total', fork' := ctx.totalElements, ctx.hasFork;
      CountItem(v, i, total, fork, total', fork');
      var e := ValidateValue(items[i], cfg, depth + 1, ctx);
      if e.Err? {
        ItemFails(v, cfg, depth, i, total, fork, total', fork', ctx.totalElements, ctx.hasFork, e);
        return Err(e.failure);
      }
      out := out + [e.value];
      i := i + 1;
    }
    AllItemsDone(v, cfg, depth, out, total, fork, ctx.totalElements, ctx.hasFork);
    return Ok(Arr(out));
  }

  /** The keys walked so far, and what they add up to. */
  ghost predicate FieldsDone(v: JsonValue, cfg: Config, depth: int,
                             rest: map<string, JsonValue>, out: map<string, JsonValue>)
    requires v.Obj?
  {
    && (forall k :: k in rest ==> k in v.fields && rest[k] == v.fields[k])
    && (forall k :: k in out <==> k in v.fields && k !in rest && !IsDangerousProperty(k))
    && (forall k :: k in out ==> AllOk(v.fields[k], cfg, depth + 1) && out[k] == Sanitize(v.fields[k]))
  }

  ghost predicate Counted(v: JsonValue, rest: map<string, JsonValue>, total: int, fork: bool, total': int, fork': bool)
    requires v.Obj? && forall k :: k in rest ==> rest[k] < v
  {
    && total' + SizeFields(v, rest) == total + SizeFields(v, v.fields)
    && (fork' || ForkIn(rest) <==> fork || ForkIn(v.fields))
  }

  ghost predicate ForkIn(fields: map<string, JsonValue>) {
    exists k :: k in fields && !IsDangerousProperty(k) && HasFork(fields[k])
  }

  lemma ForkTaken(rest: map<string, JsonValue>, key: string)
    requires key in rest
    ensures ForkIn(rest) <==> ForkIn(rest - {key}) || (!IsDangerousProperty(key) && HasFork(rest[key]))
  {
    var less := rest - {key};
    if ForkIn(less) {
      var k :| k in less && !IsDangerousProperty(k) && HasFork(less[k]);
      assert k in rest && rest[k] == less[k];
    }
    if ForkIn(rest) {
      var k :| k in rest && !IsDangerousProperty(k) && HasFork(rest[k]);
      if k != key { assert k in less && less[k] == rest[k]; }
    }
  }

  /** Taking one key off the map moves its size and fork into the counters. */
  lemma CountKey(v: JsonValue, rest: map<string, JsonValue>, key: string, total: int, fork: bool, total': int, fork': bool)
    requires v.Obj? && key in rest && forall k :: k in rest ==> rest[k] < v
    requires Counted(v, rest, total, fork, total', fork')
    ensures IsDangerousProperty(key) ==> Counted(v, rest - {key}, total, fork, total', fork')
    ensures !IsDangerousProperty(key) ==>
      && Counted(v, rest - {key}, total, fork, total' + Size(rest[key]), fork' || HasFork(rest[key]))
      && total' + Size(rest[key]) <= total + SizeFields(v, v.fields)
      && (fork' || HasFork(rest[key]) ==> fork || ForkIn(v.fields))
  {
    SizeFieldsAnyKey(v, rest, key);
    ForkTaken(rest, key);
  }

  lemma AllFieldsDone(v: JsonValue, cfg: Config, depth: int, out: map<string, JsonValue>,
                      total: int, fork: bool, total': int, fork': bool)
    requires v.Obj? && FieldsDone(v, cfg, depth, map[], out) && NodeOk(v, cfg, depth)
    requires Counted(v, map[], total, fork, total', fork') && !Overflows(cfg, total', fork')
    ensures Walked(v, cfg, depth, total, fork, total', fork', Ok(Obj(out)))
  {
    assert out == map k | k in v.fields && !IsDangerousProperty(k) :: Sanitize(v.fields[k]);
    hide NodeOk, IsDangerousProperty;
  }

  lemma FieldDone(v: JsonValue, cfg: Config, depth: int,
                  rest: map<string, JsonValue>, out: map<string, JsonValue>, key: string)
    requires v.Obj? && FieldsDone(v, cfg, depth, rest, out) && key in rest
    ensures IsDangerousProperty(key) ==> FieldsDone(v, cfg, depth, rest - {key}, out)
    ensures !IsDangerousProperty(key) && AllOk(rest[key], cfg, depth + 1) ==>
      FieldsDone(v, cfg, depth, rest - {key}, out[key := Sanitize(rest[key])])
  {}

  /** A failure below one key is a failure of the object. */
  lemma FieldFails(v: JsonValue, cfg: Config, depth: int, rest: map<string, JsonValue>, key: string,
                   total: int, fork: bool, total': int, fork': bool, t: int, f: bool, e: Result<JsonValue>)
    requires v.Obj? && key in rest && key in v.fields && v.fields[key] == rest[key] && !IsDangerousProperty(key)
    requires forall k :: k in rest ==> rest[k] < v
    requires Counted(v, rest, total, fork, total', fork')
    requires e.Err? && Walked(rest[key], cfg, depth + 1, total', fork', t, f, e)
    ensures Walked(v, cfg, depth, total, fork, t, f, e)
  {
    CountKey(v, rest, key, total, fork, total', fork');
  }

  method ValidateObject(v: JsonValue, cfg: Config, depth: int, ctx: ValidationContext) returns (r: Result<JsonValue>)
    requires v.Obj? && depth <= cfg.maxDepth && !Overflows(cfg, ctx.totalElements, ctx.hasFork)
    modifies ctx
    ensures Walked(v, cfg, depth, old(ctx.totalElements), old(ctx.hasFork), ctx.totalElements, ctx.hasFork, r)
    decreases v, 0
  {
    if |v.fields| > cfg.maxObjectKeys { return Err(TooManyKeys); }
    ghost var total, fork := ctx.totalElements, ctx.hasFork;
    var out: map<string, JsonValue> := map[];
    var rest := v.fields;
    while rest != map[]
      invariant FieldsDone(v, cfg, depth, rest, out)
      invariant Counted(v, rest, total, fork, ctx.totalElements, ctx.hasFork)
      invariant !Overflows(cfg, ctx.totalElements, ctx.hasFork)
      decreases |rest|
    {
      var key :| key in rest;
      var val := rest[key];
      FieldDone(v, cfg, depth, rest, out, key);
      ghost var before, total', fork' := rest, ctx.totalElements, ctx.hasFork;
      CountKey(v, rest, key, total, fork, total', fork');
      rest := rest - {key};
      if IsDangerousProperty(key) { continue; }
      var e := ValidateValue(val, cfg, depth + 1, ctx);
      if e.Err? {
        FieldFails(v, cfg, depth, before, key, total, fork, total', fork', ctx.totalElements, ctx.hasFork, e);
        return Err(e.failure);
      }
      out := out[key := e.value];
    }
    AllFieldsDone(v, cfg, depth, out, total, fork, ctx.totalElements, ctx.hasFork);
    return Ok(Obj(out));
  }

  // --------------------------------------------------- the argument list

  ghost function TotalSize(args: seq<JsonValue>): nat {
    if args == [] then 0 else TotalSize(args[..|args| - 1]) + Size(args[|args| - 1])
  }

  ghost predicate AnyFork(args: seq<JsonValue>) { exists i :: 0 <= i < |args| && HasFork(args[i]) }

  ghost predicate AllArgsOk(args: seq<JsonValue>, cfg: Config) {
    forall i :: 0 <= i < |args| ==> AllOk(args[i], cfg, 0)
  }

  /** The order-free verdict: every kept node is within its limits, and not both
      the total is too large and some kept array forks. */
  ghost predicate Acceptable(args: seq<JsonValue>, cfg: Config) {
    AllArgsOk(args, cfg) && !Overflows(cfg, TotalSize(args), AnyFork(args))
  }

  function SanitizeArgs(args: seq<JsonValue>): (out: seq<JsonValue>)
    ensures |out| == |args|
  {
    seq(|args|, i requires 0 <= i < |args| => Sanitize(args[i]))
  }

  lemma {:induction false} TotalSizeGrows(args: seq<JsonValue>, i: nat)
    requires i <= |args|
    ensures TotalSize(args[..i]) <= TotalSize(args)
    decreases |args|
  {
    if i < |args| {
      TotalSizeGrows(args[..|args| - 1], i);
      assert args[..|args| - 1][..i] == args[..i];
    } else {
      assert args[..i] == args;
    }
  }

  lemma ForkArg(args: seq<JsonValue>, i: nat)
    requires i < |args|
    ensures AnyFork(args[..i + 1]) <==> AnyFork(args[..i]) || HasFork(args[i])
    ensures AnyFork(args[..i + 1]) ==> AnyFork(args)
  {
    hide HasFork;
    var was, now := args[..i], args[..i + 1];
    assert forall j :: 0 <= j < i ==> was[j] == now[j] == args[j];
    assert now[i] == args[i];
  }

  lemma CountArg(args: seq<JsonValue>, i: nat)
    requires i < |args|
    ensures TotalSize(args[..i + 1]) == TotalSize(args[..i]) + Size(args[i]) <= TotalSize(args)
    ensures AnyFork(args[..i + 1]) <==> AnyFork(args[..i]) || HasFork(args[i])
    ensures AnyFork(args[..i + 1]) ==> AnyFork(args)
  {
    assert args[..i + 1][..i] == args[..i];
    TotalSizeGrows(args, i + 1);
    ForkArg(args, i);
  }

  /** Whatever order the walk takes through the objects, it accepts exactly the
      acceptable argument lists and answers with the sanitized arguments. */
  method ValidateAndSanitizeArgs(args: seq<JsonValue>, cfg: Config) returns (r: Result<seq<JsonValue>>)
    ensures r.Ok? <==> Acceptable(args, cfg)
    ensures r.Ok? ==> r.value == SanitizeArgs(args)
    ensures r.Err? ==> if r.failure == TotalExceeded
      then Overflows(cfg, TotalSize(args), AnyFork(args))
      else exists i :: 0 <= i < |args| && Breaks(args[i], cfg, 0, r.failure)
  {
    var ctx := new ValidationContext();
    var out := [];
    var i := 0;
    while i < |args|
      invariant 0 <= i <= |args| && |out| == i
      invariant forall j :: 0 <= j < i ==> AllOk(args[j], cfg, 0) && out[j] == Sanitize(args[j])
      invariant ctx.totalElements == TotalSize(args[..i]) && ctx.hasFork == AnyFork(args[..i])
      invariant !Overflows(cfg, ctx.totalElements, ctx.hasFork)
    {
      CountArg(args, i);
      var e := ValidateValue(args[i], cfg, 0, ctx);
      if e.Err? { return Err(e.failure); }
      out := out + [e.value];
      i := i + 1;
    }
    assert args[..i] == args;
    return Ok(out);
  }
}
