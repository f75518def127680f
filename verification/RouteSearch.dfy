/** What the route trie means, stated on the list of inserted routes: which
    route owns a slot, the backtracking search over those slots, and the proof
    that the search returns the least route among all that match. */
module RouteSearch {
  import opened Strings
  import opened PatternMatch
  import opened Specificity

  /** An edge of the trie. */
  datatype Step = Text(text: string) | Wild

  /** The three places of a node that can hold a route. */
  datatype Slot = AtNode | AtCatchAll | AtOptCatchAll

  function StepOf(seg: Segment): Step {
    if seg.kind.Static? then Text(seg.value) else Wild
  }

  /** The edges a pattern walks: everything up to its catch-all. */
  function SpineOf(segs: seq<Segment>): (p: seq<Step>)
    ensures |p| <= |segs|
  {
    if segs == [] || segs[0].ConsumesRest() then [] else [StepOf(segs[0])] + SpineOf(segs[1..])
  }

  lemma {:induction false} SpineEdges(segs: seq<Segment>)
    ensures forall i :: 0 <= i < |SpineOf(segs)| ==> SpineOf(segs)[i] == StepOf(segs[i]) && !segs[i].ConsumesRest()
    ensures |SpineOf(segs)| < |segs| ==> segs[|SpineOf(segs)|].ConsumesRest()
  {
    if segs != [] && !segs[0].ConsumesRest() { SpineEdges(segs[1..]); }
  }

  /** The slot of the last node that the pattern claims. */
  function SlotOf(segs: seq<Segment>): Slot {
    var n := |SpineOf(segs)|;
    if n == |segs| then AtNode else if segs[n].kind.CatchAll? then AtCatchAll else AtOptCatchAll
  }

  function Segs(r: CompiledRoute): seq<Segment> { Parse(r.pattern) }
  function Spine(r: CompiledRoute): seq<Step> { SpineOf(Segs(r)) }

  predicate Claims(r: CompiledRoute, p: seq<Step>, slot: Slot) {
    Spine(r) == p && SlotOf(Segs(r)) == slot
  }

  /** The first inserted route that claims the slot. */
  function Claim(rs: seq<CompiledRoute>, p: seq<Step>, slot: Slot): (o: Option<CompiledRoute>)
    ensures o.Some? ==> o.value in rs && Claims(o.value, p, slot)
  {
    if rs == [] then None
    else if Claims(rs[0], p, slot) then Some(rs[0])
    else Claim(rs[1..], p, slot)
  }

  /** The name the slot's owner gives its catch-all. */
  function ClaimName(r: CompiledRoute): string {
    var n := |Spine(r)|;
    if n < |Segs(r)| then Segs(r)[n].value else ""
  }

  predicate PassesWild(r: CompiledRoute, p: seq<Step>) { p + [Wild] <= Spine(r) }

  /** The name of the wildcard below p: the first route through it decides. */
  function WildName(rs: seq<CompiledRoute>, p: seq<Step>): string {
    if rs == [] then ""
    else if PassesWild(rs[0], p) then Segs(rs[0])[|p|].value
    else WildName(rs[1..], p)
  }

  /** Whether the trie has a node at p. */
  ghost predicate Present(rs: seq<CompiledRoute>, p: seq<Step>) {
    p == [] || exists r :: r in rs && p <= Spine(r)
  }

  datatype Found = Found(route: CompiledRoute, bindings: seq<Binding>)

  function DecodeAll(path: seq<string>): (ds: seq<string>)
    ensures |ds| == |path|
  {
    seq(|path|, i requires 0 <= i < |path| => Decode(path[i]))
  }

  /** The backtracking search: static child, wildcard child, catch-all, optional catch-all. */
  function Search(rs: seq<CompiledRoute>, p: seq<Step>, path: seq<string>): Option<Found>
    decreases |path|
  {
    if path == [] then
      match Claim(rs, p, AtNode)
      case Some(r) => Some(Found(r, []))
      case None =>
        match Claim(rs, p, AtOptCatchAll)
        case Some(r) => Some(Found(r, []))
        case None => None
    else
      var lit := Search(rs, p + [Text(path[0])], path[1..]);
      if lit.Some? then lit
      else
        var wild := Search(rs, p + [Wild], path[1..]);
        if wild.Some? then
          Some(Found(wild.value.route, [Binding(WildName(rs, p), Single(Decode(path[0])))] + wild.value.bindings))
        else SearchRest(rs, p, path)
  }

  /** The catch-alls of a place, which take all that is left. */
  function SearchRest(rs: seq<CompiledRoute>, p: seq<Step>, path: seq<string>): Option<Found> {
    match Claim(rs, p, AtCatchAll)
    case Some(r) => Some(Found(r, [Binding(ClaimName(r), Many(DecodeAll(path)))]))
    case None =>
      match Claim(rs, p, AtOptCatchAll)
      case Some(r) => Some(Found(r, [Binding(ClaimName(r), Many(DecodeAll(path)))]))
      case None => None
  }

  // ------------------------------------------------ the simple specification

  /** Segment by segment: literal text, any one segment, one or more, zero or more. */
  predicate SegMatches(segs: seq<Segment>, path: seq<string>) {
    if segs == [] then path == []
    else match segs[0].kind
      case OptCatchAll => true
      case CatchAll => path != []
      case Static => path != [] && path[0] == segs[0].value && SegMatches(segs[1..], path[1..])
      case Dynamic => path != [] && SegMatches(segs[1..], path[1..])
  }

  /** Kinds compared left to right, a list that ends before one that continues. */
  predicate KindsBefore(a: seq<Segment>, b: seq<Segment>) {
    b != [] && (a == [] || a[0].kind.Rank() < b[0].kind.Rank()
                || (a[0].kind == b[0].kind && KindsBefore(a[1..], b[1..])))
  }

  predicate SameKinds(a: seq<Segment>, b: seq<Segment>) { Kinds(a) == Kinds(b) }

  /** The reference order on routes. */
  predicate Better(a: CompiledRoute, b: CompiledRoute) {
    KindsBefore(Segs(a), Segs(b)) || (SameKinds(Segs(a), Segs(b)) && RouteLess(a, b))
  }

  /** r is the least of the routes that match. */
  ghost predicate IsBest(rs: seq<CompiledRoute>, path: seq<string>, r: CompiledRoute) {
    && r in rs && SegMatches(Segs(r), path)
    && forall r' :: r' in rs && SegMatches(Segs(r'), path) ==> r' == r || Better(r, r')
  }

  /** r is not listed after r'. */
  ghost predicate NotAfter(rs: seq<CompiledRoute>, r: CompiledRoute, r': CompiledRoute) {
    exists i, j :: 0 <= i <= j < |rs| && rs[i] == r && rs[j] == r'
  }

  // ------------------------------------------------------------------ lemmas

  lemma {:induction false} ClaimFirst(rs: seq<CompiledRoute>, p: seq<Step>, slot: Slot, r: CompiledRoute)
    requires r in rs && Claims(r, p, slot)
    ensures Claim(rs, p, slot).Some? && NotAfter(rs, Claim(rs, p, slot).value, r)
  {
    if Claims(rs[0], p, slot) {
      var j :| 0 <= j < |rs| && rs[j] == r;
      assert 0 <= 0 <= j < |rs| && rs[0] == rs[0] && rs[j] == r;
    } else {
      assert r in rs[1..];
      ClaimFirst(rs[1..], p, slot, r);
      var i, j :| 0 <= i <= j < |rs[1..]| && rs[1..][i] == Claim(rs[1..], p, slot).value && rs[1..][j] == r;
      assert rs[i + 1] == Claim(rs, p, slot).value && rs[j + 1] == r;
    }
  }

  /** The part of r's pattern still to match below p. */
  function Below(r: CompiledRoute, p: seq<Step>): seq<Segment>
    requires p <= Spine(r)
  {
    Segs(r)[|p|..]
  }

  ghost predicate MatchesBelow(rs: seq<CompiledRoute>, r: CompiledRoute, p: seq<Step>, path: seq<string>) {
    r in rs && p <= Spine(r) && SegMatches(Below(r, p), path)
  }

  /** What one step down the trie does to the part still to match. */
  lemma BelowStep(r: CompiledRoute, p: seq<Step>)
    requires p <= Spine(r) && Below(r, p) != []
    ensures var seg := Below(r, p)[0];
      if seg.ConsumesRest() then Spine(r) == p
      else p + [StepOf(seg)] <= Spine(r) && Below(r, p + [StepOf(seg)]) == Below(r, p)[1..]
  {
    SpineEdges(Segs(r));
  }

  lemma BelowEnd(r: CompiledRoute, p: seq<Step>)
    requires p <= Spine(r)
    ensures Below(r, p) == [] <==> Claims(r, p, AtNode)
  {}

  /** A route below p + [s] is one below p whose next segment is s. */
  lemma BelowUp(r: CompiledRoute, p: seq<Step>, s: Step)
    requires p + [s] <= Spine(r)
    ensures p <= Spine(r) && Below(r, p) != []
    ensures StepOf(Below(r, p)[0]) == s && !Below(r, p)[0].ConsumesRest()
    ensures Below(r, p + [s]) == Below(r, p)[1..]
  {
    SpineEdges(Segs(r));
    assert (p + [s])[|p|] == s;
    assert Spine(r)[|p|] == s;
  }

  lemma MatchesUp(rs: seq<CompiledRoute>, r: CompiledRoute, p: seq<Step>, s: Step, path: seq<string>)
    requires path != [] && (s == Text(path[0]) || s == Wild)
    requires MatchesBelow(rs, r, p + [s], path[1..])
    ensures MatchesBelow(rs, r, p, path)
  {
    BelowUp(r, p, s);
  }

  /** Where a match below p goes next, by its first segment. */
  lemma MatchesDown(rs: seq<CompiledRoute>, r: CompiledRoute, p: seq<Step>, path: seq<string>)
    requires MatchesBelow(rs, r, p, path) && path != []
    ensures Below(r, p) != []
    ensures match Below(r, p)[0].kind
      case Static => MatchesBelow(rs, r, p + [Text(path[0])], path[1..])
      case Dynamic => MatchesBelow(rs, r, p + [Wild], path[1..])
      case CatchAll => Claims(r, p, AtCatchAll)
      case OptCatchAll => Claims(r, p, AtOptCatchAll)
  {
    BelowStep(r, p);
  }

  /** r beats r' below p: smaller kinds, or the same kinds and listed no later. */
  ghost predicate BeatsBelow(rs: seq<CompiledRoute>, r: CompiledRoute, r': CompiledRoute, p: seq<Step>)
    requires p <= Spine(r) && p <= Spine(r')
  {
    || KindsBefore(Below(r, p), Below(r', p))
    || (SameKinds(Below(r, p), Below(r', p)) && NotAfter(rs, r, r'))
  }

  lemma SameKindsCons(a: seq<Segment>, b: seq<Segment>)
    requires a != [] && b != [] && a[0].kind == b[0].kind && SameKinds(a[1..], b[1..])
    ensures SameKinds(a, b)
  {
    assert Kinds(a) == [a[0].kind] + Kinds(a[1..]);
    assert Kinds(b) == [b[0].kind] + Kinds(b[1..]);
  }

  lemma BeatsUp(rs: seq<CompiledRoute>, r: CompiledRoute, r': CompiledRoute, p: seq<Step>, s: Step)
    requires p + [s] <= Spine(r) && p + [s] <= Spine(r') && BeatsBelow(rs, r, r', p + [s])
    ensures p <= Spine(r) && p <= Spine(r') && BeatsBelow(rs, r, r', p)
  {
    BelowUp(r, p, s);
    BelowUp(r', p, s);
    var a, b := Below(r, p), Below(r', p);
    assert a[0].kind == b[0].kind;
    if SameKinds(a[1..], b[1..]) { SameKindsCons(a, b); }
  }

  /** The search fails exactly when nothing below p matches, and what it
      returns beats every match below p. */
  ghost predicate BestUnder(rs: seq<CompiledRoute>, p: seq<Step>, path: seq<string>) {
    && (Search(rs, p, path).Some? ==> MatchesBelow(rs, Search(rs, p, path).value.route, p, path))
    && forall r' :: MatchesBelow(rs, r', p, path) ==>
         Search(rs, p, path).Some? && BeatsBelow(rs, Search(rs, p, path).value.route, r', p)
  }

  lemma {:induction false} SearchBest(rs: seq<CompiledRoute>, p: seq<Step>, path: seq<string>)
    ensures BestUnder(rs, p, path)
    decreases |path|
  {
    if path == [] {
      SearchBestEmpty(rs, p);
    } else {
      SearchBest(rs, p + [Text(path[0])], path[1..]);
      SearchBest(rs, p + [Wild], path[1..]);
      SearchSound(rs, p, path);
      forall r' | MatchesBelow(rs, r', p, path)
        ensures Search(rs, p, path).Some? && BeatsBelow(rs, Search(rs, p, path).value.route, r', p)
      {
        SearchComplete(rs, p, path, r');
      }
    }
  }

  lemma SearchBestEmpty(rs: seq<CompiledRoute>, p: seq<Step>)
    ensures BestUnder(rs, p, [])
  {
    if Claim(rs, p, AtOptCatchAll).Some? {
      OneLeft(Claim(rs, p, AtOptCatchAll).value, p);
    }
    forall r' | MatchesBelow(rs, r', p, [])
      ensures Search(rs, p, []).Some? && BeatsBelow(rs, Search(rs, p, []).value.route, r', p)
    {
      BelowEnd(r', p);
      if Below(r', p) == [] {
        ClaimFirst(rs, p, AtNode, r');
      } else {
        BelowStep(r', p);
        assert Claims(r', p, AtOptCatchAll);
        ClaimFirst(rs, p, AtOptCatchAll, r');
        OneLeft(r', p);
      }
    }
  }

  /** At the node that a catch-all pattern claims, only the catch-all is left. */
  lemma OneLeft(r: CompiledRoute, p: seq<Step>)
    requires Spine(r) == p && !Claims(r, p, AtNode)
    ensures |Below(r, p)| == 1
    ensures Below(r, p)[0].kind == (if Claims(r, p, AtCatchAll) then CatchAll else OptCatchAll)
  {
    SpineEdges(Segs(r));
    ParseWellFormed(r.pattern);
  }

  lemma SearchSound(rs: seq<CompiledRoute>, p: seq<Step>, path: seq<string>)
    requires path != []
    requires BestUnder(rs, p + [Text(path[0])], path[1..]) && BestUnder(rs, p + [Wild], path[1..])
    ensures Search(rs, p, path).Some? ==> MatchesBelow(rs, Search(rs, p, path).value.route, p, path)
  {
    var lit, wild := Search(rs, p + [Text(path[0])], path[1..]), Search(rs, p + [Wild], path[1..]);
    if lit.Some? {
      MatchesUp(rs, lit.value.route, p, Text(path[0]), path);
    } else if wild.Some? {
      MatchesUp(rs, wild.value.route, p, Wild, path);
    } else if Claim(rs, p, AtCatchAll).Some? {
      OneLeft(Claim(rs, p, AtCatchAll).value, p);
    } else if Claim(rs, p, AtOptCatchAll).Some? {
      OneLeft(Claim(rs, p, AtOptCatchAll).value, p);
    }
  }

  lemma SearchComplete(rs: seq<CompiledRoute>, p: seq<Step>, path: seq<string>, r': CompiledRoute)
    requires path != [] && MatchesBelow(rs, r', p, path)
    requires BestUnder(rs, p + [Text(path[0])], path[1..]) && BestUnder(rs, p + [Wild], path[1..])
    ensures Search(rs, p, path).Some?
    ensures MatchesBelow(rs, Search(rs, p, path).value.route, p, path)
    ensures BeatsBelow(rs, Search(rs, p, path).value.route, r', p)
  {
    SearchSound(rs, p, path);
    var lit, wild := Search(rs, p + [Text(path[0])], path[1..]), Search(rs, p + [Wild], path[1..]);
    var kind := Below(r', p)[0].kind;
    MatchesDown(rs, r', p, path);
    if lit.Some? {
      var r := lit.value.route;
      BelowUp(r, p, Text(path[0]));
      if kind.Static? { BeatsUp(rs, r, r', p, Text(path[0])); }
    } else if wild.Some? {
      var r := wild.value.route;
      BelowUp(r, p, Wild);
      if kind.Dynamic? { BeatsUp(rs, r, r', p, Wild); }
    } else if kind.CatchAll? {
      ClaimFirst(rs, p, AtCatchAll, r');
      OneLeft(r', p);
      OneLeft(Claim(rs, p, AtCatchAll).value, p);
    } else {
      ClaimFirst(rs, p, AtOptCatchAll, r');
      OneLeft(r', p);
      OneLeft(Claim(rs, p, AtOptCatchAll).value, p);
      if Claim(rs, p, AtCatchAll).Some? {
        OneLeft(Claim(rs, p, AtCatchAll).value, p);
      }
    }
  }

  /** Nothing is found below a place the trie has no node for. */
  lemma SearchAbsent(rs: seq<CompiledRoute>, p: seq<Step>, path: seq<string>)
    requires !Present(rs, p)
    ensures Search(rs, p, path).None?
  {
    SearchBest(rs, p, path);
  }

  /** On a sorted list of compiled routes, the search finds a route exactly
      when some pattern matches, and then it is the least such route. */
  lemma SearchFindsBest(rs: seq<CompiledRoute>, path: seq<string>)
    requires Sorted(rs) && Canonical(rs)
    ensures Search(rs, [], path).Some? <==> exists r :: r in rs && SegMatches(Segs(r), path)
    ensures Search(rs, [], path).Some? ==> IsBest(rs, path, Search(rs, [], path).value.route)
  {
    SearchBest(rs, [], path);
    forall r | r in rs ensures MatchesBelow(rs, r, [], path) <==> SegMatches(Segs(r), path) {
      assert Below(r, []) == Segs(r);
    }
    if Search(rs, [], path).Some? {
      var r := Search(rs, [], path).value.route;
      forall r' | r' in rs && SegMatches(Segs(r'), path) ensures r' == r || Better(r, r') {
        assert MatchesBelow(rs, r', [], path);
        assert Below(r, []) == Segs(r) && Below(r', []) == Segs(r');
        if !KindsBefore(Segs(r), Segs(r')) {
          var i, j :| 0 <= i <= j < |rs| && rs[i] == r && rs[j] == r';
          RouteLessTotal(r, r');
        }
      }
    }
  }

  /** The reference order is a strict order: two best routes are the same. */
  lemma {:induction false} KindsBeforeAsymmetric(a: seq<Segment>, b: seq<Segment>)
    ensures !(KindsBefore(a, b) && KindsBefore(b, a))
    ensures SameKinds(a, b) ==> !KindsBefore(a, b)
  {
    assert SameKinds(a, b) ==> |a| == |b| && (a != [] ==> Kinds(a)[0] == Kinds(b)[0]);
    if a != [] && b != [] && a[0].kind == b[0].kind {
      KindsBeforeAsymmetric(a[1..], b[1..]);
      if SameKinds(a, b) {
        forall i | 0 <= i < |a| - 1 ensures a[1..][i].kind == b[1..][i].kind {
          assert Kinds(a)[i + 1] == Kinds(b)[i + 1];
        }
        assert Kinds(a[1..]) == Kinds(b[1..]);
      }
    }
  }

  lemma BestIsUnique(rs: seq<CompiledRoute>, path: seq<string>, r: CompiledRoute, r': CompiledRoute)
    requires IsBest(rs, path, r) && IsBest(rs, path, r')
    ensures r == r'
  {
    if r != r' {
      assert Better(r, r') && Better(r', r);
      KindsBeforeAsymmetric(Segs(r), Segs(r'));
      KindsBeforeAsymmetric(Segs(r'), Segs(r));
      RouteLessTotal(r, r');
    }
  }

  /** For patterns that start with a slash, equal kinds leave only the
      alphabetical tie-break. */
  lemma TieBreakIsAlphabetical(a: CompiledRoute, b: CompiledRoute)
    requires a == Compile(a.pattern) && b == Compile(b.pattern)
    requires "/" <= a.pattern && "/" <= b.pattern && SameKinds(Segs(a), Segs(b))
    ensures RouteLess(a, b) <==> Less(a.pattern, b.pattern)
  {
    ParseWellFormed(a.pattern);
    ParseWellFormed(b.pattern);
    assert |Kinds(Segs(a))| == |Kinds(Segs(b))|;
    assert a.segments == b.segments;
    MoreSpecificTotal(a.segments, b.segments);
  }
}
