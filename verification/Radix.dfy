/** The segment trie of patternmatch/radix.go: nodes updated in place by
    `insert`, and a backtracking `matchNode` that shares one params map. */
module Radix {
  import opened Strings
  import opened PatternMatch
  import opened Specificity
  import opened RouteSearch

  class RadixNode {
    var staticChildren: map<string, RadixNode>
    var wildChild: RadixNode?
    var wildName: string
    var catchAll: Option<CompiledRoute>
    var catchAllName: string
    var optCatchAll: Option<CompiledRoute>
    var optCatchAllName: string
    var route: Option<CompiledRoute>

    constructor ()
      ensures IsEmpty()
    {
      staticChildren, wildChild, wildName := map[], null, "";
      catchAll, catchAllName, optCatchAll, optCatchAllName := None, "", None, "";
      route := None;
    }

    ghost predicate IsEmpty()
      reads this
    {
      staticChildren == map[] && wildChild == null && catchAll == optCatchAll == route == None
    }

    /** The slots of this node are owned as the inserted routes say. */
    ghost predicate Holds(rs: seq<CompiledRoute>, p: seq<Step>)
      reads this`route, this`catchAll, this`catchAllName, this`optCatchAll, this`optCatchAllName
    {
      && route == Claim(rs, p, AtNode)
      && catchAll == Claim(rs, p, AtCatchAll)
      && optCatchAll == Claim(rs, p, AtOptCatchAll)
      && (catchAll.Some? ==> catchAllName == ClaimName(catchAll.value))
      && (optCatchAll.Some? ==> optCatchAllName == ClaimName(optCatchAll.value))
    }

    /** A node off cr's spine already holds what the longer list says. */
    lemma HoldsSnoc(rs: seq<CompiledRoute>, cr: CompiledRoute, p: seq<Step>)
      requires Holds(rs, p) && p != Spine(cr)
      ensures Holds(rs + [cr], p)
    {
      ClaimSnoc(rs, cr, p, AtNode);
      ClaimSnoc(rs, cr, p, AtCatchAll);
      ClaimSnoc(rs, cr, p, AtOptCatchAll);
    }

    method TakeSlot(ghost rs: seq<CompiledRoute>, ghost p: seq<Step>, slot: Slot, name: string, cr: CompiledRoute)
      requires Holds(rs, p) && Claims(cr, p, slot) && name == ClaimName(cr)
      modifies `route, `catchAll, `catchAllName, `optCatchAll, `optCatchAllName
      ensures Holds(rs + [cr], p)
    {
      ClaimSnoc(rs, cr, p, AtNode);
      ClaimSnoc(rs, cr, p, AtCatchAll);
      ClaimSnoc(rs, cr, p, AtOptCatchAll);
      match slot {
        case AtNode =>
          if route == None { route := Some(cr); }
        case AtCatchAll =>
          if catchAll == None { catchAll, catchAllName := Some(cr), name; }
        case AtOptCatchAll =>
          if optCatchAll == None { optCatchAll, optCatchAllName := Some(cr), name; }
      }
    }
  }

  /** The params map that one match call shares along its recursion. */
  class ParamMap {
    var m: map<string, Value>
    constructor () ensures m == map[] { m := map[]; }
  }

  lemma SnocInjective(p: seq<Step>, x: Step)
    ensures forall q, y :: q + [y] == p + [x] ==> q == p && y == x
  {
    forall q: seq<Step>, y: Step | q + [y] == p + [x] ensures q == p && y == x {
      assert |q + [y]| == |p + [x]|;
      assert q == (q + [y])[..|q|] == (p + [x])[..|p|] == p;
      assert (q + [y])[|q|] == y && (p + [x])[|p|] == x;
    }
  }

  ghost function Prefixes(p: seq<Step>): set<seq<Step>> {
    set i | 0 <= i <= |p| :: p[..i]
  }

  /** The paths of edges the trie of rs has a node for. */
  ghost function Places(rs: seq<CompiledRoute>): set<seq<Step>> {
    if rs == [] then {[]} else Prefixes(Spine(rs[0])) + Places(rs[1..])
  }

  lemma PrefixesSnoc(p: seq<Step>, s: Step)
    ensures Prefixes(p + [s]) == Prefixes(p) + {p + [s]}
  {
    forall q ensures q in Prefixes(p + [s]) <==> q in Prefixes(p) + {p + [s]} {
      if q in Prefixes(p + [s]) {
        var i :| 0 <= i <= |p + [s]| && q == (p + [s])[..i];
        if i <= |p| { assert q == p[..i]; } else { assert q == p + [s]; }
      }
      if q in Prefixes(p) {
        var i :| 0 <= i <= |p| && q == p[..i];
        assert q == (p + [s])[..i];
      }
      if q == p + [s] { assert q == (p + [s])[..|p| + 1]; }
    }
  }

  lemma {:induction false} PlacesSnoc(rs: seq<CompiledRoute>, cr: CompiledRoute)
    ensures Places(rs + [cr]) == Places(rs) + Prefixes(Spine(cr))
  {
    if rs == [] {
      assert rs + [cr] == [cr];
      assert Spine(cr)[..0] in Prefixes(Spine(cr));
    } else {
      assert (rs + [cr])[1..] == rs[1..] + [cr];
      PlacesSnoc(rs[1..], cr);
    }
  }

  lemma {:induction false} PlacesPresent(rs: seq<CompiledRoute>, p: seq<Step>)
    ensures p in Places(rs) <==> Present(rs, p)
  {
    if rs != [] {
      PlacesPresent(rs[1..], p);
      assert p in Prefixes(Spine(rs[0])) <==> p <= Spine(rs[0]) by {
        if p <= Spine(rs[0]) { assert p == Spine(rs[0])[..|p|]; }
      }
      if Present(rs[1..], p) && p != [] {
        var r :| r in rs[1..] && p <= Spine(r);
        assert r in rs;
      }
    }
  }

  lemma ClaimedPlace(rs: seq<CompiledRoute>, p: seq<Step>, slot: Slot)
    requires Claim(rs, p, slot).Some?
    ensures p in Places(rs)
  {
    PlacesPresent(rs, p);
    var r := Claim(rs, p, slot).value;
    assert r in rs && p <= Spine(r);
  }

  lemma ClaimAbsent(rs: seq<CompiledRoute>, p: seq<Step>, slot: Slot)
    requires p !in Places(rs)
    ensures Claim(rs, p, slot) == None
  {
    if Claim(rs, p, slot).Some? { ClaimedPlace(rs, p, slot); }
  }

  /** Where the walk stands before segment i, and where that segment leads. */
  lemma SpineStep(cr: CompiledRoute, i: nat)
    requires i <= |Spine(cr)| && i < |Segs(cr)|
    ensures var seg, q := Segs(cr)[i], Spine(cr)[..i];
      if seg.ConsumesRest() then
        Claims(cr, q, if seg.kind.CatchAll? then AtCatchAll else AtOptCatchAll) && ClaimName(cr) == seg.value
      else
        && i < |Spine(cr)| && Spine(cr)[..i + 1] == q + [StepOf(seg)]
        && (seg.kind.Dynamic? ==> PassesWild(cr, q))
        && (i == |Segs(cr)| - 1 ==> Claims(cr, q + [StepOf(seg)], AtNode) && ClaimName(cr) == "")
  {
    SpineEdges(Segs(cr));
    if i < |Spine(cr)| {
      assert Spine(cr)[..i + 1] == Spine(cr)[..i] + [StepOf(Segs(cr)[i])];
    } else {
      assert Spine(cr)[..i] == Spine(cr);
    }
  }

  lemma {:induction false} ClaimSnoc(rs: seq<CompiledRoute>, cr: CompiledRoute, p: seq<Step>, slot: Slot)
    ensures Claim(rs + [cr], p, slot) ==
      if Claim(rs, p, slot).Some? then Claim(rs, p, slot) else if Claims(cr, p, slot) then Some(cr) else None
  {
    if rs == [] {
      assert rs + [cr] == [cr] && [cr][1..] == [];
    } else {
      assert (rs + [cr])[1..] == rs[1..] + [cr];
      ClaimSnoc(rs[1..], cr, p, slot);
    }
  }

  lemma {:induction false} WildNameSnoc(rs: seq<CompiledRoute>, cr: CompiledRoute, p: seq<Step>)
    ensures Present(rs, p + [Wild]) ==> WildName(rs + [cr], p) == WildName(rs, p)
    ensures !Present(rs, p + [Wild]) && PassesWild(cr, p) ==> WildName(rs + [cr], p) == Segs(cr)[|p|].value
  {
    if rs == [] {
      assert rs + [cr] == [cr];
    } else {
      assert (rs + [cr])[1..] == rs[1..] + [cr];
      WildNameSnoc(rs[1..], cr, p);
      if !PassesWild(rs[0], p) && Present(rs, p + [Wild]) {
        var r :| r in rs && p + [Wild] <= Spine(r);
        assert r in rs[1..];
      }
    }
  }

  /** A node at p points to the children that `at` lists, and to no others. */
  ghost predicate Links(at: map<seq<Step>, RadixNode>, p: seq<Step>,
                        children: map<string, RadixNode>, wild: RadixNode?)
  {
    && (forall s :: s in children ==> p + [Text(s)] in at && children[s] == at[p + [Text(s)]])
    && (forall s :: p + [Text(s)] in at ==> s in children)
    && (if p + [Wild] in at then wild == at[p + [Wild]] else wild == null)
  }

  ghost predicate HasParent(at: map<seq<Step>, RadixNode>, p: seq<Step>) {
    p != [] ==> p[..|p| - 1] in at
  }

  ghost predicate PrefixClosed(at: map<seq<Step>, RadixNode>) {
    forall p {:trigger HasParent(at, p)} :: p in at ==> HasParent(at, p)
  }

  /** A child's path is listed only when its parent's is. */
  lemma ParentOf(at: map<seq<Step>, RadixNode>, p: seq<Step>, s: Step)
    requires PrefixClosed(at) && p + [s] in at
    ensures p in at
  {
    assert HasParent(at, p + [s]) && (p + [s])[..|p + [s]| - 1] == p;
  }

  /** A wildcard path other than the new one was there before, and so was its parent. */
  lemma OldWild(before: map<seq<Step>, RadixNode>, q: seq<Step>, x: Step, n: RadixNode, p: seq<Step>)
    requires PrefixClosed(before) && p + [Wild] in before[q + [x] := n] && !(p == q && x == Wild)
    ensures p in before && p + [Wild] in before
  {
    SnocInjective(q, x);
    ParentOf(before, p, Wild);
  }

  lemma GrowClosed(at: map<seq<Step>, RadixNode>, p: seq<Step>, x: Step, child: RadixNode)
    requires PrefixClosed(at) && p in at
    ensures PrefixClosed(at[p + [x] := child])
  {
    var after := at[p + [x] := child];
    forall q | q in after ensures HasParent(after, q) {
      if q == p + [x] { assert q[..|q| - 1] == p; } else { assert HasParent(at, q); }
    }
  }

  lemma LeafLinks(at: map<seq<Step>, RadixNode>, q: seq<Step>, child: RadixNode)
    requires PrefixClosed(at) && q !in at
    ensures Links(at[q := child], q, map[], null)
  {
    forall y: Step ensures q + [y] !in at[q := child] {
      if q + [y] in at { ParentOf(at, q, y); }
      assert |q + [y]| != |q|;
    }
  }

  lemma OtherLinks(at: map<seq<Step>, RadixNode>, p: seq<Step>, x: Step, child: RadixNode, p': seq<Step>,
                   children: map<string, RadixNode>, wild: RadixNode?)
    requires p' != p && Links(at, p', children, wild)
    ensures Links(at[p + [x] := child], p', children, wild)
  {
    SnocInjective(p, x);
  }

  lemma ParentLinks(at: map<seq<Step>, RadixNode>, p: seq<Step>, x: Step, child: RadixNode,
                    children: map<string, RadixNode>, wild: RadixNode?)
    requires Links(at, p, children, wild)
    ensures x.Text? ==> Links(at[p + [x] := child], p, children[x.text := child], wild)
    ensures x.Wild? ==> Links(at[p + [x] := child], p, children, child)
  {
    SnocInjective(p, x);
  }

  class RouteTable {
    var root: RadixNode

    /** The node at the end of each path of edges, and the routes inserted so far. */
    ghost var at: map<seq<Step>, RadixNode>
    ghost var inserted: seq<CompiledRoute>

    /** `at` is as before, or has one more entry; either way q leads to n. */
    ghost predicate Reached(before: map<seq<Step>, RadixNode>, q: seq<Step>, n: RadixNode)
      reads this
    {
      at == (if q in before then before else before[q := n]) && at[q] == n
    }

    ghost predicate Linked(p: seq<Step>)
      requires p in at
      reads this`at, at.Values`staticChildren, at.Values`wildChild
    {
      Links(at, p, at[p].staticChildren, at[p].wildChild)
    }

    /** The node graph is the tree that `at` lists, without sharing. */
    ghost predicate Shape()
      reads this`at, this`root, at.Values`staticChildren, at.Values`wildChild
    {
      && [] in at && at[[]] == root
      && (forall p, q :: p in at && q in at && at[p] == at[q] ==> p == q)
      && PrefixClosed(at)
      && (forall p {:trigger Linked(p)} :: p in at ==> Linked(p))
    }

    ghost predicate Content(rs: seq<CompiledRoute>)
      reads this`at, at.Values`route, at.Values`catchAll, at.Values`catchAllName
      reads at.Values`optCatchAll, at.Values`optCatchAllName
    {
      forall p {:trigger at[p].Holds(rs, p)} :: p in at ==> at[p].Holds(rs, p)
    }

    ghost predicate WildNames(rs: seq<CompiledRoute>)
      reads this`at, at.Values`wildName
    {
      forall p {:trigger WildName(rs, p)} :: p in at && p + [Wild] in at ==> at[p].wildName == WildName(rs, p)
    }

    ghost predicate Valid()
      reads this, at.Values
    {
      Shape() && Content(inserted) && WildNames(inserted) && at.Keys == Places(inserted)
    }

    constructor ()
      ensures Valid() && inserted == []
      ensures fresh(at.Values)
    {
      var n := new RadixNode();
      root := n;
      at := map[[] := n];
      inserted := [];
      new;
      LeafLinks(map[], [], n);
      assert at == map[][[] := n];
    }

    /** The child of n for a literal segment, created when absent. */
    method StaticChild(n: RadixNode, ghost p: seq<Step>, s: string) returns (child: RadixNode)
      requires Shape() && p in at && at[p] == n
      modifies this`at, n`staticChildren
      ensures Shape() && Reached(old(at), p + [Text(s)], child)
      ensures p + [Text(s)] !in old(at) ==> fresh(child) && child.IsEmpty()
    {
      assert Linked(p);
      if s in n.staticChildren {
        child := n.staticChildren[s];
      } else {
        child := new RadixNode();
        ghost var before := at;
        ParentLinks(at, p, Text(s), child, n.staticChildren, n.wildChild);
        LeafLinks(at, p + [Text(s)], child);
        GrowClosed(at, p, Text(s), child);
        n.staticChildren := n.staticChildren[s := child];
        at := before[p + [Text(s)] := child];
        forall p' | p' in before && p' != p ensures Linked(p') {
          assert old(Linked(p'));
          OtherLinks(before, p, Text(s), child, p', at[p'].staticChildren, at[p'].wildChild);
        }
      }
    }

    method WildChild(n: RadixNode, ghost p: seq<Step>, name: string) returns (child: RadixNode)
      requires Shape() && p in at && at[p] == n
      modifies this`at, n`wildChild, n`wildName
      ensures Shape() && Reached(old(at), p + [Wild], child)
      ensures p + [Wild] in old(at) ==> n.wildName == old(n.wildName)
      ensures p + [Wild] !in old(at) ==> fresh(child) && child.IsEmpty() && n.wildName == name
    {
      assert Linked(p);
      if n.wildChild == null {
        child := new RadixNode();
        ghost var before := at;
        ParentLinks(at, p, Wild, child, n.staticChildren, n.wildChild);
        LeafLinks(at, p + [Wild], child);
        GrowClosed(at, p, Wild, child);
        n.wildChild, n.wildName := child, name;
        at := before[p + [Wild] := child];
        forall p' | p' in before && p' != p ensures Linked(p') {
          assert old(Linked(p'));
          OtherLinks(before, p, Wild, child, p', at[p'].staticChildren, at[p'].wildChild);
        }
      } else {
        child := n.wildChild;
      }
    }

    /** cr takes its slot of n unless an earlier route owns it. */
    method TakeSlot(n: RadixNode, ghost p: seq<Step>, slot: Slot, name: string, cr: CompiledRoute)
      requires Shape() && p in at && at[p] == n && Content(inserted)
      requires Claims(cr, p, slot) && name == ClaimName(cr)
      modifies n`route, n`catchAll, n`catchAllName, n`optCatchAll, n`optCatchAllName
      ensures Content(inserted + [cr])
    {
      n.TakeSlot(inserted, p, slot, name, cr);
      forall p' | p' in at ensures at[p'].Holds(inserted + [cr], p') {
        if p' != p { at[p'].HoldsSnoc(inserted, cr, p'); }
      }
    }

    /** The walk down cr's spine has reached n at q; nothing else changed. */
    ghost predicate Walked(rs: seq<CompiledRoute>, cr: CompiledRoute, q: seq<Step>, n: RadixNode)
      reads this, at.Values
    {
      && Shape() && q in at && at[q] == n && inserted == rs
      && Content(rs) && WildNames(rs + [cr])
      && at.Keys == Places(rs) + Prefixes(q)
    }

    /** A leaf added where no route led before keeps every node's content. */
    lemma LeafHolds(rs: seq<CompiledRoute>, q: seq<Step>, n: RadixNode)
      requires n.IsEmpty() && q !in Places(rs)
      ensures n.Holds(rs, q)
    {
      ClaimAbsent(rs, q, AtNode);
      ClaimAbsent(rs, q, AtCatchAll);
      ClaimAbsent(rs, q, AtOptCatchAll);
    }

    method WalkStatic(n: RadixNode, ghost q: seq<Step>, s: string, ghost rs: seq<CompiledRoute>, cr: CompiledRoute)
      returns (child: RadixNode)
      requires Walked(rs, cr, q, n)
      modifies this`at, n`staticChildren
      ensures Walked(rs, cr, q + [Text(s)], child)
      ensures fresh(at.Values - old(at.Values))
    {
      hide Claim, ClaimName, Present, SpineOf, Prefixes, Places, WildName, RadixNode.Holds, RadixNode.IsEmpty;
      ghost var before := at;
      ghost var q' := q + [Text(s)];
      child := StaticChild(n, q, s);
      PrefixesSnoc(q, Text(s));
      assert at.Keys == before.Keys + {q'};
      assert Content(rs) by {
        forall p | p in at ensures at[p].Holds(rs, p) {
          if p in before { assert old(at[p].Holds(rs, p)); } else { LeafHolds(rs, q', child); }
        }
      }
      assert WildNames(rs + [cr]) by {
        forall p | p in at && p + [Wild] in at ensures at[p].wildName == WildName(rs + [cr], p) {
          OldWild(before, q, Text(s), child, p);
        }
      }
    }

    method WalkWild(n: RadixNode, ghost q: seq<Step>, name: string, ghost rs: seq<CompiledRoute>, cr: CompiledRoute)
      returns (child: RadixNode)
      requires Walked(rs, cr, q, n)
      requires PassesWild(cr, q) && name == Segs(cr)[|q|].value
      modifies this`at, n`wildChild, n`wildName
      ensures Walked(rs, cr, q + [Wild], child)
      ensures fresh(at.Values - old(at.Values))
    {
      hide Claim, ClaimName, Present, SpineOf, Prefixes, Places, WildName, RadixNode.Holds, RadixNode.IsEmpty;
      ghost var before := at;
      ghost var q' := q + [Wild];
      child := WildChild(n, q, name);
      PrefixesSnoc(q, Wild);
      assert at.Keys == before.Keys + {q'};
      assert Content(rs) by {
        forall p | p in at ensures at[p].Holds(rs, p) {
          if p in before { assert old(at[p].Holds(rs, p)); } else { LeafHolds(rs, q', child); }
        }
      }
      assert WildNames(rs + [cr]) by {
        PlacesPresent(rs, q');
        WildNameSnoc(rs, cr, q);
        forall p | p in at && p + [Wild] in at ensures at[p].wildName == WildName(rs + [cr], p) {
          if p != q { OldWild(before, q, Wild, child, p); }
        }
      }
    }

    /** One turn of insert's loop for a segment that is not a catch-all. */
    method Walk(n: RadixNode, ghost q: seq<Step>, seg: Segment, ghost rs: seq<CompiledRoute>, cr: CompiledRoute)
      returns (child: RadixNode)
      requires Walked(rs, cr, q, n) && !seg.ConsumesRest()
      requires seg.kind.Dynamic? ==> PassesWild(cr, q) && seg.value == Segs(cr)[|q|].value
      modifies this`at, n`staticChildren, n`wildChild, n`wildName
      ensures Walked(rs, cr, q + [StepOf(seg)], child)
      ensures fresh(at.Values - old(at.Values))
    {
      if seg.kind.Static? {
        child := WalkStatic(n, q, seg.value, rs, cr);
      } else {
        child := WalkWild(n, q, seg.value, rs, cr);
      }
    }

    lemma StartWalk(cr: CompiledRoute)
      requires Valid()
      ensures Walked(inserted, cr, [], root)
    {
      PlacesPresent(inserted, []);
      var none: seq<Step> := [];
      assert none[..0] == [] && Prefixes(none) == {[]};
      forall p | p in at && p + [Wild] in at ensures at[p].wildName == WildName(inserted + [cr], p) {
        PlacesPresent(inserted, p + [Wild]);
        WildNameSnoc(inserted, cr, p);
      }
    }

    /** cr holds its slot; only the list of inserted routes lags behind. */
    ghost predicate Placed(rs: seq<CompiledRoute>, cr: CompiledRoute)
      reads this, at.Values
    {
      && Shape() && inserted == rs && Content(rs + [cr]) && WildNames(rs + [cr])
      && at.Keys == Places(rs) + Prefixes(Spine(cr))
    }

    /** The walk is over: cr takes the slot its pattern ends in. */
    method Settle(n: RadixNode, ghost q: seq<Step>, slot: Slot, name: string, ghost rs: seq<CompiledRoute>,
                  cr: CompiledRoute)
      requires Walked(rs, cr, q, n) && Claims(cr, q, slot) && name == ClaimName(cr)
      modifies n`route, n`catchAll, n`catchAllName, n`optCatchAll, n`optCatchAllName
      ensures Placed(rs, cr)
    {
      TakeSlot(n, q, slot, name, cr);
    }

    /** Adds a route after those already inserted; earlier routes keep their slots. */
    method InsertRoute(cr: CompiledRoute)
      requires Valid()
      modifies this, at.Values
      ensures Valid() && inserted == old(inserted) + [cr] && root == old(root)
      ensures fresh(at.Values - old(at.Values))
    {
      Place(cr);
      PlacesSnoc(inserted, cr);
      inserted := inserted + [cr];
    }

    /** The walk of `insert`, which creates what is missing on cr's spine. */
    method Place(cr: CompiledRoute)
      requires Valid()
      modifies this`at, at.Values
      ensures Placed(old(inserted), cr) && fresh(at.Values - old(at.Values))
    {
      hide Placed, Valid, Shape, Content, WildNames, PassesWild;
      var segs := ParseSegments(cr.pattern);
      var n := root;
      ghost var rs := inserted;
      ghost var q: seq<Step> := [];
      var i := 0;
      StartWalk(cr);
      while i < |segs|
        invariant 0 <= i <= |Spine(cr)| && q == Spine(cr)[..i]
        invariant Walked(rs, cr, q, n) && (segs != [] ==> i < |segs|)
        invariant fresh(at.Values - old(at.Values))
      {
        var seg := segs[i];
        SpineStep(cr, i);
        if seg.ConsumesRest() {
          Settle(n, q, if seg.kind.CatchAll? then AtCatchAll else AtOptCatchAll, seg.value, rs, cr);
          return;
        }
        n := Walk(n, q, seg, rs, cr);
        q := q + [StepOf(seg)];
        if i == |segs| - 1 {
          Settle(n, q, AtNode, "", rs, cr);
          return;
        }
        i := i + 1;
      }
      Settle(n, q, AtNode, "", rs, cr);
    }

    /** The recursive search. A failed call leaves the shared params as it found
        them; a successful one adds the bindings of the path it took. */
    method MatchNode(n: RadixNode, ghost p: seq<Step>, segments: seq<string>, params: ParamMap)
      returns (r: Option<CompiledRoute>)
      requires Valid() && p in at && at[p] == n
      modifies params
      ensures var f := Search(inserted, p, segments);
        if f.Some? then r == Some(f.value.route) && params.m == Bind(old(params.m), f.value.bindings)
        else r == None && params.m == old(params.m)
      decreases |segments|
    {
      assert n.Holds(inserted, p) && Linked(p);
      hide Valid, Shape, Content, WildNames, Claim, ClaimName, WildName, Present, Decode;
      if |segments| == 0 {
        if n.route != None { return n.route; }
        if n.optCatchAll != None { return n.optCatchAll; }
        return None;
      }
      hide SearchRest;
      var seg, rest := segments[0], segments[1..];
      if seg in n.staticChildren {
        r := MatchNode(n.staticChildren[seg], p + [Text(seg)], rest, params);
        if r != None { return; }
      } else {
        NoPlace(p, Text(seg), rest);
      }
      r := TryWild(n, p, seg, rest, params);
      if r != None { return; }
      r := TakeRest(n, p, segments, params);
    }

    /** The two catch-all branches. */
    method TakeRest(n: RadixNode, ghost p: seq<Step>, segments: seq<string>, params: ParamMap)
      returns (r: Option<CompiledRoute>)
      requires n.Holds(inserted, p)
      modifies params
      ensures var f := SearchRest(inserted, p, segments);
        if f.Some? then r == Some(f.value.route) && params.m == Bind(old(params.m), f.value.bindings)
        else r == None && params.m == old(params.m)
    {
      if n.catchAll != None {
        var parts := DecodeParts(segments);
        params.m := params.m[n.catchAllName := Many(parts)];
        return n.catchAll;
      }
      if n.optCatchAll != None {
        var parts := DecodeParts(segments);
        params.m := params.m[n.optCatchAllName := Many(parts)];
        return n.optCatchAll;
      }
      return None;
    }

    /** The wildcard branch: bind, descend, and undo the binding when that fails. */
    method TryWild(n: RadixNode, ghost p: seq<Step>, seg: string, rest: seq<string>, params: ParamMap)
      returns (r: Option<CompiledRoute>)
      requires Valid() && p in at && at[p] == n
      modifies params
      ensures var f := Search(inserted, p + [Wild], rest);
        if f.Some? then
          && r == Some(f.value.route)
          && params.m == Bind(old(params.m)[WildName(inserted, p) := Single(Decode(seg))], f.value.bindings)
        else r == None && params.m == old(params.m)
      decreases |rest| + 1, 0
    {
      r := None;
      assert Linked(p);
      if n.wildChild != null {
        var decoded := Decode(seg);
        var hadKey := n.wildName in params.m;
        var oldVal := if hadKey then Some(params.m[n.wildName]) else None;
        params.m := params.m[n.wildName := Single(decoded)];
        r := MatchNode(n.wildChild, p + [Wild], rest, params);
        if r != None { return; }
        if hadKey {
          params.m := params.m[n.wildName := oldVal.value];
        } else {
          params.m := params.m - {n.wildName};
        }
      } else {
        NoPlace(p, Wild, rest);
      }
    }

    lemma NoPlace(p: seq<Step>, s: Step, path: seq<string>)
      requires Valid() && p + [s] !in at
      ensures Search(inserted, p + [s], path).None?
    {
      PlacesPresent(inserted, p + [s]);
      SearchAbsent(inserted, p + [s], path);
    }

    /** `Match`: normalise, split and search with a fresh params map. */
    method Match(path: string) returns (r: Option<(CompiledRoute, map<string, Value>)>)
      requires Valid()
      ensures r == ToResult(Search(inserted, [], SplitSegments(NormalizePath(path))))
    {
      var segments := SplitSegments(NormalizePath(path));
      var params := new ParamMap();
      var found := MatchNode(root, [], segments, params);
      r := if found == None then None else Some((found.value, params.m));
    }
  }

  function ToResult(f: Option<Found>): Option<(CompiledRoute, map<string, Value>)> {
    match f
    case None => None
    case Some(f) => Some((f.route, Bind(map[], f.bindings)))
  }

  /** `splitSegments`: the root has none, otherwise the text after the first byte is split. */
  function SplitSegments(path: string): seq<string> {
    if path == "/" || path == "" then [] else Split(path[1..], '/')
  }

  method DecodeParts(segments: seq<string>) returns (parts: seq<string>)
    ensures parts == DecodeAll(segments)
  {
    parts := [];
    for i := 0 to |segments|
      invariant parts == DecodeAll(segments[..i])
    {
      parts := parts + [Decode(segments[i])];
      assert segments[..i + 1] == segments[..i] + [segments[i]];
    }
    assert segments[..|segments|] == segments;
  }

  /** `NewRouteTable`: copy, sort by specificity, insert one by one. */
  method NewRouteTable(routes: seq<CompiledRoute>) returns (rt: RouteTable)
    ensures rt.Valid() && fresh(rt) && fresh(rt.at.Values)
    ensures rt.inserted == SortedRoutes(routes)
  {
    var sorted := new CompiledRoute[|routes|](i requires 0 <= i < |routes| => routes[i]);
    assert sorted[..] == routes;
    SortBySpecificity(sorted);
    ghost var order := SortedRoutes(routes);
    rt := new RouteTable();
    for i := 0 to sorted.Length
      invariant rt.Valid() && fresh(rt) && fresh(rt.at.Values)
      invariant rt.inserted == order[..i] && sorted[..] == order
    {
      rt.InsertRoute(sorted[i]);
      assert order[..i + 1] == order[..i] + [order[i]];
    }
  }

  /** `parseSegments`, which stops at the first catch-all. */
  method ParseSegments(pattern: string) returns (segs: seq<Segment>)
    ensures segs == Parse(pattern)
  {
    if pattern == "/" { return []; }
    var parts := Split(pattern, '/')[1..];
    segs := [];
    var i := 0;
    while i < |parts|
      invariant 0 <= i <= |parts|
      invariant ParseParts(parts) == segs + ParseParts(parts[i..])
    {
      var p := parts[i];
      ParseStep(parts, segs, i);
      if ":..." <= p {
        var optional := p[|p| - 1] == '?';
        var name := p[4..];
        if optional {
          name := name[..|name| - 1];
          segs := segs + [Segment(OptCatchAll, name)];
        } else {
          segs := segs + [Segment(CatchAll, name)];
        }
        return;
      }
      if ":" <= p {
        segs := segs + [Segment(Dynamic, p[1..])];
      } else {
        segs := segs + [Segment(Static, p)];
      }
      i := i + 1;
    }
  }
}
