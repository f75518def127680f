/** The specificity order and the in-place stable sort built on it
    (`SortBySpecificity` in patternmatch/patternmatch.go). */
module Specificity {
  import opened Strings
  import opened PatternMatch

  /** Segment by segment the lower kind wins; when one list is a prefix of the
      other, the longer one wins. */
  predicate MoreSpecific(a: seq<SegmentKind>, b: seq<SegmentKind>) {
    a != [] && (b == [] || a[0].Rank() < b[0].Rank() || (a[0] == b[0] && MoreSpecific(a[1..], b[1..])))
  }

  /** The comparison SortBySpecificity passes to the library sort. */
  predicate RouteLess(a: CompiledRoute, b: CompiledRoute) {
    || MoreSpecific(a.segments, b.segments)
    || (a.segments == b.segments && Less(a.pattern, b.pattern))
  }

  /** A route built by CompilePattern: its pattern determines everything else. */
  ghost predicate Canonical(rs: seq<CompiledRoute>) {
    forall r :: r in rs ==> r == Compile(r.pattern)
  }

  lemma {:induction false} MoreSpecificTotal(a: seq<SegmentKind>, b: seq<SegmentKind>)
    ensures MoreSpecific(a, b) || a == b || MoreSpecific(b, a)
    ensures !(MoreSpecific(a, b) && MoreSpecific(b, a))
    ensures !MoreSpecific(a, a)
  {
    if a != [] {
      MoreSpecificTotal(a[1..], if b == [] then b else b[1..]);
      if b != [] && a[0] == b[0] && a[1..] == b[1..] {
        assert a == [a[0]] + a[1..] == [b[0]] + b[1..] == b;
      }
    }
  }

  lemma {:induction false} MoreSpecificTransitive(a: seq<SegmentKind>, b: seq<SegmentKind>, c: seq<SegmentKind>)
    requires MoreSpecific(a, b) && MoreSpecific(b, c)
    ensures MoreSpecific(a, c)
  {
    if b != [] && c != [] && a[0] == b[0] && b[0] == c[0] {
      MoreSpecificTransitive(a[1..], b[1..], c[1..]);
    }
  }

  /** RouteLess is a strict total order on patterns with their kinds. */
  lemma RouteLessTotal(a: CompiledRoute, b: CompiledRoute)
    ensures RouteLess(a, b) || RouteLess(b, a) || (a.pattern == b.pattern && a.segments == b.segments)
    ensures !(RouteLess(a, b) && RouteLess(b, a))
  {
    MoreSpecificTotal(a.segments, b.segments);
    LessTotal(a.pattern, b.pattern);
  }

  lemma RouteLessTransitive(a: CompiledRoute, b: CompiledRoute, c: CompiledRoute)
    requires RouteLess(a, b) && RouteLess(b, c)
    ensures RouteLess(a, c)
  {
    if MoreSpecific(a.segments, b.segments) && MoreSpecific(b.segments, c.segments) {
      MoreSpecificTransitive(a.segments, b.segments, c.segments);
    }
    if a.segments == b.segments == c.segments {
      MoreSpecificTotal(a.segments, b.segments);
      LessTransitive(a.pattern, b.pattern, c.pattern);
    }
  }

  ghost predicate Sorted(rs: seq<CompiledRoute>) {
    forall i, j :: 0 <= i < j < |rs| ==> !RouteLess(rs[j], rs[i])
  }

  /** x goes after every element it is not less than: the sort is stable. */
  function Insert(s: seq<CompiledRoute>, x: CompiledRoute): seq<CompiledRoute>
    decreases |s|
  {
    if s == [] then [x]
    else
      var n := |s| - 1;
      if RouteLess(x, s[n]) then Insert(s[..n], x) + [s[n]] else s + [x]
  }

  function SortedRoutes(rs: seq<CompiledRoute>): seq<CompiledRoute> {
    if rs == [] then []
    else
      var n := |rs| - 1;
      Insert(SortedRoutes(rs[..n]), rs[n])
  }

  lemma {:induction false} InsertPermutes(s: seq<CompiledRoute>, x: CompiledRoute)
    ensures multiset(Insert(s, x)) == multiset(s) + multiset{x}
    decreases |s|
  {
    if s != [] {
      var n := |s| - 1;
      InsertPermutes(s[..n], x);
      SnocMultiset(s);
    }
  }

  lemma SnocMultiset<T>(s: seq<T>)
    requires s != []
    ensures var n := |s| - 1; multiset(s) == multiset(s[..n]) + multiset{s[n]}
  {
    assert s == s[..|s| - 1] + [s[|s| - 1]];
  }

  /** Sorting is a permutation. */
  lemma {:induction false} SortedRoutesPermutes(rs: seq<CompiledRoute>)
    ensures multiset(SortedRoutes(rs)) == multiset(rs)
  {
    if rs != [] {
      var n := |rs| - 1;
      SortedRoutesPermutes(rs[..n]);
      InsertPermutes(SortedRoutes(rs[..n]), rs[n]);
      SnocMultiset(rs);
    }
  }

  lemma {:induction false} InsertSorted(s: seq<CompiledRoute>, x: CompiledRoute)
    requires Sorted(s)
    ensures Sorted(Insert(s, x))
    decreases |s|
  {
    if s != [] {
      var n := |s| - 1;
      var last := s[n];
      assert s == s[..n] + [last];
      if RouteLess(x, last) {
        InsertSorted(s[..n], x);
        InsertPermutes(s[..n], x);
        var t := Insert(s[..n], x);
        forall i | 0 <= i < |t| ensures !RouteLess(last, t[i]) {
          assert t[i] in multiset(t);
          assert t[i] == x || t[i] in s[..n];
          RouteLessTotal(x, last);
        }
      } else {
        forall i | 0 <= i < n ensures !RouteLess(x, s[i]) {
          if RouteLess(x, s[i]) {
            NotLessTransitive(s[i], last, x);
          }
        }
      }
    }
  }

  lemma NotLessTransitive(a: CompiledRoute, b: CompiledRoute, c: CompiledRoute)
    requires !RouteLess(b, a) && !RouteLess(c, b)
    ensures !RouteLess(c, a)
  {
    RouteLessTotal(a, b);
    RouteLessTotal(b, c);
    RouteLessTotal(a, c);
    if RouteLess(a, b) && RouteLess(b, c) {
      RouteLessTransitive(a, b, c);
    }
  }

  /** The routes of rs that compare neither way with r, in order. */
  function Peers(rs: seq<CompiledRoute>, r: CompiledRoute): seq<CompiledRoute> {
    if rs == [] then []
    else
      var n := |rs| - 1;
      Peers(rs[..n], r) + if rs[n].pattern == r.pattern && rs[n].segments == r.segments then [rs[n]] else []
  }

  lemma PeersSnoc(rs: seq<CompiledRoute>, x: CompiledRoute, r: CompiledRoute)
    ensures Peers(rs + [x], r) ==
      Peers(rs, r) + if x.pattern == r.pattern && x.segments == r.segments then [x] else []
  {
    assert (rs + [x])[..|rs|] == rs;
  }

  lemma LessIsNoPeer(a: CompiledRoute, b: CompiledRoute)
    requires RouteLess(a, b)
    ensures !(a.pattern == b.pattern && a.segments == b.segments)
  {
    MoreSpecificTotal(a.segments, b.segments);
    LessTotal(a.pattern, b.pattern);
  }

  lemma {:induction false} InsertKeepsPeers(s: seq<CompiledRoute>, x: CompiledRoute, r: CompiledRoute)
    ensures Peers(Insert(s, x), r) == Peers(s + [x], r)
    decreases |s|
  {
    if s == [] {
      assert s + [x] == [x];
    } else {
      var n := |s| - 1;
      assert s == s[..n] + [s[n]];
      hide Peers, RouteLess;
      PeersSnoc(s, x, r);
      PeersSnoc(s[..n], s[n], r);
      if RouteLess(x, s[n]) {
        InsertKeepsPeers(s[..n], x, r);
        PeersSnoc(Insert(s[..n], x), s[n], r);
        PeersSnoc(s[..n], x, r);
        LessIsNoPeer(x, s[n]);
      }
    }
  }

  /** Routes that compare neither way stay in the order in which they were listed. */
  lemma {:induction false} SortIsStable(rs: seq<CompiledRoute>, r: CompiledRoute)
    ensures Peers(SortedRoutes(rs), r) == Peers(rs, r)
  {
    if rs != [] {
      var n := |rs| - 1;
      assert rs == rs[..n] + [rs[n]];
      SortIsStable(rs[..n], r);
      InsertKeepsPeers(SortedRoutes(rs[..n]), rs[n], r);
      PeersSnoc(SortedRoutes(rs[..n]), rs[n], r);
    }
  }

  lemma {:induction false} SortedRoutesSorted(rs: seq<CompiledRoute>)
    ensures Sorted(SortedRoutes(rs))
  {
    if rs != [] {
      var n := |rs| - 1;
      SortedRoutesSorted(rs[..n]);
      InsertSorted(SortedRoutes(rs[..n]), rs[n]);
    }
  }

  lemma SnocSlices<T>(s: seq<T>, j: nat)
    requires j < |s|
    ensures var n := |s| - 1; s[..n][..j] == s[..j] && s[..n][j..] + [s[n]] == s[j..]
  {}

  lemma {:induction false} InsertPosition(s: seq<CompiledRoute>, x: CompiledRoute, j: nat)
    requires j <= |s|
    requires j == 0 || !RouteLess(x, s[j - 1])
    requires forall k :: j <= k < |s| ==> RouteLess(x, s[k])
    ensures Insert(s, x) == s[..j] + [x] + s[j..]
    decreases |s|
  {
    if s != [] {
      var n := |s| - 1;
      if RouteLess(x, s[n]) {
        InsertPosition(s[..n], x, j);
        SnocSlices(s, j);
      } else {
        assert j == |s|;
      }
    }
  }

  lemma PrefixSlices<T>(s: seq<T>, i: nat)
    requires i < |s|
    ensures s[..i + 1][..i] == s[..i] && s[..i + 1][i] == s[i] && |s[..i + 1]| == i + 1
    ensures s[i..][0] == s[i] && s[i..][1..] == s[i + 1..]
  {}

  /** Sorts in place; the result is the stable sort of the old contents. */
  method SortBySpecificity(routes: array<CompiledRoute>)
    modifies routes
    ensures routes[..] == SortedRoutes(old(routes[..]))
  {
    ghost var was := routes[..];
    var i := 0;
    while i < routes.Length
      invariant 0 <= i <= routes.Length
      invariant routes[..i] == SortedRoutes(was[..i])
      invariant routes[i..] == was[i..]
    {
      label before:
      InsertionStep(routes, i);
      PrefixSlices(was, i);
      assert old@before(routes[i]) == old@before(routes[i..])[0] == was[i];
      assert routes[i + 1..] == old@before(routes[i..])[1..] == was[i + 1..];
      i := i + 1;
    }
    assert was[..i] == was && routes[..i] == routes[..];
  }

  method InsertionStep(routes: array<CompiledRoute>, i: nat)
    requires i < routes.Length
    modifies routes
    ensures routes[..i + 1] == Insert(old(routes[..i]), old(routes[i]))
    ensures routes[i + 1..] == old(routes[i + 1..])
  {
    hide RouteLess, Insert;
    ghost var s := routes[..i];
    var x := routes[i];
    var j := i;
    while j > 0 && RouteLess(x, routes[j - 1])
      invariant 0 <= j <= i
      invariant routes[..j] == s[..j]
      invariant routes[j + 1..i + 1] == s[j..]
      invariant routes[i + 1..] == old(routes[i + 1..])
      invariant forall k :: j <= k < i ==> RouteLess(x, s[k])
    {
      assert routes[j - 1] == routes[..j][j - 1] == s[j - 1];
      routes[j] := routes[j - 1];
      j := j - 1;
      assert routes[j + 1..i + 1] == [s[j]] + s[j + 1..] == s[j..];
    }
    if j > 0 { assert routes[j - 1] == routes[..j][j - 1] == s[j - 1]; }
    routes[j] := x;
    InsertPosition(s, x, j);
    assert routes[..i + 1] == routes[..j] + [x] + routes[j + 1..i + 1];
  }

  lemma UnconsMultiset<T>(s: seq<T>)
    requires s != []
    ensures s == [s[0]] + s[1..]
    ensures multiset(s[1..]) == multiset(s) - multiset{s[0]}
  {
    assert s == [s[0]] + s[1..];
  }

  lemma SameHead(a: seq<CompiledRoute>, b: seq<CompiledRoute>)
    requires a != [] && b != []
    requires Sorted(a) && Sorted(b) && multiset(a) == multiset(b) && Canonical(a)
    ensures a[0] == b[0]
  {
    var x, y := a[0], b[0];
    assert x in multiset(b) && y in multiset(a);
    assert x in b && y in a;
    RouteLessTotal(x, y);
    assert x.pattern == y.pattern;
  }

  /** Two sorted listings of the same canonical routes are the same list, so
      sorting forgets the order in which routes were declared. */
  lemma {:induction false} SortedUnique(a: seq<CompiledRoute>, b: seq<CompiledRoute>)
    requires Sorted(a) && Sorted(b) && multiset(a) == multiset(b) && Canonical(a)
    ensures a == b
  {
    assert |multiset(a)| == |multiset(b)|;
    if a != [] {
      var x, y := a[0], b[0];
      SameHead(a, b);
      UnconsMultiset(a);
      UnconsMultiset(b);
      SortedUnique(a[1..], b[1..]);
    }
  }

  lemma SortForgetsOrder(rs: seq<CompiledRoute>, rs': seq<CompiledRoute>)
    requires multiset(rs) == multiset(rs') && Canonical(rs)
    ensures SortedRoutes(rs) == SortedRoutes(rs')
  {
    SortedRoutesSorted(rs);
    SortedRoutesSorted(rs');
    SortedRoutesPermutes(rs);
    SortedRoutesPermutes(rs');
    forall r | r in SortedRoutes(rs) ensures r == Compile(r.pattern) {
      assert r in multiset(SortedRoutes(rs)) && r in multiset(rs);
    }
    SortedUnique(SortedRoutes(rs), SortedRoutes(rs'));
  }
}
