/** Pattern text against segments: what is written is what the parser reads back,
    so that the table's answers can be told from the text; the orders of routes
    spelled out; and percent-encoding undone. */
module RouteSpelling {
  import opened Strings
  import opened PatternMatch
  import opened Specificity
  import opened RouteSearch
  import opened Radix
  import opened RouteTheorems

  // ------------------------------------------------------------ writing patterns

  function Part(seg: Segment): string {
    match seg.kind
    case Static => seg.value
    case Dynamic => ":" + seg.value
    case CatchAll => ":..." + seg.value
    case OptCatchAll => ":..." + seg.value + "?"
  }

  function PartsOf(segs: seq<Segment>): (parts: seq<string>)
    ensures |parts| == |segs|
  {
    seq(|segs|, i requires 0 <= i < |segs| => Part(segs[i]))
  }

  function Spell(segs: seq<Segment>): string { "/" + Join(PartsOf(segs), '/') }

  /** The text cannot be taken for that of another kind. */
  predicate Plainly(seg: Segment) {
    match seg.kind
    case Static => !(":" <= seg.value)
    case Dynamic => !("..." <= seg.value)
    case CatchAll => seg.value == "" || seg.value[|seg.value| - 1] != '?'
    case OptCatchAll => true
  }

  predicate AllPlain(segs: seq<Segment>) {
    (forall i :: 0 <= i < |segs| ==> Plainly(segs[i])) && segs != [Segment(Static, "")]
  }

  lemma PartReadsBack(seg: Segment)
    ensures ParsePart(Part(seg)) == seg <==> Plainly(seg)
  {
    var p := Part(seg);
    match seg.kind {
      case Static => if ":" <= p { assert !ParsePart(p).kind.Static?; }
      case Dynamic =>
        assert p[1..] == seg.value;
        assert ":..." <= p <==> "..." <= seg.value by {
          if ":..." <= p { assert p[1..4] == "..." && p[1..4] == seg.value[..3]; }
          if "..." <= seg.value { assert p[..4] == ":" + seg.value[..3]; }
        }
      case CatchAll =>
        assert p[4..] == seg.value;
        assert p[|p| - 1] == if seg.value == "" then '.' else seg.value[|seg.value| - 1];
      case OptCatchAll =>
        assert p[4..] == seg.value + "?" && (seg.value + "?")[..|seg.value|] == seg.value;
    }
  }

  lemma PartRestored(p: string)
    ensures Part(ParsePart(p)) == p
  {
    if ":..." <= p {
      var name := p[4..];
      assert p == ":..." + name;
      if p[|p| - 1] == '?' {
        assert name[|name| - 1] == '?' && name == name[..|name| - 1] + "?";
        ConcatAssoc(":...", name[..|name| - 1], "?");
      }
    }
  }

  lemma {:induction false} PartsReadBack(segs: seq<Segment>)
    requires WellFormed(segs)
    ensures ParseParts(PartsOf(segs)) == segs <==> forall i :: 0 <= i < |segs| ==> Plainly(segs[i])
  {
    if segs != [] {
      PartReadsBack(segs[0]);
      WellFormedTail(segs);
      PartsReadBack(segs[1..]);
      OnePart(segs);
      assert (forall i :: 0 <= i < |segs| ==> Plainly(segs[i])) <==>
        Plainly(segs[0]) && forall i :: 0 <= i < |segs| - 1 ==> Plainly(segs[1..][i]) by {
        assert forall i :: 1 <= i < |segs| ==> segs[i] == segs[1..][i - 1];
        hide Plainly;
      }
      hide *;
    }
  }

  lemma OnePart(segs: seq<Segment>)
    requires segs != [] && (segs[0].ConsumesRest() ==> segs[1..] == [])
    ensures ParseParts(PartsOf(segs)) == segs <==>
      ParsePart(Part(segs[0])) == segs[0] && ParseParts(PartsOf(segs[1..])) == segs[1..]
  {
    assert PartsOf(segs)[1..] == PartsOf(segs[1..]);
    assert segs == [segs[0]] + segs[1..];
    var seg, more := ParsePart(Part(segs[0])), ParseParts(PartsOf(segs[1..]));
    hide Part, ParsePart;
    assert ParseParts(PartsOf(segs)) == if seg.ConsumesRest() then [seg] else [seg] + more;
    assert ([seg] + more)[0] == seg && ([seg] + more)[1..] == more;
    if segs[1..] == [] { assert PartsOf(segs[1..]) == [] && more == []; }
  }

  lemma {:induction false} PartsRestored(parts: seq<string>)
    ensures |ParseParts(parts)| <= |parts|
    ensures PartsOf(ParseParts(parts)) == parts[..|ParseParts(parts)|]
  {
    if parts != [] {
      PartRestored(parts[0]);
      PartsRestored(parts[1..]);
      var seg, more := ParsePart(parts[0]), ParseParts(parts[1..]);
      hide Part, ParsePart;
      if !seg.ConsumesRest() {
        assert ([seg] + more)[1..] == more && PartsOf([seg] + more) == [parts[0]] + PartsOf(more);
      }
    }
  }

  lemma NoSlashInParts(segs: seq<Segment>)
    requires WellFormed(segs)
    ensures AllWithout(PartsOf(segs), '/')
  {
    forall i | 0 <= i < |segs| ensures '/' !in PartsOf(segs)[i] { assert '/' !in segs[i].value; }
  }

  lemma SplitSpelled(parts: seq<string>)
    requires parts != [] && AllWithout(parts, '/')
    ensures Split("/" + Join(parts, '/'), '/')[1..] == parts
  {
    var s := Join(parts, '/');
    assert "/" + s == "" + ['/'] + s;
    SplitFirst("", s, '/');
    SplitJoin(parts, '/');
  }

  /** The parser reads back the segments that were written exactly when the text of
      none looks like another kind's, the lone empty literal being the root. */
  lemma SpelledReadsBack(segs: seq<Segment>)
    requires WellFormed(segs)
    ensures Parse(Spell(segs)) == segs <==> AllPlain(segs)
  {
    var parts := PartsOf(segs);
    if segs == [] {
      assert Join(parts, '/') == "" && Spell(segs) == "/";
    } else {
      NoSlashInParts(segs);
      SplitSpelled(parts);
      PartsReadBack(segs);
      hide ParseParts, WellFormed;
      if Spell(segs) == "/" {
        assert Join(parts, '/') == "" by { assert Spell(segs)[1..] == Join(parts, '/'); }
        assert |segs| == 1 && Part(segs[0]) == "";
        assert segs == [Segment(Static, "")];
      } else {
        assert segs == [Segment(Static, "")] ==> parts == [""];
      }
    }
  }

  lemma {:induction false} JoinPrefix(parts: seq<string>, n: nat)
    requires 0 < n <= |parts|
    ensures Join(parts[..n], '/') <= Join(parts, '/')
    ensures n < |parts| ==> Join(parts[..n], '/') != Join(parts, '/')
  {
    if n == |parts| {
      assert parts[..n] == parts;
    } else if n > 1 {
      assert parts[..n][1..] == parts[1..][..n - 1];
      JoinPrefix(parts[1..], n - 1);
    }
  }

  /** What the parser reads, written again, is the pattern up to its catch-all. */
  lemma ParsedSpellsBack(pattern: string)
    requires "/" <= pattern
    ensures Spell(Parse(pattern)) <= pattern
    ensures Spell(Parse(pattern)) == pattern <==>
      pattern == "/" || |Parse(pattern)| == |Split(pattern, '/')| - 1
  {
    if pattern == "/" {
      assert Spell([]) == "/" + "";
    } else {
      var parts := Split(pattern, '/')[1..];
      var n := |ParseParts(parts)|;
      PartsRestored(parts);
      ParseWellFormed(pattern);
      JoinSplit(pattern, '/');
      assert Split(pattern, '/') == [""] + parts by { assert pattern[0] == '/'; }
      assert parts != [];
      assert pattern == "/" + Join(parts, '/') by {
        assert ([""] + parts)[1..] == parts;
        assert "" + ['/'] + Join(parts, '/') == "/" + Join(parts, '/');
      }
      JoinPrefix(parts, n);
      assert Spell(Parse(pattern)) == "/" + Join(parts[..n], '/');
      assert n == |parts| ==> parts[..n] == parts;
      Led(Join(parts[..n], '/'), Join(parts, '/'));
    }
  }

  lemma Led(a: string, b: string)
    ensures "/" + a <= "/" + b <==> a <= b
    ensures "/" + a == "/" + b <==> a == b
  {
    assert ("/" + a)[1..] == a && ("/" + b)[1..] == b;
    if "/" + a <= "/" + b { assert ("/" + b)[1..][..|a|] == ("/" + b)[..|a| + 1][1..]; }
  }

  // --------------------------------------------------- what the text decides

  /** Segments without a catch-all that match leave nothing for one. */
  lemma {:induction false} RestAfterMatch(segs: seq<Segment>, last: Segment, path: seq<string>)
    requires (forall i :: 0 <= i < |segs| ==> !segs[i].ConsumesRest()) && SegMatches(segs, path)
    requires last.ConsumesRest()
    ensures SegMatches(segs + [last], path) <==> last.kind.OptCatchAll?
  {
    if segs == [] {
      assert segs + [last] == [last];
    } else {
      assert (segs + [last])[1..] == segs[1..] + [last];
      RestAfterMatch(segs[1..], last, path[1..]);
    }
  }

  /** A table of one route answers what its segments match. */
  lemma OneRoute(r: CompiledRoute, s: string)
    requires r == Compile(r.pattern)
    ensures Lookup([r], s).Some? <==> SegMatches(Segs(r), SplitSegments(NormalizePath(s)))
  {
    LookupIsBest([r], s);
    assert r in [r];
  }

  lemma OtherMark(segs: seq<Segment>, name: string)
    requires WellFormed(segs + [Segment(CatchAll, name)]) && AllPlain(segs + [Segment(CatchAll, name)])
    ensures WellFormed(segs + [Segment(OptCatchAll, name)]) && AllPlain(segs + [Segment(OptCatchAll, name)])
    ensures forall i :: 0 <= i < |segs| ==> !segs[i].ConsumesRest()
  {
    var some, any := segs + [Segment(CatchAll, name)], segs + [Segment(OptCatchAll, name)];
    assert some[|segs|] == Segment(CatchAll, name) && any[|segs|] == Segment(OptCatchAll, name);
    assert forall i :: 0 <= i < |segs| ==> segs[i] == some[i] == any[i];
  }

  /** Below a matched path `:...name` needs at least one more segment, and
      `:...name?` needs none. */
  lemma MarkDecides(segs: seq<Segment>, name: string, s: string)
    requires WellFormed(segs + [Segment(CatchAll, name)]) && AllPlain(segs + [Segment(CatchAll, name)])
    requires SegMatches(segs, SplitSegments(NormalizePath(s)))
    ensures Lookup([Compile(Spell(segs + [Segment(CatchAll, name)]))], s) == None
    ensures Lookup([Compile(Spell(segs + [Segment(OptCatchAll, name)]))], s).Some?
  {
    var some, any := segs + [Segment(CatchAll, name)], segs + [Segment(OptCatchAll, name)];
    OtherMark(segs, name);
    SpelledReadsBack(some);
    SpelledReadsBack(any);
    hide WellFormed, AllPlain;
    RestAfterMatch(segs, Segment(CatchAll, name), SplitSegments(NormalizePath(s)));
    RestAfterMatch(segs, Segment(OptCatchAll, name), SplitSegments(NormalizePath(s)));
    hide *;
    OneRoute(Compile(Spell(some)), s);
    OneRoute(Compile(Spell(any)), s);
  }

  lemma {:induction false} NoParams(segs: seq<Segment>)
    ensures Params(segs) == [] <==> forall seg :: seg in segs ==> seg.kind.Static?
  {
    if segs != [] {
      NoParams(segs[1..]);
      assert segs == [segs[0]] + segs[1..];
    }
  }

  /** What a written pattern compiles to: the kinds as written, static exactly when
      it has no parameter. */
  lemma SpelledCompiles(segs: seq<Segment>)
    requires WellFormed(segs) && AllPlain(segs)
    ensures var cr := Compile(Spell(segs));
      && (cr.isStatic <==> forall seg :: seg in segs ==> seg.kind.Static?)
      && cr.segments == (if segs == [] then [Static] else Kinds(segs))
  {
    SpelledReadsBack(segs);
    NoParams(segs);
    hide WellFormed, AllPlain, Spell;
    if Spell(segs) == "/" { assert segs == []; }
    if segs == [] { SpellRoot(); }
  }

  lemma SpellRoot()
    ensures Spell([]) == "/"
  {}

  /** `/docs` is not a path of `/docs/:...path`, and is one of `/docs/:...path?`. */
  lemma DocsNeedMore()
    ensures Lookup([Compile("/docs/:...path")], "/docs") == None
    ensures Lookup([Compile("/docs/:...path?")], "/docs").Some?
  {
    var segs := [Segment(Static, "docs")];
    SpellDocs(Segment(CatchAll, "path"), "/docs/:...path");
    SpellDocs(Segment(OptCatchAll, "path"), "/docs/:...path?");
    DocsMatch(segs);
    assert WellFormed(segs + [Segment(CatchAll, "path")]) && AllPlain(segs + [Segment(CatchAll, "path")]);
    hide *;
    MarkDecides(segs, "path", "/docs");
  }

  lemma SpellDocs(last: Segment, pattern: string)
    requires pattern == "/docs/" + Part(last)
    ensures Spell([Segment(Static, "docs")] + [last]) == pattern
  {
    var segs := [Segment(Static, "docs")] + [last];
    assert PartsOf(segs) == ["docs", Part(last)] && PartsOf(segs)[1..] == [Part(last)];
    assert Join(PartsOf(segs), '/') == "docs" + ['/'] + Part(last);
    assert "/docs/" + Part(last) == "/" + ("docs" + ['/'] + Part(last));
  }

  lemma DocsMatch(segs: seq<Segment>)
    requires segs == [Segment(Static, "docs")]
    ensures SegMatches(segs, SplitSegments(NormalizePath("/docs")))
  {
    assert "/docs"[1..] == "docs";
    SplitWithout("docs", '/');
    assert SplitSegments(NormalizePath("/docs")) == ["docs"] && segs[1..] == [] && ["docs"][1..] == [];
  }

  // ------------------------------------------------------ the orders, spelled out

  /** A literal beats a parameter, a parameter a catch-all, and one that needs a
      segment one that does not. */
  predicate Beats(a: SegmentKind, b: SegmentKind) {
    match a
    case Static => b == Dynamic || b == CatchAll || b == OptCatchAll
    case Dynamic => b == CatchAll || b == OptCatchAll
    case CatchAll => b == OptCatchAll
    case OptCatchAll => false
  }

  /** a and b are equal before i, and both go on or one of them ends there. */
  predicate AlikeTo<T(==)>(a: seq<T>, b: seq<T>, i: nat) { i <= |a| && i <= |b| && a[..i] == b[..i] }

  /** In the dictionary a stands before b. */
  ghost predicate TextBefore(a: string, b: string) {
    exists i: nat :: AlikeTo(a, b, i) && i < |b| && (i == |a| || a[i] < b[i])
  }

  lemma {:induction false} LessExactly(a: string, b: string)
    ensures Less(a, b) <==> TextBefore(a, b)
  {
    if a != "" && b != "" && a[0] == b[0] {
      LessExactly(a[1..], b[1..]);
      if Less(a[1..], b[1..]) {
        var i: nat :| AlikeTo(a[1..], b[1..], i) && i < |b[1..]| && (i == |a[1..]| || a[1..][i] < b[1..][i]);
        AlikeCons(a, b, i);
        assert AlikeTo(a, b, i + 1);
      }
      if i: nat :| AlikeTo(a, b, i) && i < |b| && (i == |a| || a[i] < b[i]) {
        assert i > 0;
        AlikeCons(a, b, i - 1);
        assert AlikeTo(a[1..], b[1..], i - 1);
      }
    } else if Less(a, b) {
      assert AlikeTo(a, b, 0);
    } else if i: nat :| AlikeTo(a, b, i) && i < |b| && (i == |a| || a[i] < b[i]) {
      assert i == 0 by { if i > 0 { AlikeHeads(a, b, i); } }
    }
  }

  lemma AlikeHeads<T>(a: seq<T>, b: seq<T>, i: nat)
    requires AlikeTo(a, b, i) && i > 0
    ensures a[0] == b[0]
  {
    assert a[..i][0] == b[..i][0];
  }

  lemma AlikeCons<T>(a: seq<T>, b: seq<T>, i: nat)
    requires a != [] && b != [] && a[0] == b[0]
    ensures AlikeTo(a[1..], b[1..], i) <==> AlikeTo(a, b, i + 1)
  {
    if i < |a| && i < |b| {
      assert a[..i + 1] == [a[0]] + a[1..][..i] && b[..i + 1] == [b[0]] + b[1..][..i];
      if a[..i + 1] == b[..i + 1] { assert a[..i + 1][1..] == b[..i + 1][1..]; }
    }
  }

  /** The kinds of a come before those of b: at the first difference a's kind beats
      b's, or a ends there and b goes on, or the other way round. */
  ghost predicate KindsAhead(a: seq<SegmentKind>, b: seq<SegmentKind>, shorterFirst: bool) {
    exists i: nat :: AlikeTo(a, b, i) &&
      if i < |a| && i < |b| then Beats(a[i], b[i])
      else if shorterFirst then i == |a| < |b| else i == |b| < |a|
  }

  lemma BeatsByRank(a: SegmentKind, b: SegmentKind)
    ensures Beats(a, b) <==> a.Rank() < b.Rank()
  {}

  lemma {:induction false} KindsBeforeAhead(a: seq<Segment>, b: seq<Segment>)
    ensures KindsBefore(a, b) ==> KindsAhead(Kinds(a), Kinds(b), true)
  {
    if KindsBefore(a, b) {
      var ka, kb := Kinds(a), Kinds(b);
      if a == [] || a[0].kind.Rank() < b[0].kind.Rank() {
        if a != [] { BeatsByRank(a[0].kind, b[0].kind); }
        assert AlikeTo(ka, kb, 0);
      } else {
        KindsBeforeAhead(a[1..], b[1..]);
        assert ka[1..] == Kinds(a[1..]) && kb[1..] == Kinds(b[1..]);
        AheadCons(ka, kb, true);
      }
    }
  }

  lemma AheadCons(a: seq<SegmentKind>, b: seq<SegmentKind>, shorterFirst: bool)
    requires a != [] && b != [] && a[0] == b[0] && KindsAhead(a[1..], b[1..], shorterFirst)
    ensures KindsAhead(a, b, shorterFirst)
  {
    var i: nat :| AlikeTo(a[1..], b[1..], i) &&
      if i < |a[1..]| && i < |b[1..]| then Beats(a[1..][i], b[1..][i])
      else if shorterFirst then i == |a[1..]| < |b[1..]| else i == |b[1..]| < |a[1..]|;
    AlikeCons(a, b, i);
    assert AlikeTo(a, b, i + 1);
  }

  lemma {:induction false} MoreSpecificAhead(a: seq<SegmentKind>, b: seq<SegmentKind>)
    ensures MoreSpecific(a, b) ==> KindsAhead(a, b, false)
  {
    if MoreSpecific(a, b) {
      if b == [] || a[0].Rank() < b[0].Rank() {
        if b != [] { BeatsByRank(a[0], b[0]); }
        assert AlikeTo(a, b, 0);
      } else {
        MoreSpecificAhead(a[1..], b[1..]);
        AheadCons(a, b, false);
      }
    }
  }

  /** The answer against any other matching route: at the first difference of their
      kinds the answer's beats the other's, or the answer ends there; with the same
      kinds it stands first in the dictionary, or it is the root. */
  lemma AnswerIsAhead(routes: seq<CompiledRoute>, path: string, r: CompiledRoute)
    requires Canonical(routes) && r in routes && SegMatches(Segs(r), SplitSegments(NormalizePath(path)))
    ensures Lookup(routes, path).Some? && var best := Lookup(routes, path).value.route;
      && best in routes
      && (best == r || KindsAhead(Kinds(Segs(best)), Kinds(Segs(r)), true)
          || (Kinds(Segs(best)) == Kinds(Segs(r)) && (best.pattern == "/" || TextBefore(best.pattern, r.pattern))))
  {
    LookupIsBest(routes, path);
    var best := Lookup(routes, path).value.route;
    hide Lookup;
    if best != r {
      assert Better(best, r);
      KindsBeforeAhead(Segs(best), Segs(r));
      if SameKinds(Segs(best), Segs(r)) { SameKindsTie(best, r); }
    }
  }

  lemma SameKindsTie(a: CompiledRoute, b: CompiledRoute)
    requires a == Compile(a.pattern) && b == Compile(b.pattern) && SameKinds(Segs(a), Segs(b)) && RouteLess(a, b)
    ensures a.pattern == "/" || TextBefore(a.pattern, b.pattern)
  {
    if a.pattern != "/" {
      assert a.segments == Kinds(Segs(a));
      assert b.pattern == "/" ==> |a.segments| == 0;
      MoreSpecificTotal(a.segments, b.segments);
      LessExactly(a.pattern, b.pattern);
    }
  }

  /** The order of the sort: at the first difference of the kinds the earlier route's
      beats the later one's, or it goes on where the other ends; with the same kinds
      it does not stand later in the dictionary. */
  lemma SortedAhead(routes: seq<CompiledRoute>, i: nat, j: nat)
    requires i < j < |SortedRoutes(routes)|
    ensures var a, b := SortedRoutes(routes)[i], SortedRoutes(routes)[j];
      || KindsAhead(a.segments, b.segments, false)
      || (a.segments == b.segments && !TextBefore(b.pattern, a.pattern))
  {
    SortedRoutesSorted(routes);
    var a, b := SortedRoutes(routes)[i], SortedRoutes(routes)[j];
    RouteLessTotal(a, b);
    MoreSpecificTotal(a.segments, b.segments);
    MoreSpecificAhead(a.segments, b.segments);
    LessExactly(b.pattern, a.pattern);
  }

  // ---------------------------------------------------------- request paths

  /** One final slash makes no difference to the answer, and the empty path is the root. */
  lemma FinalSlashIgnored(routes: seq<CompiledRoute>, path: string)
    requires path == "" || path[|path| - 1] != '/'
    ensures Lookup(routes, path + "/") == Lookup(routes, path)
  {
    assert (path + "/")[..|path|] == path;
  }

  predicate Octets(s: string) { forall i :: 0 <= i < |s| ==> s[i] as int < 0x100 }

  /** Percent-encoding of every octet, with digits of either case. */
  function Escaped(s: string, upper: bool): string
    requires Octets(s)
  {
    if s == "" then ""
    else
      var digits := if upper then "0123456789ABCDEF" else "0123456789abcdef";
      assert s[0] as int < 0x100;
      ['%', digits[s[0] as int / 16], digits[s[0] as int % 16]] + Escaped(s[1..], upper)
  }

  lemma DigitsRead(n: nat, upper: bool)
    requires n < 16
    ensures HexDigit((if upper then "0123456789ABCDEF" else "0123456789abcdef")[n]) == Some(n)
  {}

  lemma OneEscape(a: char, b: char, hi: nat, lo: nat, t: string)
    requires HexDigit(a) == Some(hi) && HexDigit(b) == Some(lo) && hi < 16 && lo < 16 && PathUnescape(t).Some?
    ensures PathUnescape(['%', a, b] + t) == Some([(hi * 16 + lo) as char] + PathUnescape(t).value)
  {
    hide HexDigit;
    assert (['%', a, b] + t)[3..] == t;
  }

  /** Unescaping undoes percent-encoding. */
  lemma {:induction false} UnescapesEscaped(s: string, upper: bool)
    requires Octets(s)
    ensures PathUnescape(Escaped(s, upper)) == Some(s) && Decode(Escaped(s, upper)) == s
  {
    if s != "" {
      assert Octets(s[1..]);
      UnescapesEscaped(s[1..], upper);
      hide PathUnescape, HexDigit;
      var digits := if upper then "0123456789ABCDEF" else "0123456789abcdef";
      var hi, lo := s[0] as int / 16, s[0] as int % 16;
      DigitsRead(hi, upper);
      DigitsRead(lo, upper);
      OneEscape(digits[hi], digits[lo], hi, lo, Escaped(s[1..], upper));
      assert [s[0]] + s[1..] == s;
    }
  }
}
