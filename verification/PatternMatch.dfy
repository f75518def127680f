/** Pattern compilation, the reference (regular-expression) matcher and the
    specificity order: patternmatch/patternmatch.go. */
module PatternMatch {
  import opened Strings

  datatype SegmentKind = Static | Dynamic | CatchAll | OptCatchAll {
    function Rank(): nat {
      match this
      case Static => 0
      case Dynamic => 1
      case CatchAll => 2
      case OptCatchAll => 3
    }
  }

  /** One piece of a pattern: literal text for a static segment, otherwise the parameter name. */
  datatype Segment = Segment(kind: SegmentKind, value: string) {
    predicate ConsumesRest() { kind.CatchAll? || kind.OptCatchAll? }
  }

  // ---------------------------------------------------------------- parsing

  function ParsePart(p: string): Segment {
    if ":..." <= p then
      var name := p[4..];
      if p[|p| - 1] == '?' then Segment(OptCatchAll, name[..|name| - 1]) else Segment(CatchAll, name)
    else if ":" <= p then Segment(Dynamic, p[1..])
    else Segment(Static, p)
  }

  /** A catch-all swallows whatever the pattern writes after it. */
  function ParseParts(parts: seq<string>): (segs: seq<Segment>) {
    if parts == [] then []
    else
      var seg := ParsePart(parts[0]);
      if seg.ConsumesRest() then [seg] else [seg] + ParseParts(parts[1..])
  }

  /** The segments of a pattern; the root pattern has none. */
  function Parse(pattern: string): seq<Segment> {
    if pattern == "/" then [] else ParseParts(Split(pattern, '/')[1..])
  }

  /** Catch-alls come last, and no segment text holds a slash. */
  ghost predicate WellFormed(segs: seq<Segment>) {
    && (forall i :: 0 <= i < |segs| - 1 ==> !segs[i].ConsumesRest())
    && (forall i :: 0 <= i < |segs| ==> '/' !in segs[i].value)
  }

  lemma {:induction false} ParsePartsWellFormed(parts: seq<string>)
    requires AllWithout(parts, '/')
    ensures WellFormed(ParseParts(parts))
    ensures (ParseParts(parts) == []) == (parts == [])
  {
    if parts != [] {
      assert '/' !in parts[0];
      var seg := ParsePart(parts[0]);
      assert '/' !in seg.value;
      assert AllWithout(parts[1..], '/');
      ParsePartsWellFormed(parts[1..]);
    }
  }

  lemma ParseWellFormed(pattern: string)
    ensures WellFormed(Parse(pattern))
    ensures "/" <= pattern ==> (Parse(pattern) == [] <==> pattern == "/")
  {
    var parts := Split(pattern, '/');
    assert AllWithout(parts[1..], '/');
    ParsePartsWellFormed(parts[1..]);
    if "/" <= pattern && pattern != "/" {
      assert pattern[0] == '/';
      assert parts == [""] + Split(pattern[1..], '/');
    }
  }

  // ------------------------------------------------------- compiled patterns

  /** The pieces CompilePattern writes into the regular expression:
      `/text`, `/([^/]+)`, `/(.+)` and `(?:/(.+))?`. */
  datatype Piece = Lit(text: string) | One | Rest | OptRest

  /** `^/$` for the root, otherwise the pieces followed by `(?:/)?$`. */
  datatype Regex = RootRe | Pieces(pieces: seq<Piece>)

  datatype CompiledRoute = CompiledRoute(
    pattern: string,
    re: Regex,
    paramNames: seq<string>,
    paramKinds: seq<SegmentKind>,
    isStatic: bool,
    segments: seq<SegmentKind>)

  function PieceOf(seg: Segment): Piece {
    match seg.kind
    case Static => Lit(seg.value)
    case Dynamic => One
    case CatchAll => Rest
    case OptCatchAll => OptRest
  }

  function PiecesOf(segs: seq<Segment>): (ps: seq<Piece>)
    ensures |ps| == |segs|
  {
    seq(|segs|, i requires 0 <= i < |segs| => PieceOf(segs[i]))
  }

  function Kinds(segs: seq<Segment>): (ks: seq<SegmentKind>)
    ensures |ks| == |segs|
  {
    seq(|segs|, i requires 0 <= i < |segs| => segs[i].kind)
  }

  /** The segments that bind a parameter. */
  function Params(segs: seq<Segment>): seq<Segment> {
    if segs == [] then []
    else if segs[0].kind.Static? then Params(segs[1..])
    else [segs[0]] + Params(segs[1..])
  }

  function Names(segs: seq<Segment>): (names: seq<string>)
    ensures |names| == |segs|
  {
    seq(|segs|, i requires 0 <= i < |segs| => segs[i].value)
  }

  /** What CompilePattern computes, stated on the parsed segments. */
  function Compile(pattern: string): CompiledRoute {
    if pattern == "/" then CompiledRoute(pattern, RootRe, [], [], true, [Static])
    else
      var segs := Parse(pattern);
      CompiledRoute(pattern, Pieces(PiecesOf(segs)), Names(Params(segs)), Kinds(Params(segs)),
                    Params(segs) == [], Kinds(segs))
  }

  lemma {:induction false} ParamsSnoc(segs: seq<Segment>, s: Segment)
    ensures Params(segs + [s]) == Params(segs) + (if s.kind.Static? then [] else [s])
  {
    if segs == [] {
      assert segs + [s] == [s];
      assert [s][1..] == [];
    } else {
      assert (segs + [s])[1..] == segs[1..] + [s];
      ParamsSnoc(segs[1..], s);
    }
  }

  /** What appending one segment adds to each of the compiled lists. */
  lemma AppendSegment(segs: seq<Segment>, s: Segment)
    ensures PiecesOf(segs + [s]) == PiecesOf(segs) + [PieceOf(s)]
    ensures Kinds(segs + [s]) == Kinds(segs) + [s.kind]
    ensures s.kind.Static? ==> Params(segs + [s]) == Params(segs)
    ensures !s.kind.Static? ==>
      && Params(segs + [s]) != []
      && Names(Params(segs + [s])) == Names(Params(segs)) + [s.value]
      && Kinds(Params(segs + [s])) == Kinds(Params(segs)) + [s.kind]
  {
    ParamsSnoc(segs, s);
  }

  /** One unfolding of the parser at position i. */
  lemma ParseStep(parts: seq<string>, segs: seq<Segment>, i: nat)
    requires i < |parts|
    requires ParseParts(parts) == segs + ParseParts(parts[i..])
    ensures var seg := ParsePart(parts[i]);
      ParseParts(parts) == segs + [seg] + (if seg.ConsumesRest() then [] else ParseParts(parts[i + 1..]))
  {
    assert parts[i..][0] == parts[i];
    assert parts[i..][1..] == parts[i + 1..];
    Strings.ConcatAssoc(segs, [ParsePart(parts[i])], ParseParts(parts[i + 1..]));
  }

  ghost predicate CompiledSoFar(segs: seq<Segment>, pieces: seq<Piece>, names: seq<string>,
                                kinds: seq<SegmentKind>, segments: seq<SegmentKind>, isStatic: bool)
  {
    && pieces == PiecesOf(segs) && segments == Kinds(segs)
    && names == Names(Params(segs)) && kinds == Kinds(Params(segs))
    && isStatic == (Params(segs) == [])
  }

  /** CompilePattern's loop agrees with the trie's parser: pieces, parameter
      names and kinds are those of the parsed segments. */
  method CompilePattern(pattern: string) returns (cr: CompiledRoute)
    ensures cr == Compile(pattern)
  {
    if pattern == "/" {
      return CompiledRoute(pattern, RootRe, [], [], true, [Static]);
    }
    var parts := Split(pattern, '/')[1..];
    var pieces, names, kinds, segments, isStatic := [], [], [], [], true;
    ghost var segs: seq<Segment> := [];
    var i := 0;
    while i < |parts|
      invariant 0 <= i <= |parts|
      invariant ParseParts(parts) == segs + ParseParts(parts[i..])
      invariant CompiledSoFar(segs, pieces, names, kinds, segments, isStatic)
    {
      var p := parts[i];
      ParseStep(parts, segs, i);
      AppendSegment(segs, ParsePart(p));
      segs := segs + [ParsePart(p)];
      if ":..." <= p {
        isStatic := false;
        var optional := p[|p| - 1] == '?';
        var name := p[4..];
        if optional {
          name := name[..|name| - 1];
          pieces, segments, kinds := pieces + [OptRest], segments + [OptCatchAll], kinds + [OptCatchAll];
        } else {
          pieces, segments, kinds := pieces + [Rest], segments + [CatchAll], kinds + [CatchAll];
        }
        names := names + [name];
        return CompiledRoute(pattern, Pieces(pieces), names, kinds, isStatic, segments);
      }
      if ":" <= p {
        isStatic := false;
        pieces, names := pieces + [One], names + [p[1..]];
        kinds, segments := kinds + [Dynamic], segments + [Dynamic];
      } else {
        pieces, segments := pieces + [Lit(p)], segments + [Static];
      }
      i := i + 1;
    }
    assert segs + [] == segs;
    cr := CompiledRoute(pattern, Pieces(pieces), names, kinds, isStatic, segments);
  }

  // ---------------------------------------------------- the reference matcher

  /** The longest slash-free prefix, what `[^/]+` captures when it is not empty. */
  function UpToSlash(s: string): (w: string)
    ensures w <= s && '/' !in w
    ensures w == s || s[|w|] == '/'
  {
    if s == "" || s[0] == '/' then ""
    else
      var w := UpToSlash(s[1..]);
      assert s == [s[0]] + s[1..];
      [s[0]] + w
  }

  predicate AtEnd(rest: string) { rest == "" || rest == "/" }

  /** The capture groups of the compiled expression on `rest`, or None.
      `.` does not match a line feed. Every piece after the current one starts
      with a slash or stands at the end, so no shorter capture can succeed. */
  function MatchPieces(ps: seq<Piece>, rest: string): Option<seq<string>> {
    if ps == [] then (if AtEnd(rest) then Some([]) else None)
    else match ps[0]
      case Lit(text) =>
        if ['/'] + text <= rest then MatchPieces(ps[1..], rest[1 + |text|..]) else None
      case One =>
        if rest == "" || rest[0] != '/' then None
        else
          var w := UpToSlash(rest[1..]);
          if w == "" then None
          else (match MatchPieces(ps[1..], rest[1 + |w|..])
            case None => None
            case Some(more) => Some([w] + more))
      case Rest =>
        if |rest| > 1 && rest[0] == '/' && '\n' !in rest[1..] then Some([rest[1..]]) else None
      case OptRest =>
        if |rest| > 1 && rest[0] == '/' && '\n' !in rest[1..] then Some([rest[1..]])
        else if AtEnd(rest) then Some([""])
        else None
  }

  function Captures(re: Regex, path: string): Option<seq<string>> {
    match re
    case RootRe => if path == "/" then Some([]) else None
    case Pieces(ps) => MatchPieces(ps, path)
  }

  /** A captured parameter: one decoded segment, or the segments of a catch-all. */
  datatype Value = Single(text: string) | Many(texts: seq<string>)

  datatype Binding = Binding(name: string, value: Value)

  /** Later bindings overwrite earlier ones. */
  function Bind(m: map<string, Value>, bs: seq<Binding>): map<string, Value>
    decreases bs
  {
    if bs == [] then m else Bind(m[bs[0].name := bs[0].value], bs[1..])
  }

  function HexDigit(c: char): Option<nat> {
    if '0' <= c <= '9' then Some(c as int - '0' as int)
    else if 'a' <= c <= 'f' then Some(c as int - 'a' as int + 10)
    else if 'A' <= c <= 'F' then Some(c as int - 'A' as int + 10)
    else None
  }

  /** `url.PathUnescape`; None stands for its error. */
  function PathUnescape(s: string): Option<string> {
    if s == "" then Some("")
    else if s[0] == '%' then
      if |s| < 3 || HexDigit(s[1]).None? || HexDigit(s[2]).None? then None
      else (match PathUnescape(s[3..])
        case None => None
        case Some(t) => Some([(HexDigit(s[1]).value * 16 + HexDigit(s[2]).value) as char] + t))
    else match PathUnescape(s[1..])
      case None => None
      case Some(t) => Some([s[0]] + t)
  }

  /** Both matchers fall back to the raw text when it does not unescape. */
  function Decode(s: string): string {
    match PathUnescape(s) case Some(t) => t case None => s
  }

  lemma {:induction false} DecodeIdentity(s: string)
    requires '%' !in s
    ensures PathUnescape(s) == Some(s) && Decode(s) == s
  {
    if s != "" {
      DecodeIdentity(s[1..]);
      assert [s[0]] + s[1..] == s;
    }
  }

  function RefBindings(names: seq<string>, kinds: seq<SegmentKind>, caps: seq<string>): seq<Binding>
    requires |names| == |kinds| == |caps|
  {
    if caps == [] then []
    else
      var more := RefBindings(names[1..], kinds[1..], caps[1..]);
      if caps[0] == "" then more
      else
        var value := if kinds[0].Rank() >= 2 then Many(Split(Decode(caps[0]), '/')) else Single(Decode(caps[0]));
        [Binding(names[0], value)] + more
  }

  /** The parameters the reference matcher returns. */
  function RefMatch(cr: CompiledRoute, path: string): Option<map<string, Value>>
    requires |cr.paramNames| == |cr.paramKinds|
  {
    match Captures(cr.re, path)
    case Some(caps) =>
      if |caps| == |cr.paramNames| then Some(Bind(map[], RefBindings(cr.paramNames, cr.paramKinds, caps))) else None
    case None => None
  }

  lemma {:induction false} BindSnoc(m: map<string, Value>, bs: seq<Binding>, b: Binding)
    ensures Bind(m, bs + [b]) == Bind(m, bs)[b.name := b.value]
    decreases bs
  {
    if bs == [] {
      assert bs + [b] == [b];
      assert [b][1..] == [];
    } else {
      assert (bs + [b])[1..] == bs[1..] + [b];
      BindSnoc(m[bs[0].name := bs[0].value], bs[1..], b);
    }
  }

  lemma {:induction false} RefBindingsSplit(names: seq<string>, kinds: seq<SegmentKind>, caps: seq<string>, i: nat)
    requires |names| == |kinds| == |caps| && i < |caps|
    ensures RefBindings(names[..i + 1], kinds[..i + 1], caps[..i + 1])
         == RefBindings(names[..i], kinds[..i], caps[..i])
            + RefBindings(names[i..i + 1], kinds[i..i + 1], caps[i..i + 1])
    decreases i
  {
    if i > 0 {
      RefBindingsSplit(names[1..], kinds[1..], caps[1..], i - 1);
      assert names[..i + 1][1..] == names[1..][..i] && names[..i][1..] == names[1..][..i - 1];
      assert kinds[..i + 1][1..] == kinds[1..][..i] && kinds[..i][1..] == kinds[1..][..i - 1];
      assert caps[..i + 1][1..] == caps[1..][..i] && caps[..i][1..] == caps[1..][..i - 1];
      assert names[1..][i - 1..i] == names[i..i + 1];
      assert kinds[1..][i - 1..i] == kinds[i..i + 1];
      assert caps[1..][i - 1..i] == caps[i..i + 1];
    }
  }

  lemma {:induction false} WellFormedTail(segs: seq<Segment>)
    requires WellFormed(segs) && segs != []
    ensures WellFormed(segs[1..]) && PiecesOf(segs)[1..] == PiecesOf(segs[1..])
    ensures segs[0].ConsumesRest() ==> |segs| == 1
  {
    forall i | 0 <= i < |segs[1..]| ensures PiecesOf(segs)[1..][i] == PiecesOf(segs[1..])[i] {}
  }

  /** A match captures one text for each segment that binds a parameter. */
  lemma {:induction false} CapturesPerParam(segs: seq<Segment>, rest: string)
    requires WellFormed(segs) && MatchPieces(PiecesOf(segs), rest).Some?
    ensures |MatchPieces(PiecesOf(segs), rest).value| == |Params(segs)|
    decreases |segs|
  {
    if segs != [] {
      WellFormedTail(segs);
      match segs[0].kind {
        case Static => CapturesPerParam(segs[1..], rest[1 + |segs[0].value|..]);
        case Dynamic => CapturesPerParam(segs[1..], rest[1 + |UpToSlash(rest[1..])|..]);
        case _ => assert segs[1..] == [];
      }
    }
  }

  /** A compiled route has a name and a kind for each text its expression captures. */
  lemma CompiledCaptures(cr: CompiledRoute, path: string)
    requires cr == Compile(cr.pattern)
    ensures |cr.paramNames| == |cr.paramKinds|
    ensures Captures(cr.re, path).Some? ==> |Captures(cr.re, path).value| == |cr.paramNames|
  {
    ParseWellFormed(cr.pattern);
    if cr.re.Pieces? && Captures(cr.re, path).Some? { CapturesPerParam(Parse(cr.pattern), path); }
  }

  /** The loop of `Match` over the capture groups builds exactly RefMatch's map, for
      every compiled route, and for any other value with matching lists. */
  method Match(cr: CompiledRoute, path: string) returns (r: Option<map<string, Value>>)
    requires cr == Compile(cr.pattern)
          || (|cr.paramNames| == |cr.paramKinds|
              && (Captures(cr.re, path).Some? ==> |Captures(cr.re, path).value| == |cr.paramNames|))
    ensures r == RefMatch(cr, path) && (r.Some? <==> Captures(cr.re, path).Some?)
  {
    if cr == Compile(cr.pattern) { CompiledCaptures(cr, path); }
    var m := Captures(cr.re, path);
    if m.None? { return None; }
    var caps := m.value;
    var params: map<string, Value> := map[];
    for i := 0 to |caps|
      invariant params == Bind(map[], RefBindings(cr.paramNames[..i], cr.paramKinds[..i], caps[..i]))
    {
      RefBindingsSplit(cr.paramNames, cr.paramKinds, caps, i);
      ghost var before := RefBindings(cr.paramNames[..i], cr.paramKinds[..i], caps[..i]);
      ghost var name, kind, cap := cr.paramNames[i..i + 1], cr.paramKinds[i..i + 1], caps[i..i + 1];
      assert RefBindings(name[1..], kind[1..], cap[1..]) == [];
      if caps[i] == "" {
        assert before + RefBindings(name, kind, cap) == before;
        continue;
      }
      var value := if cr.paramKinds[i].Rank() >= 2 then Many(Split(Decode(caps[i]), '/')) else Single(Decode(caps[i]));
      assert RefBindings(name, kind, cap) == [Binding(cr.paramNames[i], value)];
      BindSnoc(map[], before, Binding(cr.paramNames[i], value));
      params := params[cr.paramNames[i] := value];
    }
    assert cr.paramNames[..|caps|] == cr.paramNames && cr.paramKinds[..|caps|] == cr.paramKinds && caps[..|caps|] == caps;
    return Some(params);
  }

  /** Strips a single trailing slash, unless the path is the root. */
  function NormalizePath(path: string): string {
    if |path| > 1 && path[|path| - 1] == '/' then path[..|path| - 1] else path
  }
}
