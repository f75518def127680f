/** sqlutil/sqlutil.go's EscapeLike and the three LIKE operators of
    repository/gorm/query.go, against the LIKE predicate with escape character
    backslash (section 8.5 of ISO/IEC 9075-2). */
module EscapeLike {
  import opened Strings

  /** A Go string as `range` sees it: runes, and bytes that begin no valid rune. */
  datatype Symbol = Rune(c: char) | Bad(byte: nat)

  type Text = seq<Symbol>

  const PERCENT := Rune('%')
  const UNDERSCORE := Rune('_')
  const BACKSLASH := Rune('\\')
  const REPLACEMENT := Rune('\U{FFFD}')

  predicate Special(x: Symbol) { x == PERCENT || x == UNDERSCORE || x == BACKSLASH }

  predicate HasSpecial(s: Text) { exists i :: 0 <= i < |s| && Special(s[i]) }

  predicate HasBad(s: Text) { exists i :: 0 <= i < |s| && s[i].Bad? }

  // --------------------------------------------------------------- LIKE itself

  /** `t LIKE p ESCAPE '\'`: `%` is any text, `_` any one symbol, an escaped symbol itself. */
  ghost predicate Like(p: Text, t: Text)
    decreases |p|
  {
    if p == [] then t == []
    else if p[0] == PERCENT then exists k :: 0 <= k <= |t| && Like(p[1..], t[k..])
    else if p[0] == UNDERSCORE then t != [] && Like(p[1..], t[1..])
    else if p[0] == BACKSLASH then |p| >= 2 && t != [] && t[0] == p[1] && Like(p[2..], t[1..])
    else t != [] && t[0] == p[0] && Like(p[1..], t[1..])
  }

  /** The standard admits only `%`, `_` and the escape character after an escape. */
  predicate WellFormed(p: Text)
    decreases |p|
  {
    if p == [] then true
    else if p[0] == BACKSLASH then |p| >= 2 && Special(p[1]) && WellFormed(p[2..])
    else WellFormed(p[1..])
  }

  // ------------------------------------------------------------------ escaping

  /** What WriteRune appends for the rune that `range` yields: a bad byte yields U+FFFD. */
  function Written(x: Symbol): Symbol { if x.Bad? then REPLACEMENT else x }

  function EscapeOne(x: Symbol): Text { (if Special(x) then [BACKSLASH] else []) + [Written(x)] }

  function Escape(s: Text): Text { if s == [] then [] else EscapeOne(s[0]) + Escape(s[1..]) }

  lemma {:induction false} EscapeSnoc(s: Text, x: Symbol)
    ensures Escape(s + [x]) == Escape(s) + EscapeOne(x)
  {
    if s == [] {
      assert (s + [x])[1..] == [];
    } else {
      assert (s + [x])[1..] == s[1..] + [x];
      EscapeSnoc(s[1..], x);
    }
  }

  function Repair(s: Text): (r: Text)
    ensures |r| == |s|
  {
    seq(|s|, i requires 0 <= i < |s| => Written(s[i]))
  }

  /** The text the escaped pattern stands for: s itself, except that escaping
      replaces the bad bytes of a text that also has a special symbol. */
  function Meant(s: Text): (r: Text)
    ensures |r| == |s|
  {
    if HasSpecial(s) then Repair(s) else s
  }

  method EscapeLike(s: Text) returns (r: Text)
    ensures r == Escaped(s)
  {
    var special := false;
    for i := 0 to |s|
      invariant special <==> HasSpecial(s[..i])
    {
      assert s[..i + 1] == s[..i] + [s[i]];
      assert HasSpecial(s[..i + 1]) <==> HasSpecial(s[..i]) || Special(s[i]) by {
        assert s[..i + 1][i] == s[i];
        SpecialPrefix(s, i);
      }
      special := special || Special(s[i]);
    }
    assert s[..|s|] == s;
    if !special { return s; }
    r := [];
    for i := 0 to |s|
      invariant r == Escape(s[..i])
    {
      assert s[..i + 1] == s[..i] + [s[i]];
      EscapeSnoc(s[..i], s[i]);
      if Special(s[i]) { r := r + [BACKSLASH]; }
      r := r + [Written(s[i])];
    }
  }

  lemma SpecialPrefix(s: Text, i: nat)
    requires i < |s|
    ensures HasSpecial(s[..i]) ==> HasSpecial(s[..i + 1])
  {
    if HasSpecial(s[..i]) {
      var j :| 0 <= j < i && Special(s[..i][j]);
      assert s[..i + 1][j] == s[..i][j];
    }
  }

  /** The result of EscapeLike: the fast path answers s as it is. */
  function Escaped(s: Text): Text { if HasSpecial(s) then Escape(s) else s }

  // ------------------------------------------------------------ what it matches

  ghost predicate StartsWith(t: Text, s: Text) { |s| <= |t| && t[..|s|] == s }

  lemma LiteralMatches(x: Symbol, p: Text, t: Text)
    ensures Like(EscapeOne(x) + p, t) <==> t != [] && t[0] == Written(x) && Like(p, t[1..])
  {
    var q := EscapeOne(x) + p;
    if Special(x) { assert q[2..] == p; } else { assert q[1..] == p; }
  }

  /** An escaped text at the front of a pattern matches that text and nothing else. */
  lemma {:induction false} EscapeMatches(s: Text, p: Text, t: Text)
    ensures Like(Escape(s) + p, t) <==> StartsWith(t, Repair(s)) && Like(p, t[|s|..])
  {
    if s == [] {
      assert Escape(s) + p == p && t[|s|..] == t && t[..0] == Repair(s);
    } else {
      LiteralMatches(s[0], Escape(s[1..]) + p, t);
      assert Escape(s) + p == EscapeOne(s[0]) + (Escape(s[1..]) + p);
      hide Like, Escape, Repair;
      if t != [] {
        EscapeMatches(s[1..], p, t[1..]);
        StartsStep(s, t);
        assert |s| <= |t| ==> t[1..][|s| - 1..] == t[|s|..];
      }
    }
  }

  lemma StartsStep(s: Text, t: Text)
    requires s != [] && t != []
    ensures StartsWith(t, Repair(s)) <==> t[0] == Written(s[0]) && StartsWith(t[1..], Repair(s[1..]))
  {
    assert Repair(s) == [Written(s[0])] + Repair(s[1..]);
    if |s| <= |t| { assert t[..|s|] == [t[0]] + t[1..][..|s| - 1]; }
  }

  /** The fast path returns what the slow one would, but keeps bad bytes. */
  lemma {:induction false} PlainMatches(s: Text, p: Text, t: Text)
    requires !HasSpecial(s)
    ensures Like(s + p, t) <==> StartsWith(t, s) && Like(p, t[|s|..])
  {
    if s == [] {
      assert s + p == p && t[|s|..] == t && t[..0] == s;
    } else {
      var q := s + p;
      assert !Special(s[0]) && q[0] == s[0] && q[1..] == s[1..] + p;
      assert !HasSpecial(s[1..]) by { assert forall i :: 0 <= i < |s| - 1 ==> s[1..][i] == s[i + 1]; }
      if t != [] {
        PlainMatches(s[1..], p, t[1..]);
        assert StartsWith(t, s) <==> t[0] == s[0] && StartsWith(t[1..], s[1..]) by {
          assert s == [s[0]] + s[1..];
          if |s| <= |t| { assert t[..|s|] == [t[0]] + t[1..][..|s| - 1]; }
        }
        assert |s| <= |t| ==> t[1..][|s| - 1..] == t[|s|..];
      }
    }
  }

  lemma EscapedMatches(s: Text, p: Text, t: Text)
    ensures Like(Escaped(s) + p, t) <==> StartsWith(t, Meant(s)) && Like(p, t[|s|..])
  {
    if HasSpecial(s) { EscapeMatches(s, p, t); } else { PlainMatches(s, p, t); }
  }

  /** Alone, the escaped text matches exactly what it stands for. */
  lemma MatchesItself(s: Text, t: Text)
    ensures Like(Escaped(s), t) <==> t == Meant(s)
  {
    EscapedMatches(s, [], t);
    assert Escaped(s) + [] == Escaped(s);
    if |s| <= |t| && t[|s|..] == [] { assert t[..|s|] == t; }
  }

  lemma {:induction false} EscapeWellFormed(s: Text)
    ensures WellFormed(Escape(s))
  {
    if s != [] {
      EscapeWellFormed(s[1..]);
      var q := Escape(s);
      if Special(s[0]) { assert q[2..] == Escape(s[1..]); } else { assert q[1..] == Escape(s[1..]); }
    }
  }

  lemma {:induction false} PlainWellFormed(s: Text)
    requires !HasSpecial(s)
    ensures WellFormed(s)
  {
    if s != [] {
      assert !Special(s[0]);
      assert !HasSpecial(s[1..]) by { assert forall i :: 0 <= i < |s| - 1 ==> s[1..][i] == s[i + 1]; }
      PlainWellFormed(s[1..]);
    }
  }

  /** A database that refuses other escapes never sees one. */
  lemma NeverRefused(s: Text)
    ensures WellFormed(Escaped(s))
  {
    if HasSpecial(s) { EscapeWellFormed(s); } else { PlainWellFormed(s); }
  }

  // ------------------------------------------------------- the three operators

  datatype Operator = Cont | Starts | Ends

  /** What the filter's documentation says each operator selects. */
  ghost predicate Selects(op: Operator, s: Text, t: Text) {
    match op
    case Cont => exists k :: 0 <= k <= |t| && StartsWith(t[k..], s)
    case Starts => StartsWith(t, s)
    case Ends => |s| <= |t| && t[|t| - |s|..] == s
  }

  /** The argument bound to `column LIKE ? ESCAPE '\'`. */
  method LikeArgument(op: Operator, s: Text) returns (p: Text)
    ensures forall t :: Like(p, t) <==> Selects(op, Meant(s), t)
  {
    p := EscapeLike(s);
    match op {
      case Cont => p := [PERCENT] + p + [PERCENT];
      case Starts => p := p + [PERCENT];
      case Ends => p := [PERCENT] + p;
    }
    forall t ensures Like(p, t) <==> Selects(op, Meant(s), t) { ArgumentSelects(op, s, p, t); }
  }

  ghost predicate IsArgument(op: Operator, s: Text, p: Text) {
    match op
    case Cont => p == [PERCENT] + Escaped(s) + [PERCENT]
    case Starts => p == Escaped(s) + [PERCENT]
    case Ends => p == [PERCENT] + Escaped(s)
  }

  lemma PercentMatchesAll(t: Text)
    ensures Like([PERCENT], t)
  {
    var p := [PERCENT];
    assert p[1..] == [] && t[|t|..] == [] && Like(p[1..], t[|t|..]);
  }

  lemma PercentFirst(p: Text, t: Text)
    ensures Like([PERCENT] + p, t) <==> exists k :: 0 <= k <= |t| && Like(p, t[k..])
  {
    assert ([PERCENT] + p)[1..] == p;
  }

  lemma ArgumentSelects(op: Operator, s: Text, p: Text, t: Text)
    requires IsArgument(op, s, p)
    ensures Like(p, t) <==> Selects(op, Meant(s), t)
  {
    match op {
      case Cont =>
        assert p == [PERCENT] + (Escaped(s) + [PERCENT]);
        PercentFirst(Escaped(s) + [PERCENT], t);
        forall k | 0 <= k <= |t| ensures Like(Escaped(s) + [PERCENT], t[k..]) <==> StartsWith(t[k..], Meant(s)) {
          EscapedMatches(s, [PERCENT], t[k..]);
          if |s| <= |t[k..]| { PercentMatchesAll(t[k..][|s|..]); }
        }
      case Starts =>
        EscapedMatches(s, [PERCENT], t);
        if |s| <= |t| { PercentMatchesAll(t[|s|..]); }
      case Ends =>
        PercentFirst(Escaped(s), t);
        forall k | 0 <= k <= |t| ensures Like(Escaped(s), t[k..]) <==> t[k..] == Meant(s) { MatchesItself(s, t[k..]); }
        if |s| <= |t| { assert 0 <= |t| - |s| <= |t|; }
    }
  }

  /** Each operator selects exactly what is asked for if and only if s does not
      have both a special symbol and a bad byte. */
  lemma ExactUnlessBadAndSpecial(op: Operator, s: Text, p: Text)
    requires IsArgument(op, s, p)
    ensures (forall t :: Like(p, t) <==> Selects(op, s, t)) <==> !(HasSpecial(s) && HasBad(s))
  {
    forall t ensures Like(p, t) <==> Selects(op, Meant(s), t) { ArgumentSelects(op, s, p, t); }
    SelectsItself(op, s, s);
    SelectsItself(op, Meant(s), s);
    MeantIsSame(s);
  }

  lemma SelectsItself(op: Operator, s: Text, t: Text)
    requires |s| == |t|
    ensures Selects(op, s, t) <==> s == t
  {
    assert t[0..] == t && t[..|t|] == t;
    if op.Cont? && Selects(op, s, t) {
      var k :| 0 <= k <= |t| && StartsWith(t[k..], s);
      assert k == 0;
    }
    if s == t { assert StartsWith(t[0..], s); }
  }

  lemma MeantIsSame(s: Text)
    ensures Meant(s) == s <==> !(HasSpecial(s) && HasBad(s))
  {
    if HasBad(s) && HasSpecial(s) {
      var i :| 0 <= i < |s| && s[i].Bad?;
      assert Repair(s)[i] != s[i];
    }
  }

  /** The fast path answers what the loop would have, unless a bad byte is kept. */
  lemma {:induction false} FastPathAgrees(s: Text)
    ensures Escaped(s) == Escape(s) <==> HasSpecial(s) || !HasBad(s)
  {
    if !HasSpecial(s) {
      EscapePlain(s);
      if HasBad(s) {
        var i :| 0 <= i < |s| && s[i].Bad?;
        assert Repair(s)[i] != s[i];
      } else {
        assert Repair(s) == s;
      }
    }
  }

  lemma {:induction false} EscapePlain(s: Text)
    requires !HasSpecial(s)
    ensures Escape(s) == Repair(s)
  {
    if s != [] {
      assert !Special(s[0]);
      assert !HasSpecial(s[1..]) by { assert forall i :: 0 <= i < |s| - 1 ==> s[1..][i] == s[i + 1]; }
      EscapePlain(s[1..]);
      assert Repair(s) == [Written(s[0])] + Repair(s[1..]);
    }
  }

  /** A bad byte of a text with a wildcard is searched for as U+FFFD. */
  lemma BadByteBecomes(s: Text, i: nat)
    requires HasSpecial(s) && i < |s| && s[i].Bad?
    ensures |Meant(s)| == |s| && Meant(s)[i] == Rune('\U{FFFD}')
  {}

  /** A caller who searches for the byte FF and a percent sign finds neither. */
  lemma BadByteIsLost(s: Text)
    requires s == [Bad(0xFF), PERCENT]
    ensures !Like(Escaped(s), s)
  {
    assert Special(s[1]) && s[0].Bad?;
    MeantIsSame(s);
    MatchesItself(s, s);
  }
}
