/** The `use server` prologue scanner of serveraction/directive.go, against a
    grammar of module prologues (section 11.2.1 of ECMA-262, 13th edition). A
    source text is a sequence of bytes. */
module Directive {
  import opened Strings

  const BOM: string := [0xEF as char, 0xBB as char, 0xBF as char]
  const USE_SERVER := "use server"

  // ------------------------------------------------------------------ grammar

  /** White space, a line comment with its line feed, or a closed block comment. */
  datatype Trivia = Space(c: char) | Line(body: string) | Block(body: string) {
    function Text(): string {
      match this
      case Space(c) => [c]
      case Line(body) => "//" + body + "\n"
      case Block(body) => "/*" + body + "*/"
    }

    ghost predicate Ok() {
      match this
      case Space(c) => c == ' ' || c == '\t' || c == '\r' || c == '\n'
      case Line(body) => '\n' !in body
      case Block(body) => ClosesAtEnd(body)
    }
  }

  predicate IsSpace(c: char) { c == ' ' || c == '\t' || c == '\r' || c == '\n' }

  predicate IsQuote(c: char) { c == '"' || c == '\'' }

  // The comment ends where the block says: no earlier star-slash.
  ghost predicate ClosesAtEnd(body: string) {
    forall i :: 0 <= i < |body| ==> !((body + "*/")[i] == '*' && (body + "*/")[i + 1] == '/')
  }

  /** The inside of a literal: no bare quote, and no backslash without a character after it. */
  predicate LiteralBody(q: char, body: string) {
    if body == "" then true
    else if body[0] == '\\' then |body| >= 2 && LiteralBody(q, body[2..])
    else body[0] != q && LiteralBody(q, body[1..])
  }

  function TriviaText(ts: seq<Trivia>): string {
    if ts == [] then "" else ts[0].Text() + TriviaText(ts[1..])
  }

  ghost predicate TriviaOk(ts: seq<Trivia>) { forall t :: t in ts ==> t.Ok() }

  /** A prologue that reaches the directive: trivia, complete directives with an
      optional semicolon, then the directive itself and any text. */
  datatype Prologue =
    | Found(q: char, rest: string)
    | Skip(t: Trivia, more: Prologue)
    | Other(q: char, body: string, after: seq<Trivia>, semicolon: bool, more: Prologue)
  {
    function Text(): string {
      match this
      case Found(q, rest) => [q] + (USE_SERVER + [q] + rest)
      case Skip(t, more) => t.Text() + more.Text()
      case Other(q, body, after, semicolon, more) =>
        [q] + (body + [q] + (TriviaText(after) + ((if semicolon then ";" else "") + more.Text())))
    }

    ghost predicate Ok() {
      match this
      case Found(q, _) => q == '"' || q == '\''
      case Skip(t, more) => t.Ok() && more.Ok()
      case Other(q, body, after, _, more) => (q == '"' || q == '\'') && LiteralBody(q, body) && TriviaOk(after) && more.Ok()
    }

    function Extend(suffix: string): Prologue {
      match this
      case Found(q, rest) => Found(q, rest + suffix)
      case Skip(t, more) => Skip(t, more.Extend(suffix))
      case Other(q, body, after, semicolon, more) => Other(q, body, after, semicolon, more.Extend(suffix))
    }
  }

  /** The source declares itself a server module. */
  ghost predicate Declares(src: string) {
    exists p: Prologue :: p.Ok() && (src == p.Text() || src == BOM + p.Text())
  }

  // ------------------------------------------------- the scanner on suffixes

  /** What is left after a line comment's text. */
  function AfterLine(t: string): (u: string)
    ensures |u| <= |t|
  {
    if t == "" || t[0] == '\n' then t else AfterLine(t[1..])
  }

  // What is left after the next star-slash, nothing when there is none.
  function AfterBlock(t: string): (u: string)
    ensures |u| <= |t|
  {
    if |t| < 2 then ""
    else if t[0] == '*' && t[1] == '/' then t[2..]
    else AfterBlock(t[1..])
  }

  function AfterTrivia(t: string): (u: string)
    ensures |u| <= |t|
    decreases |t|
  {
    if t == "" then ""
    else if IsSpace(t[0]) then AfterTrivia(t[1..])
    else if |t| >= 2 && t[0] == '/' && t[1] == '/' then AfterTrivia(AfterLine(t[2..]))
    else if |t| >= 2 && t[0] == '/' && t[1] == '*' then AfterTrivia(AfterBlock(t[2..]))
    else t
  }

  /** Where the literal opened before t ends, counted from the start of t. */
  function LiteralEnd(q: char, t: string): (k: Option<nat>)
    ensures k.Some? ==> k.value < |t| && t[k.value] == q
  {
    if t == "" then None
    else if t[0] == q then Some(0)
    else
      var w := if t[0] == '\\' then 2 else 1;
      if |t| < w then None
      else match LiteralEnd(q, t[w..])
        case None => None
        case Some(k) => Some(k + w)
  }

  function AfterSemicolon(t: string): (u: string)
    ensures |u| <= |t|
  {
    if t != "" && t[0] == ';' then t[1..] else t
  }

  predicate Scan(t: string)
    decreases |t|
  {
    var u := AfterTrivia(t);
    u != "" && IsQuote(u[0]) &&
    match LiteralEnd(u[0], u[1..])
    case None => false
    case Some(k) => u[1..][..k] == USE_SERVER || Scan(AfterSemicolon(AfterTrivia(u[1..][k + 1..])))
  }

  function StripBom(src: string): string { if BOM <= src then src[3..] else src }

  // ---------------------------------------------------- the scanner on indices

  function LineEnd(s: string, i: nat): (j: nat)
    ensures j >= i
    decreases |s| - i
  {
    if i < |s| && s[i] != '\n' then LineEnd(s, i + 1) else i
  }

  /** One past the block comment; past the end of the text when it is not closed. */
  function BlockEnd(s: string, i: nat): (j: nat)
    ensures j >= i + 2
    decreases |s| - i
  {
    if i + 1 < |s| && !(s[i] == '*' && s[i + 1] == '/') then BlockEnd(s, i + 1) else i + 2
  }

  function TriviaEnd(s: string, i: nat): (j: nat)
    ensures j >= i
    decreases |s| - i
  {
    if i >= |s| then i
    else if IsSpace(s[i]) then TriviaEnd(s, i + 1)
    else if s[i] == '/' && i + 1 < |s| && s[i + 1] == '/' then TriviaEnd(s, LineEnd(s, i + 2))
    else if s[i] == '/' && i + 1 < |s| && s[i + 1] == '*' then TriviaEnd(s, BlockEnd(s, i + 2))
    else i
  }

  /** The index of the closing quote, or one past the text or more. */
  function QuoteAt(s: string, j: nat, q: char): (k: nat)
    ensures k >= j
    decreases |s| - j
  {
    if j < |s| && s[j] != q then QuoteAt(s, if s[j] == '\\' then j + 2 else j + 1, q) else j
  }

  function SemicolonEnd(s: string, i: nat): nat { if i < |s| && s[i] == ';' then i + 1 else i }

  predicate ScanAt(s: string, i: nat)
    decreases |s| - i
  {
    var k := TriviaEnd(s, i);
    k < |s| && IsQuote(s[k]) &&
    var j := QuoteAt(s, k + 1, s[k]);
    j < |s| && (s[k + 1..j] == USE_SERVER || ScanAt(s, SemicolonEnd(s, TriviaEnd(s, j + 1))))
  }

  /** The text from i on; the scanner may stand past the end. */
  function From(s: string, i: nat): string { if i <= |s| then s[i..] else "" }

  lemma FromStep(s: string, i: nat, w: nat)
    requires i + w <= |s|
    ensures From(s, i)[w..] == From(s, i + w) && |From(s, i)| == |s| - i
    ensures forall k :: 0 <= k < |s| - i ==> From(s, i)[k] == s[i + k]
  {}

  lemma {:induction false} LineAgrees(s: string, i: nat)
    ensures AfterLine(From(s, i)) == From(s, LineEnd(s, i))
    decreases |s| - i
  {
    if i < |s| {
      FromStep(s, i, 1);
      if s[i] != '\n' { LineAgrees(s, i + 1); }
    }
  }

  lemma {:induction false} BlockAgrees(s: string, i: nat)
    ensures AfterBlock(From(s, i)) == From(s, BlockEnd(s, i))
    decreases |s| - i
  {
    if i + 1 < |s| {
      FromStep(s, i, 1);
      if s[i] == '*' && s[i + 1] == '/' { FromStep(s, i, 2); } else { BlockAgrees(s, i + 1); }
    }
  }

  lemma {:induction false} TriviaAgrees(s: string, i: nat)
    ensures AfterTrivia(From(s, i)) == From(s, TriviaEnd(s, i))
    decreases |s| - i
  {
    if i < |s| {
      FromStep(s, i, 1);
      if IsSpace(s[i]) {
        TriviaAgrees(s, i + 1);
      } else if s[i] == '/' && i + 1 < |s| {
        FromStep(s, i, 2);
        if s[i + 1] == '/' {
          LineAgrees(s, i + 2);
          TriviaAgrees(s, LineEnd(s, i + 2));
        } else if s[i + 1] == '*' {
          BlockAgrees(s, i + 2);
          TriviaAgrees(s, BlockEnd(s, i + 2));
        }
      }
    }
  }

  lemma {:induction false} QuoteAgrees(s: string, j: nat, q: char)
    ensures LiteralEnd(q, From(s, j)) == if QuoteAt(s, j, q) < |s| then Some(QuoteAt(s, j, q) - j) else None
    decreases |s| - j
  {
    if j < |s| {
      FromStep(s, j, 1);
      if s[j] != q {
        var w := if s[j] == '\\' then 2 else 1;
        if j + w <= |s| { FromStep(s, j, w); }
        QuoteAgrees(s, j + w, q);
      }
    }
  }

  /** One unfolding of Scan. */
  lemma ScanOnce(t: string, u: string, k: nat)
    requires u == AfterTrivia(t) && u != "" && IsQuote(u[0]) && LiteralEnd(u[0], u[1..]) == Some(k)
    ensures Scan(t) <==> u[1..][..k] == USE_SERVER || Scan(AfterSemicolon(AfterTrivia(u[1..][k + 1..])))
  {}

  lemma ScanNever(t: string, u: string)
    requires u == AfterTrivia(t)
    requires u == "" || !IsQuote(u[0]) || LiteralEnd(u[0], u[1..]).None?
    ensures !Scan(t)
  {}

  /** One unfolding of ScanAt. */
  lemma ScanAtOnce(s: string, i: nat, k: nat, j: nat)
    requires k == TriviaEnd(s, i) && k < |s| && IsQuote(s[k]) && j == QuoteAt(s, k + 1, s[k]) && j < |s|
    ensures ScanAt(s, i) <==> s[k + 1..j] == USE_SERVER || ScanAt(s, SemicolonEnd(s, TriviaEnd(s, j + 1)))
  {}

  lemma ScanAtNever(s: string, i: nat, k: nat)
    requires k == TriviaEnd(s, i)
    requires k >= |s| || !IsQuote(s[k]) || QuoteAt(s, k + 1, s[k]) >= |s|
    ensures !ScanAt(s, i)
  {}

  lemma SemicolonAgrees(s: string, i: nat)
    ensures AfterSemicolon(From(s, i)) == From(s, SemicolonEnd(s, i))
  {
    if i < |s| { FromStep(s, i, 1); }
  }

  lemma LiteralSlices(s: string, k: nat, j: nat)
    requires k < |s| && j == QuoteAt(s, k + 1, s[k])
    ensures var u := From(s, k); u != "" && u[0] == s[k]
    ensures j >= |s| ==> LiteralEnd(s[k], From(s, k)[1..]).None?
    ensures j < |s| ==>
      var v := From(s, k)[1..];
      && LiteralEnd(s[k], v) == Some(j - (k + 1))
      && v[..j - (k + 1)] == s[k + 1..j] && v[j - (k + 1) + 1..] == From(s, j + 1)
  {
    assert From(s, k)[1..] == From(s, k + 1);
    QuoteAgrees(s, k + 1, s[k]);
  }

  lemma ScanAgreesStep(s: string, i: nat, k: nat, j: nat)
    requires k == TriviaEnd(s, i) && k < |s| && IsQuote(s[k]) && j == QuoteAt(s, k + 1, s[k]) && j < |s|
    requires var m := SemicolonEnd(s, TriviaEnd(s, j + 1)); Scan(From(s, m)) == ScanAt(s, m)
    ensures Scan(From(s, i)) == ScanAt(s, i)
  {
    hide *;
    TriviaAgrees(s, i);
    LiteralSlices(s, k, j);
    ScanOnce(From(s, i), From(s, k), j - (k + 1));
    ScanAtOnce(s, i, k, j);
    TriviaAgrees(s, j + 1);
    SemicolonAgrees(s, TriviaEnd(s, j + 1));
  }

  lemma {:induction false} ScanAgrees(s: string, i: nat)
    ensures Scan(From(s, i)) == ScanAt(s, i)
    decreases |s| - i
  {
    var k := TriviaEnd(s, i);
    if k < |s| && IsQuote(s[k]) && QuoteAt(s, k + 1, s[k]) < |s| {
      var j := QuoteAt(s, k + 1, s[k]);
      ScanAgrees(s, SemicolonEnd(s, TriviaEnd(s, j + 1)));
      ScanAgreesStep(s, i, k, j);
    } else {
      TriviaAgrees(s, i);
      if k < |s| { LiteralSlices(s, k, QuoteAt(s, k + 1, s[k])); }
      ScanNever(From(s, i), From(s, k));
      ScanAtNever(s, i, k);
    }
  }

  // -------------------------------------------------------- the Go functions

  /** `skipTrivia`: never reads out of range, and stops on unterminated comments. */
  method SkipTrivia(s: string, start: nat) returns (i: nat)
    ensures i == TriviaEnd(s, start)
  {
    i := start;
    while i < |s|
      invariant TriviaEnd(s, i) == TriviaEnd(s, start)
      decreases |s| - i
    {
      var c := s[i];
      if c == ' ' || c == '\t' || c == '\r' || c == '\n' {
        i := i + 1;
      } else if c == '/' && i + 1 < |s| && s[i + 1] == '/' {
        i := i + 2;
        ghost var body := i;
        while i < |s| && s[i] != '\n'
          invariant i >= body && LineEnd(s, i) == LineEnd(s, body)
        {
          i := i + 1;
        }
      } else if c == '/' && i + 1 < |s| && s[i + 1] == '*' {
        i := i + 2;
        ghost var body := i;
        while i + 1 < |s| && !(s[i] == '*' && s[i + 1] == '/')
          invariant i >= body && BlockEnd(s, i) == BlockEnd(s, body)
        {
          i := i + 1;
        }
        i := i + 2;
      } else {
        return i;
      }
    }
  }

  /** `HasUseServerDirective` answers exactly whether the source declares it. */
  method HasUseServerDirective(src: string) returns (found: bool)
    ensures found <==> Declares(src)
  {
    ScanIsGrammar(src);
    var s := src;
    if |s| >= 3 && s[0] == 0xEF as char && s[1] == 0xBB as char && s[2] == 0xBF as char { s := s[3..]; }
    assert s == StripBom(src) && From(s, 0) == s;
    ScanAgrees(s, 0);
    found := ScanPrologue(s);
  }

  /** The loop of HasUseServerDirective, after the BOM: one directive a turn. */
  method ScanPrologue(s: string) returns (found: bool)
    ensures found == ScanAt(s, 0)
  {
    hide ScanAt, TriviaEnd;
    var i := 0;
    var n := |s|;
    while i < n
      invariant ScanAt(s, i) == ScanAt(s, 0)
      decreases n - i
    {
      ghost var start := i;
      i := SkipTrivia(s, i);
      if i >= n {
        ScanAtNever(s, start, i);
        return false;
      }
      var q := s[i];
      if q != '"' && q != '\'' {
        ScanAtNever(s, start, i);
        return false;
      }
      var j := i + 1;
      while j < n && s[j] != q
        invariant j >= i + 1 && QuoteAt(s, j, q) == QuoteAt(s, i + 1, q)
        decreases n - j
      {
        if s[j] == '\\' { j := j + 1; }
        j := j + 1;
      }
      if j >= n {
        ScanAtNever(s, start, i);
        return false;
      }
      ScanAtOnce(s, start, i, j);
      if s[i + 1..j] == USE_SERVER { return true; }
      i := j + 1;
      i := SkipTrivia(s, i);
      if i < n && s[i] == ';' { i := i + 1; }
    }
    TriviaEndPast(s, i);
    ScanAtNever(s, i, i);
    return false;
  }

  lemma TriviaEndPast(s: string, i: nat)
    requires i >= |s|
    ensures TriviaEnd(s, i) == i
  {}

  // ----------------------------------------------- grammar implies scanner

  lemma {:induction false} AfterLineText(body: string, rest: string)
    requires '\n' !in body
    ensures AfterLine(body + "\n" + rest) == "\n" + rest
  {
    var t := body + "\n" + rest;
    if body == "" {
      assert t == "\n" + rest;
    } else {
      assert t[1..] == body[1..] + "\n" + rest;
      AfterLineText(body[1..], rest);
    }
  }

  lemma {:induction false} AfterBlockText(body: string, rest: string)
    requires ClosesAtEnd(body)
    ensures AfterBlock(body + "*/" + rest) == rest
  {
    var t := body + "*/" + rest;
    if body == "" {
      assert t == "*/" + rest && t[2..] == rest;
    } else {
      assert (body + "*/")[0] == t[0] && (body + "*/")[1] == t[1];
      assert t[1..] == body[1..] + "*/" + rest;
      assert ClosesAtEnd(body[1..]) by {
        forall i | 0 <= i < |body[1..]| ensures !((body[1..] + "*/")[i] == '*' && (body[1..] + "*/")[i + 1] == '/') {
          assert (body[1..] + "*/")[i] == (body + "*/")[i + 1] && (body[1..] + "*/")[i + 1] == (body + "*/")[i + 2];
        }
      }
      AfterBlockText(body[1..], rest);
    }
  }

  /** One piece of trivia is skipped. */
  lemma SkipsPiece(t: Trivia, rest: string)
    requires t.Ok()
    ensures AfterTrivia(t.Text() + rest) == AfterTrivia(rest)
  {
    var u := t.Text() + rest;
    match t {
      case Space(c) => assert u[1..] == rest;
      case Line(body) =>
        assert u[2..] == body + "\n" + rest;
        AfterLineText(body, rest);
        assert ("\n" + rest)[1..] == rest;
      case Block(body) =>
        assert u[2..] == body + "*/" + rest;
        AfterBlockText(body, rest);
    }
  }

  lemma {:induction false} SkipsTrivia(ts: seq<Trivia>, rest: string)
    requires TriviaOk(ts)
    ensures AfterTrivia(TriviaText(ts) + rest) == AfterTrivia(rest)
  {
    if ts == [] {
      assert TriviaText(ts) + rest == rest;
    } else {
      assert ts[0] in ts;
      SkipsPiece(ts[0], TriviaText(ts[1..]) + rest);
      ConcatAssoc(ts[0].Text(), TriviaText(ts[1..]), rest);
      SkipsTrivia(ts[1..], rest);
    }
  }

  lemma {:induction false} LiteralEnds(q: char, body: string, rest: string)
    requires IsQuote(q) && LiteralBody(q, body)
    ensures LiteralEnd(q, body + [q] + rest) == Some(|body|)
    decreases |body|
  {
    var t := body + [q] + rest;
    if body == "" {
      assert t[0] == q;
    } else {
      var w := if body[0] == '\\' then 2 else 1;
      assert t[w..] == body[w..] + [q] + rest;
      LiteralEnds(q, body[w..], rest);
    }
  }

  lemma {:induction false} UseServerIsBody(q: char, body: string)
    requires IsQuote(q) && '\\' !in body && q !in body
    ensures LiteralBody(q, body)
  {
    if body != "" { UseServerIsBody(q, body[1..]); }
  }

  /** Scanning starts by skipping trivia, so trivia in front makes no difference. */
  lemma {:induction false} AfterTriviaTwice(t: string)
    ensures AfterTrivia(AfterTrivia(t)) == AfterTrivia(t)
    decreases |t|
  {
    if t != "" {
      if IsSpace(t[0]) {
        AfterTriviaTwice(t[1..]);
      } else if |t| >= 2 && t[0] == '/' && t[1] == '/' {
        AfterTriviaTwice(AfterLine(t[2..]));
      } else if |t| >= 2 && t[0] == '/' && t[1] == '*' {
        AfterTriviaTwice(AfterBlock(t[2..]));
      }
    }
  }

  /** Scan depends only on what is left after the trivia. */
  lemma ScanSameRest(t: string, t': string)
    requires AfterTrivia(t) == AfterTrivia(t')
    ensures Scan(t) == Scan(t')
  {
    hide *;
    var u := AfterTrivia(t);
    if u == "" || !IsQuote(u[0]) || LiteralEnd(u[0], u[1..]).None? {
      ScanNever(t, u);
      ScanNever(t', u);
    } else {
      ScanOnce(t, u, LiteralEnd(u[0], u[1..]).value);
      ScanOnce(t', u, LiteralEnd(u[0], u[1..]).value);
    }
  }

  lemma ScanAfterTrivia(t: string)
    ensures Scan(AfterTrivia(t)) == Scan(t)
  {
    AfterTriviaTwice(t);
    ScanSameRest(AfterTrivia(t), t);
  }

  /** A scan that meets a complete literal. */
  lemma ScanLiteralText(q: char, body: string, rest: string)
    requires IsQuote(q) && LiteralBody(q, body)
    ensures Scan([q] + (body + [q] + rest)) <==> body == USE_SERVER || Scan(AfterSemicolon(AfterTrivia(rest)))
  {
    var t := [q] + (body + [q] + rest);
    LiteralEnds(q, body, rest);
    assert t[1..] == body + [q] + rest;
    assert t[1..][..|body|] == body && t[1..][|body| + 1..] == rest;
    ScanOnce(t, t, |body|);
  }

  lemma {:induction false} GrammarScans(p: Prologue)
    requires p.Ok()
    ensures Scan(p.Text())
    ensures AfterTrivia(p.Text()) != "" && IsQuote(AfterTrivia(p.Text())[0])
    decreases p
  {
    hide Scan, LiteralEnd, LiteralBody;
    match p {
      case Found(q, rest) =>
        UseServerIsBody(q, USE_SERVER);
        ScanLiteralText(q, USE_SERVER, rest);
      case Skip(t, more) =>
        GrammarScans(more);
        SkipsPiece(t, more.Text());
        ScanSameRest(p.Text(), more.Text());
      case Other(q, body, after, semicolon, more) =>
        GrammarScans(more);
        var tail := (if semicolon then ";" else "") + more.Text();
        ScanLiteralText(q, body, TriviaText(after) + tail);
        SkipsTrivia(after, tail);
        ScanAfterTrivia(more.Text());
        if semicolon {
          assert tail[1..] == more.Text();
        } else {
          assert tail == more.Text();
        }
    }
  }

  // ----------------------------------------------- scanner implies grammar

  lemma {:induction false} LineSplit(t: string) returns (body: string)
    ensures t == body + AfterLine(t) && '\n' !in body
    ensures AfterLine(t) != "" ==> AfterLine(t)[0] == '\n'
  {
    if t == "" || t[0] == '\n' {
      body := "";
    } else {
      var more := LineSplit(t[1..]);
      hide AfterLine;
      body := [t[0]] + more;
      assert t == [t[0]] + t[1..];
    }
  }

  lemma {:induction false} BlockSplit(t: string) returns (closed: bool, body: string)
    ensures closed ==> t == body + "*/" + AfterBlock(t) && ClosesAtEnd(body)
    ensures !closed ==> AfterBlock(t) == ""
  {
    if |t| < 2 {
      closed, body := false, "";
    } else if t[0] == '*' && t[1] == '/' {
      closed, body := true, "";
      assert t == "" + "*/" + t[2..];
    } else {
      var more;
      closed, more := BlockSplit(t[1..]);
      body := [t[0]] + more;
      if closed {
        assert t == [t[0]] + t[1..] == body + "*/" + AfterBlock(t);
        forall i | 0 <= i < |body| ensures !((body + "*/")[i] == '*' && (body + "*/")[i + 1] == '/') {
          if i == 0 {
            assert (body + "*/")[0] == t[0] && (body + "*/")[1] == t[1];
          } else {
            assert (body + "*/")[i] == (more + "*/")[i - 1] && (body + "*/")[i + 1] == (more + "*/")[i];
          }
        }
      }
    }
  }

  /** One piece of trivia in front of text that already splits. */
  lemma SplitStep(t: string, piece: Trivia, u: string, more: seq<Trivia>) returns (ts: seq<Trivia>)
    requires piece.Ok() && TriviaOk(more) && t == piece.Text() + u
    requires AfterTrivia(t) == AfterTrivia(u) && u == TriviaText(more) + AfterTrivia(u)
    ensures TriviaOk(ts) && t == TriviaText(ts) + AfterTrivia(t)
  {
    hide AfterTrivia, TriviaText;
    ts := ConsTrivia(piece, more, AfterTrivia(t));
  }

  /** The piece of trivia a text starts with, when the scan would skip one. */
  lemma FirstPiece(t: string) returns (piece: Trivia, u: string)
    requires AfterTrivia(t) != "" && AfterTrivia(t) != t
    ensures piece.Ok() && t == piece.Text() + u && AfterTrivia(t) == AfterTrivia(u)
  {
    if IsSpace(t[0]) {
      piece, u := Space(t[0]), t[1..];
      assert t == [t[0]] + t[1..];
    } else {
      assert t == t[..2] + t[2..] && (t[..2] == "//" || t[..2] == "/*");
      if t[1] == '/' {
        piece, u := FirstLine(t[2..]);
      } else {
        piece, u := FirstBlock(t[2..]);
      }
    }
  }

  lemma FirstLine(v: string) returns (piece: Trivia, u: string)
    requires AfterTrivia(AfterLine(v)) != ""
    ensures piece.Ok() && "//" + v == piece.Text() + u && AfterTrivia(AfterLine(v)) == AfterTrivia(u)
  {
    hide AfterLine;
    var body := LineSplit(v);
    var w := AfterLine(v);
    piece, u := Line(body), w[1..];
    assert w == "\n" + u;
  }

  lemma FirstBlock(v: string) returns (piece: Trivia, u: string)
    requires AfterTrivia(AfterBlock(v)) != ""
    ensures piece.Ok() && "/*" + v == piece.Text() + u && AfterTrivia(AfterBlock(v)) == AfterTrivia(u)
  {
    hide AfterBlock;
    var closed, body := BlockSplit(v);
    piece, u := Block(body), AfterBlock(v);
  }

  /** Text that leaves something after its trivia is trivia followed by that. */
  lemma {:induction false} TriviaSplit(t: string) returns (ts: seq<Trivia>)
    requires AfterTrivia(t) != ""
    ensures TriviaOk(ts) && t == TriviaText(ts) + AfterTrivia(t)
    decreases |t|
  {
    hide AfterTrivia;
    if AfterTrivia(t) == t {
      ts := [];
      assert t == "" + t;
    } else {
      var piece, u := FirstPiece(t);
      PieceLength(piece);
      var more := TriviaSplit(u);
      ts := SplitStep(t, piece, u, more);
    }
  }

  lemma PieceLength(piece: Trivia)
    ensures |piece.Text()| >= 1
  {}

  lemma ConsTrivia(t: Trivia, more: seq<Trivia>, rest: string) returns (ts: seq<Trivia>)
    requires t.Ok() && TriviaOk(more)
    ensures ts == [t] + more && TriviaOk(ts)
    ensures TriviaText(ts) + rest == t.Text() + (TriviaText(more) + rest)
  {
    ts := [t] + more;
    assert ts[1..] == more;
    ConcatAssoc(t.Text(), TriviaText(more), rest);
  }

  lemma {:induction false} LiteralSplit(q: char, t: string)
    requires IsQuote(q) && LiteralEnd(q, t).Some?
    ensures LiteralBody(q, t[..LiteralEnd(q, t).value])
    decreases |t|
  {
    if t[0] != q {
      var w := if t[0] == '\\' then 2 else 1;
      LiteralSplit(q, t[w..]);
      var k := LiteralEnd(q, t).value;
      assert t[..k][w..] == t[w..][..k - w];
    }
  }

  lemma {:induction false} Skipping(ts: seq<Trivia>, p: Prologue) returns (p': Prologue)
    requires TriviaOk(ts) && p.Ok()
    ensures p'.Ok() && p'.Text() == TriviaText(ts) + p.Text()
  {
    if ts == [] {
      p' := p;
      assert "" + p.Text() == p.Text();
    } else {
      var more := Skipping(ts[1..], p);
      p' := Skip(ts[0], more);
      ConcatAssoc(ts[0].Text(), TriviaText(ts[1..]), p.Text());
    }
  }

  lemma ScanFindsLiteral(t: string) returns (q: char, body: string, rest: string)
    requires Scan(t)
    ensures AfterTrivia(t) == [q] + (body + [q] + rest) && IsQuote(q) && LiteralBody(q, body) && |rest| < |t|
    ensures body == USE_SERVER || Scan(AfterSemicolon(AfterTrivia(rest)))
  {
    hide LiteralBody, AfterTrivia;
    var u := AfterTrivia(t);
    var v := u[1..];
    q := u[0];
    LiteralSplit(q, v);
    var k := LiteralEnd(q, v).value;
    body, rest := v[..k], v[k + 1..];
    assert v == body + [q] + rest && u == [q] + v;
  }

  lemma {:induction false} ScanParses(t: string) returns (p: Prologue)
    requires Scan(t)
    ensures p.Ok() && p.Text() == t
    decreases |t|
  {
    var q, body, rest := ScanFindsLiteral(t);
    hide AfterTrivia, LiteralBody, Scan, TriviaText;
    var ts := TriviaSplit(t);
    var inner: Prologue;
    if body == USE_SERVER {
      inner := Found(q, rest);
    } else {
      var after := TriviaSplitAny(rest);
      var more := ScanParses(AfterSemicolon(AfterTrivia(rest)));
      inner := OtherText(q, body, rest, after, more);
    }
    p := Skipping(ts, inner);
  }

  /** A literal, what follows it, and a parse of the rest make a prologue. */
  lemma OtherText(q: char, body: string, rest: string, after: seq<Trivia>, more: Prologue) returns (p: Prologue)
    requires IsQuote(q) && LiteralBody(q, body) && TriviaOk(after) && more.Ok()
    requires rest == TriviaText(after) + AfterTrivia(rest) && more.Text() == AfterSemicolon(AfterTrivia(rest))
    ensures p.Ok() && p.Text() == [q] + (body + [q] + rest)
  {
    hide AfterTrivia, LiteralBody, TriviaText;
    var w := AfterTrivia(rest);
    var semicolon := AfterSemicolon(w) != w;
    p := Other(q, body, after, semicolon, more);
    assert w == (if semicolon then ";" else "") + more.Text();
  }

  /** A directive that is followed by a successful scan has something after its trivia. */
  lemma TriviaSplitAny(t: string) returns (ts: seq<Trivia>)
    requires Scan(AfterSemicolon(AfterTrivia(t)))
    ensures TriviaOk(ts) && t == TriviaText(ts) + AfterTrivia(t)
  {
    ts := TriviaSplit(t);
  }

  lemma TextStart(p: Prologue)
    requires p.Ok()
    ensures p.Text() != "" && p.Text()[0] != 0xEF as char
  {}

  /** The scanner accepts exactly the sources of the grammar. */
  lemma ScanIsGrammar(src: string)
    ensures Scan(StripBom(src)) <==> Declares(src)
  {
    if Scan(StripBom(src)) {
      var p := ScanParses(StripBom(src));
      if BOM <= src { assert src == BOM + src[3..]; }
      assert p.Ok() && (src == p.Text() || src == BOM + p.Text());
    }
    if Declares(src) {
      var p: Prologue :| p.Ok() && (src == p.Text() || src == BOM + p.Text());
      GrammarScans(p);
      TextStart(p);
      if src == BOM + p.Text() { assert src[3..] == p.Text(); }
    }
  }

  lemma {:induction false} ExtendText(p: Prologue, suffix: string)
    ensures p.Extend(suffix).Text() == p.Text() + suffix
    ensures p.Ok() ==> p.Extend(suffix).Ok()
    decreases p
  {
    match p {
      case Found(q, rest) =>
        assert [q] + (USE_SERVER + [q] + (rest + suffix)) == [q] + (USE_SERVER + [q] + rest) + suffix;
      case Skip(t, more) =>
        ExtendText(more, suffix);
        ConcatAssoc(t.Text(), more.Text(), suffix);
      case Other(q, body, after, semicolon, more) =>
        ExtendText(more, suffix);
        var semi := if semicolon then ";" else "";
        ConcatAssoc(semi, more.Text(), suffix);
        ConcatAssoc(TriviaText(after), semi + more.Text(), suffix);
        ConcatAssoc(body + [q], TriviaText(after) + (semi + more.Text()), suffix);
        ConcatAssoc([q], body + [q] + (TriviaText(after) + (semi + more.Text())), suffix);
    }
  }

  /** Only the prologue counts: whatever follows a declaring source, it declares. */
  lemma SuffixKeepsDeclaration(src: string, suffix: string)
    requires Declares(src)
    ensures Declares(src + suffix)
  {
    var p: Prologue :| p.Ok() && (src == p.Text() || src == BOM + p.Text());
    ExtendText(p, suffix);
    ConcatAssoc(BOM, p.Text(), suffix);
    assert p.Extend(suffix).Ok();
  }
}
