/** The `use server` prologue of serveraction/directive.go against the directive
    prologue of section 11.2.1 of ECMA-262, 13th edition: there a directive is a
    whole expression statement, closed by a semicolon or by the automatic
    insertion of one (section 12.9.1), and its literal stays on one line. White
    space and comments are those the scanner knows. */
module DirectiveStandard {
  import opened Strings
  import opened Directive

  predicate IsLineBreak(c: char) { c == '\n' || c == '\r' }

  // LINE SEPARATOR or PARAGRAPH SEPARATOR, in UTF-8, at index i.
  predicate SeparatorAt(s: string, i: nat) {
    && i + 3 <= |s| && s[i] == 0xE2 as char && s[i + 1] == 0x80 as char
    && (s[i + 2] == 0xA8 as char || s[i + 2] == 0xA9 as char)
  }

  predicate HasLineBreak(s: string) { exists i :: 0 <= i < |s| && (IsLineBreak(s[i]) || SeparatorAt(s, i)) }

  predicate IsNamePart(c: char) {
    'a' <= c <= 'z' || 'A' <= c <= 'Z' || '0' <= c <= '9' || c in "$_\\" || c >= 0x80 as char
  }

  predicate StartsWord(word: string, w: string) { word <= w && (|w| == |word| || !IsNamePart(w[|word|])) }

  /** The next token can go on with an expression after a string literal. */
  predicate Continues(w: string) {
    || (w != "" && w[0] in ".([,?*/%<>=&|^`")
    || (w != "" && w[0] in "+-" && !(|w| > 1 && w[1] == w[0]))
    || "!=" <= w || StartsWord("in", w) || StartsWord("instanceof", w)
  }

  /** The trivia at the start of t. */
  function Gap(t: string): string { t[..|t| - |AfterTrivia(t)|] }

  /** What follows a literal ends its statement. */
  predicate Ends(t: string) {
    var w := AfterTrivia(t);
    w == "" || w[0] == ';' || (HasLineBreak(Gap(t)) && !Continues(w))
  }

  /** The inside of a literal holds no line break, except after a backslash. */
  predicate OneLine(body: string) {
    if body == "" then true
    else if body[0] == '\\' then
      if "\\\r\n" <= body then OneLine(body[3..]) else |body| >= 2 && OneLine(body[2..])
    else !IsLineBreak(body[0]) && OneLine(body[1..])
  }

  /** Every directive up to the first `use server` is one of the standard's. */
  predicate Standard(p: Prologue) {
    match p
    case Found(q, rest) => Ends(rest)
    case Skip(_, more) => Standard(more)
    case Other(_, body, after, semicolon, more) =>
      && OneLine(body) && Ends(TriviaText(after) + ((if semicolon then ";" else "") + more.Text()))
      && (body == USE_SERVER || Standard(more))
  }

  /** By the standard's directives the source declares itself a server module. */
  ghost predicate StandardDeclares(src: string) {
    exists p: Prologue :: p.Ok() && Standard(p) && (src == p.Text() || src == BOM + p.Text())
  }

  /** No literal the scan passes runs over a line or on into a longer expression. */
  predicate AllEnd(t: string)
    decreases |t|
  {
    var u := AfterTrivia(t);
    u == "" || !IsQuote(u[0]) ||
    match LiteralEnd(u[0], u[1..])
    case None => true
    case Some(k) =>
      var body, rest := u[1..][..k], u[1..][k + 1..];
      && OneLine(body) && Ends(rest)
      && (body == USE_SERVER || AllEnd(AfterSemicolon(AfterTrivia(rest))))
  }

  lemma AllEndSameRest(t: string, t': string)
    requires AfterTrivia(t) == AfterTrivia(t')
    ensures AllEnd(t) == AllEnd(t')
  {
    hide AfterTrivia, LiteralEnd, OneLine, Ends, AfterSemicolon;
  }

  lemma AllEndOnce(t: string, k: nat)
    requires t != "" && AfterTrivia(t) == t && IsQuote(t[0]) && LiteralEnd(t[0], t[1..]) == Some(k)
    ensures var body, rest := t[1..][..k], t[1..][k + 1..];
      AllEnd(t) <==> OneLine(body) && Ends(rest) && (body == USE_SERVER || AllEnd(AfterSemicolon(AfterTrivia(rest))))
  {
    hide AfterTrivia, LiteralEnd, OneLine, Ends, AfterSemicolon;
  }

  lemma AllEndLiteral(q: char, body: string, rest: string)
    requires IsQuote(q) && LiteralBody(q, body)
    ensures AllEnd([q] + (body + [q] + rest)) <==>
      OneLine(body) && Ends(rest) && (body == USE_SERVER || AllEnd(AfterSemicolon(AfterTrivia(rest))))
  {
    var t := [q] + (body + [q] + rest);
    LiteralEnds(q, body, rest);
    assert t[1..] == body + [q] + rest;
    assert t[1..][..|body|] == body && t[1..][|body| + 1..] == rest;
    assert AfterTrivia(t) == t;
    hide *;
    AllEndOnce(t, |body|);
  }

  lemma AllEndAfterTrivia(t: string)
    ensures AllEnd(AfterTrivia(t)) == AllEnd(t)
  {
    AfterTriviaTwice(t);
    AllEndSameRest(AfterTrivia(t), t);
  }

  lemma UseServerOneLine()
    ensures OneLine(USE_SERVER)
  {
    PlainOneLine(USE_SERVER);
  }

  lemma {:induction false} PlainOneLine(body: string)
    requires '\\' !in body && '\n' !in body && '\r' !in body
    ensures OneLine(body)
  {
    if body != "" { PlainOneLine(body[1..]); }
  }

  /** The two readings of a prologue: its derivation and the walk over its text. */
  lemma {:induction false} StandardIsWalk(p: Prologue)
    requires p.Ok()
    ensures Standard(p) <==> AllEnd(p.Text())
    decreases p
  {
    hide AllEnd, LiteralEnd, LiteralBody, OneLine, Ends;
    match p {
      case Found(q, rest) =>
        UseServerIsBody(q, USE_SERVER);
        UseServerOneLine();
        AllEndLiteral(q, USE_SERVER, rest);
      case Skip(t, more) =>
        StandardIsWalk(more);
        SkipsPiece(t, more.Text());
        AllEndSameRest(p.Text(), more.Text());
      case Other(q, body, after, semicolon, more) =>
        StandardIsWalk(more);
        GrammarScans(more);
        var tail := (if semicolon then ";" else "") + more.Text();
        AllEndLiteral(q, body, TriviaText(after) + tail);
        SkipsTrivia(after, tail);
        AllEndAfterTrivia(more.Text());
        if semicolon { assert tail[1..] == more.Text(); } else { assert tail == more.Text(); }
    }
  }

  lemma DerivationIsWalk(src: string, p: Prologue)
    requires p.Ok() && (src == p.Text() || src == BOM + p.Text())
    ensures Standard(p) <==> AllEnd(StripBom(src))
  {
    StandardIsWalk(p);
    TextStart(p);
    if src == BOM + p.Text() { assert src[3..] == p.Text(); }
  }

  /** Where the scanner and the standard agree: a declaring source declares by the
      standard exactly when no literal up to `use server` is strung on. */
  lemma StandardExactly(src: string)
    ensures StandardDeclares(src) <==> Declares(src) && AllEnd(StripBom(src))
  {
    hide AllEnd, Standard;
    if StandardDeclares(src) {
      var p: Prologue :| p.Ok() && Standard(p) && (src == p.Text() || src == BOM + p.Text());
      DerivationIsWalk(src, p);
    }
    if Declares(src) && AllEnd(StripBom(src)) {
      var p: Prologue :| p.Ok() && (src == p.Text() || src == BOM + p.Text());
      DerivationIsWalk(src, p);
    }
  }

  /** A source that opens with the directive's text always declares; by the standard
      it does exactly when what follows the literal ends the statement. */
  lemma OpeningLiteral(q: char, rest: string)
    requires IsQuote(q)
    ensures Declares([q] + (USE_SERVER + [q] + rest))
    ensures StandardDeclares([q] + (USE_SERVER + [q] + rest)) <==> Ends(rest)
  {
    hide AllEnd, Ends, BOM, USE_SERVER, StripBom;
    var src, p := [q] + (USE_SERVER + [q] + rest), Found(q, rest);
    assert p.Text() == src && p.Ok() && (Standard(p) <==> Ends(rest));
    DerivationIsWalk(src, p);
    StandardExactly(src);
  }

  /** So does one behind the three octets of a byte order mark. */
  lemma OpeningBehindMark(q: char, rest: string)
    requires q == '"' || q == '\''
    ensures Declares([0xEF as char, 0xBB as char, 0xBF as char] + ([q] + ("use server" + [q] + rest)))
  {
    var p := Found(q, rest);
    assert p.Ok() && p.Text() == [q] + ("use server" + [q] + rest);
    assert BOM + p.Text() == [0xEF as char, 0xBB as char, 0xBF as char] + ([q] + ("use server" + [q] + rest));
  }

  /** A string that is only part of an expression declares a server module. */
  lemma ExpressionDeclares()
    ensures Declares("\"use server\" + x") && !StandardDeclares("\"use server\" + x")
  {
    OpeningLiteral('"', " + x");
    assert "\"use server\" + x" == ['"'] + (USE_SERVER + ['"'] + " + x");
    hide Declares, StandardDeclares;
    assert " + x"[1..] == "+ x" && AfterTrivia("+ x") == "+ x";
    assert Gap(" + x") == " ";
  }

  /** A line break ends the statement, unless the next line goes on with it. */
  lemma NextLineDecides(q: char, w: string)
    requires IsQuote(q) && w != "" && AfterTrivia(w) == w && w[0] != ';'
    ensures StandardDeclares([q] + (USE_SERVER + [q] + ("\n" + w))) <==> !Continues(w)
  {
    OpeningLiteral(q, "\n" + w);
    hide Declares, StandardDeclares, Continues;
    assert ("\n" + w)[1..] == w && AfterTrivia("\n" + w) == w;
    assert Gap("\n" + w) == "\n" && IsLineBreak(Gap("\n" + w)[0]);
  }
}
