/** Two texts that are read otherwise than they look, because of how the lexer decides what a minus sign is. */
module InjaMinusSign {
  import opened Sequences
  import opened InjaSyntax
  import opened InjaSourceText
  import L = InjaLexer

  /** {{ x }}{{ -y }} */
  function NegativeAfterName(x: string, y: string): string {
    "{{ " + (x + (" }}" + ("{{ " + ("-" + (y + " }}")))))
  }

  /** {{ x - y }} where x is a string */
  function StringMinus(x: string, y: string): string {
    "{{ " + (x + (" " + ("- " + (y + " }}"))))
  }

  lemma Glue(s: string, i: nat, a: string, b: string)
    requires At(s, i, a) && At(s, i + |a|, b)
    ensures At(s, i, a + b)
  {
    assert s[i..i + |a + b|] == s[i..i + |a|] + s[i + |a|..i + |a| + |b|];
  }

  /** A blank, or none, and then a symbol with a blank after it. */
  lemma ScanHere(s: string, l: L.Lex, t: Token)
    requires l.state == L.ExpressionBody && Stands(s, l.pos, t) && MinusFits(t, l.minus)
    ensures l.pos < |s| && L.Reachable(CFG, s, l)
    ensures var (x, n) := L.Scan(CFG, s, l);
      && x.kind != L.Eof && x.start <= x.end <= |s| && ToToken(s, x) == t
      && n == L.Lex(L.ExpressionBody, MinusAfter(t), l.pos + |Spelling(t)|)
  {
    SymbolReads(s, l.pos, t, l.minus);
    NoCloseAtSymbol(s, l.pos, t, InExpression);
    hide At, Stands, L.Symbol, L.StartsAt, ToToken, Spelling;
    assert L.Scan(CFG, s, l) == L.ScanBody(ClosingIn(InExpression), s, l, l.pos);
  }

  /** A minus sign after a blank is an operator after an operand, and else the start of a number. */
  lemma ScanMinus(s: string, l: L.Lex)
    requires l.state == L.ExpressionBody && l.pos + 2 < |s|
    requires s[l.pos] == ' ' && s[l.pos + 1] == '-' && s[l.pos + 2] != '}'
    ensures L.Reachable(CFG, s, l)
    ensures L.Scan(CFG, s, l) ==
      var end := if l.minus == L.Operator then l.pos + 2 else L.NumberEnd(s, l.pos + 2);
      (L.Lexeme(if l.minus == L.Operator then L.Minus else L.Number, l.pos + 1, end), L.Lex(l.state, L.Signed, end))
  {
    NotThere(s, l.pos + 1, "}}");
    NotThere(s, l.pos + 1, "-}}");
    ScanFromBody(s, l, InExpression);
    BodyMinusSign(ClosingIn(InExpression), s, l);
    hide *;
  }

  lemma BodyMinusSign(c: L.Closing, s: string, l: L.Lex)
    requires l.pos + 2 < |s| && s[l.pos] == ' ' && s[l.pos + 1] == '-'
    requires !L.StartsAt(s, l.pos + 1, c.close) && !L.StartsAt(s, l.pos + 1, c.closeTrim)
    ensures L.ScanBody(c, s, l, l.pos) ==
      var end := if l.minus == L.Operator then l.pos + 2 else L.NumberEnd(s, l.pos + 2);
      (L.Lexeme(if l.minus == L.Operator then L.Minus else L.Number, l.pos + 1, end), L.Lex(l.state, L.Signed, end))
  {
    hide L.StartsAt, L.NumberEnd, L.IdEnd, L.StringEnd;
    assert L.ScanBody(c, s, l, l.pos) == L.ScanBody(c, s, l, l.pos + 1);
  }

  lemma EndTokens(s: string, l: L.Lex)
    requires l.pos == |s| && l.state == L.TextState
    ensures CFG.Valid() && L.Reachable(CFG, s, l) && Tokens(s, l) == []
  {
    DefaultValid();
  }

  /** One scan gives this token, and goes on from there. */
  ghost predicate Gives(s: string, l: L.Lex, t: Token, n: L.Lex) {
    CFG.Valid() && L.Reachable(CFG, s, l)
    && var (x, m) := L.Scan(CFG, s, l); x.kind != L.Eof && x.start <= x.end <= |s| && ToToken(s, x) == t && m == n
  }

  lemma Then(s: string, l: L.Lex, t: Token, n: L.Lex, rest: seq<Token>)
    requires Gives(s, l, t, n) && L.Reachable(CFG, s, n) && Tokens(s, n) == rest
    ensures CFG.Valid() && L.Reachable(CFG, s, l) && Tokens(s, l) == [t] + rest
  {
    hide L.Scan, L.Reachable, ToToken;
  }

  lemma GivesOpening(s: string, i: nat, minus: L.MinusState)
    requires At(s, i, "{{ ")
    ensures Gives(s, L.Lex(L.TextState, minus, i), ExpressionOpen, L.Lex(L.ExpressionBody, minus, i + 2))
  {
    DefaultValid();
    OpensAt(s, i);
    var l := L.Lex(L.TextState, minus, i);
    ScanOpening(s, l, ExpressionOpen);
    OpeningLexeme(s, l, ExpressionOpen, [], InExpression);
    hide L.Scan, L.Reachable, ToToken, OpensHere, Piece;
  }

  lemma GivesClosing(s: string, i: nat, minus: L.MinusState)
    requires At(s, i, " }}")
    ensures Gives(s, L.Lex(L.ExpressionBody, minus, i), ExpressionClose, L.Lex(L.TextState, minus, i + 3))
  {
    DefaultValid();
    ClosesAt(s, i);
    ClosingStands(s, i, InExpression);
    hide L.Scan, L.Reachable, ToToken, At, L.StartsAt, Piece;
    ScanClosing(s, L.Lex(L.ExpressionBody, minus, i), InExpression);
  }

  lemma GivesSymbol(s: string, i: nat, minus: L.MinusState, t: Token)
    requires Spelled(t) && At(s, i, " ") && At(s, i + 1, Spelling(t)) && At(s, i + 1 + |Spelling(t)|, " ")
    requires MinusFits(t, minus)
    ensures Gives(s, L.Lex(L.ExpressionBody, minus, i), t,
      L.Lex(L.ExpressionBody, MinusAfter(t), i + 1 + |Spelling(t)|))
  {
    DefaultValid();
    PieceOfSymbol(t);
    SpelledIsNoClosing(t);
    Glue(s, i, " ", Spelling(t));
    Glue(s, i + 1, Spelling(t), " ");
    hide L.Scan, L.Reachable, ToToken, At, Piece, Spelling, Spelled, MinusFits, MinusAfter;
    ScanSymbolToken(s, L.Lex(L.ExpressionBody, minus, i), t, InExpression);
  }

  lemma SpelledIsNoClosing(t: Token)
    requires Spelled(t)
    ensures t != ClosingToken(InExpression)
  {
  }

  /** The symbol stands at once, without a blank before it. */
  lemma GivesGlued(s: string, i: nat, minus: L.MinusState, t: Token)
    requires Spelled(t) && At(s, i, Spelling(t)) && At(s, i + |Spelling(t)|, " ") && MinusFits(t, minus)
    ensures Gives(s, L.Lex(L.ExpressionBody, minus, i), t, L.Lex(L.ExpressionBody, MinusAfter(t), i + |Spelling(t)|))
  {
    DefaultValid();
    Glue(s, i, Spelling(t), " ");
    hide L.Scan, L.Reachable, ToToken, At, Spelling, Spelled, MinusFits, MinusAfter;
    ScanHere(s, L.Lex(L.ExpressionBody, minus, i), t);
  }

  /** After an operand, whatever follows it. */
  lemma GivesOperator(s: string, i: nat)
    requires i + 2 < |s| && s[i] == ' ' && s[i + 1] == '-' && s[i + 2] != '}'
    ensures Gives(s, L.Lex(L.ExpressionBody, L.Operator, i), Sign(Symbol.Minus),
                  L.Lex(L.ExpressionBody, L.Signed, i + 2))
  {
    DefaultValid();
    ScanMinus(s, L.Lex(L.ExpressionBody, L.Operator, i));
    hide L.Scan, L.Reachable;
  }

  /** Elsewhere, followed by a blank. */
  lemma GivesLoneMinus(s: string, i: nat)
    requires i + 2 < |s| && s[i] == ' ' && s[i + 1] == '-' && s[i + 2] == ' '
    ensures Gives(s, L.Lex(L.ExpressionBody, L.Signed, i), Number("-"), L.Lex(L.ExpressionBody, L.Signed, i + 2))
  {
    DefaultValid();
    ScanMinus(s, L.Lex(L.ExpressionBody, L.Signed, i));
    NumberEndAt(s, i + 2, i + 2);
    LoneMinusToken(s, i + 1);
    hide *;
  }

  lemma LoneMinusToken(s: string, i: nat)
    requires i < |s| && s[i] == '-'
    ensures ToToken(s, L.Lexeme(L.Number, i, i + 1)) == Number("-")
  {
    assert s[i..i + 1] == "-";
  }

  // ---- A negative number after a name ----

  lemma OpensAt(s: string, i: nat)
    requires At(s, i, "{{ ")
    ensures OpensHere(s, i, ExpressionOpen) && |Piece(ExpressionOpen)| == 2
  {
    assert Piece(ExpressionOpen) + " " == "{{ ";
  }

  lemma ClosesAt(s: string, i: nat)
    requires At(s, i, " }}")
    ensures At(s, i, Piece(ClosingToken(InExpression))) && At(s, i, " ")
  {
    assert " }}" == " " + "}}";
    AtSplit(s, i, " ", "}}");
  }

  lemma PartsOf(a: string, b: string, c: string, d: string)
    ensures var s := a + (b + (c + d));
      && At(s, 0, a) && At(s, |a|, b) && At(s, |a| + |b|, c) && At(s, |a| + |b| + |c|, d)
      && |s| == |a| + |b| + |c| + |d|
  {
    hide At;
    var s := a + (b + (c + d));
    AtWhole(s);
    AtSplit(s, 0, a, b + (c + d));
    AtSplit(s, |a|, b, c + d);
    AtSplit(s, |a| + |b|, c, d);
  }

  lemma Lengths()
    ensures |"{{ "| == 3 && |" }}"| == 3 && |"-"| == 1 && |" "| == 1 && |"- "| == 2 && "- " == "-" + " "
  {
  }

  lemma NegativeTail(y: string)
    ensures var s := "{{ " + ("-" + (y + " }}"));
      At(s, 0, "{{ ") && At(s, 3, "-") && At(s, 4, y) && At(s, 4 + |y|, " }}") && |s| == |y| + 7
  {
    Lengths();
    PartsOf("{{ ", "-", y, " }}");
    hide *;
  }

  /** The places of the parts, where a blank or a closing delimiter follows the symbols. */
  lemma NegativeParts(x: string, y: string)
    ensures var s := NegativeAfterName(x, y); var i := 3 + |x|; var j := i + 7;
      && At(s, 0, "{{ ") && At(s, 2, " ") && At(s, 3, x) && At(s, i, " }}") && At(s, i + 3, "{{ ") && At(s, i + 5, " ")
      && At(s, i + 6, "-") && At(s, j, y) && At(s, j + |y|, " }}") && |s| == j + |y| + 3
  {
    var s, i := NegativeAfterName(x, y), 3 + |x|;
    var tail := "{{ " + ("-" + (y + " }}"));
    assert s == "{{ " + (x + (" }}" + tail));
    hide *;
    Lengths();
    NegativeTail(y);
    PartsOf("{{ ", x, " }}", tail);
    AtInside(s, i + 3, tail, 0, "{{ ");
    AtInside(s, i + 3, tail, 3, "-");
    AtInside(s, i + 3, tail, 4, y);
    AtInside(s, i + 3, tail, 4 + |y|, " }}");
    BlankAfterBraces(s, 0);
    BlankAfterBraces(s, i + 3);
  }

  lemma BlankAfterBraces(s: string, i: nat)
    requires At(s, i, "{{ ")
    ensures At(s, i + 2, " ")
  {
    assert "{{ " == "{{" + " ";
    AtSplit(s, i, "{{", " ");
  }

  lemma CloseAndEnd(s: string, i: nat, minus: L.MinusState)
    requires At(s, i, " }}") && i + 3 == |s|
    ensures CFG.Valid() && L.Reachable(CFG, s, L.Lex(L.ExpressionBody, minus, i))
    ensures Tokens(s, L.Lex(L.ExpressionBody, minus, i)) == [ExpressionClose] + []
  {
    hide *;
    GivesClosing(s, i, minus);
    EndTokens(s, L.Lex(L.TextState, minus, i + 3));
    Then(s, L.Lex(L.ExpressionBody, minus, i), ExpressionClose, L.Lex(L.TextState, minus, i + 3), []);
  }

  lemma StartState()
    ensures L.START == L.Lex(L.TextState, L.Signed, 0)
  {
  }

  lemma AtChar(s: string, i: nat, c: char)
    requires At(s, i, [c])
    ensures i < |s| && s[i] == c
  {
    AtElement(s, i, [c], 0);
  }

  lemma NumberStart(s: string, i: nat, y: string)
    requires NumberText(y) && At(s, i, y)
    ensures i < |s| && s[i] != '}' && MinusFits(Number(y), L.Signed) && Spelled(Number(y)) && Spelling(Number(y)) == y
  {
    AtElement(s, i, y, 0);
  }

  lemma NameFits(x: string, minus: L.MinusState)
    requires NameText(x)
    ensures Spelled(Id(x)) && Spelling(Id(x)) == x && MinusFits(Id(x), minus) && MinusAfter(Id(x)) == L.Operator
  {
    hide NameText;
  }

  /** The minus sign after {{ x }} is an operator, so that {{ -y }} subtracts from nothing. */
  lemma NegativeAfterNameIsSubtraction(x: string, y: string)
    requires NameText(x) && NumberText(y)
    ensures CFG.Valid() && Tokens(NegativeAfterName(x, y), L.START) ==
      [ExpressionOpen] + ([Id(x)] + ([ExpressionClose]
        + ([ExpressionOpen] + ([Sign(Symbol.Minus)] + ([Number(y)] + ([ExpressionClose] + []))))))
  {
    hide *;
    var s, i := NegativeAfterName(x, y), 3 + |x|;
    var j := i + 7;
    NegativeParts(x, y);
    ClosesAt(s, i);
    ClosesAt(s, j + |y|);
    AtChar(s, i + 5, ' ');
    AtChar(s, i + 6, '-');
    NumberStart(s, j, y);
    NameFits(x, L.Signed);
    GivesOpening(s, 0, L.Signed);
    GivesSymbol(s, 2, L.Signed, Id(x));
    GivesClosing(s, i, L.Operator);
    GivesOpening(s, i + 3, L.Operator);
    GivesOperator(s, i + 5);
    GivesGlued(s, j, L.Signed, Number(y));
    CloseAndEnd(s, j + |y|, MinusAfter(Number(y)));
    var body, operator, signed := L.ExpressionBody, L.Operator, L.Signed;
    var end := [ExpressionClose] + [];
    Then(s, L.Lex(body, signed, j), Number(y), L.Lex(body, MinusAfter(Number(y)), j + |y|), end);
    Then(s, L.Lex(body, operator, i + 5), Sign(Symbol.Minus), L.Lex(body, signed, j), [Number(y)] + end);
    var second := [Sign(Symbol.Minus)] + ([Number(y)] + end);
    Then(s, L.Lex(L.TextState, operator, i + 3), ExpressionOpen, L.Lex(body, operator, i + 5), second);
    Then(s, L.Lex(body, operator, i), ExpressionClose, L.Lex(L.TextState, operator, i + 3), [ExpressionOpen] + second);
    var rest := [ExpressionClose] + ([ExpressionOpen] + second);
    Then(s, L.Lex(body, signed, 2), Id(x), L.Lex(body, operator, i), rest);
    StartState();
    Then(s, L.START, ExpressionOpen, L.Lex(body, signed, 2), [Id(x)] + rest);
  }

  // ---- A subtraction from a string ----

  lemma StringParts(x: string, y: string)
    ensures var s := StringMinus(x, y); var i := 3 + |x|;
      && At(s, 0, "{{ ") && At(s, 2, " ") && At(s, 3, x) && At(s, i, " ") && At(s, i + 1, "-") && At(s, i + 2, " ")
      && At(s, i + 3, y) && At(s, i + 3 + |y|, " }}") && |s| == i + |y| + 6
  {
    var s, i := StringMinus(x, y), 3 + |x|;
    var tail := "- " + (y + " }}");
    assert s == "{{ " + (x + (" " + tail));
    hide *;
    Lengths();
    PartsOf("{{ ", x, " ", tail);
    AtSplit(s, i + 1, "- ", y + " }}");
    AtSplit(s, i + 3, y, " }}");
    AtSplit(s, i + 1, "-", " ");
    BlankAfterBraces(s, 0);
  }

  lemma StringFits(x: string, minus: L.MinusState)
    requires StringText(x)
    ensures Spelled(String(x)) && Spelling(String(x)) == x && MinusFits(String(x), minus)
    ensures MinusAfter(String(x)) == L.Signed
  {
    hide StringText;
  }

  /** The minus sign after a string is a number of its own, so that there is nothing that subtracts. */
  lemma StringMinusIsNoSubtraction(x: string, y: string)
    requires StringText(x) && NumberText(y)
    ensures CFG.Valid() && Tokens(StringMinus(x, y), L.START) ==
      [ExpressionOpen] + ([String(x)] + ([Number("-")] + ([Number(y)] + ([ExpressionClose] + []))))
  {
    hide *;
    var s, i := StringMinus(x, y), 3 + |x|;
    var j := i + 3;
    StringParts(x, y);
    ClosesAt(s, j + |y|);
    AtChar(s, i, ' ');
    AtChar(s, i + 1, '-');
    AtChar(s, i + 2, ' ');
    NumberStart(s, j, y);
    StringFits(x, L.Signed);
    GivesOpening(s, 0, L.Signed);
    GivesSymbol(s, 2, L.Signed, String(x));
    GivesLoneMinus(s, i);
    GivesSymbol(s, i + 2, L.Signed, Number(y));
    CloseAndEnd(s, j + |y|, MinusAfter(Number(y)));
    var body, signed := L.ExpressionBody, L.Signed;
    var end := [ExpressionClose] + [];
    Then(s, L.Lex(body, signed, i + 2), Number(y), L.Lex(body, MinusAfter(Number(y)), j + |y|), end);
    Then(s, L.Lex(body, signed, i), Number("-"), L.Lex(body, signed, i + 2), [Number(y)] + end);
    var rest := [Number("-")] + ([Number(y)] + end);
    Then(s, L.Lex(body, signed, 2), String(x), L.Lex(body, signed, i), rest);
    StartState();
    Then(s, L.START, ExpressionOpen, L.Lex(body, signed, 2), [String(x)] + rest);
  }

  /** The two texts of the smallest kind. */
  lemma TheTwoTexts()
    ensures NegativeAfterName("a", "1") == "{{ a }}{{ -1 }}" && NameText("a") && NumberText("1")
    ensures StringMinus("\"a\"", "1") == "{{ \"a\" - 1 }}" && StringText("\"a\"")
  {
    assert "\"a\"" + " " == "\"a\" ";
  }
}
