/** What holds of every run of the lexer, for every input and every setting of whitespace control. */
module InjaLexerProof {
  import opened InjaLexer

  // ---- One scan ----

  /** What one scan keeps: where its token lies, what it leaves out, and that it moves on. */
  ghost predicate GoodScan(cfg: Config, s: string, l: Lex, t: Lexeme, n: Lex) {
    && Reachable(cfg, s, n) && l.pos <= t.start <= t.end <= |s| && AllBlank(s, l.pos, t.start)
    && if t.kind == Eof then t.end == |s| && l.pos <= n.pos
       else t.start < t.end <= n.pos && AllBlank(s, t.end, n.pos)
  }

  lemma ScanOpenIsGood(cfg: Config, s: string, l: Lex, from: nat)
    requires cfg.Valid() && Reachable(cfg, s, l) && l.state.IsStart() && from <= l.pos
    ensures var (t, n) := ScanOpen(cfg, s, l, from);
      Reachable(cfg, s, n) && t.start == from && t.start < t.end == n.pos <= |s| && t.kind != Eof
  {
  }

  lemma ScanTextIsGood(cfg: Config, s: string, l: Lex)
    requires cfg.Valid() && l.pos < |s| && l.state.TextState?
    ensures var (t, n) := ScanText(cfg, s, l); GoodScan(cfg, s, l, t, n) && t.kind != Eof
  {
    var p := FirstOpen(cfg, s, l.pos);
    if p < |s| {
      var (state, strip) := OpenState(cfg, s, p);
      ScanOpenIsGood(cfg, s, Lex(state, l.minus, p), l.pos);
    }
    hide Opens, FirstOpen, OpenState, StartsAt, ClearedEnd;
  }

  /** A character that a body skips before its next token. */
  predicate Skipped(c: Closing, s: string, i: nat)
    requires i < |s|
  {
    s[i] in " \t\r"
    || (s[i] == '\n' && !(c.closeTrim != "" && StartsAt(s, i, c.closeTrim)) && !StartsAt(s, i, c.close))
  }

  lemma BodySkips(c: Closing, s: string, l: Lex, i: nat)
    requires i < |s| && Skipped(c, s, i)
    ensures Blank(s[i]) && ScanBody(c, s, l, i) == ScanBody(c, s, l, i + 1)
  {
    hide StartsAt;
  }

  lemma BodyTokenIsGood(cfg: Config, c: Closing, s: string, l: Lex, i: nat)
    requires Reachable(cfg, s, l) && l.pos <= i < |s| && AllBlank(s, l.pos, i) && !Skipped(c, s, i)
    requires l.state.IsBody() && !l.state.CommentBody? && c.close != "" && c.kind != Eof
    ensures var (t, n) := ScanBody(c, s, l, i); GoodScan(cfg, s, l, t, n) && t.kind != Eof
  {
    SymbolIsNoEof(s, i, l.minus);
    hide Symbol, SkipAllBlanks, SkipToNextLine;
    if (c.closeTrim != "" && StartsAt(s, i, c.closeTrim)) || StartsAt(s, i, c.close) {
      hide Blank;
    } else {
      hide StartsAt, AllBlank;
      NoBlanks(s, Symbol(s, i, l.minus).1);
    }
  }

  lemma NoBlanks(s: string, i: nat)
    ensures AllBlank(s, i, i)
  {
  }

  lemma {:induction false} ScanBodyIsGood(cfg: Config, c: Closing, s: string, l: Lex, i: nat)
    requires cfg.Valid() && Reachable(cfg, s, l) && l.pos <= i <= |s| && AllBlank(s, l.pos, i)
    requires l.state.IsBody() && !l.state.CommentBody? && c.close != "" && c.kind != Eof
    ensures var (t, n) := ScanBody(c, s, l, i); GoodScan(cfg, s, l, t, n)
    decreases |s| - i
  {
    if i < |s| {
      if Skipped(c, s, i) {
        BodySkips(c, s, l, i);
        assert AllBlank(s, l.pos, i + 1);
        ScanBodyIsGood(cfg, c, s, l, i + 1);
      } else {
        BodyTokenIsGood(cfg, c, s, l, i);
      }
      hide ScanBody, AllBlank, Skipped, Reachable;
    }
  }

  lemma SymbolIsNoEof(s: string, i: nat, minus: MinusState)
    requires i < |s|
    ensures Symbol(s, i, minus).0 != Eof
  {
  }

  lemma ScanCommentIsGood(cfg: Config, s: string, l: Lex)
    requires cfg.Valid() && Reachable(cfg, s, l) && l.state.CommentBody? && l.pos < |s|
    ensures var (t, n) := ScanComment(cfg, s, l); GoodScan(cfg, s, l, t, n)
  {
    hide SkipToNextLine;
  }

  lemma ScanIsGood(cfg: Config, s: string, l: Lex)
    requires cfg.Valid() && Reachable(cfg, s, l)
    ensures var (t, n) := Scan(cfg, s, l); GoodScan(cfg, s, l, t, n)
  {
    if l.pos < |s| {
      if l.state.TextState? {
        ScanTextIsGood(cfg, s, l);
      } else if l.state.IsStart() {
        ScanOpenIsGood(cfg, s, l, l.pos);
      } else if l.state.CommentBody? {
        ScanCommentIsGood(cfg, s, l);
      } else {
        ScanBodyIsGood(cfg, ClosingOf(cfg, l.state), s, l, l.pos);
      }
    }
    hide ScanText, ScanBody, ScanComment;
  }

  /** Once the end of the input is reported, it is reported for ever. */
  lemma EofStays(cfg: Config, s: string, l: Lex)
    requires cfg.Valid() && Reachable(cfg, s, l) && Scan(cfg, s, l).0.kind == Eof
    ensures var n := Scan(cfg, s, l).1; Reachable(cfg, s, n) && Scan(cfg, s, n).0.kind == Eof
  {
    ScanIsGood(cfg, s, l);
    if l.pos < |s| && l.state.TextState? {
      ScanTextIsGood(cfg, s, l);
    }
    if l.pos < |s| && l.state.IsBody() && !l.state.CommentBody? {
      BodyEof(ClosingOf(cfg, l.state), s, l, l.pos);
    }
    hide ScanText, ScanBody;
  }

  lemma {:induction false} BodyEof(c: Closing, s: string, l: Lex, i: nat)
    requires i <= |s| && c.kind != Eof && ScanBody(c, s, l, i).0.kind == Eof
    ensures ScanBody(c, s, l, i).1 == l
    decreases |s| - i
  {
    if i < |s| {
      SymbolIsNoEof(s, i, l.minus);
      hide Symbol;
      if s[i] in " \t\r" || s[i] == '\n' {
        BodyEof(c, s, l, i + 1);
      }
    }
  }

  // ---- All scans ----

  /** The tokens of the input from `l` on, up to the first Eof: scanning always gets there. */
  function Lexemes(cfg: Config, s: string, l: Lex): seq<Lexeme>
    requires cfg.Valid() && Reachable(cfg, s, l)
    decreases |s| - l.pos
  {
    ScanIsGood(cfg, s, l);
    var (t, n) := Scan(cfg, s, l);
    if t.kind == Eof then [t] else [t] + Lexemes(cfg, s, n)
  }

  /** Spans in the order of the input, none of them overlapping another; only the last token is Eof. */
  ghost predicate Ordered(ts: seq<Lexeme>, from: nat, to: nat) {
    && ts != []
    && (forall i {:trigger ts[i]} :: 0 <= i < |ts| ==>
         && from <= ts[i].start <= ts[i].end <= to && (ts[i].kind == Eof <==> i == |ts| - 1)
         && (i < |ts| - 1 ==> ts[i].start < ts[i].end))
    && (forall i, j {:trigger ts[i], ts[j]} :: 0 <= i < j < |ts| ==> ts[i].end <= ts[j].start)
  }

  /** The character at `k` belongs to a token. */
  predicate Covered(ts: seq<Lexeme>, k: nat) {
    exists i :: 0 <= i < |ts| && ts[i].start <= k < ts[i].end
  }

  lemma {:induction false} LexemesOrdered(cfg: Config, s: string, l: Lex)
    requires cfg.Valid() && Reachable(cfg, s, l)
    ensures Ordered(Lexemes(cfg, s, l), l.pos, |s|) && |Lexemes(cfg, s, l)| <= |s| - l.pos + 1
    decreases |s| - l.pos
  {
    ScanIsGood(cfg, s, l);
    var (t, n) := Scan(cfg, s, l);
    if t.kind != Eof {
      LexemesOrdered(cfg, s, n);
      OrderedCons(t, Lexemes(cfg, s, n), l.pos, n.pos, |s|);
    }
    hide Scan, Reachable, AllBlank;
  }

  lemma OrderedCons(t: Lexeme, ts: seq<Lexeme>, from: nat, next: nat, to: nat)
    requires Ordered(ts, next, to) && t.kind != Eof && from <= t.start < t.end <= next
    ensures Ordered([t] + ts, from, to)
  {
    var all := [t] + ts;
    forall i | 0 <= i < |all|
      ensures from <= all[i].start <= all[i].end <= to && (all[i].kind == Eof <==> i == |all| - 1)
      ensures i < |all| - 1 ==> all[i].start < all[i].end
    {
      if i > 0 {
        assert all[i] == ts[i - 1];
      } else {
        assert all[i] == t && t.end <= ts[0].start;
      }
    }
    forall i, j | 0 <= i < j < |all|
      ensures all[i].end <= all[j].start
    {
      assert all[j] == ts[j - 1];
      if i > 0 {
        assert all[i] == ts[i - 1];
      }
    }
  }

  /** Every character that no token covers is white space: whitespace control deletes nothing else. */
  lemma {:induction false} OnlyBlanksAreDropped(cfg: Config, s: string, l: Lex, k: nat)
    requires cfg.Valid() && Reachable(cfg, s, l) && l.pos <= k < |s| && !Blank(s[k])
    ensures Covered(Lexemes(cfg, s, l), k)
    decreases |s| - l.pos
  {
    ScanIsGood(cfg, s, l);
    var (t, n) := Scan(cfg, s, l);
    var ts := Lexemes(cfg, s, l);
    assert ts[0] == t;
    if t.kind != Eof && n.pos <= k {
      OnlyBlanksAreDropped(cfg, s, n, k);
      var rest := Lexemes(cfg, s, n);
      var i :| 0 <= i < |rest| && rest[i].start <= k < rest[i].end;
      assert ts[i + 1] == rest[i];
    }
    hide Scan, Reachable;
  }

  // ---- Text tokens ----

  /** A text token runs up to the first opening delimiter, less the blanks that are stripped before it. */
  lemma TextStopsAtFirstOpen(cfg: Config, s: string, l: Lex)
    requires cfg.Valid() && Reachable(cfg, s, l) && Scan(cfg, s, l).0.kind == Text
    ensures var (t, n) := Scan(cfg, s, l);
      && t.start == l.pos && (forall k :: t.start <= k < n.pos ==> !Opens(cfg, s, k))
      && (n.pos < |s| ==> Opens(cfg, s, n.pos)) && AllBlank(s, t.end, n.pos)
  {
    ScanIsGood(cfg, s, l);
    if !l.state.TextState? && !l.state.IsStart() && !l.state.CommentBody? {
      BodyGivesNoText(ClosingOf(cfg, l.state), s, l, l.pos);
    }
    hide ScanBody, Opens, StartsAt;
  }

  lemma {:induction false} BodyGivesNoText(c: Closing, s: string, l: Lex, i: nat)
    requires i <= |s| && c.kind != Text
    ensures ScanBody(c, s, l, i).0.kind != Text
    decreases |s| - i
  {
    if i < |s| && (s[i] in " \t\r" || s[i] == '\n') {
      BodyGivesNoText(c, s, l, i + 1);
    }
    hide SkipAllBlanks, SkipToNextLine, StartsAt;
  }

  // ---- The meaning of a minus sign ----

  /** Tokens inside delimiters. */
  predicate IsSymbol(t: Lexeme) {
    !(t.kind in {Text, ExpressionOpen, ExpressionClose, LineStatementOpen, LineStatementClose,
                 StatementOpen, StatementClose, CommentOpen, CommentClose, Eof})
  }

  /** Tokens after which a minus sign is an operator. A negative number is not one of them. */
  predicate Completes(s: string, t: Lexeme) {
    || t.kind in {Id, RightParen, RightBracket, RightBrace}
    || (t.kind == Number && t.start < |s| && s[t.start] != '-')
  }

  function MinusAfter(s: string, t: Lexeme, before: MinusState): MinusState {
    if !IsSymbol(t) then before else if Completes(s, t) then Operator else Signed
  }

  lemma SymbolMinus(s: string, i: nat, minus: MinusState)
    requires i < |s|
    ensures var (kind, end, after) := Symbol(s, i, minus);
      IsSymbol(Lexeme(kind, i, end)) && after == MinusAfter(s, Lexeme(kind, i, end), minus)
    ensures s[i] == '-' ==> Symbol(s, i, minus).0 == if minus == Operator then Minus else Number
    ensures s[i] != '-' ==> Symbol(s, i, minus).0 != Minus
  {
    hide IdEnd, NumberEnd, StringEnd;
  }

  lemma {:induction false} BodyMinus(cfg: Config, c: Closing, s: string, l: Lex, i: nat)
    requires i <= |s| && c.kind in {ExpressionClose, LineStatementClose, StatementClose}
    ensures var (t, n) := ScanBody(c, s, l, i);
      && n.minus == MinusAfter(s, t, l.minus)
      && (IsSymbol(t) ==> t.start < |s| && (t.kind == Minus <==> s[t.start] == '-' && l.minus == Operator))
    decreases |s| - i
  {
    if i < |s| {
      SymbolMinus(s, i, l.minus);
      if s[i] in " \t\r" || s[i] == '\n' {
        BodyMinus(cfg, c, s, l, i + 1);
      }
      hide Symbol, SkipAllBlanks, SkipToNextLine, StartsAt;
    }
  }

  /** One scan: a sign is an operator exactly if the state says so, and the state follows the symbols. */
  lemma ScanMinus(cfg: Config, s: string, l: Lex)
    requires cfg.Valid() && Reachable(cfg, s, l)
    ensures var (t, n) := Scan(cfg, s, l);
      && n.minus == MinusAfter(s, t, l.minus)
      && (IsSymbol(t) ==> t.start < |s| && (t.kind == Minus <==> s[t.start] == '-' && l.minus == Operator))
  {
    if l.pos < |s| && l.state.IsBody() && !l.state.CommentBody? {
      BodyMinus(cfg, ClosingOf(cfg, l.state), s, l, l.pos);
    }
    hide ScanBody, OpenState, FirstOpen;
  }

  /** The state of the minus sign after some tokens. */
  function MinusAfterAll(s: string, ts: seq<Lexeme>, before: MinusState): MinusState {
    if ts == [] then before else MinusAfterAll(s, ts[1..], MinusAfter(s, ts[0], before))
  }

  lemma LexemesCons(cfg: Config, s: string, l: Lex)
    requires cfg.Valid() && Reachable(cfg, s, l)
    ensures var (t, n) := Scan(cfg, s, l); var ts := Lexemes(cfg, s, l);
      && Reachable(cfg, s, n) && ts != [] && ts[0] == t && n.pos <= |s|
      && (t.kind == Eof ==> |ts| == 1) && (t.kind != Eof ==> ts[1..] == Lexemes(cfg, s, n))
  {
    ScanIsGood(cfg, s, l);
    hide Scan, Reachable;
  }

  lemma {:induction false} MinusInRun(cfg: Config, s: string, l: Lex, k: nat)
    requires cfg.Valid() && Reachable(cfg, s, l) && k < |Lexemes(cfg, s, l)| && IsSymbol(Lexemes(cfg, s, l)[k])
    ensures var ts := Lexemes(cfg, s, l);
      && ts[k].start < |s|
      && (ts[k].kind == Minus <==> s[ts[k].start] == '-' && MinusAfterAll(s, ts[..k], l.minus) == Operator)
    decreases k
  {
    hide Scan, MinusAfter, IsSymbol, Reachable, Lexemes;
    ScanMinus(cfg, s, l);
    LexemesCons(cfg, s, l);
    if k > 0 {
      var n, ts := Scan(cfg, s, l).1, Lexemes(cfg, s, l);
      var rest := Lexemes(cfg, s, n);
      assert ts[1..][k - 1] == ts[k];
      MinusInRun(cfg, s, n, k - 1);
      MinusCons(s, ts, rest, k, l.minus);
    }
  }

  lemma MinusCons(s: string, ts: seq<Lexeme>, rest: seq<Lexeme>, k: nat, before: MinusState)
    requires 0 < k < |ts| && rest == ts[1..]
    ensures MinusAfterAll(s, ts[..k], before) == MinusAfterAll(s, rest[..k - 1], MinusAfter(s, ts[0], before))
  {
    hide MinusAfter;
    assert ts[..k][1..] == rest[..k - 1];
  }

  predicate NoSymbol(ts: seq<Lexeme>, from: nat) {
    forall i :: from <= i < |ts| ==> !IsSymbol(ts[i])
  }

  /** The last symbol ends an operand. */
  predicate EndsOperand(s: string, ts: seq<Lexeme>) {
    exists j :: 0 <= j < |ts| && IsSymbol(ts[j]) && Completes(s, ts[j]) && NoSymbol(ts, j + 1)
  }

  lemma {:induction false} LastSymbolDecides(s: string, ts: seq<Lexeme>, before: MinusState)
    ensures (MinusAfterAll(s, ts, before) == Operator)
      <==> EndsOperand(s, ts) || (before == Operator && NoSymbol(ts, 0))
    decreases |ts|
  {
    hide IsSymbol, Completes;
    if ts != [] {
      LastSymbolDecides(s, ts[1..], MinusAfter(s, ts[0], before));
      EndsOperandCons(s, ts);
      NoSymbolCons(ts, 0);
    }
    hide EndsOperand, NoSymbol;
  }

  lemma NoSymbolCons(ts: seq<Lexeme>, j: nat)
    requires ts != []
    ensures NoSymbol(ts, j + 1) == NoSymbol(ts[1..], j)
    ensures NoSymbol(ts, 0) == (!IsSymbol(ts[0]) && NoSymbol(ts[1..], 0))
  {
    hide IsSymbol;
    assert forall i :: 0 < i < |ts| ==> ts[i] == ts[1..][i - 1];
    assert forall i :: 0 <= i < |ts| - 1 ==> ts[1..][i] == ts[i + 1];
  }

  lemma EndsOperandCons(s: string, ts: seq<Lexeme>)
    requires ts != []
    ensures EndsOperand(s, ts)
      <==> EndsOperand(s, ts[1..]) || (IsSymbol(ts[0]) && Completes(s, ts[0]) && NoSymbol(ts[1..], 0))
  {
    hide IsSymbol, Completes;
    if EndsOperand(s, ts) {
      var j :| 0 <= j < |ts| && IsSymbol(ts[j]) && Completes(s, ts[j]) && NoSymbol(ts, j + 1);
      NoSymbolCons(ts, j);
      if j > 0 {
        NoSymbolCons(ts, j);
        assert ts[1..][j - 1] == ts[j] && NoSymbol(ts[1..], j);
      }
    }
    if EndsOperand(s, ts[1..]) {
      var j :| 0 <= j < |ts| - 1 && IsSymbol(ts[1..][j]) && Completes(s, ts[1..][j]) && NoSymbol(ts[1..], j + 1);
      NoSymbolCons(ts, j + 1);
      assert ts[j + 1] == ts[1..][j] && NoSymbol(ts, j + 2);
    }
    if IsSymbol(ts[0]) && Completes(s, ts[0]) && NoSymbol(ts[1..], 0) {
      NoSymbolCons(ts, 0);
    }
  }

  /**
   In every run a minus sign is an operator exactly if the last symbol before it ends an operand, wherever
   that symbol stands. Delimiters and text do not reset this: after {{ a }} the sign in {{ -1 }} is an operator.
   */
  lemma MinusMeaning(cfg: Config, s: string, k: nat)
    requires cfg.Valid() && k < |Lexemes(cfg, s, START)| && IsSymbol(Lexemes(cfg, s, START)[k])
    ensures var ts := Lexemes(cfg, s, START);
      ts[k].start < |s| && (ts[k].kind == Minus <==> s[ts[k].start] == '-' && EndsOperand(s, ts[..k]))
  {
    hide Scan, IsSymbol, EndsOperand;
    MinusInRun(cfg, s, START, k);
    LastSymbolDecides(s, Lexemes(cfg, s, START)[..k], Signed);
  }
}
