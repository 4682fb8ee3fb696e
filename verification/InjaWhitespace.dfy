/**
 What one scan of the lexer gives, for every input and every setting of whitespace control: where a text ends, which
 opener follows it, what a closing delimiter takes with it, and how far the tokens of a body reach.
 */
module InjaWhitespace {
  import opened Sequences
  import opened InjaLexer
  import opened InjaLexerProof

  // ---- Blanks ----

  predicate Space(c: char) {
    c == ' ' || c == '\t'
  }

  predicate AllSpaces(s: string, i: nat, j: nat) {
    forall k :: i <= k < j && k < |s| ==> Space(s[k])
  }

  /** All white space from `i` on ends at `j`. */
  predicate PastBlanks(s: string, i: nat, j: nat) {
    i <= j <= |s| && AllBlank(s, i, j) && (j < |s| ==> !Blank(s[j]))
  }

  /** The spaces and tabs from `i` on end at `k`, and at `j` the end of line that may follow them. */
  predicate PastLine(s: string, i: nat, k: nat, j: nat) {
    && i <= k <= j <= |s| && AllSpaces(s, i, k) && (k < |s| ==> !Space(s[k]))
    && (StartsAt(s, k, "\r\n") ==> j == k + 2)
    && (!StartsAt(s, k, "\r\n") && (StartsAt(s, k, "\n") || StartsAt(s, k, "\r")) ==> j == k + 1)
    && (!StartsAt(s, k, "\n") && !StartsAt(s, k, "\r") ==> j == k)
  }

  lemma SkipsBlanks(s: string, i: nat)
    requires i <= |s|
    ensures PastBlanks(s, i, SkipAllBlanks(s, i))
  {
  }

  lemma SkipsLine(s: string, i: nat)
    requires i <= |s|
    ensures PastLine(s, i, SkipSpaces(s, i), SkipToNextLine(s, i))
  {
    var k := SkipSpaces(s, i);
    StartsWithOne(s, k, '\n');
    StartsWithOne(s, k, '\r');
    StartsWithTwo(s, k, '\r', '\n');
    hide StartsAt, SkipSpaces;
  }

  lemma StartsWithOne(s: string, i: nat, c: char)
    ensures StartsAt(s, i, [c]) <==> i < |s| && s[i] == c
  {
    if i < |s| {
      assert s[i..i + 1] == [s[i]];
    }
  }

  lemma StartsWithTwo(s: string, i: nat, c: char, d: char)
    ensures StartsAt(s, i, [c, d]) <==> i + 1 < |s| && s[i] == c && s[i + 1] == d
  {
    if i + 1 < |s| {
      assert s[i..i + 2] == [s[i], s[i + 1]];
    }
  }

  // ---- The end of a body ----

  /** The closing delimiter that trims stands here; an empty one is never met. */
  predicate Forced(s: string, i: nat, force: string) {
    force != "" && StartsAt(s, i, force)
  }

  /** The characters of a body that no token covers: a line end that is not a closing delimiter, and other blanks. */
  predicate Passed(s: string, i: nat, close: string, force: string) {
    i < |s| && (s[i] in " \t\r" || (s[i] == '\n' && !Forced(s, i, force) && !StartsAt(s, i, close)))
  }

  /** A scan of a body: its token starts at the first character that is not passed over. */
  predicate BodyStart(s: string, l: Lex, t: Lexeme, close: string, force: string) {
    && l.pos <= t.start <= |s| && (forall k :: l.pos <= k < t.start ==> Passed(s, k, close, force))
    && !Passed(s, t.start, close, force) && (t.kind == Eof <==> t.start == |s|)
  }

  /**
   The closing token is the delimiter that trims, and then all white space is skipped; or the plain one, after
   which spaces, tabs and one end of line are skipped if `trim` is set, and otherwise nothing. Every other token
   leaves the body as it is and skips nothing.
   */
  ghost predicate Closes(s: string, l: Lex, t: Lexeme, n: Lex, kind: Kind, close: string, force: string, trim: bool) {
    && (t.start < |s| ==> (t.kind == kind <==> Forced(s, t.start, force) || StartsAt(s, t.start, close)))
    && (t.kind == kind && Forced(s, t.start, force) ==>
          t.end == t.start + |force| && PastBlanks(s, t.end, n.pos))
    && (t.kind == kind && !Forced(s, t.start, force) && trim ==>
          t.end == t.start + |close| && exists k :: PastLine(s, t.end, k, n.pos))
    && (t.kind == kind && !Forced(s, t.start, force) && !trim ==> t.end == t.start + |close| && n.pos == t.end)
    && (t.kind == kind ==> n.state == TextState && n.minus == l.minus)
    && (t.kind != kind && t.kind != Eof ==> n.state == l.state && n.pos == t.end)
    && (t.kind == Eof ==> n == l && t.end == |s|)
  }

  lemma {:induction false} BodyStarts(c: Closing, s: string, l: Lex, i: nat)
    requires l.pos <= i <= |s| && c.kind != Eof && forall k :: l.pos <= k < i ==> Passed(s, k, c.close, c.closeTrim)
    ensures BodyStart(s, l, ScanBody(c, s, l, i).0, c.close, c.closeTrim)
    ensures var j := ScanBody(c, s, l, i).0.start; i <= j && ScanBody(c, s, l, i) == ScanBody(c, s, l, j)
    decreases |s| - i
  {
    if i < |s| {
      if Passed(s, i, c.close, c.closeTrim) {
        BodySkips(c, s, l, i);
        hide ScanBody, Passed;
        BodyStarts(c, s, l, i + 1);
      } else {
        SymbolIsNoEof(s, i, l.minus);
        hide StartsAt, Symbol, SkipAllBlanks, SkipToNextLine;
      }
    }
  }

  lemma ForcedClose(c: Closing, s: string, l: Lex, i: nat)
    requires i < |s| && !Passed(s, i, c.close, c.closeTrim) && IsClose(c.kind) && Forced(s, i, c.closeTrim)
    ensures var (t, n) := ScanBody(c, s, l, i); Closes(s, l, t, n, c.kind, c.close, c.closeTrim, c.trim)
  {
    SkipsBlanks(s, i + |c.closeTrim|);
    hide Symbol, SkipAllBlanks, SkipToNextLine, PastLine, PastBlanks;
  }

  lemma PlainClose(c: Closing, s: string, l: Lex, i: nat)
    requires i < |s| && !Passed(s, i, c.close, c.closeTrim) && IsClose(c.kind)
    requires !Forced(s, i, c.closeTrim) && StartsAt(s, i, c.close)
    ensures var (t, n) := ScanBody(c, s, l, i); Closes(s, l, t, n, c.kind, c.close, c.closeTrim, c.trim)
  {
    SkipsLine(s, i + |c.close|);
    hide Symbol, SkipAllBlanks, SkipToNextLine, PastLine, PastBlanks;
  }

  lemma NoClose(c: Closing, s: string, l: Lex, i: nat)
    requires i < |s| && !Passed(s, i, c.close, c.closeTrim) && IsClose(c.kind)
    requires !Forced(s, i, c.closeTrim) && !StartsAt(s, i, c.close)
    ensures var (t, n) := ScanBody(c, s, l, i); Closes(s, l, t, n, c.kind, c.close, c.closeTrim, c.trim)
  {
    SymbolMinus(s, i, l.minus);
    hide StartsAt, Symbol, SkipAllBlanks, SkipToNextLine, PastLine, PastBlanks, MinusAfter;
  }

  lemma BodyCloses(c: Closing, s: string, l: Lex, i: nat)
    requires i <= |s| && !Passed(s, i, c.close, c.closeTrim) && IsClose(c.kind)
    ensures var (t, n) := ScanBody(c, s, l, i); Closes(s, l, t, n, c.kind, c.close, c.closeTrim, c.trim)
  {
    if i == |s| {
      NothingCloses(c, s, l);
    } else if Forced(s, i, c.closeTrim) {
      ForcedClose(c, s, l, i);
    } else if StartsAt(s, i, c.close) {
      PlainClose(c, s, l, i);
    } else {
      NoClose(c, s, l, i);
    }
    hide *;
  }

  lemma NothingCloses(c: Closing, s: string, l: Lex)
    requires IsClose(c.kind)
    ensures var (t, n) := ScanBody(c, s, l, |s|); Closes(s, l, t, n, c.kind, c.close, c.closeTrim, c.trim)
  {
    hide StartsAt, PastLine, PastBlanks;
  }

  predicate IsClose(kind: Kind) {
    kind in {ExpressionClose, LineStatementClose, StatementClose}
  }

  lemma BodyScan(c: Closing, s: string, l: Lex)
    requires l.pos <= |s| && IsClose(c.kind)
    ensures var (t, n) := ScanBody(c, s, l, l.pos);
      && BodyStart(s, l, t, c.close, c.closeTrim)
      && Closes(s, l, t, n, c.kind, c.close, c.closeTrim, c.trim)
  {
    hide *;
    CloseIsNoEof(c.kind);
    BodyStarts(c, s, l, l.pos);
    var j := ScanBody(c, s, l, l.pos).0.start;
    StartsThere(s, l, ScanBody(c, s, l, l.pos).0, c);
    BodyCloses(c, s, l, j);
  }

  lemma StartsThere(s: string, l: Lex, t: Lexeme, c: Closing)
    requires BodyStart(s, l, t, c.close, c.closeTrim)
    ensures t.start <= |s| && !Passed(s, t.start, c.close, c.closeTrim)
  {
  }

  lemma CloseIsNoEof(kind: Kind)
    requires IsClose(kind)
    ensures kind != Eof
  {
  }

  /** Inside {{ }}: the closing delimiter takes nothing with it unless it asks for it. */
  lemma ExpressionScan(cfg: Config, s: string, l: Lex)
    requires cfg.Valid() && Reachable(cfg, s, l) && l.state.ExpressionBody?
    ensures var (t, n) := Scan(cfg, s, l); var close, force := cfg.expressionClose, cfg.expressionCloseForceRstrip;
      BodyStart(s, l, t, close, force) && Closes(s, l, t, n, ExpressionClose, close, force, false)
  {
    BodyScan(ClosingOf(cfg, l.state), s, l);
    AtEnd(ClosingOf(cfg, l.state), s, l);
    hide ScanBody, BodyStart, Closes, Reachable;
  }

  /** Inside {% %}: the closing delimiter takes the rest of the line if blocks are trimmed. */
  lemma StatementScan(cfg: Config, s: string, l: Lex)
    requires cfg.Valid() && Reachable(cfg, s, l) && l.state.StatementBody?
    ensures var (t, n) := Scan(cfg, s, l); var close, force := cfg.statementClose, cfg.statementCloseForceRstrip;
      BodyStart(s, l, t, close, force) && Closes(s, l, t, n, StatementClose, close, force, cfg.trimBlocks)
  {
    BodyScan(ClosingOf(cfg, l.state), s, l);
    AtEnd(ClosingOf(cfg, l.state), s, l);
    hide ScanBody, BodyStart, Closes, Reachable;
  }

  /** A line statement ends with its line, and takes no more. */
  lemma LineScan(cfg: Config, s: string, l: Lex)
    requires cfg.Valid() && Reachable(cfg, s, l) && l.state.LineBody?
    ensures var (t, n) := Scan(cfg, s, l);
      BodyStart(s, l, t, "\n", "") && Closes(s, l, t, n, LineStatementClose, "\n", "", false)
  {
    BodyScan(ClosingOf(cfg, l.state), s, l);
    AtEnd(ClosingOf(cfg, l.state), s, l);
    hide ScanBody, BodyStart, Closes, Reachable;
  }

  lemma AtEnd(c: Closing, s: string, l: Lex)
    ensures l.pos == |s| ==> ScanBody(c, s, l, l.pos) == (Lexeme(Eof, |s|, |s|), l)
  {
  }

  // ---- The tokens of a body ----

  /** How many backslashes stand just before `k`, counted from `i` on. */
  function Backslashes(s: string, i: nat, k: nat): nat
    requires i <= k <= |s|
  {
    if i < k && s[k - 1] == '\\' then Backslashes(s, i, k - 1) + 1 else 0
  }

  /** A quote at `k` ends the text that begins at `i`: an even number of backslashes stands before it. */
  predicate Quotes(s: string, i: nat, k: nat, quote: char)
    requires i <= k < |s|
  {
    s[k] == quote && Backslashes(s, i, k) % 2 == 0
  }

  lemma {:induction false} StringReaches(s: string, i: nat, k: nat, quote: char, escape: bool)
    requires i <= k <= |s| && quote != '\\' && (escape <==> Backslashes(s, i, k) % 2 == 1)
    ensures var r := StringEnd(s, k, quote, escape);
      && (forall j :: k <= j < r - 1 ==> !Quotes(s, i, j, quote))
      && (r < |s| ==> k < r && Quotes(s, i, r - 1, quote))
    decreases |s| - k
  {
    if k < |s| && !(s[k] == quote && !escape) {
      StringReaches(s, i, k + 1, quote, if s[k] == '\\' then !escape else false);
      assert !Quotes(s, i, k, quote);
    }
  }

  /** The characters that go on a name, and those that go on a number: a sign after the letter of an exponent. */
  predicate GoesOnName(c: char) {
    IsAlpha(c) || IsDigit(c) || c == '.' || c == '/' || c == '_' || c == '-'
  }

  predicate GoesOnNumber(previous: char, c: char) {
    IsDigit(c) || c == '.' || c == 'e' || c == 'E' || ((c == '+' || c == '-') && (previous == 'e' || previous == 'E'))
  }

  predicate NameReaches(s: string, i: nat, j: nat) {
    && i < j <= |s| && (IsAlpha(s[i]) || s[i] in "_@$")
    && (forall k :: i < k < j ==> GoesOnName(s[k])) && (j < |s| ==> !GoesOnName(s[j]))
  }

  predicate NumberReaches(s: string, i: nat, j: nat) {
    && i < j <= |s| && (IsDigit(s[i]) || s[i] == '-')
    && (forall k :: i < k < j ==> GoesOnNumber(s[k - 1], s[k])) && (j < |s| ==> !GoesOnNumber(s[j - 1], s[j]))
  }

  /** The text after an opening quote: it ends with the first quote that ends it, or with the input. */
  predicate TextReaches(s: string, i: nat, j: nat) {
    && i <= j <= |s| && (forall k :: i <= k < j - 1 ==> !Quotes(s, i, k, '"'))
    && (j < |s| ==> i < j && Quotes(s, i, j - 1, '"'))
  }

  /** Names, numbers and strings reach as far as they can. */
  predicate Reaches(s: string, t: Lexeme) {
    && t.start < |s|
    && (t.kind == Id ==> NameReaches(s, t.start, t.end))
    && (t.kind == Number ==> NumberReaches(s, t.start, t.end))
    && (t.kind == String ==> s[t.start] == '"' && TextReaches(s, t.start + 1, t.end))
  }

  lemma SymbolEnds(s: string, i: nat, minus: MinusState)
    requires i < |s|
    ensures var (kind, end, _) := Symbol(s, i, minus);
      && (kind == Id ==> (IsAlpha(s[i]) || s[i] in "_@$") && end == IdEnd(s, i + 1))
      && (kind == Number ==> (IsDigit(s[i]) || s[i] == '-') && end == NumberEnd(s, i + 1))
      && (kind == String ==> s[i] == '"' && end == StringEnd(s, i + 1, '"', false))
  {
    hide IdEnd, NumberEnd, StringEnd;
  }

  lemma SymbolReaches(s: string, i: nat, minus: MinusState)
    requires i < |s|
    ensures var (kind, end, _) := Symbol(s, i, minus); Reaches(s, Lexeme(kind, i, end))
  {
    SymbolEnds(s, i, minus);
    StringReaches(s, i + 1, i + 1, '"', false);
    NameIs(s, i);
    NumberIs(s, i);
    hide StringEnd, IdEnd, NumberEnd, Quotes, Backslashes, Symbol, NameReaches, NumberReaches;
  }

  lemma NameIs(s: string, i: nat)
    requires i < |s|
    ensures IsAlpha(s[i]) || s[i] in "_@$" ==> NameReaches(s, i, IdEnd(s, i + 1))
  {
    hide IdEnd;
  }

  lemma NumberIs(s: string, i: nat)
    requires i < |s|
    ensures IsDigit(s[i]) || s[i] == '-' ==> NumberReaches(s, i, NumberEnd(s, i + 1))
  {
    hide NumberEnd;
  }

  /** In every body: each token that does not close it reaches as far as a name, a number or a string can. */
  lemma TokensReach(cfg: Config, s: string, l: Lex)
    requires cfg.Valid() && Reachable(cfg, s, l) && l.state.IsBody() && !l.state.CommentBody?
    ensures var t := Scan(cfg, s, l).0; t.kind in {Id, Number, String} ==> Reaches(s, t)
  {
    var c := ClosingOf(cfg, l.state);
    AtEnd(c, s, l);
    TokenIsSymbol(c, s, l);
    hide ScanBody, Reaches, Reachable;
  }

  lemma TokenIsSymbol(c: Closing, s: string, l: Lex)
    requires l.pos <= |s| && IsClose(c.kind)
    ensures var t := ScanBody(c, s, l, l.pos).0; t.kind in {Id, Number, String} ==> Reaches(s, t)
  {
    CloseIsNoEof(c.kind);
    BodyStarts(c, s, l, l.pos);
    var j := ScanBody(c, s, l, l.pos).0.start;
    StartsThere(s, l, ScanBody(c, s, l, l.pos).0, c);
    if j < |s| {
      SymbolReaches(s, j, l.minus);
      SymbolThere(c, s, l, j);
    } else {
      EndThere(c, s, l);
    }
    hide ScanBody, BodyStart, Reaches, Symbol;
  }

  lemma EndThere(c: Closing, s: string, l: Lex)
    ensures ScanBody(c, s, l, |s|).0.kind == Eof
  {
  }

  lemma SymbolThere(c: Closing, s: string, l: Lex, j: nat)
    requires j < |s| && !Passed(s, j, c.close, c.closeTrim) && IsClose(c.kind)
    ensures var t := ScanBody(c, s, l, j).0; t.kind in {Id, Number, String} ==>
      var (kind, end, _) := Symbol(s, j, l.minus); t == Lexeme(kind, j, end)
  {
    hide StartsAt, Symbol, SkipAllBlanks, SkipToNextLine;
  }

  // ---- Comments ----

  /** `p` is the first place from `i` on where `t` stands, or the end of the input if there is none. */
  predicate FirstPlace(s: string, i: nat, p: nat, t: string) {
    i <= p <= |s| && (forall k :: i <= k < p ==> !StartsAt(s, k, t)) && (p < |s| ==> StartsAt(s, p, t))
  }

  /**
   The token of a comment reaches to its first closing delimiter. Spaces, tabs and one end of line follow it into
   the comment if blocks are trimmed, or if the delimiter that trims stands one character earlier.
   */
  lemma CommentScan(cfg: Config, s: string, l: Lex, p: nat)
    requires cfg.Valid() && Reachable(cfg, s, l) && l.state.CommentBody? && l.pos < |s|
    requires FirstPlace(s, l.pos, p, cfg.commentClose)
    ensures var (t, n) := Scan(cfg, s, l);
      && (p == |s| ==> t == Lexeme(Eof, l.pos, |s|) && n == Lex(CommentBody, l.minus, |s|))
      && (p < |s| ==> t == Lexeme(CommentClose, l.pos, p + |cfg.commentClose|))
      && (p < |s| ==> n.state == TextState && n.minus == l.minus)
      && (p < |s| && !cfg.trimBlocks && !StartsAt(s, p - 1, cfg.commentCloseForceRstrip) ==> n.pos == t.end)
      && (p < |s| && (cfg.trimBlocks || StartsAt(s, p - 1, cfg.commentCloseForceRstrip)) ==>
            exists k :: PastLine(s, t.end, k, n.pos))
  {
    FindsFirst(s, l.pos, p, cfg.commentClose);
    if p < |s| {
      SkipsLine(s, p + |cfg.commentClose|);
    }
    hide PastLine, SkipToNextLine, Find, FirstPlace, ScanText, ScanBody, ScanOpen;
  }

  lemma FindsFirst(s: string, i: nat, p: nat, t: string)
    requires FirstPlace(s, i, p, t)
    ensures i <= p == Find(s, i, t) <= |s|
  {
    hide StartsAt;
  }

  // ---- The end of a text ----

  /** A delimiter opens here: for a line statement only at the start of a line. */
  predicate OpenerAt(cfg: Config, s: string, i: nat) {
    || StartsAt(s, i, cfg.expressionOpen) || StartsAt(s, i, cfg.statementOpen) || StartsAt(s, i, cfg.commentOpen)
    || LineOpens(cfg, s, i)
  }

  predicate LineOpens(cfg: Config, s: string, i: nat) {
    StartsAt(s, i, cfg.lineStatement) && (i == 0 || StartsAt(s, i - 1, "\n"))
  }

  /** `p` is the first place from `i` on where a delimiter opens, or the end of the input. */
  predicate FirstOpener(cfg: Config, s: string, i: nat, p: nat) {
    i <= p <= |s| && (forall k :: i <= k < p ==> !OpenerAt(cfg, s, k)) && (p < |s| ==> OpenerAt(cfg, s, p))
  }

  /** The opener at `p` strips the blanks before it. */
  predicate Strips(cfg: Config, s: string, p: nat) {
    var expression, statement := StartsAt(s, p, cfg.expressionOpen), StartsAt(s, p, cfg.statementOpen);
    || (expression && StartsAt(s, p, cfg.expressionOpenForceLstrip))
    || (!expression && statement && !StartsAt(s, p, cfg.statementOpenNoLstrip)
        && (cfg.lstripBlocks || StartsAt(s, p, cfg.statementOpenForceLstrip)))
    || (!expression && !statement && StartsAt(s, p, cfg.commentOpen)
        && (cfg.lstripBlocks || StartsAt(s, p, cfg.commentOpenForceLstrip)))
  }

  /** A line begins at `i` in a text that begins at `start`, as far as stripping is concerned. */
  predicate LineBegins(s: string, start: nat, i: nat) {
    i == start || (start < i <= |s| && s[i - 1] in "\n\r")
  }

  /** The text from `start` to `p` without its last line if that line holds only spaces and tabs; else all of it. */
  predicate Stripped(s: string, start: nat, p: nat, end: nat) {
    && start <= end <= p
    && (end < p ==> LineBegins(s, start, end) && AllSpaces(s, end, p))
    && (end == p ==> forall k :: start <= k < p && LineBegins(s, start, k) ==> !AllSpaces(s, k, p))
  }

  lemma {:induction false} ClearsLine(s: string, start: nat, i: nat, p: nat)
    requires start <= i <= p <= |s| && AllBlank(s, i, p) && AllSpaces(s, i, p)
    ensures Stripped(s, start, p, ClearedEnd(s, start, i, p))
    decreases i
  {
    if i > start && s[i - 1] in " \t" {
      assert AllSpaces(s, i - 1, p);
      hide AllSpaces, Stripped;
      ClearsLine(s, start, i - 1, p);
    } else if i > start {
      assert !Space(s[i - 1]);
      assert forall k :: start <= k < i ==> !AllSpaces(s, k, p);
      hide AllSpaces;
    }
  }

  predicate ExpressionOpened(cfg: Config, s: string, p: nat, t: Lexeme, n: Lex) {
    var forced := StartsAt(s, p, cfg.expressionOpenForceLstrip);
    && t.kind == ExpressionOpen && n.state == ExpressionBody
    && (forced ==> t.end == p + |cfg.expressionOpenForceLstrip|)
    && (!forced ==> t.end == p + |cfg.expressionOpen|)
  }

  predicate StatementOpened(cfg: Config, s: string, p: nat, t: Lexeme, n: Lex) {
    var keeps := StartsAt(s, p, cfg.statementOpenNoLstrip);
    var forced := StartsAt(s, p, cfg.statementOpenForceLstrip);
    && t.kind == StatementOpen && n.state == StatementBody
    && (keeps ==> t.end == p + |cfg.statementOpenNoLstrip|)
    && (!keeps && forced ==> t.end == p + |cfg.statementOpenForceLstrip|)
    && (!keeps && !forced ==> t.end == p + |cfg.statementOpen|)
  }

  predicate CommentOpened(cfg: Config, s: string, p: nat, t: Lexeme, n: Lex) {
    var forced := StartsAt(s, p, cfg.commentOpenForceLstrip);
    && t.kind == CommentOpen && n.state == CommentBody
    && (forced ==> t.end == p + |cfg.commentOpenForceLstrip|)
    && (!forced ==> t.end == p + |cfg.commentOpen|)
  }

  /** The token of the opener at `p`: its kind, its end, and the body that follows it at once. */
  predicate Opened(cfg: Config, s: string, p: nat, t: Lexeme, n: Lex) {
    && n.pos == t.end
    && if StartsAt(s, p, cfg.expressionOpen) then ExpressionOpened(cfg, s, p, t, n)
       else if StartsAt(s, p, cfg.statementOpen) then StatementOpened(cfg, s, p, t, n)
       else if StartsAt(s, p, cfg.commentOpen) then CommentOpened(cfg, s, p, t, n)
       else t.kind == LineStatementOpen && n.state == LineBody && t.end == p + |cfg.lineStatement|
  }

  lemma StrippedOnce(s: string, start: nat, p: nat, a: nat, b: nat)
    requires p <= |s| && Stripped(s, start, p, a) && Stripped(s, start, p, b)
    ensures a == b
  {
    assert a < b ==> Space(s[b - 1]);
    assert b < a ==> Space(s[a - 1]);
  }

  lemma OpensHere(cfg: Config, s: string, i: nat)
    requires cfg.Valid()
    ensures Opens(cfg, s, i) <==> OpenerAt(cfg, s, i)
  {
    if i > 0 {
      StartsWithOne(s, i - 1, '\n');
    }
    hide StartsAt;
    NotAtEnd(s, i, cfg.lineStatement);
  }

  lemma NotAtEnd(s: string, i: nat, t: string)
    requires t != ""
    ensures StartsAt(s, i, t) ==> i < |s|
  {
  }

  lemma IsFirstOpen(cfg: Config, s: string, i: nat, p: nat)
    requires cfg.Valid() && FirstOpener(cfg, s, i, p)
    ensures p == FirstOpen(cfg, s, i)
  {
    hide Opens, OpenerAt, FirstOpen;
    forall k: nat
      ensures Opens(cfg, s, k) <==> OpenerAt(cfg, s, k)
    {
      OpensHere(cfg, s, k);
    }
  }

  /**
   From a text to the next body: the text before the first opener, stripped if the opener asks for it, is a token
   of its own unless nothing is left of it; then comes the opener. Without an opener the text is the rest.
   */
  lemma TextScan(cfg: Config, s: string, l: Lex, p: nat, end: nat)
    requires cfg.Valid() && Reachable(cfg, s, l) && l.state.TextState? && l.pos < |s|
    requires FirstOpener(cfg, s, l.pos, p)
    requires p < |s| && Strips(cfg, s, p) ==> Stripped(s, l.pos, p, end)
    requires p < |s| && !Strips(cfg, s, p) ==> end == p
    ensures var (t, n) := Scan(cfg, s, l);
      && (p == |s| ==> t == Lexeme(Text, l.pos, |s|) && n == Lex(TextState, l.minus, |s|))
      && (p < |s| && end > l.pos ==> t == Lexeme(Text, l.pos, end) && n.pos == p && n.minus == l.minus)
      && (p < |s| && end > l.pos ==> Reachable(cfg, s, n) && Scan(cfg, s, n).0.start == p)
      && (p < |s| && end > l.pos ==> Opened(cfg, s, p, Scan(cfg, s, n).0, Scan(cfg, s, n).1))
      && (p < |s| && end == l.pos ==> t.start == l.pos && Opened(cfg, s, p, t, n) && n.minus == l.minus)
  {
    IsFirstOpen(cfg, s, l.pos, p);
    if p < |s| {
      OpensHere(cfg, s, p);
      StripsHere(cfg, s, l.pos, p, end);
      OpenedHere(cfg, s, p, l.minus, p);
      OpenedHere(cfg, s, p, l.minus, l.pos);
    }
    hide StartsAt, FirstOpen, ClearedEnd, Strips, Stripped, OpenerAt, Opened, OpenState, Opens, ScanOpen;
  }

  lemma OpenedHere(cfg: Config, s: string, p: nat, minus: MinusState, start: nat)
    requires Opens(cfg, s, p)
    ensures var l := Lex(OpenState(cfg, s, p).0, minus, p);
      && l.state.IsStart() && StartsAt(s, p, cfg.OpenString(l.state))
      && ScanOpen(cfg, s, l, start).0.start == start && ScanOpen(cfg, s, l, start).1.minus == minus
      && Opened(cfg, s, p, ScanOpen(cfg, s, l, start).0, ScanOpen(cfg, s, l, start).1)
  {
    hide StartsAt;
  }

  lemma StripsHere(cfg: Config, s: string, start: nat, p: nat, end: nat)
    requires start <= p <= |s| && Opens(cfg, s, p)
    requires Strips(cfg, s, p) ==> Stripped(s, start, p, end)
    requires !Strips(cfg, s, p) ==> end == p
    ensures end == if OpenState(cfg, s, p).1 then ClearedEnd(s, start, p, p) else p
  {
    ClearsLine(s, start, p, p);
    if Strips(cfg, s, p) {
      StrippedOnce(s, start, p, end, ClearedEnd(s, start, p, p));
    }
    hide Stripped, ClearedEnd, StartsAt;
  }

  // ---- The default delimiters ----

  lemma OpenerIs(s: string, i: nat, a: char, b: char, c: char)
    ensures StartsAt(s, i, [a, b, c]) <==> StartsAt(s, i, [a, b]) && StartsAt(s, i + 2, [c])
  {
    StartsWithTwo(s, i, a, b);
    StartsWithOne(s, i + 2, c);
    if i + 2 < |s| {
      assert s[i..i + 3] == [s[i], s[i + 1], s[i + 2]];
    }
  }

  /** By default a delimiter opens at {{, {% or {#, and a line statement at ## at the start of a line. */
  lemma DefaultOpeners(s: string, i: nat)
    ensures OpenerAt(DEFAULT_CONFIG, s, i) <==>
      || StartsAt(s, i, "{{") || StartsAt(s, i, "{%") || StartsAt(s, i, "{#")
      || (StartsAt(s, i, "##") && (i == 0 || StartsAt(s, i - 1, "\n")))
  {
    hide StartsAt;
  }

  /** By default an opener strips exactly if a minus sign follows it, and a plus sign after {% belongs to it. */
  lemma DefaultStrips(s: string, i: nat)
    requires OpenerAt(DEFAULT_CONFIG, s, i)
    ensures Strips(DEFAULT_CONFIG, s, i) <==>
      (StartsAt(s, i, "{{") || StartsAt(s, i, "{%") || StartsAt(s, i, "{#")) && StartsAt(s, i + 2, "-")
    ensures StartsAt(s, i, DEFAULT_CONFIG.statementOpenNoLstrip) <==> StartsAt(s, i, "{%") && StartsAt(s, i + 2, "+")
  {
    OpenerIs(s, i, '{', '{', '-');
    OpenerIs(s, i, '{', '%', '-');
    OpenerIs(s, i, '{', '%', '+');
    OpenerIs(s, i, '{', '#', '-');
    StartsWithTwo(s, i, '{', '{');
    StartsWithTwo(s, i, '{', '%');
    StartsWithTwo(s, i, '{', '#');
    StartsWithOne(s, i + 2, '-');
    StartsWithOne(s, i + 2, '+');
    assert ['{', '{', '-'] == "{{-" && ['{', '%', '-'] == "{%-" && ['{', '%', '+'] == "{%+" && ['{', '#', '-'] == "{#-";
    hide StartsAt;
  }

  /** By default a closing delimiter trims exactly if a minus sign stands before it. */
  lemma DefaultClosers(s: string, i: nat)
    ensures Forced(s, i, DEFAULT_CONFIG.expressionCloseForceRstrip) <==> StartsAt(s, i, "-}}")
    ensures Forced(s, i, DEFAULT_CONFIG.statementCloseForceRstrip) <==> StartsAt(s, i, "-%}")
    ensures DEFAULT_CONFIG.commentCloseForceRstrip == "-#}" && DEFAULT_CONFIG.commentClose == "#}"
    ensures StartsAt(s, i, DEFAULT_CONFIG.expressionClose) <==> StartsAt(s, i, "}}")
    ensures StartsAt(s, i, DEFAULT_CONFIG.statementClose) <==> StartsAt(s, i, "%}")
    ensures !DEFAULT_CONFIG.trimBlocks && !DEFAULT_CONFIG.lstripBlocks
  {
    hide StartsAt;
  }
}
