/**
 The Lexer of inja.hpp: which characters of a template each token covers, what whitespace control drops,
 and how the state machine moves. Characters are bytes; letters and digits are those of the C locale.
 */
module InjaLexer {
  import opened Sequences

  datatype Kind =
    | Text | ExpressionOpen | ExpressionClose | LineStatementOpen | LineStatementClose
    | StatementOpen | StatementClose | CommentOpen | CommentClose
    | Id | Number | String
    | Plus | Minus | Times | Slash | Percent | Power | Dot | Comma | Colon | Pipe
    | LeftParen | RightParen | LeftBracket | RightBracket | LeftBrace | RightBrace
    | Equal | NotEqual | GreaterThan | GreaterEqual | LessThan | LessEqual
    | Unknown | Eof

  /** A token and the part of the input that it covers. */
  datatype Lexeme = Lexeme(kind: Kind, start: nat, end: nat)

  datatype State =
    | TextState
    | ExpressionStart | ExpressionStartForceLstrip | ExpressionBody
    | LineStart | LineBody
    | StatementStart | StatementStartNoLstrip | StatementStartForceLstrip | StatementBody
    | CommentStart | CommentStartForceLstrip | CommentBody
  {
    /** An opening delimiter has been found and is the next token. */
    predicate IsStart() {
      !TextState? && !IsBody()
    }

    predicate IsBody() {
      ExpressionBody? || LineBody? || StatementBody? || CommentBody?
    }
  }

  /** What a minus sign is when it is met: an operator or the sign of a number. */
  datatype MinusState = Operator | Signed

  datatype Config = Config(
    statementOpen: string, statementOpenNoLstrip: string, statementOpenForceLstrip: string,
    statementClose: string, statementCloseForceRstrip: string,
    lineStatement: string,
    expressionOpen: string, expressionOpenForceLstrip: string,
    expressionClose: string, expressionCloseForceRstrip: string,
    commentOpen: string, commentOpenForceLstrip: string,
    commentClose: string, commentCloseForceRstrip: string,
    trimBlocks: bool, lstripBlocks: bool)
  {
    /** No delimiter is empty; those that ask for a trim on the right may be, and are then never met. */
    predicate Valid() {
      && statementOpen != "" && statementOpenNoLstrip != "" && statementOpenForceLstrip != "" && statementClose != ""
      && lineStatement != ""
      && expressionOpen != "" && expressionOpenForceLstrip != "" && expressionClose != ""
      && commentOpen != "" && commentOpenForceLstrip != "" && commentClose != ""
    }

    /** update_open_chars */
    function OpenChars(): set<char>
      requires Valid()
    {
      {lineStatement[0], statementOpen[0], statementOpenNoLstrip[0], statementOpenForceLstrip[0],
       expressionOpen[0], expressionOpenForceLstrip[0], commentOpen[0], commentOpenForceLstrip[0]}
    }

    function OpenString(state: State): string
      requires state.IsStart()
    {
      match state
      case ExpressionStart => expressionOpen
      case ExpressionStartForceLstrip => expressionOpenForceLstrip
      case LineStart => lineStatement
      case StatementStart => statementOpen
      case StatementStartNoLstrip => statementOpenNoLstrip
      case StatementStartForceLstrip => statementOpenForceLstrip
      case CommentStart => commentOpen
      case CommentStartForceLstrip => commentOpenForceLstrip
    }
  }

  const DEFAULT_CONFIG := Config(
    "{%", "{%+", "{%-", "%}", "-%}", "##", "{{", "{{-", "}}", "-}}", "{#", "{#-", "#}", "-#}", false, false)

  lemma DefaultIsValid()
    ensures DEFAULT_CONFIG.Valid() && DEFAULT_CONFIG.OpenChars() == {'#', '{'}
  {
  }

  // ---- Characters ----

  predicate Blank(c: char) {
    c == ' ' || c == '\t' || c == '\r' || c == '\n'
  }

  predicate IdChar(c: char) {
    IsAlpha(c) || IsDigit(c) || c in "./_-"
  }

  /** The lexer is permissive: a sign continues a number after an exponent. */
  predicate NumberChar(previous: char, c: char) {
    IsDigit(c) || c in ".eE" || (c in "+-" && previous in "eE")
  }

  predicate StartsAt(s: string, i: nat, prefix: string) {
    i + |prefix| <= |s| && s[i..i + |prefix|] == prefix
  }

  /** Every character between two positions can be dropped. */
  predicate AllBlank(s: string, i: nat, j: nat) {
    forall k :: i <= k < j && k < |s| ==> Blank(s[k])
  }

  // ---- Where things end ----

  function IdEnd(s: string, i: nat): (r: nat)
    requires i <= |s|
    ensures i <= r <= |s| && (r < |s| ==> !IdChar(s[r]))
    ensures forall k :: i <= k < r ==> IdChar(s[k])
    decreases |s| - i
  {
    if i < |s| && IdChar(s[i]) then IdEnd(s, i + 1) else i
  }

  function NumberEnd(s: string, i: nat): (r: nat)
    requires 0 < i <= |s|
    ensures i <= r <= |s| && (r < |s| ==> !NumberChar(s[r - 1], s[r]))
    ensures forall k :: i <= k < r ==> NumberChar(s[k - 1], s[k])
    decreases |s| - i
  {
    if i < |s| && NumberChar(s[i - 1], s[i]) then NumberEnd(s, i + 1) else i
  }

  /** A string ends after the first quote that is not escaped, or at the end of the input. */
  function StringEnd(s: string, i: nat, quote: char, escape: bool): (r: nat)
    requires i <= |s|
    ensures i <= r <= |s|
    ensures r == |s| || (i < r && s[r - 1] == quote)
    decreases |s| - i
  {
    if i == |s| then i
    else if s[i] == '\\' then StringEnd(s, i + 1, quote, !escape)
    else if !escape && s[i] == quote then i + 1
    else StringEnd(s, i + 1, quote, false)
  }

  function SkipAllBlanks(s: string, i: nat): (r: nat)
    requires i <= |s|
    ensures i <= r <= |s| && AllBlank(s, i, r) && (r < |s| ==> !Blank(s[r]))
    decreases |s| - i
  {
    if i < |s| && Blank(s[i]) then SkipAllBlanks(s, i + 1) else i
  }

  function SkipSpaces(s: string, i: nat): (r: nat)
    requires i <= |s|
    ensures i <= r <= |s| && forall k :: i <= k < r ==> s[k] in " \t"
    ensures r < |s| ==> s[r] !in " \t"
    decreases |s| - i
  {
    if i < |s| && s[i] in " \t" then SkipSpaces(s, i + 1) else i
  }

  /** Spaces and at most one end of line. */
  function SkipToNextLine(s: string, i: nat): (r: nat)
    requires i <= |s|
    ensures i <= r <= |s| && AllBlank(s, i, r)
  {
    var j := SkipSpaces(s, i);
    if j < |s| && s[j] == '\n' then j + 1
    else if j < |s| && s[j] == '\r' then if j + 1 < |s| && s[j + 1] == '\n' then j + 2 else j + 1
    else j
  }

  /**
   Where a text from `start` to `end` ends without the spaces of its last line: a last line that holds
   anything else is kept as it is.
   */
  function ClearedEnd(s: string, start: nat, i: nat, end: nat): (r: nat)
    requires start <= i <= end <= |s| && AllBlank(s, i, end)
    ensures start <= r <= end && AllBlank(s, r, end)
    decreases i
  {
    if i == start then start
    else if s[i - 1] in " \t" then ClearedEnd(s, start, i - 1, end)
    else if s[i - 1] in "\n\r" then i
    else end
  }

  // ---- Opening delimiters ----

  /** An opening delimiter stands here; that of a line statement counts at the start of a line only. */
  predicate Opens(cfg: Config, s: string, i: nat) {
    || StartsAt(s, i, cfg.expressionOpen) || StartsAt(s, i, cfg.statementOpen) || StartsAt(s, i, cfg.commentOpen)
    || (i < |s| && (i == 0 || s[i - 1] == '\n') && StartsAt(s, i, cfg.lineStatement))
  }

  function FirstOpen(cfg: Config, s: string, i: nat): (r: nat)
    requires i <= |s|
    ensures i <= r <= |s| && (r < |s| ==> Opens(cfg, s, r))
    ensures forall k :: i <= k < r ==> !Opens(cfg, s, k)
    decreases |s| - i
  {
    if i == |s| || Opens(cfg, s, i) then i else FirstOpen(cfg, s, i + 1)
  }

  /** The state that the delimiter at `i` leads to, and whether the text before it is stripped. */
  function OpenState(cfg: Config, s: string, i: nat): (r: (State, bool))
    requires Opens(cfg, s, i)
    ensures r.0.IsStart() && StartsAt(s, i, cfg.OpenString(r.0))
  {
    if StartsAt(s, i, cfg.expressionOpen) then
      if StartsAt(s, i, cfg.expressionOpenForceLstrip) then (ExpressionStartForceLstrip, true)
      else (ExpressionStart, false)
    else if StartsAt(s, i, cfg.statementOpen) then
      if StartsAt(s, i, cfg.statementOpenNoLstrip) then (StatementStartNoLstrip, false)
      else if StartsAt(s, i, cfg.statementOpenForceLstrip) then (StatementStartForceLstrip, true)
      else (StatementStart, cfg.lstripBlocks)
    else if StartsAt(s, i, cfg.commentOpen) then
      if StartsAt(s, i, cfg.commentOpenForceLstrip) then (CommentStartForceLstrip, true)
      else (CommentStart, cfg.lstripBlocks)
    else (LineStart, false)
  }

  // ---- The state machine ----

  datatype Lex = Lex(state: State, minus: MinusState, pos: nat)

  const START := Lex(TextState, Signed, 0)

  /** What holds between two scans. */
  predicate Reachable(cfg: Config, s: string, l: Lex) {
    && l.pos <= |s|
    && (l.state.IsStart() ==> StartsAt(s, l.pos, cfg.OpenString(l.state)))
    && (l.state.CommentBody? ==> 0 < l.pos)
  }

  function OpenKind(state: State): Kind
    requires state.IsStart()
  {
    match state
    case ExpressionStart | ExpressionStartForceLstrip => ExpressionOpen
    case LineStart => LineStatementOpen
    case StatementStart | StatementStartNoLstrip | StatementStartForceLstrip => StatementOpen
    case CommentStart | CommentStartForceLstrip => CommentOpen
  }

  function BodyAfter(state: State): State
    requires state.IsStart()
  {
    match state
    case ExpressionStart | ExpressionStartForceLstrip => ExpressionBody
    case LineStart => LineBody
    case StatementStart | StatementStartNoLstrip | StatementStartForceLstrip => StatementBody
    case CommentStart | CommentStartForceLstrip => CommentBody
  }

  /** The opening delimiter; its token starts at `start`, so that it covers a text that was stripped away. */
  function ScanOpen(cfg: Config, s: string, l: Lex, start: nat): (Lexeme, Lex)
    requires l.state.IsStart()
  {
    var end := l.pos + |cfg.OpenString(l.state)|;
    (Lexeme(OpenKind(l.state), start, end), Lex(BodyAfter(l.state), l.minus, end))
  }

  function ScanText(cfg: Config, s: string, l: Lex): (Lexeme, Lex)
    requires l.pos < |s|
  {
    var p := FirstOpen(cfg, s, l.pos);
    if p == |s| then (Lexeme(Text, l.pos, |s|), l.(pos := |s|))
    else
      var (state, strip) := OpenState(cfg, s, p);
      var end := if strip then ClearedEnd(s, l.pos, p, p) else p;
      if end == l.pos then ScanOpen(cfg, s, Lex(state, l.minus, p), l.pos)
      else (Lexeme(Text, l.pos, end), Lex(state, l.minus, p))
  }

  /** How a body ends. */
  datatype Closing = Closing(kind: Kind, close: string, closeTrim: string, trim: bool)

  function ClosingOf(cfg: Config, state: State): Closing
    requires state.IsBody() && !state.CommentBody?
  {
    match state
    case ExpressionBody => Closing(ExpressionClose, cfg.expressionClose, cfg.expressionCloseForceRstrip, false)
    case LineBody => Closing(LineStatementClose, "\n", "", false)
    case StatementBody => Closing(StatementClose, cfg.statementClose, cfg.statementCloseForceRstrip, cfg.trimBlocks)
  }

  /** The token that starts with the character at `i`: its kind, its end, and what a minus will be after it. */
  function Symbol(s: string, i: nat, minus: MinusState): (r: (Kind, nat, MinusState))
    requires i < |s|
    ensures i < r.1 <= |s|
  {
    var c := s[i];
    var j := i + 1;
    var eq := j < |s| && s[j] == '=';
    if IsAlpha(c) then (Id, IdEnd(s, j), Operator)
    else match c
      case '+' => (Plus, j, Signed)
      case '-' => if minus.Operator? then (Minus, j, Signed) else (Number, NumberEnd(s, j), Signed)
      case '*' => (Times, j, Signed)
      case '/' => (Slash, j, Signed)
      case '^' => (Power, j, Signed)
      case '%' => (Percent, j, Signed)
      case '.' => (Dot, j, Signed)
      case ',' => (Comma, j, Signed)
      case ':' => (Colon, j, Signed)
      case '|' => (Pipe, j, Signed)
      case '(' => (LeftParen, j, Signed)
      case ')' => (RightParen, j, Operator)
      case '[' => (LeftBracket, j, Signed)
      case ']' => (RightBracket, j, Operator)
      case '{' => (LeftBrace, j, Signed)
      case '}' => (RightBrace, j, Operator)
      case '>' => if eq then (GreaterEqual, j + 1, Signed) else (GreaterThan, j, Signed)
      case '<' => if eq then (LessEqual, j + 1, Signed) else (LessThan, j, Signed)
      case '=' => if eq then (Equal, j + 1, Signed) else (Unknown, j, Signed)
      case '!' => if eq then (NotEqual, j + 1, Signed) else (Unknown, j, Signed)
      case '"' => (String, StringEnd(s, j, '"', false), Signed)
      case '_' | '@' | '$' => (Id, IdEnd(s, j), Operator)
      case _ => if IsDigit(c) then (Number, NumberEnd(s, j), Operator) else (Unknown, j, Signed)
  }

  /** The next token of a body, looked for from `i`. */
  function ScanBody(c: Closing, s: string, l: Lex, i: nat): (Lexeme, Lex)
    requires i <= |s|
    decreases |s| - i
  {
    if i == |s| then (Lexeme(Eof, |s|, |s|), l)
    else if s[i] in " \t\r" then ScanBody(c, s, l, i + 1)
    else if c.closeTrim != "" && StartsAt(s, i, c.closeTrim) then
      var end := i + |c.closeTrim|;
      (Lexeme(c.kind, i, end), Lex(TextState, l.minus, SkipAllBlanks(s, end)))
    else if StartsAt(s, i, c.close) then
      var end := i + |c.close|;
      (Lexeme(c.kind, i, end), Lex(TextState, l.minus, if c.trim then SkipToNextLine(s, end) else end))
    else if s[i] == '\n' then ScanBody(c, s, l, i + 1)
    else
      var (kind, end, minus) := Symbol(s, i, l.minus);
      (Lexeme(kind, i, end), Lex(l.state, minus, end))
  }

  /** The first place from `i` on where `t` stands, or the end of the input. */
  function Find(s: string, i: nat, t: string): (r: nat)
    requires i <= |s|
    ensures i <= r <= |s| && (r < |s| ==> StartsAt(s, r, t))
    ensures forall k :: i <= k < r ==> !StartsAt(s, k, t)
    decreases |s| - i
  {
    if i == |s| || StartsAt(s, i, t) then i else Find(s, i + 1, t)
  }

  /** The closing token of a comment covers the whole comment; without one the rest is the end of the input. */
  function ScanComment(cfg: Config, s: string, l: Lex): (Lexeme, Lex)
    requires 0 < l.pos < |s|
  {
    var p := Find(s, l.pos, cfg.commentClose);
    if p == |s| then (Lexeme(Eof, l.pos, |s|), l.(pos := |s|))
    else
      var end := p + |cfg.commentClose|;
      var strip := StartsAt(s, p - 1, cfg.commentCloseForceRstrip) || cfg.trimBlocks;
      (Lexeme(CommentClose, l.pos, end), Lex(TextState, l.minus, if strip then SkipToNextLine(s, end) else end))
  }

  function Scan(cfg: Config, s: string, l: Lex): (Lexeme, Lex)
    requires Reachable(cfg, s, l)
  {
    if l.pos == |s| then (Lexeme(Eof, |s|, |s|), l)
    else if l.state.TextState? then ScanText(cfg, s, l)
    else if l.state.IsStart() then ScanOpen(cfg, s, l, l.pos)
    else if l.state.CommentBody? then ScanComment(cfg, s, l)
    else ScanBody(ClosingOf(cfg, l.state), s, l, l.pos)
  }
}
