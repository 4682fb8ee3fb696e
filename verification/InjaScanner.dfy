/** The Lexer of inja.hpp as it runs: an object whose scan moves along the input. */
module InjaScanner {
  import opened Sequences
  import opened InjaLexer

  /** UTF-8 text may start with a byte order mark, which is not part of the template. */
  const BYTE_ORDER_MARK: string := ['\U{EF}', '\U{BB}', '\U{BF}']

  function WithoutMark(s: string): string {
    if StartsAt(s, 0, BYTE_ORDER_MARK) then s[3..] else s
  }

  /** One mark in front of a text goes; a text without one stays as it is. */
  lemma MarkGoes(s: string)
    ensures WithoutMark(['\U{EF}', '\U{BB}', '\U{BF}'] + s) == s
    ensures |s| < 3 || s[0] != '\U{EF}' || s[1] != '\U{BB}' || s[2] != '\U{BF}' ==> WithoutMark(s) == s
  {
    var t := BYTE_ORDER_MARK + s;
    assert t[0..0 + 3] == BYTE_ORDER_MARK && t[3..] == s;
    if |s| >= 3 {
      assert s[0..0 + 3] == [s[0], s[1], s[2]];
    }
  }

  class Lexer {
    const config: Config
    var input: string
    var state: State
    var minusState: MinusState
    var tokStart: nat
    var pos: nat

    constructor (config: Config)
      ensures this.config == config && Current() == START && input == ""
    {
      this.config, input, state, minusState, tokStart, pos := config, "", TextState, Signed, 0, 0;
    }

    function Current(): Lex
      reads this
    {
      Lex(state, minusState, pos)
    }

    ghost predicate Ready()
      reads this
    {
      config.Valid() && Reachable(config, input, Current())
    }

    method Start(source: string)
      modifies this
      ensures Current() == START && input == WithoutMark(source)
      ensures config.Valid() ==> Ready()
    {
      input := source;
      tokStart, pos, state, minusState := 0, 0, TextState, Signed;
      if StartsAt(input, 0, BYTE_ORDER_MARK) {
        input := input[3..];
      }
    }

    // ---- Loops over characters ----

    method SkipWhitespacesAndNewlines()
      requires pos <= |input|
      modifies this`pos
      ensures pos == SkipAllBlanks(input, old(pos))
    {
      while pos < |input| && Blank(input[pos])
        invariant pos <= |input| && SkipAllBlanks(input, pos) == SkipAllBlanks(input, old(pos))
      {
        pos := pos + 1;
      }
    }

    method SkipWhitespacesAndFirstNewline()
      requires pos <= |input|
      modifies this`pos
      ensures pos == SkipToNextLine(input, old(pos))
    {
      while pos < |input| && input[pos] in " \t"
        invariant pos <= |input| && SkipSpaces(input, pos) == SkipSpaces(input, old(pos))
      {
        pos := pos + 1;
      }
      if pos < |input| {
        var ch := input[pos];
        if ch == '\n' {
          pos := pos + 1;
        } else if ch == '\r' {
          pos := pos + 1;
          if pos < |input| && input[pos] == '\n' {
            pos := pos + 1;
          }
        }
      }
    }

    method ScanId()
      requires pos <= |input|
      modifies this`pos
      ensures pos == IdEnd(input, old(pos))
    {
      while pos < |input| && IdChar(input[pos])
        invariant pos <= |input| && IdEnd(input, pos) == IdEnd(input, old(pos))
      {
        pos := pos + 1;
      }
    }

    method ScanNumber()
      requires 0 < pos <= |input|
      modifies this`pos
      ensures pos == NumberEnd(input, old(pos))
    {
      while pos < |input| && NumberChar(input[pos - 1], input[pos])
        invariant 0 < pos <= |input| && NumberEnd(input, pos) == NumberEnd(input, old(pos))
      {
        pos := pos + 1;
      }
    }

    method ScanString()
      requires tokStart < |input| && pos <= |input|
      modifies this`pos
      ensures pos == StringEnd(input, old(pos), input[tokStart], false)
    {
      var escape, closed := false, false;
      while pos < |input| && !closed
        invariant pos <= |input|
        invariant StringEnd(input, old(pos), input[tokStart], false)
          == if closed then pos else StringEnd(input, pos, input[tokStart], escape)
        decreases |input| - pos
      {
        var ch := input[pos];
        pos := pos + 1;
        if ch == '\\' {
          escape := !escape;
        } else if !escape && ch == input[tokStart] {
          closed := true;
        } else {
          escape := false;
        }
      }
    }

    /** The end of the text between two positions without the blanks of its last line. */
    method ClearFinalLine(start: nat, end: nat) returns (r: nat)
      requires start <= end <= |input|
      ensures r == ClearedEnd(input, start, end, end)
    {
      r := end;
      while r > start
        invariant start <= r <= end && AllBlank(input, r, end)
        invariant ClearedEnd(input, start, r, end) == ClearedEnd(input, start, end, end)
      {
        var ch := input[r - 1];
        if ch in " \t" {
          r := r - 1;
        } else if ch in "\n\r" {
          return r;
        } else {
          return end;
        }
      }
    }

    /** find_first_of: the next character that can start an opening delimiter. */
    method FindOpenChar() returns (r: nat)
      requires config.Valid() && pos <= |input|
      ensures pos <= r <= |input| && (r < |input| ==> input[r] in config.OpenChars())
      ensures forall k :: pos <= k < r ==> input[k] !in config.OpenChars()
    {
      r := pos;
      while r < |input| && input[r] !in config.OpenChars()
        invariant pos <= r <= |input| && forall k :: pos <= k < r ==> input[k] !in config.OpenChars()
      {
        r := r + 1;
      }
    }

    method FindClose(close: string) returns (r: nat)
      requires pos <= |input|
      ensures r == Find(input, pos, close)
    {
      r := pos;
      while r < |input| && !StartsAt(input, r, close)
        invariant pos <= r <= |input| && Find(input, r, close) == Find(input, pos, close)
      {
        r := r + 1;
      }
    }

    // ---- Tokens ----

    /** The fast scan to the next opening delimiter misses none and stops at none that is not one. */
    method FindOpen()
      requires config.Valid() && pos <= |input|
      modifies this`pos
      ensures pos == FirstOpen(config, input, old(pos))
    {
      while true
        invariant old(pos) <= pos <= |input|
        invariant FirstOpen(config, input, pos) == FirstOpen(config, input, old(pos))
        decreases |input| - pos
      {
        var q := FindOpenChar();
        SkipsNoOpen(config, input, pos, q);
        pos := q;
        if pos == |input| || Opens(config, input, pos) {
          return;
        }
        pos := pos + 1;
      }
    }

    method ScanTextToken() returns (t: Lexeme)
      requires Ready() && pos < |input| && state.TextState? && tokStart == pos
      modifies this`pos, this`state
      ensures (t, Current()) == ScanText(config, input, old(Current()))
    {
      FindOpen();
      if pos == |input| {
        return Lexeme(Text, tokStart, pos);
      }
      var (next, mustStrip) := OpenState(config, input, pos);
      state := next;
      var end := pos;
      if mustStrip {
        end := ClearFinalLine(tokStart, pos);
      }
      if end == tokStart {
        t := ScanOpenToken();
      } else {
        t := Lexeme(Text, tokStart, end);
      }
    }

    method ScanOpenToken() returns (t: Lexeme)
      requires state.IsStart()
      modifies this`pos, this`state
      ensures (t, Current()) == ScanOpen(config, input, old(Current()), tokStart)
    {
      pos := pos + |config.OpenString(state)|;
      t := Lexeme(OpenKind(state), tokStart, pos);
      state := BodyAfter(state);
    }

    method ScanCommentToken() returns (t: Lexeme)
      requires Ready() && 0 < pos < |input| && tokStart == pos
      modifies this`pos, this`state
      ensures (t, Current()) == ScanComment(config, input, old(Current()))
    {
      var end := FindClose(config.commentClose);
      if end == |input| {
        pos := |input|;
        return Lexeme(Eof, tokStart, pos);
      }
      var mustStrip := StartsAt(input, end - 1, config.commentCloseForceRstrip);
      state := TextState;
      pos := end + |config.commentClose|;
      t := Lexeme(CommentClose, tokStart, pos);
      if mustStrip || config.trimBlocks {
        SkipWhitespacesAndFirstNewline();
      }
    }

    /** The token that starts at `tokStart`. */
    method ScanSymbol() returns (kind: Kind)
      requires tokStart < |input|
      modifies this`pos, this`minusState
      ensures (kind, pos, minusState) == Symbol(input, tokStart, old(minusState))
    {
      hide IdEnd, NumberEnd, StringEnd;
      var ch := input[tokStart];
      pos := tokStart + 1;
      if IsAlpha(ch) {
        minusState := Operator;
        ScanId();
        return Id;
      }
      var currentMinusState := minusState;
      minusState := Signed;
      if ch == '-' {
        if currentMinusState == Operator {
          return Minus;
        }
        ScanNumber();
        return Number;
      }
      kind := ScanUnsigned(ch, currentMinusState);
    }

    /** All symbols that start neither with a letter nor with a minus sign. */
    method ScanUnsigned(ch: char, ghost minus: MinusState) returns (kind: Kind)
      requires tokStart + 1 == pos <= |input| && ch == input[tokStart] && !IsAlpha(ch) && ch != '-'
      requires minusState == Signed
      modifies this`pos, this`minusState
      ensures (kind, pos, minusState) == Symbol(input, tokStart, minus)
    {
      hide IdEnd, NumberEnd, StringEnd;
      if ch == '"' {
        ScanString();
        return String;
      }
      if ch in "_@$" {
        minusState := Operator;
        ScanId();
        return Id;
      }
      if IsDigit(ch) {
        minusState := Operator;
        ScanNumber();
        return Number;
      }
      if ch in "<>=!" {
        var next := pos < |input| && input[pos] == '=';
        if next {
          pos := pos + 1;
        }
        return Comparison(ch, next);
      }
      if ch in ")]}" {
        minusState := Operator;
      }
      return SingleChar(ch);
    }

    /** A body is left through its closing delimiter, and the blanks after it may be skipped. */
    method CloseBody(kind: Kind, length: nat, all: bool, line: bool) returns (t: Lexeme)
      requires tokStart + length <= |input|
      modifies this`pos, this`state
      ensures t == Lexeme(kind, tokStart, tokStart + length) && state == TextState
      ensures pos == if all then SkipAllBlanks(input, tokStart + length)
        else if line then SkipToNextLine(input, tokStart + length) else tokStart + length
    {
      hide SkipAllBlanks, SkipToNextLine;
      state := TextState;
      pos := tokStart + length;
      t := Lexeme(kind, tokStart, pos);
      if all {
        SkipWhitespacesAndNewlines();
      } else if line {
        SkipWhitespacesAndFirstNewline();
      }
    }

    method ScanBodyToken(c: Closing) returns (t: Lexeme)
      requires tokStart == pos <= |input|
      modifies this`pos, this`state, this`minusState, this`tokStart
      ensures (t, Current()) == ScanBody(c, input, old(Current()), old(pos))
    {
      hide SkipAllBlanks, SkipToNextLine, Symbol;
      while tokStart < |input|
        invariant Current() == old(Current()) && tokStart <= |input|
        invariant ScanBody(c, input, old(Current()), tokStart) == ScanBody(c, input, old(Current()), old(pos))
        decreases |input| - tokStart
      {
        if input[tokStart] in " \t\r" {
          tokStart := tokStart + 1;
        } else if c.closeTrim != "" && StartsAt(input, tokStart, c.closeTrim) {
          t := CloseBody(c.kind, |c.closeTrim|, true, false);
          return;
        } else if StartsAt(input, tokStart, c.close) {
          t := CloseBody(c.kind, |c.close|, false, c.trim);
          return;
        } else if input[tokStart] == '\n' {
          tokStart := tokStart + 1;
        } else {
          var kind := ScanSymbol();
          return Lexeme(kind, tokStart, pos);
        }
      }
      return Lexeme(Eof, |input|, |input|);
    }

    /** One scan does what the state machine says. */
    method ScanToken() returns (t: Lexeme)
      requires Ready()
      modifies this
      ensures input == old(input) && (t, Current()) == Scan(config, input, old(Current()))
    {
      hide ScanText, ScanBody, ScanComment;
      tokStart := pos;
      if tokStart == |input| {
        return Lexeme(Eof, |input|, |input|);
      }
      if state.TextState? {
        t := ScanTextToken();
      } else if state.IsStart() {
        t := ScanOpenToken();
      } else if state.CommentBody? {
        t := ScanCommentToken();
      } else {
        t := ScanBodyToken(ClosingOf(config, state));
      }
    }
  }

  function Comparison(ch: char, eq: bool): Kind {
    match ch
    case '>' => if eq then GreaterEqual else GreaterThan
    case '<' => if eq then LessEqual else LessThan
    case '=' => if eq then Equal else Unknown
    case _ => if eq then NotEqual else Unknown
  }

  function SingleChar(ch: char): Kind {
    match ch
    case '+' => Plus
    case '*' => Times
    case '/' => Slash
    case '^' => Power
    case '%' => Percent
    case '.' => Dot
    case ',' => Comma
    case ':' => Colon
    case '|' => Pipe
    case '(' => LeftParen
    case '[' => LeftBracket
    case '{' => LeftBrace
    case ')' => RightParen
    case ']' => RightBracket
    case '}' => RightBrace
    case _ => Unknown
  }

  /** No delimiter stands where none of the first characters does. */
  lemma SkipsNoOpen(cfg: Config, s: string, i: nat, j: nat)
    requires cfg.Valid() && i <= j <= |s|
    requires forall k :: i <= k < j ==> s[k] !in cfg.OpenChars()
    ensures FirstOpen(cfg, s, i) == FirstOpen(cfg, s, j)
    decreases j - i
  {
    if i < j {
      if Opens(cfg, s, i) {
        OpensWithOpenChar(cfg, s, i);
      }
      SkipsNoOpen(cfg, s, i + 1, j);
    }
  }

  lemma OpensWithOpenChar(cfg: Config, s: string, i: nat)
    requires cfg.Valid() && i < |s| && Opens(cfg, s, i)
    ensures s[i] in cfg.OpenChars()
  {
  }
}
