/**
 Which accepted templates leave a tree in the memory of the parser: of the nested ones exactly those in which every
 expression is there and no else-if comes after an else under which something stands.
 */
module InjaNestedTree {
  import opened Sequences
  import opened InjaSyntax
  import opened InjaExpression
  import opened InjaStatements
  import opened InjaTemplateProof
  import opened InjaTemplateMemory
  import N = InjaNesting

  // ---- What an item does ----

  datatype Change =
    | Adds(node: Node)
    | OpensIf(condition: Option<Expr>)
    | TakesElse
    | TakesElseIf(condition: Option<Expr>)
    | ClosesIf
    | OpensFor(key: Option<string>, value: string, condition: Option<Expr>)
    | ClosesFor
    | Nothing

  function TagOf(ch: Change): N.Tag {
    match ch
    case OpensIf(_) => N.IfTag
    case TakesElse => N.ElseTag
    case TakesElseIf(_) => N.ElseIfTag
    case ClosesIf => N.EndIfTag
    case OpensFor(_, _, _) => N.ForTag
    case ClosesFor => N.EndForTag
    case _ => N.OtherTag
  }

  predicate Applies(m: Memory, ch: Change) {
    && (ch.TakesElse? || ch.TakesElseIf? || ch.ClosesIf? ==> m.ifStack != [])
    && (ch.ClosesFor? ==> m.forStack != [])
  }

  function Changed(m: Memory, ch: Change): Memory
    requires m.Valid() && Applies(m, ch)
  {
    match ch
    case Adds(n) => m.Add(n)
    case OpensIf(c) => m.OpenIf(c, false)
    case TakesElse => m.TakeElse()
    case TakesElseIf(c) => m.TakeElse().OpenIf(c, true)
    case ClosesIf => m.CloseIf()
    case OpensFor(key, value, c) => m.OpenFor(key, value, c)
    case ClosesFor => m.CloseFor()
    case Nothing => m
  }

  /** The expression from a token on; none if there is none or an error. */
  function ExprAt(known: Functions, toks: seq<Token>, i: nat): Option<Expr> {
    if i > |toks| || ParseExpression(known, toks, i).Throw? then None else ParseExpression(known, toks, i).value.0
  }

  function NameAt(toks: seq<Token>, i: nat): string {
    if TokenAt(toks, i).Id? then TokenAt(toks, i).name else ""
  }

  function ForChange(known: Functions, toks: seq<Token>, i: nat): Change {
    if TokenAt(toks, i + 1) == Comma then
      OpensFor(Some(NameAt(toks, i)), NameAt(toks, i + 2), ExprAt(known, toks, i + 4))
    else OpensFor(None, NameAt(toks, i), ExprAt(known, toks, i + 2))
  }

  function StatementChange(known: Functions, toks: seq<Token>, i: nat): Change {
    var name := NameAt(toks, i);
    if name == "if" then OpensIf(ExprAt(known, toks, i + 1))
    else if name == "else" then
      if Word(toks, i + 1, "if") then TakesElseIf(ExprAt(known, toks, i + 2)) else TakesElse
    else if name == "endif" then ClosesIf
    else if name == "for" then ForChange(known, toks, i + 1)
    else if name == "endfor" then ClosesFor
    else if name == "set" then Adds(SetNode(NameAt(toks, i + 1), ExprAt(known, toks, i + 3)))
    else Nothing
  }

  function ChangeAt(known: Functions, toks: seq<Token>, i: nat): Change {
    match TokenAt(toks, i)
    case Text(text) => Adds(TextNode(text))
    case ExpressionOpen => Adds(OutputNode(ExprAt(known, toks, i + 1)))
    case StatementOpen | LineStatementOpen => StatementChange(known, toks, i + 1)
    case _ => Nothing
  }

  lemma ConditionAt(known: Functions, toks: seq<Token>, i: nat, closing: Token)
    requires i <= |toks| && Condition(known, toks, i, closing).Done?
    ensures Condition(known, toks, i, closing).value.0 == ExprAt(known, toks, i)
  {
    hide ParseExpression;
  }

  lemma IfChanges(known: Functions, toks: seq<Token>, i: nat, m: Memory, closing: Token, nested: bool)
    requires i <= |toks| && m.Valid() && (nested ==> m.ifStack != [])
    requires ParseIf(known, toks, i, m, closing, nested).Done?
    ensures ParseIf(known, toks, i, m, closing, nested).value.0 == m.OpenIf(ExprAt(known, toks, i), nested)
  {
    ConditionAt(known, toks, i, closing);
    hide Condition, ExprAt, Memory.OpenIf, Memory.Valid;
  }

  lemma ElseChanges(known: Functions, toks: seq<Token>, i: nat, m: Memory, closing: Token)
    requires i <= |toks| && m.Valid() && ParseElse(known, toks, i, m, closing).Done?
    ensures m.ifStack != []
    ensures ParseElse(known, toks, i, m, closing).value.0
      == if Word(toks, i, "if") then m.TakeElse().OpenIf(ExprAt(known, toks, i + 1), true) else m.TakeElse()
  {
    if Word(toks, i, "if") {
      TakeElseFacts(m);
      IfChanges(known, toks, i + 1, m.TakeElse(), closing, true);
    }
    hide ParseIf, ExprAt, Memory.OpenIf, Memory.TakeElse, Memory.Valid, Grows;
  }

  lemma ForInChanges(known: Functions, toks: seq<Token>, i: nat, m: Memory, closing: Token,
                     key: Option<string>, value: string)
    requires i <= |toks| && m.Valid() && ParseForIn(known, toks, i, m, closing, key, value).Done?
    ensures ParseForIn(known, toks, i, m, closing, key, value).value.0
      == m.OpenFor(key, value, ExprAt(known, toks, i + 1))
  {
    ConditionAt(known, toks, i + 1, closing);
    hide Condition, ExprAt, Memory.OpenFor, Memory.Valid;
  }

  lemma ForChanges(known: Functions, toks: seq<Token>, i: nat, m: Memory, closing: Token)
    requires i <= |toks| && m.Valid() && ParseFor(known, toks, i, m, closing).Done?
    ensures ParseFor(known, toks, i, m, closing).value.0 == Changed(m, ForChange(known, toks, i))
  {
    if TokenAt(toks, i + 1) == Comma {
      ForInChanges(known, toks, i + 3, m, closing, Some(NameAt(toks, i)), NameAt(toks, i + 2));
    } else {
      ForInChanges(known, toks, i + 1, m, closing, None, NameAt(toks, i));
    }
    hide ParseForIn, ExprAt, Memory.OpenFor, Memory.Valid;
  }

  lemma SetChanges(known: Functions, toks: seq<Token>, i: nat, m: Memory, closing: Token)
    requires i <= |toks| && m.Valid() && ParseSet(known, toks, i, m, closing).Done?
    ensures ParseSet(known, toks, i, m, closing).value.0 == m.Add(SetNode(NameAt(toks, i), ExprAt(known, toks, i + 2)))
  {
    if i + 2 <= |toks| && Condition(known, toks, i + 2, closing).Done? {
      ConditionAt(known, toks, i + 2, closing);
    }
    hide Condition, ExprAt, Memory.Add, Memory.Valid;
  }

  lemma StatementChanges(known: Functions, toks: seq<Token>, i: nat, m: Memory, closing: Token)
    requires i <= |toks| && m.Valid() && ParseStatement(known, toks, i, m, closing).Done?
    ensures var ch := StatementChange(known, toks, i);
      Applies(m, ch) && ParseStatement(known, toks, i, m, closing).value.0 == Changed(m, ch)
  {
    hide ParseIf, ParseElse, ParseFor, ParseSet, Memory.CloseIf, Memory.CloseFor, Memory.Valid, ForChange, ExprAt,
      Memory.Add, Memory.TakeElse, Memory.OpenIf, Memory.OpenFor, Word;
    var name := TokenAt(toks, i).name;
    if name == "if" {
      IfChanges(known, toks, i + 1, m, closing, false);
    } else if name == "else" {
      ElseChanges(known, toks, i + 1, m, closing);
    } else if name == "for" {
      ForChanges(known, toks, i + 1, m, closing);
      ForOnly(known, toks, i + 1, m);
    } else if name == "set" {
      SetChanges(known, toks, i + 1, m, closing);
    }
  }

  lemma ForOnly(known: Functions, toks: seq<Token>, i: nat, m: Memory)
    ensures Applies(m, ForChange(known, toks, i))
  {
  }

  /** Every item that is accepted changes the memory as its tokens say. */
  lemma ItemChanges(known: Functions, toks: seq<Token>, i: nat, m: Memory)
    requires i <= |toks| && m.Valid() && ParseItem(known, toks, i, m).Done?
    ensures var ch := ChangeAt(known, toks, i);
      Applies(m, ch) && ParseItem(known, toks, i, m).value.0 == Changed(m, ch)
  {
    hide ParseStatement, ParseExpression, StatementChange, Memory.Valid, Changed, Memory.Add, ExprAt;
    OutputChanges(known, toks, i, m);
    var t := TokenAt(toks, i);
    if t == StatementOpen {
      StatementChanges(known, toks, i + 1, m, StatementClose);
    } else if t == LineStatementOpen {
      StatementChanges(known, toks, i + 1, m, LineStatementClose);
    }
  }

  lemma OutputChanges(known: Functions, toks: seq<Token>, i: nat, m: Memory)
    requires m.Valid()
    ensures forall n :: Applies(m, Adds(n)) && Changed(m, Adds(n)) == m.Add(n)
    ensures Applies(m, Nothing) && Changed(m, Nothing) == m
    ensures i < |toks| && ParseExpression(known, toks, i + 1).Done? ==>
      ExprAt(known, toks, i + 1) == ParseExpression(known, toks, i + 1).value.0
  {
    hide ParseExpression, Memory.Add;
  }

  lemma TagOfChange(known: Functions, toks: seq<Token>, i: nat)
    ensures TagOf(ChangeAt(known, toks, i)) == N.TagAt(toks, i)
  {
    hide ExprAt;
  }

  // ---- Clean templates ----

  predicate CleanNode(n: Node) {
    (n.OutputNode? || n.SetNode?) ==> n.expr.Some?
  }

  /** Expressions are there, and where an else-if continues an if nothing stands under an else of it. */
  predicate CleanChange(m: Memory, ch: Change) {
    match ch
    case Adds(n) => CleanNode(n)
    case OpensIf(c) => c.Some?
    case TakesElseIf(c) => c.Some? && (m.ifStack != [] ==> m.Block(FalseOf(N.Last(m.ifStack))) == [])
    case OpensFor(_, _, c) => c.Some?
    case _ => true
  }

  /** All items from a position on, as far as they are accepted, are clean. */
  predicate Clean(known: Functions, toks: seq<Token>, i: nat, m: Memory)
    requires i <= |toks| && m.Valid()
    decreases |toks| - i
  {
    if TokenAt(toks, i) == Eof then true
    else
      var r := ParseItem(known, toks, i, m);
      r.Throw? || (CleanChange(m, ChangeAt(known, toks, i)) && Clean(known, toks, r.value.1, r.value.0))
  }

  // ---- Reading ----

  function Open(m: Memory): seq<N.Opened>
    requires m.Valid()
  {
    N.Combined(m, m.ifStack, m.forStack)
  }

  /** The parser stands at `i` with memory `m`, and what follows is accepted, nested and clean. */
  ghost predicate Going(known: Functions, toks: seq<Token>, i: nat, m: Memory) {
    && i <= |toks| && N.WellOrdered(m) && N.OnTrack(m) && Tidy(m)
    && ParseInto(known, toks, i, m).Done? && Clean(known, toks, i, m)
    && N.NestedFrom(Open(m), N.Tags(N.Turns(known, toks, i, m)))
  }

  lemma ParentsKnown(m: Memory, k: nat)
    requires N.WellOrdered(m) && k < |m.statements|
    ensures Known(m, m.statements[k].parent)
  {
  }

  /** Changes keep blocks tidy. */
  lemma ChangeTidy(m: Memory, ch: Change)
    requires N.WellOrdered(m) && Tidy(m) && Applies(m, ch)
    ensures Tidy(Changed(m, ch))
  {
    hide Memory.Block, Memory.Add, Memory.OpenIf, Memory.OpenFor, N.Increasing, N.ElseIfsContinue;
    match ch
    case Adds(n) => AddExtends(m, n);
    case OpensIf(c) => OpenIfExtends(m, c, false);
    case TakesElse => ElseTidy(m);
    case TakesElseIf(c) =>
      ElseTidy(m);
      OpenIfExtends(m.TakeElse(), c, true);
    case ClosesIf => CloseIfTidy(m);
    case OpensFor(key, value, c) => OpenForExtends(m, key, value, c);
    case ClosesFor => ParentsKnown(m, N.Last(m.forStack));
      MoveTidy(m, m.CloseFor());
    case Nothing =>
  }

  /** Only the cursor, the stacks and flags change. */
  lemma MoveTidy(m: Memory, r: Memory)
    requires Tidy(m) && r.blocks == m.blocks && |r.statements| == |m.statements| && Known(m, r.current)
    ensures Tidy(r)
  {
    assert forall ref :: r.Block(ref) == m.Block(ref) && Known(r, ref) == Known(m, ref);
    hide Memory.Block;
  }

  lemma ElseTidy(m: Memory)
    requires m.Valid() && Tidy(m) && m.ifStack != []
    ensures Tidy(m.TakeElse())
  {
    assert m.ifStack[|m.ifStack| - 1] < |m.statements|;
    MoveTidy(m, m.TakeElse());
    hide Tidy, Memory.Valid;
  }

  lemma CloseIfTidy(m: Memory)
    requires N.WellOrdered(m) && Tidy(m) && m.ifStack != []
    ensures Tidy(m.CloseIf())
  {
    N.CloseIfWellOrdered(m);
    var stack := m.PopNested(m.ifStack);
    assert stack[|stack| - 1] == m.ifStack[|stack| - 1] < |m.statements|;
    ParentsKnown(m, stack[|stack| - 1]);
    MoveTidy(m, m.CloseIf());
    hide Tidy, N.Increasing, N.ElseIfsContinue, Memory.PopNested;
  }

  lemma FirstTag(known: Functions, toks: seq<Token>, i: nat, m: Memory)
    requires i <= |toks| && m.Valid() && TokenAt(toks, i) != Eof && ParseItem(known, toks, i, m).Done?
    ensures var (r, j) := ParseItem(known, toks, i, m).value;
      N.Tags(N.Turns(known, toks, i, m)) == [N.TagAt(toks, i)] + N.Tags(N.Turns(known, toks, j, r))
  {
    hide ParseItem, Memory.Valid;
    var (r, j) := ParseItem(known, toks, i, m).value;
    var rest := N.Turns(known, toks, j, r);
    assert ([N.Turn(N.TagAt(toks, i), r)] + rest)[1..] == rest;
  }

  /** One turn of the parser. */
  lemma GoesOn(known: Functions, toks: seq<Token>, i: nat, m: Memory)
    requires Going(known, toks, i, m) && TokenAt(toks, i) != Eof
    ensures ParseItem(known, toks, i, m).Done?
    ensures var (r, j) := ParseItem(known, toks, i, m).value; var ch := ChangeAt(known, toks, i);
      && i < j && Going(known, toks, j, r) && ParseInto(known, toks, i, m) == ParseInto(known, toks, j, r)
      && Applies(m, ch) && r == Changed(m, ch) && CleanChange(m, ch) && TagOf(ch) == N.TagAt(toks, i)
      && N.StackAfter(Open(m), TagOf(ch)) == Some(Open(r))
  {
    var (r, j) := ParseItem(known, toks, i, m).value;
    ItemChanges(known, toks, i, m);
    TagOfChange(known, toks, i);
    N.ItemEffect(known, toks, i, m);
    FirstTag(known, toks, i, m);
    ChangeTidy(m, ChangeAt(known, toks, i));
    hide ParseItem, Changed, ChangeAt, N.Effect, N.WellOrdered, N.OnTrack, Tidy, N.Turns, N.Tags, CleanChange,
      N.Combined, N.StackAfter, N.NestedFrom, Applies, N.TagAt, TagOf;
    N.EffectStep(m, N.TagAt(toks, i), r);
    N.NestedCons(Open(m), N.TagAt(toks, i), N.Tags(N.Turns(known, toks, j, r)));
  }

  /** At the end no statement is open. */
  lemma EndsClosed(known: Functions, toks: seq<Token>, i: nat, m: Memory)
    requires Going(known, toks, i, m) && TokenAt(toks, i) == Eof
    ensures Open(m) == [] && ParseInto(known, toks, i, m) == Done(m)
  {
    hide Tidy, N.OnTrack, N.NestedFrom;
  }

  predicate Closes(tag: N.Tag) {
    tag == N.ElseTag || tag == N.ElseIfTag || tag == N.EndIfTag || tag == N.EndForTag
  }

  /** What the parser makes of `m` at `i` is what it makes of `r` at `j`. */
  ghost predicate Leads(known: Functions, toks: seq<Token>, i: nat, m: Memory, j: nat, r: Memory) {
    && i <= |toks| && j <= |toks| && m.Valid() && r.Valid()
    && ParseInto(known, toks, i, m) == ParseInto(known, toks, j, r)
  }

  /** Reading has come from `i` and `m` to `j` and `r`, and the same statements are open. */
  ghost predicate Came(known: Functions, toks: seq<Token>, i: nat, m: Memory, j: nat, r: Memory) {
    Going(known, toks, j, r) && i <= j && Leads(known, toks, i, m, j, r) && Open(r) == Open(m)
  }

  lemma GoingValid(known: Functions, toks: seq<Token>, i: nat, m: Memory)
    requires Going(known, toks, i, m)
    ensures m.Valid() && i <= |toks|
  {
  }

  lemma CameHere(known: Functions, toks: seq<Token>, i: nat, m: Memory)
    requires Going(known, toks, i, m)
    ensures Came(known, toks, i, m, i, m)
  {
    GoingValid(known, toks, i, m);
    hide Going, ParseInto, N.Combined, Memory.Valid;
  }

  lemma CameOn(known: Functions, toks: seq<Token>, i: nat, m: Memory, j: nat, r: Memory, k: nat, q: Memory)
    requires Came(known, toks, i, m, j, r) && Came(known, toks, j, r, k, q)
    ensures Came(known, toks, i, m, k, q)
  {
    hide Going, N.Combined, ParseInto, Memory.Valid;
  }

  /** A statement from its start to its end. */
  lemma WholeCame(known: Functions, toks: seq<Token>, i: nat, m: Memory, k: nat, o: Memory, e: nat, r: Memory,
                  j: nat, q: Memory)
    requires i < k && Leads(known, toks, i, m, k, o) && Came(known, toks, k, o, e, r)
    requires e < j && Going(known, toks, j, q) && Leads(known, toks, e, r, j, q) && Open(q) == Open(m)
    ensures i < j && Came(known, toks, i, m, j, q)
  {
    hide Going, ParseInto, N.Combined, Memory.Valid;
  }

  // ---- Building ----

  lemma BuildCons(m: Memory, s: Stmt, b: seq<Stmt>)
    requires m.Valid()
    ensures Build(m, s).Valid() && BuildBlock(m, [s] + b) == BuildBlock(Build(m, s), b)
  {
    hide Build;
    assert ([s] + b)[1..] == b;
  }

  lemma BuildNone(m: Memory)
    requires m.Valid()
    ensures BuildBlock(m, []) == m
  {
  }

  lemma {:induction false} BuildAppend(m: Memory, a: seq<Stmt>, b: seq<Stmt>)
    requires m.Valid()
    ensures BuildBlock(m, a).Valid() && BuildBlock(m, a + b) == BuildBlock(BuildBlock(m, a), b)
    decreases a
  {
    hide Build, Memory.Valid;
    if a == [] {
      assert a + b == b;
    } else {
      BuildAppend(Build(m, a[0]), a[1..], b);
      assert (a + b)[1..] == a[1..] + b;
    }
  }

  function NodeStmt(n: Node): Stmt
    requires CleanNode(n) && !n.StatementNode?
  {
    match n
    case TextNode(text) => Plain(text)
    case OutputNode(e) => Output(e.value)
    case SetNode(key, e) => SetStmt(key, e.value)
  }

  lemma NodeBuilds(m: Memory, n: Node)
    requires m.Valid() && CleanNode(n) && !n.StatementNode?
    ensures Build(m, NodeStmt(n)) == m.Add(n)
  {
    hide Memory.Add, Memory.Valid;
  }

  lemma NoStatementNode(known: Functions, toks: seq<Token>, i: nat)
    ensures ChangeAt(known, toks, i).Adds? ==> !ChangeAt(known, toks, i).node.StatementNode?
  {
    hide ExprAt;
  }

  lemma BuildForIs(m: Memory, key: Option<string>, value: string, c: Expr, b: seq<Stmt>)
    requires m.Valid()
    ensures var o := m.OpenFor(key, value, Some(c));
      o.Valid() && BuildBlock(o, b).Valid() && BuildBlock(o, b).forStack != []
      && Build(m, ForStmt(key, value, c, b)) == BuildBlock(o, b).CloseFor()
  {
    hide BuildBlock, Memory.OpenFor, Memory.CloseFor, Memory.Valid;
    OpenForFacts(m, key, value, Some(c));
    CloseForBalances(m, key, value, Some(c), BuildBlock(m.OpenFor(key, value, Some(c)), b));
  }

  lemma BuildIfIs(m: Memory, c: Expr, t: seq<Stmt>, e: Else)
    requires m.Valid()
    ensures var o := m.OpenIf(Some(c), false);
      && o.Valid() && BuildBlock(o, t).Valid() && BuildBlock(o, t).ifStack != []
      && BuildElse(BuildBlock(o, t), e).Valid() && BuildElse(BuildBlock(o, t), e).ifStack != []
      && Build(m, IfStmt(c, t, e)) == BuildElse(BuildBlock(o, t), e).CloseIf()
  {
    hide BuildBlock, BuildElse, Memory.OpenIf, Memory.CloseIf, Memory.Valid;
    OpenIfFacts(m, Some(c), false);
    var k := BuildBlock(m.OpenIf(Some(c), false), t);
    ChainedAfter(m.OpenIf(Some(c), false), k, BuildElse(k, e));
    CloseIfBalances(m, Some(c), BuildElse(k, e));
  }

  lemma BuildElseIfIs(m: Memory, c: Expr, t: seq<Stmt>, f: Else)
    requires m.Valid() && m.ifStack != [] && m.TakeElse().Valid()
    ensures var o := m.TakeElse().OpenIf(Some(c), true);
      && o.Valid() && BuildBlock(o, t).Valid() && BuildBlock(o, t).ifStack != []
      && BuildElse(m, ElseIf(c, t, f)) == BuildElse(BuildBlock(o, t), f)
  {
    hide Memory.OpenIf, Memory.TakeElse, Memory.Valid;
    TakeElseFacts(m);
    OpenIfFacts(m.TakeElse(), Some(c), true);
  }

  // ---- Reading ----

  /** What one stack says if its top is an if or a for. */
  lemma TopSays(stack: seq<N.Opened>, o: N.Opened, tag: N.Tag)
    requires Closes(tag) && N.StackAfter(stack + [o], tag).Some?
    ensures o == N.AFor <==> tag == N.EndForTag
    ensures N.StackAfter(stack + [o], tag).value
      == if tag == N.EndIfTag || tag == N.EndForTag then stack else stack + [o]
  {
    assert (stack + [o])[..|stack|] == stack;
  }

  /** Reading has come to the end of the innermost statement, which is `o` on top of `stack`, or to an else of it. */
  ghost predicate AtEnd(known: Functions, toks: seq<Token>, j: nat, r: Memory, stack: seq<N.Opened>, o: N.Opened) {
    && Going(known, toks, j, r) && r.Valid() && Open(r) == stack + [o]
    && (TokenAt(toks, j) == Eof || Closes(N.TagAt(toks, j)))
  }

  lemma BlockAtEnd(known: Functions, toks: seq<Token>, i: nat, m: Memory, j: nat, r: Memory,
                   stack: seq<N.Opened>, o: N.Opened)
    requires Came(known, toks, i, m, j, r) && Open(m) == stack + [o]
    requires TokenAt(toks, j) == Eof || Closes(N.TagAt(toks, j))
    ensures AtEnd(known, toks, j, r, stack, o)
  {
    GoingValid(known, toks, j, r);
    hide Going, ParseInto, N.Combined, Memory.Valid;
  }

  /** One turn, from `j` and `r` to `k` and `q`, by the change `ch`. */
  ghost predicate Turned(known: Functions, toks: seq<Token>, j: nat, r: Memory, ch: Change, k: nat, q: Memory) {
    && j < k && Going(known, toks, k, q) && Leads(known, toks, j, r, k, q)
    && ch == ChangeAt(known, toks, j) && Applies(r, ch) && q == Changed(r, ch) && CleanChange(r, ch)
    && TagOf(ch) == N.TagAt(toks, j) && N.StackAfter(Open(r), TagOf(ch)) == Some(Open(q))
  }

  lemma Turn(known: Functions, toks: seq<Token>, i: nat, m: Memory)
    returns (ch: Change, k: nat, q: Memory)
    requires Going(known, toks, i, m) && TokenAt(toks, i) != Eof
    ensures Turned(known, toks, i, m, ch, k, q)
  {
    GoingValid(known, toks, i, m);
    GoesOn(known, toks, i, m);
    ch, q, k := ChangeAt(known, toks, i), ParseItem(known, toks, i, m).value.0, ParseItem(known, toks, i, m).value.1;
    GoingValid(known, toks, k, q);
    hide Going, ParseItem, ChangeAt, N.TagAt, N.Combined, Memory.Valid, ParseInto, CleanChange, N.StackAfter, Changed,
      Applies, TagOf;
  }

  /** The turn at the end of a statement. */
  lemma EndTurn(known: Functions, toks: seq<Token>, j: nat, r: Memory, stack: seq<N.Opened>, o: N.Opened)
    returns (ch: Change, k: nat, q: Memory)
    requires AtEnd(known, toks, j, r, stack, o)
    ensures Turned(known, toks, j, r, ch, k, q)
    ensures if o == N.AFor then ch == ClosesFor else ch.TakesElse? || ch.TakesElseIf? || ch.ClosesIf?
    ensures Open(q) == if ch == ClosesIf || ch == ClosesFor then stack else stack + [o]
  {
    hide Going, ChangeAt, N.TagAt, N.Combined, Memory.Valid, ParseInto, CleanChange, N.StackAfter, Changed, Applies;
    if TokenAt(toks, j) == Eof {
      EndsClosed(known, toks, j, r);
      ch, k, q := Nothing, j, r;
    } else {
      ch, k, q := Turn(known, toks, j, r);
      TopSays(stack, o, N.TagAt(toks, j));
    }
  }

  lemma PushedTop(stack: seq<N.Opened>)
    ensures N.StackAfter(stack, N.IfTag) == Some(stack + [N.AnIf])
    ensures N.StackAfter(stack, N.ForTag) == Some(stack + [N.AFor])
    ensures N.StackAfter(stack, N.OtherTag) == Some(stack)
  {
  }

  lemma TurnedIs(known: Functions, toks: seq<Token>, i: nat, m: Memory, ch: Change, k: nat, q: Memory)
    requires Turned(known, toks, i, m, ch, k, q)
    ensures m.Valid() && q.Valid() && Applies(m, ch) && q == Changed(m, ch) && CleanChange(m, ch) && i < k
    ensures Leads(known, toks, i, m, k, q) && Going(known, toks, k, q) && TagOf(ch) == N.TagAt(toks, i)
    ensures N.StackAfter(Open(m), TagOf(ch)) == Some(Open(q)) && ch == ChangeAt(known, toks, i)
  {
    hide Going, ChangeAt, N.TagAt, N.Combined, Memory.Valid, ParseInto, CleanChange, N.StackAfter, Changed, Applies;
  }

  lemma {:induction false} ReadFor(known: Functions, toks: seq<Token>, i: nat, m: Memory, ch: Change, k: nat, o: Memory)
    returns (s: Stmt, j: nat)
    requires Turned(known, toks, i, m, ch, k, o) && ch.OpensFor? && k <= |toks|
    ensures m.Valid() && i < j && Came(known, toks, i, m, j, Build(m, s))
    decreases |toks| - k, 2
  {
    TurnedIs(known, toks, i, m, ch, k, o);
    PushedTop(Open(m));
    ForOpened(m, ch, o);
    hide *;
    var b, e := ReadBlock(known, toks, k, o);
    var r := BuildBlock(o, b);
    BlockAtEnd(known, toks, k, o, e, r, Open(m), N.AFor);
    BuildForIs(m, ch.key, ch.value, ch.condition.value, b);
    var end, q;
    end, j, q := EndTurn(known, toks, e, r, Open(m), N.AFor);
    TurnedIs(known, toks, e, r, end, j, q);
    ForClosed(r, end, q);
    s := ForStmt(ch.key, ch.value, ch.condition.value, b);
    WholeCame(known, toks, i, m, k, o, e, r, j, q);
  }

  lemma ForOpened(m: Memory, ch: Change, o: Memory)
    requires m.Valid() && ch.OpensFor? && Applies(m, ch) && o == Changed(m, ch) && CleanChange(m, ch)
    ensures ch.condition.Some? && o == m.OpenFor(ch.key, ch.value, Some(ch.condition.value)) && TagOf(ch) == N.ForTag
  {
    hide Memory.OpenFor, Memory.Valid;
  }

  lemma ForClosed(r: Memory, ch: Change, q: Memory)
    requires r.Valid() && ch == ClosesFor && Applies(r, ch) && q == Changed(r, ch)
    ensures r.forStack != [] && q == r.CloseFor()
  {
    hide Memory.CloseFor, Memory.Valid;
  }

  lemma IfOpened(m: Memory, ch: Change, o: Memory)
    requires m.Valid() && ch.OpensIf? && Applies(m, ch) && o == Changed(m, ch) && CleanChange(m, ch)
    ensures ch.condition.Some? && o == m.OpenIf(Some(ch.condition.value), false) && TagOf(ch) == N.IfTag
  {
    hide Memory.OpenIf, Memory.Valid;
  }

  lemma IfChanged(r: Memory, ch: Change, q: Memory)
    requires r.Valid() && Applies(r, ch) && q == Changed(r, ch) && CleanChange(r, ch)
    requires ch.TakesElse? || ch.TakesElseIf? || ch.ClosesIf?
    ensures r.ifStack != [] && r.TakeElse().Valid()
    ensures ch.ClosesIf? ==> q == r.CloseIf()
    ensures ch.TakesElse? ==> q == r.TakeElse()
    ensures ch.TakesElseIf? ==> ch.condition.Some? && q == r.TakeElse().OpenIf(Some(ch.condition.value), true)
    ensures ch.TakesElseIf? ==> r.Block(FalseOf(N.Last(r.ifStack))) == []
  {
    TakeElseFacts(r);
    hide Memory.TakeElse, Memory.OpenIf, Memory.CloseIf, Memory.Valid, Memory.Block, Grows;
  }

  lemma {:induction false} ReadIf(known: Functions, toks: seq<Token>, i: nat, m: Memory, ch: Change, k: nat, o: Memory)
    returns (s: Stmt, j: nat)
    requires Turned(known, toks, i, m, ch, k, o) && ch.OpensIf? && k <= |toks|
    ensures m.Valid() && i < j && Came(known, toks, i, m, j, Build(m, s))
    decreases |toks| - k, 3
  {
    TurnedIs(known, toks, i, m, ch, k, o);
    PushedTop(Open(m));
    IfOpened(m, ch, o);
    hide *;
    var c := ch.condition.value;
    var t, e := ReadBlock(known, toks, k, o);
    var r := BuildBlock(o, t);
    BlockAtEnd(known, toks, k, o, e, r, Open(m), N.AnIf);
    BuildIfIs(m, c, t, NoElse);
    CameFurther(known, toks, k, o, e, r);
    var f, g := ReadElse(known, toks, e, r, Open(m));
    ElseReadIs(known, toks, e, r, Open(m), f, g);
    CameOn(known, toks, k, o, e, r, g, BuildElse(r, f));
    BuildIfIs(m, c, t, f);
    j := FinishIf(known, toks, i, m, k, o, g, BuildElse(r, f));
    s := IfStmt(c, t, f);
  }

  /** The turn that closes an if. */
  lemma FinishIf(known: Functions, toks: seq<Token>, i: nat, m: Memory, k: nat, o: Memory, g: nat, w: Memory)
    returns (j: nat)
    requires m.Valid() && i < k && Leads(known, toks, i, m, k, o) && Came(known, toks, k, o, g, w)
    requires AtEnd(known, toks, g, w, Open(m), N.AnIf) && N.TagAt(toks, g) == N.EndIfTag
    ensures i < j && w.Valid() && w.ifStack != [] && Came(known, toks, i, m, j, w.CloseIf())
  {
    hide *;
    var end, q;
    end, j, q := EndTurn(known, toks, g, w, Open(m), N.AnIf);
    TurnedIs(known, toks, g, w, end, j, q);
    EndIfTurn(end);
    IfChanged(w, end, q);
    WholeCame(known, toks, i, m, k, o, g, w, j, q);
  }

  lemma CameFurther(known: Functions, toks: seq<Token>, i: nat, m: Memory, j: nat, r: Memory)
    requires Came(known, toks, i, m, j, r)
    ensures i <= j <= |toks| && m.Valid() && r.Valid() && Leads(known, toks, i, m, j, r) && Going(known, toks, j, r)
    ensures Open(r) == Open(m)
  {
    hide Going, ParseInto, N.Combined, Memory.Valid;
  }

  lemma EndIfTurn(ch: Change)
    requires TagOf(ch) == N.EndIfTag
    ensures ch == ClosesIf
  {
  }

  /** The else part `e` of the innermost if has been read, up to its end. */
  ghost predicate ElseRead(known: Functions, toks: seq<Token>, i: nat, k: Memory, stack: seq<N.Opened>,
                           e: Else, j: nat)
  {
    && i <= j && k.Valid() && k.ifStack != [] && Leads(known, toks, i, k, j, BuildElse(k, e))
    && AtEnd(known, toks, j, BuildElse(k, e), stack, N.AnIf) && N.TagAt(toks, j) == N.EndIfTag
  }

  lemma ElseReadIs(known: Functions, toks: seq<Token>, i: nat, k: Memory, stack: seq<N.Opened>, e: Else, j: nat)
    requires ElseRead(known, toks, i, k, stack, e, j) && Open(k) == stack + [N.AnIf]
    ensures AtEnd(known, toks, j, BuildElse(k, e), stack, N.AnIf) && N.TagAt(toks, j) == N.EndIfTag
    ensures Came(known, toks, i, k, j, BuildElse(k, e))
  {
    hide Going, ParseInto, N.Combined, Memory.Valid, BuildElse, N.TagAt;
  }

  lemma {:induction false} ReadElse(known: Functions, toks: seq<Token>, i: nat, k: Memory, stack: seq<N.Opened>)
    returns (e: Else, j: nat)
    requires AtEnd(known, toks, i, k, stack, N.AnIf) && i <= |toks|
    ensures ElseRead(known, toks, i, k, stack, e, j)
    decreases |toks| - i, 2
  {
    AtEndIs(known, toks, i, k, stack);
    hide *;
    var ch, g, q := EndTurn(known, toks, i, k, stack, N.AnIf);
    TurnedIs(known, toks, i, k, ch, g, q);
    IfChanged(k, ch, q);
    GoingValid(known, toks, g, q);
    match ch {
      case ClosesIf =>
        e, j := NoElse, i;
        NoElseRead(known, toks, i, k, stack);
      case TakesElseIf(c) =>
        e, j := ReadElseIf(known, toks, i, k, stack, c.value, g, q);
      case TakesElse =>
        var b, h := ReadBlock(known, toks, g, q);
        BlockAtEnd(known, toks, g, q, h, BuildBlock(q, b), stack, N.AnIf);
        CameFurther(known, toks, g, q, h, BuildBlock(q, b));
        LeadsOn(known, toks, i, k, g, q, h, BuildBlock(q, b));
        e, j := ReadMore(known, toks, i, k, stack, b, h);
    }
  }

  lemma AtEndIs(known: Functions, toks: seq<Token>, i: nat, k: Memory, stack: seq<N.Opened>)
    requires AtEnd(known, toks, i, k, stack, N.AnIf)
    ensures k.Valid() && Going(known, toks, i, k) && Tidy(k) && Open(k) == stack + [N.AnIf]
  {
    hide N.WellOrdered, N.OnTrack, N.NestedFrom, Clean, ParseInto, Memory.Valid, N.Combined, N.TagAt;
  }

  lemma NoElseRead(known: Functions, toks: seq<Token>, i: nat, k: Memory, stack: seq<N.Opened>)
    requires AtEnd(known, toks, i, k, stack, N.AnIf) && N.TagAt(toks, i) == N.EndIfTag && k.Valid() && k.ifStack != []
    ensures ElseRead(known, toks, i, k, stack, NoElse, i)
  {
    GoingValid(known, toks, i, k);
    hide Going, ParseInto, N.Combined, Memory.Valid, N.TagAt;
  }

  lemma LeadsOn(known: Functions, toks: seq<Token>, i: nat, m: Memory, j: nat, r: Memory, k: nat, q: Memory)
    requires Leads(known, toks, i, m, j, r) && Leads(known, toks, j, r, k, q)
    ensures Leads(known, toks, i, m, k, q)
  {
    hide ParseInto, Memory.Valid;
  }

  /** From an else-if on. */
  lemma {:induction false} ReadElseIf(known: Functions, toks: seq<Token>, i: nat, k: Memory, stack: seq<N.Opened>,
                                      c: Expr, g: nat, o: Memory)
    returns (e: Else, j: nat)
    requires i < g <= |toks| && k.Valid() && k.ifStack != [] && k.TakeElse().Valid()
    requires o == k.TakeElse().OpenIf(Some(c), true) && Leads(known, toks, i, k, g, o)
    requires Going(known, toks, g, o) && o.Valid() && Open(o) == stack + [N.AnIf]
    ensures ElseRead(known, toks, i, k, stack, e, j)
    decreases |toks| - g, 3
  {
    hide *;
    var t, h := ReadBlock(known, toks, g, o);
    var r := BuildBlock(o, t);
    BlockAtEnd(known, toks, g, o, h, r, stack, N.AnIf);
    CameFurther(known, toks, g, o, h, r);
    LeadsOn(known, toks, i, k, g, o, h, r);
    var f;
    f, j := ReadElse(known, toks, h, r, stack);
    e := ElseIf(c, t, f);
    BuildElseIfIs(k, c, t, f);
    ChainRead(known, toks, i, k, stack, e, h, r, f, j);
  }

  lemma ChainRead(known: Functions, toks: seq<Token>, i: nat, k: Memory, stack: seq<N.Opened>, e: Else,
                  h: nat, r: Memory, f: Else, j: nat)
    requires i < h && k.Valid() && k.ifStack != [] && r.Valid() && r.ifStack != []
    requires Leads(known, toks, i, k, h, r) && ElseRead(known, toks, h, r, stack, f, j)
    requires BuildElse(k, e) == BuildElse(r, f)
    ensures ElseRead(known, toks, i, k, stack, e, j)
  {
    hide AtEnd, ParseInto, Memory.Valid, BuildElse, N.TagAt;
  }

  /** A second else changes nothing, and while nothing stands under the first one, neither has it. */
  lemma ElseAgain(k: Memory, b: seq<Stmt>)
    requires k.Valid() && Tidy(k) && k.ifStack != []
    ensures var u := k.TakeElse();
      && u.Valid() && BuildBlock(u, b).Valid() && BuildBlock(u, b).ifStack == k.ifStack
      && BuildBlock(u, b).TakeElse() == BuildBlock(u, b)
      && (BuildBlock(u, b).Block(FalseOf(N.Last(k.ifStack))) == [] ==> b == [])
  {
    TakeElseFacts(k);
    ElseTidy(k);
    var u, id := k.TakeElse(), N.Last(k.ifStack);
    var w := BuildBlock(u, b);
    BlockBuilt(u, b);
    assert u.statements[id].If? && u.statements[id].hasFalse && u.current == FalseOf(id);
    hide BuildBlock, HoldsStmt, Grows, Tidy, Memory.Block, Memory.Ifs, Memory.Fors;
    BuiltParts(u, w, b);
    assert w.statements[id] == u.statements[id];
    assert w.TakeElse().statements == w.statements;
    if b != [] {
      assert Added(w, w, FalseOf(id)) == [];
      assert Added(u, w, FalseOf(id)) != [];
    }
  }

  lemma BranchRead(known: Functions, toks: seq<Token>, i: nat, k: Memory, stack: seq<N.Opened>, b: seq<Stmt>, h: nat)
    requires i < h && k.Valid() && k.ifStack != [] && k.TakeElse().Valid()
    requires Leads(known, toks, i, k, h, BuildBlock(k.TakeElse(), b))
    requires AtEnd(known, toks, h, BuildBlock(k.TakeElse(), b), stack, N.AnIf) && N.TagAt(toks, h) == N.EndIfTag
    ensures ElseRead(known, toks, i, k, stack, ElseBranch(b), h)
  {
    hide AtEnd, ParseInto, Memory.Valid, BuildBlock, N.TagAt, Memory.TakeElse;
  }

  /** After an else and some statements under it. */
  lemma {:induction false} ReadMore(known: Functions, toks: seq<Token>, i: nat, k: Memory, stack: seq<N.Opened>,
                                    b: seq<Stmt>, h: nat)
    returns (e: Else, j: nat)
    requires i < h <= |toks| && k.Valid() && k.ifStack != [] && Tidy(k) && k.TakeElse().Valid()
    requires Leads(known, toks, i, k, h, BuildBlock(k.TakeElse(), b))
    requires AtEnd(known, toks, h, BuildBlock(k.TakeElse(), b), stack, N.AnIf)
    ensures ElseRead(known, toks, i, k, stack, e, j)
    decreases |toks| - h, 3
  {
    hide *;
    ElseAgain(k, b);
    var u := k.TakeElse();
    var w := BuildBlock(u, b);
    var ch, g, q := EndTurn(known, toks, h, w, stack, N.AnIf);
    TurnedIs(known, toks, h, w, ch, g, q);
    IfChanged(w, ch, q);
    GoingValid(known, toks, g, q);
    LeadsOn(known, toks, i, k, h, w, g, q);
    match ch {
      case ClosesIf =>
        e, j := ElseBranch(b), h;
        EndIfTag(ch);
        BranchRead(known, toks, i, k, stack, b, h);
      case TakesElseIf(c) =>
        BuildNone(u);
        e, j := ReadElseIf(known, toks, i, k, stack, c.value, g, q);
      case TakesElse =>
        var d, f := ReadBlock(known, toks, g, w);
        BuildAppend(u, b, d);
        BlockAtEnd(known, toks, g, w, f, BuildBlock(w, d), stack, N.AnIf);
        CameFurther(known, toks, g, w, f, BuildBlock(w, d));
        LeadsOn(known, toks, i, k, g, q, f, BuildBlock(w, d));
        e, j := ReadMore(known, toks, i, k, stack, b + d, f);
    }
  }

  lemma EndIfTag(ch: Change)
    requires ch == ClosesIf
    ensures TagOf(ch) == N.EndIfTag
  {
  }

  // ---- Blocks ----

  /** A whole statement, or an item that leaves nothing. */
  lemma {:induction false} ReadItem(known: Functions, toks: seq<Token>, i: nat, m: Memory)
    returns (b: seq<Stmt>, j: nat)
    requires Going(known, toks, i, m) && TokenAt(toks, i) != Eof && !Closes(N.TagAt(toks, i)) && i <= |toks|
    ensures m.Valid() && i < j && Came(known, toks, i, m, j, BuildBlock(m, b))
    decreases |toks| - i, 0
  {
    hide *;
    var ch, k, q := Turn(known, toks, i, m);
    TurnedIs(known, toks, i, m, ch, k, q);
    GoingValid(known, toks, k, q);
    NotClosing(ch, N.TagAt(toks, i));
    match ch {
      case Adds(n) =>
        NoStatementNode(known, toks, i);
        AddedIs(m, n, q);
        NodeBuilds(m, n);
        b, j := [NodeStmt(n)], k;
        OneBuilds(m, NodeStmt(n));
        OneTurn(known, toks, i, m, ch, k, q);
      case Nothing =>
        b, j := [], k;
        BuildNone(m);
        NothingIs(m, q);
        OneTurn(known, toks, i, m, ch, k, q);
      case OpensIf(_) =>
        var s;
        s, j := ReadIf(known, toks, i, m, ch, k, q);
        b := [s];
        OneBuilds(m, s);
      case OpensFor(_, _, _) =>
        var s;
        s, j := ReadFor(known, toks, i, m, ch, k, q);
        b := [s];
        OneBuilds(m, s);
    }
  }

  lemma NotClosing(ch: Change, tag: N.Tag)
    requires !Closes(tag) && TagOf(ch) == tag
    ensures ch.Adds? || ch.Nothing? || ch.OpensIf? || ch.OpensFor?
    ensures ch.Adds? || ch.Nothing? ==> tag == N.OtherTag
  {
  }

  lemma AddedIs(m: Memory, n: Node, q: Memory)
    requires m.Valid() && Applies(m, Adds(n)) && q == Changed(m, Adds(n)) && CleanChange(m, Adds(n))
    ensures q == m.Add(n) && CleanNode(n)
  {
    hide Memory.Add, Memory.Valid;
  }

  lemma NothingIs(m: Memory, q: Memory)
    requires m.Valid() && Applies(m, Nothing) && q == Changed(m, Nothing)
    ensures q == m
  {
  }

  lemma OneBuilds(m: Memory, s: Stmt)
    requires m.Valid()
    ensures BuildBlock(m, [s]) == Build(m, s)
  {
    BuildCons(m, s, []);
    BuildNone(Build(m, s));
    hide Build, BuildBlock, Memory.Valid;
    assert [s] + [] == [s];
  }

  /** One turn that opens and closes nothing. */
  lemma OneTurn(known: Functions, toks: seq<Token>, i: nat, m: Memory, ch: Change, k: nat, q: Memory)
    requires Turned(known, toks, i, m, ch, k, q) && TagOf(ch) == N.OtherTag
    ensures m.Valid() && Came(known, toks, i, m, k, q)
  {
    TurnedIs(known, toks, i, m, ch, k, q);
    PushedTop(Open(m));
    hide Going, ChangeAt, N.TagAt, N.Combined, Memory.Valid, ParseInto, CleanChange, N.StackAfter, Changed, Applies,
      TagOf;
  }

  /** A block of whole statements, up to the end or to what closes or continues the statement around it. */
  lemma {:induction false} ReadBlock(known: Functions, toks: seq<Token>, i: nat, m: Memory)
    returns (b: seq<Stmt>, j: nat)
    requires Going(known, toks, i, m) && i <= |toks|
    ensures m.Valid() && Came(known, toks, i, m, j, BuildBlock(m, b))
    ensures TokenAt(toks, j) == Eof || Closes(N.TagAt(toks, j))
    decreases |toks| - i, 1
  {
    hide *;
    GoingValid(known, toks, i, m);
    if TokenAt(toks, i) == Eof || Closes(N.TagAt(toks, i)) {
      b, j := [], i;
      BuildNone(m);
      CameHere(known, toks, i, m);
    } else {
      var a, k := ReadItem(known, toks, i, m);
      var r := BuildBlock(m, a);
      CameFurther(known, toks, i, m, k, r);
      var rest;
      rest, j := ReadBlock(known, toks, k, r);
      b := a + rest;
      BuildAppend(m, a, rest);
      CameOn(known, toks, i, m, k, r, j, BuildBlock(r, rest));
    }
  }

  // ---- Clean templates are trees ----

  lemma StartsGoing(known: Functions, toks: seq<Token>)
    requires ParseInto(known, toks, 0, EMPTY_MEMORY).Done? && Clean(known, toks, 0, EMPTY_MEMORY)
    requires N.Nested(N.TagsRead(known, toks))
    ensures Going(known, toks, 0, EMPTY_MEMORY) && Open(EMPTY_MEMORY) == []
  {
    N.EmptyOnTrack();
    EmptyIsValid();
    hide N.WellOrdered, N.OnTrack, Tidy, ParseInto, Clean, N.NestedFrom, N.Tags, N.Turns, N.Combined;
  }

  lemma NothingCloses(tag: N.Tag)
    requires Closes(tag)
    ensures N.StackAfter([], tag).None?
  {
  }

  lemma CleanHoldsTree(known: Functions, toks: seq<Token>) returns (b: seq<Stmt>)
    requires ParseInto(known, toks, 0, EMPTY_MEMORY).Done? && Clean(known, toks, 0, EMPTY_MEMORY)
    requires N.Nested(N.TagsRead(known, toks))
    ensures Represents(ParseInto(known, toks, 0, EMPTY_MEMORY).value, b)
  {
    StartsGoing(known, toks);
    hide *;
    var j;
    b, j := ReadBlock(known, toks, 0, EMPTY_MEMORY);
    var r := BuildBlock(EMPTY_MEMORY, b);
    CameFurther(known, toks, 0, EMPTY_MEMORY, j, r);
    EmptyBuilt(b);
    if TokenAt(toks, j) != Eof {
      var ch, k, q := Turn(known, toks, j, r);
      TurnedIs(known, toks, j, r, ch, k, q);
      NothingCloses(N.TagAt(toks, j));
    } else {
      EndsClosed(known, toks, j, r);
      SameValue(known, toks, 0, EMPTY_MEMORY, j, r);
    }
  }

  lemma SameValue(known: Functions, toks: seq<Token>, i: nat, m: Memory, j: nat, r: Memory)
    requires Leads(known, toks, i, m, j, r) && ParseInto(known, toks, j, r) == Done(r)
    ensures ParseInto(known, toks, i, m) == Done(r)
  {
    hide ParseInto, Memory.Valid;
  }

  // ---- What every run keeps ----

  /** A block of the template or of an older statement. */
  predicate Proper(m: Memory, ref: BlockRef, n: nat)
    requires n <= |m.statements|
  {
    ref.Top? || (ref.id < n && (ref.BodyOf? <==> m.statements[ref.id].For?))
  }

  /** The statement at `id` has its node in the block that it stands in. */
  ghost predicate NodeStands(m: Memory, id: nat)
    requires id < |m.statements|
  {
    exists x :: 0 <= x < |m.Block(m.statements[id].parent)| && m.Block(m.statements[id].parent)[x] == StatementNode(id)
  }

  ghost predicate StatementLinked(m: Memory, id: nat)
    requires id < |m.statements|
  {
    var s := m.statements[id];
    Proper(m, s.parent, id) && (s.If? && s.nested ==> s.parent.FalseOf?) && NodeStands(m, id)
  }

  /** Every statement hangs on the template. */
  ghost predicate Linked(m: Memory) {
    && m.Valid() && Proper(m, m.current, |m.statements|)
    && forall id :: 0 <= id < |m.statements| ==> StatementLinked(m, id)
  }

  /** Nothing is taken away. */
  ghost predicate Monotone(m: Memory, r: Memory) {
    && Grows(m, r) && forall ref :: m.Block(ref) <= r.Block(ref)
  }

  lemma MonotoneTransitive(a: Memory, b: Memory, c: Memory)
    requires Monotone(a, b) && Monotone(b, c)
    ensures Monotone(a, c)
  {
    GrowsTransitive(a, b, c);
    hide Grows, Memory.Block;
  }

  lemma AddMonotone(m: Memory, n: Node)
    ensures Monotone(m, m.Add(n)) && m.Add(n).Block(m.current) == m.Block(m.current) + [n]
  {
    AddBlocks(m, n);
    hide Memory.Block;
  }

  /** A statement is added whose node stands in the block that was current. */
  predicate Pushed(m: Memory, r: Memory, s: Statement) {
    r.statements == m.statements + [s] && s.parent == m.current
    && r.blocks == m.Add(StatementNode(|m.statements|)).blocks
  }

  lemma PushedMonotone(m: Memory, r: Memory, s: Statement)
    requires Pushed(m, r, s)
    ensures Monotone(m, r) && r.Block(m.current) == m.Block(m.current) + [StatementNode(|m.statements|)]
  {
    AddMonotone(m, StatementNode(|m.statements|));
    assert forall ref :: r.Block(ref) == m.Add(StatementNode(|m.statements|)).Block(ref);
    hide Memory.Block, Memory.Add;
  }

  lemma ChangeMonotone(m: Memory, ch: Change)
    requires m.Valid() && Applies(m, ch)
    ensures Monotone(m, Changed(m, ch))
  {
    match ch
    case Adds(n) => AddMonotone(m, n);
    case OpensIf(c) => IfPushed(m, c, false);
      PushedMonotone(m, m.OpenIf(c, false), If(c, m.current, false, false));
    case TakesElse => ElseMonotone(m);
    case TakesElseIf(c) =>
      ElseMonotone(m);
      IfPushed(m.TakeElse(), c, true);
      PushedMonotone(m.TakeElse(), m.TakeElse().OpenIf(c, true), If(c, m.TakeElse().current, true, false));
      MonotoneTransitive(m, m.TakeElse(), m.TakeElse().OpenIf(c, true));
    case ClosesIf => MoveMonotone(m, m.CloseIf());
    case OpensFor(key, value, c) => ForPushed(m, key, value, c);
      PushedMonotone(m, m.OpenFor(key, value, c), For(key, value, c, m.current));
    case ClosesFor => MoveMonotone(m, m.CloseFor());
    case Nothing => MoveMonotone(m, m);
    hide Monotone, Memory.Valid, Memory.Add, Memory.OpenIf, Memory.OpenFor, Memory.TakeElse;
  }

  lemma IfPushed(m: Memory, c: Option<Expr>, nested: bool)
    ensures Pushed(m, m.OpenIf(c, nested), If(c, m.current, nested, false))
  {
    hide Memory.Block;
  }

  lemma ForPushed(m: Memory, key: Option<string>, value: string, c: Option<Expr>)
    ensures Pushed(m, m.OpenFor(key, value, c), For(key, value, c, m.current))
  {
    hide Memory.Block;
  }

  lemma MoveMonotone(m: Memory, r: Memory)
    requires r.blocks == m.blocks && r.statements == m.statements
    ensures Monotone(m, r)
  {
    assert forall ref :: r.Block(ref) == m.Block(ref);
    hide Memory.Block;
  }

  lemma ElseMonotone(m: Memory)
    requires m.Valid() && m.ifStack != []
    ensures Monotone(m, m.TakeElse()) && m.TakeElse().Valid()
  {
    TakeElseFacts(m);
    assert forall ref :: m.TakeElse().Block(ref) == m.Block(ref);
    hide Memory.Block, Memory.Valid, Grows;
  }

  /** A statement that hangs on the template goes on doing so. */
  lemma StaysLinked(m: Memory, r: Memory, id: nat)
    requires Monotone(m, r) && id < |m.statements| && StatementLinked(m, id)
    ensures StatementLinked(r, id)
  {
    var s := m.statements[id];
    assert SameShape(s, r.statements[id]);
    StaysProper(m, r, s.parent, id);
    var x :| 0 <= x < |m.Block(s.parent)| && m.Block(s.parent)[x] == StatementNode(id);
    assert r.Block(s.parent)[x] == m.Block(s.parent)[x];
    hide Memory.Block, Proper;
  }

  lemma StaysProper(m: Memory, r: Memory, ref: BlockRef, n: nat)
    requires Grows(m, r) && n <= |m.statements| && Proper(m, ref, n)
    ensures Proper(r, ref, n) && Proper(r, ref, |r.statements|)
  {
    if !ref.Top? {
      assert SameShape(m.statements[ref.id], r.statements[ref.id]);
    }
  }

  lemma PushedLinked(m: Memory, r: Memory, s: Statement)
    requires Linked(m) && Pushed(m, r, s) && r.Valid()
    requires r.current == if s.If? then TrueOf(|m.statements|) else BodyOf(|m.statements|)
    requires s.If? && s.nested ==> m.current.FalseOf?
    ensures Linked(r)
  {
    PushedMonotone(m, r, s);
    var n := |m.statements|;
    StaysProper(m, r, m.current, n);
    assert r.Block(m.current)[|m.Block(m.current)|] == StatementNode(n);
    hide Memory.Block, Memory.Add, Memory.Valid, StatementLinked, Monotone;
    assert StatementLinked(r, n) by { hide *; NewLinked(r, n, |m.Block(m.current)|); }
    forall id | 0 <= id < |r.statements|
      ensures StatementLinked(r, id)
    {
      if id < n {
        StaysLinked(m, r, id);
      }
    }
  }

  lemma NewLinked(r: Memory, n: nat, x: nat)
    requires n < |r.statements| && Proper(r, r.statements[n].parent, n)
    requires r.statements[n].If? && r.statements[n].nested ==> r.statements[n].parent.FalseOf?
    requires x < |r.Block(r.statements[n].parent)| && r.Block(r.statements[n].parent)[x] == StatementNode(n)
    ensures StatementLinked(r, n)
  {
    hide Memory.Block, Proper;
  }

  /** Changes of blocks, flags, stacks and the cursor only. */
  lemma MovedLinked(m: Memory, r: Memory)
    requires Linked(m) && Monotone(m, r) && r.Valid() && |r.statements| == |m.statements|
    requires Proper(m, r.current, |m.statements|)
    ensures Linked(r)
  {
    StaysProper(m, r, r.current, |m.statements|);
    hide Memory.Valid, StatementLinked, Monotone, Proper;
    forall id | 0 <= id < |r.statements|
      ensures StatementLinked(r, id)
    {
      StaysLinked(m, r, id);
    }
  }

  lemma ParentProper(m: Memory, id: nat)
    requires Linked(m) && id < |m.statements|
    ensures Proper(m, m.statements[id].parent, |m.statements|)
  {
    assert StatementLinked(m, id);
    hide Memory.Valid, NodeStands;
  }

  lemma TopOfIfs(m: Memory)
    requires m.Valid() && m.ifStack != []
    ensures N.Last(m.ifStack) < |m.statements| && m.statements[N.Last(m.ifStack)].If?
    ensures m.TakeElse().current == FalseOf(N.Last(m.ifStack)) && |m.TakeElse().statements| == |m.statements|
  {
  }

  lemma ElseLinked(m: Memory)
    requires Linked(m) && m.ifStack != []
    ensures Linked(m.TakeElse()) && m.TakeElse().Valid() && m.TakeElse().current == FalseOf(N.Last(m.ifStack))
  {
    ElseMonotone(m);
    TopOfIfs(m);
    MovedLinked(m, m.TakeElse());
    hide Linked, Monotone, Memory.TakeElse, Memory.Valid;
  }

  lemma EndIfParent(m: Memory)
    requires m.Valid() && m.ifStack != []
    ensures exists id :: 0 <= id < |m.statements| && m.CloseIf().current == m.statements[id].parent
    ensures m.CloseIf().statements == m.statements && m.CloseIf().blocks == m.blocks && m.CloseIf().Valid()
  {
    m.PopNestedKeepsBottom(m.ifStack);
    var stack := m.PopNested(m.ifStack);
    assert stack[|stack| - 1] == m.ifStack[|stack| - 1] < |m.statements|;
    hide Memory.PopNested;
  }

  lemma ChangeLinked(m: Memory, ch: Change)
    requires Linked(m) && Applies(m, ch) && Changed(m, ch).Valid()
    ensures Linked(Changed(m, ch))
  {
    var r := Changed(m, ch);
    ChangeMonotone(m, ch);
    hide Monotone, Memory.Valid, Memory.Add, Memory.OpenIf, Memory.OpenFor, Memory.TakeElse, Memory.CloseIf,
      StatementLinked, Pushed;
    match ch
    case Adds(n) => AddCurrent(m, n);
      MovedLinked(m, r);
    case OpensIf(c) =>
      IfPushed(m, c, false);
      IfCurrent(m, c, false);
      PushedLinked(m, r, If(c, m.current, false, false));
    case TakesElse => ElseLinked(m);
    case TakesElseIf(c) =>
      ElseLinked(m);
      IfPushed(m.TakeElse(), c, true);
      IfCurrent(m.TakeElse(), c, true);
      PushedLinked(m.TakeElse(), r, If(c, m.TakeElse().current, true, false));
    case ClosesIf =>
      EndIfParent(m);
      var id :| 0 <= id < |m.statements| && r.current == m.statements[id].parent;
      ParentProper(m, id);
      MovedLinked(m, r);
    case OpensFor(key, value, c) =>
      ForPushed(m, key, value, c);
      ForCurrent(m, key, value, c);
      PushedLinked(m, r, For(key, value, c, m.current));
    case ClosesFor =>
      EndForParent(m);
      ParentProper(m, N.Last(m.forStack));
      MovedLinked(m, r);
    case Nothing =>
  }

  lemma AddCurrent(m: Memory, n: Node)
    ensures m.Add(n).current == m.current && m.Add(n).statements == m.statements
  {
  }

  lemma IfCurrent(m: Memory, c: Option<Expr>, nested: bool)
    ensures m.OpenIf(c, nested).current == TrueOf(|m.statements|)
  {
  }

  lemma ForCurrent(m: Memory, key: Option<string>, value: string, c: Option<Expr>)
    ensures m.OpenFor(key, value, c).current == BodyOf(|m.statements|)
  {
  }

  lemma EndForParent(m: Memory)
    requires m.Valid() && m.forStack != []
    ensures N.Last(m.forStack) < |m.statements| && m.CloseFor().current == m.statements[N.Last(m.forStack)].parent
    ensures m.CloseFor().statements == m.statements
  {
  }

  // ---- What no tree has ----

  /** A statement without its expression. */
  predicate LacksCondition(m: Memory, id: nat) {
    id < |m.statements| && m.statements[id].condition.None?
  }

  predicate LacksExpression(m: Memory, ref: BlockRef, x: nat) {
    Proper(m, ref, |m.statements|) && x < |m.Block(ref)| && !CleanNode(m.Block(ref)[x])
  }

  /** An else-if that does not come first. */
  predicate LateElseIf(m: Memory, k: nat, x: nat) {
    k < |m.statements| && m.statements[k].If? && 0 < x < |m.Block(FalseOf(k))| && m.Block(FalseOf(k))[x].StatementNode?
    && m.Block(FalseOf(k))[x].id < |m.statements|
    && m.statements[m.Block(FalseOf(k))[x].id].If? && m.statements[m.Block(FalseOf(k))[x].id].nested
  }

  ghost predicate Spoilt(m: Memory) {
    (exists id: nat :: LacksCondition(m, id)) || (exists ref, x: nat :: LacksExpression(m, ref, x))
    || (exists k: nat, x: nat :: LateElseIf(m, k, x))
  }

  lemma StaysSpoilt(m: Memory, r: Memory)
    requires Spoilt(m) && Monotone(m, r)
    ensures Spoilt(r)
  {
    hide Memory.Block, Proper, CleanNode;
    if id: nat :| LacksCondition(m, id) {
      assert SameShape(m.statements[id], r.statements[id]);
      assert LacksCondition(r, id);
    } else if ref, x: nat :| LacksExpression(m, ref, x) {
      StaysProper(m, r, ref, |m.statements|);
      assert r.Block(ref)[x] == m.Block(ref)[x];
      assert LacksExpression(r, ref, x);
    } else {
      var k: nat, x: nat :| LateElseIf(m, k, x);
      var id := m.Block(FalseOf(k))[x].id;
      assert r.Block(FalseOf(k))[x] == m.Block(FalseOf(k))[x];
      assert SameShape(m.statements[k], r.statements[k]) && SameShape(m.statements[id], r.statements[id]);
      assert LateElseIf(r, k, x);
    }
  }

  lemma PushedLacks(m: Memory, r: Memory, s: Statement)
    requires Pushed(m, r, s) && s.condition.None?
    ensures Spoilt(r)
  {
    assert LacksCondition(r, |m.statements|);
    hide Memory.Block, Memory.Add;
  }

  lemma AddLacks(m: Memory, n: Node)
    requires Linked(m) && !CleanNode(n)
    ensures Spoilt(m.Add(n))
  {
    AddMonotone(m, n);
    AddCurrent(m, n);
    StaysProper(m, m.Add(n), m.current, |m.statements|);
    hide Memory.Block, Memory.Add, Memory.Valid, StatementLinked, Proper, CleanNode;
    assert m.Add(n).Block(m.current)[|m.Block(m.current)|] == n;
    assert LacksExpression(m.Add(n), m.current, |m.Block(m.current)|);
  }

  lemma ElseIfIsLate(u: Memory, r: Memory, c: Option<Expr>, k: nat)
    requires Pushed(u, r, If(c, u.current, true, false)) && u.current == FalseOf(k) && u.Block(FalseOf(k)) != []
    requires k < |u.statements| && u.statements[k].If?
    ensures Spoilt(r)
  {
    PushedMonotone(u, r, If(c, u.current, true, false));
    hide Memory.Block, Memory.Add, Monotone;
    assert LateElseIf(r, k, |u.Block(FalseOf(k))|);
  }

  lemma ElseKeepsBlocks(m: Memory)
    requires m.Valid() && m.ifStack != []
    ensures var k := N.Last(m.ifStack); var u := m.TakeElse();
      u.current == FalseOf(k) && u.Block(FalseOf(k)) == m.Block(FalseOf(k)) && k < |u.statements| && u.statements[k].If?
  {
  }

  /** What is not clean spoils the memory. */
  lemma UncleanSpoils(m: Memory, ch: Change)
    requires Linked(m) && Applies(m, ch) && !CleanChange(m, ch)
    ensures Spoilt(Changed(m, ch))
  {
    hide Memory.Add, Memory.OpenIf, Memory.OpenFor, Memory.TakeElse, StatementLinked, Pushed, Spoilt, CleanNode,
      Memory.Block, Proper;
    match ch
    case Adds(n) => AddLacks(m, n);
    case OpensIf(c) =>
      IfPushed(m, c, false);
      PushedLacks(m, m.OpenIf(c, false), If(c, m.current, false, false));
    case TakesElseIf(c) =>
      var u := m.TakeElse();
      IfPushed(u, c, true);
      ElseKeepsBlocks(m);
      if c.None? {
        PushedLacks(u, u.OpenIf(c, true), If(c, u.current, true, false));
      } else {
        ElseIfIsLate(u, u.OpenIf(c, true), c, N.Last(m.ifStack));
      }
    case OpensFor(key, value, c) =>
      ForPushed(m, key, value, c);
      PushedLacks(m, m.OpenFor(key, value, c), For(key, value, c, m.current));
    case _ =>
  }

  /** The memory at the end hangs together, and is spoilt if it ever was or an item is unclean. */
  lemma {:induction false} RunLinked(known: Functions, toks: seq<Token>, i: nat, m: Memory)
    requires i <= |toks| && Linked(m) && ParseInto(known, toks, i, m).Done?
    ensures Linked(ParseInto(known, toks, i, m).value)
    ensures Spoilt(m) || !Clean(known, toks, i, m) ==> Spoilt(ParseInto(known, toks, i, m).value)
    decreases |toks| - i
  {
    if TokenAt(toks, i) != Eof {
      var (r, j) := ParseItem(known, toks, i, m).value;
      var ch := ChangeAt(known, toks, i);
      ItemChanges(known, toks, i, m);
      hide ParseItem, ChangeAt, Changed, Memory.Valid, StatementLinked, Spoilt, CleanChange, Monotone, Proper;
      ChangeLinked(m, ch);
      ChangeMonotone(m, ch);
      if Spoilt(m) {
        StaysSpoilt(m, r);
      } else if !CleanChange(m, ch) {
        UncleanSpoils(m, ch);
      }
      RunLinked(known, toks, j, r);
    }
  }

  // ---- What a tree has ----

  lemma {:induction false} NodeHolds(m: Memory, home: BlockRef, nodes: seq<Node>, b: seq<Stmt>, lo: nat, x: nat)
    requires HoldsNodes(m, home, nodes, b, lo) && x < |nodes|
    ensures x < |b| && HoldsStmt(m, home, nodes[x], b[x], lo)
    decreases b
  {
    hide HoldsStmt;
    if x > 0 {
      NodeHolds(m, home, nodes[1..], b[1..], lo, x - 1);
    }
  }

  /** The block holds statements, or an else part. */
  ghost predicate Fine(m: Memory, ref: BlockRef) {
    if ref.FalseOf? then exists e, lo :: HoldsElse(m, ref.id, e, lo)
    else exists b, lo :: HoldsNodes(m, ref, m.Block(ref), b, lo)
  }

  ghost predicate FineStatement(m: Memory, id: nat) {
    id < |m.statements| && m.statements[id].condition.Some?
    && if m.statements[id].For? then Fine(m, BodyOf(id)) else Fine(m, TrueOf(id)) && Fine(m, FalseOf(id))
  }

  lemma StmtIsFine(m: Memory, home: BlockRef, id: nat, s: Stmt, lo: nat)
    requires HoldsStmt(m, home, StatementNode(id), s, lo)
    ensures FineStatement(m, id) && (m.statements[id].If? ==> !m.statements[id].nested)
  {
    hide HoldsNodes, HoldsElse, Memory.Block;
  }

  lemma ElseIfIsFine(m: Memory, k: nat, e: Else, lo: nat)
    requires e.ElseIf? && HoldsElse(m, k, e, lo)
    ensures |m.Block(FalseOf(k))| == 1 && m.Block(FalseOf(k))[0].StatementNode?
    ensures FineStatement(m, m.Block(FalseOf(k))[0].id)
  {
    hide HoldsNodes, Memory.Block;
    var id := m.Block(FalseOf(k))[0].id;
    assert HoldsNodes(m, TrueOf(id), m.Block(TrueOf(id)), e.thn, lo) && HoldsElse(m, id, e.els, lo);
  }

  /** A node in a block that is fine. */
  lemma NodeIsFine(m: Memory, ref: BlockRef, x: nat)
    requires Fine(m, ref) && x < |m.Block(ref)|
    ensures CleanNode(m.Block(ref)[x])
    ensures m.Block(ref)[x].StatementNode? ==> FineStatement(m, m.Block(ref)[x].id)
    ensures x > 0 && m.Block(ref)[x].StatementNode? && m.statements[m.Block(ref)[x].id].If?
      ==> !m.statements[m.Block(ref)[x].id].nested
  {
    hide HoldsStmt, FineStatement, Memory.Block, HoldsNodes;
    if ref.FalseOf? {
      var e, lo :| HoldsElse(m, ref.id, e, lo);
      if e.ElseIf? {
        ElseIfIsFine(m, ref.id, e, lo);
      } else if e.ElseBranch? {
        HeldNodeIsFine(m, ref, e.body, lo, x);
      }
    } else {
      var b, lo :| HoldsNodes(m, ref, m.Block(ref), b, lo);
      HeldNodeIsFine(m, ref, b, lo, x);
    }
  }

  lemma HeldNodeIsFine(m: Memory, ref: BlockRef, b: seq<Stmt>, lo: nat, x: nat)
    requires HoldsNodes(m, ref, m.Block(ref), b, lo) && x < |m.Block(ref)|
    ensures CleanNode(m.Block(ref)[x])
    ensures m.Block(ref)[x].StatementNode? ==> FineStatement(m, m.Block(ref)[x].id)
    ensures m.Block(ref)[x].StatementNode? && m.statements[m.Block(ref)[x].id].If?
      ==> !m.statements[m.Block(ref)[x].id].nested
  {
    NodeHolds(m, ref, m.Block(ref), b, lo, x);
    var n := m.Block(ref)[x];
    HeldIsClean(m, ref, n, b[x], lo);
    if n.StatementNode? {
      StmtIsFine(m, ref, n.id, b[x], lo);
    }
    hide HoldsStmt, FineStatement, Memory.Block, HoldsNodes;
  }

  lemma HeldIsClean(m: Memory, home: BlockRef, n: Node, s: Stmt, lo: nat)
    requires HoldsStmt(m, home, n, s, lo)
    ensures CleanNode(n)
  {
    hide HoldsNodes, HoldsElse, Memory.Block;
  }

  /** Everything that hangs on a tree is part of it. */
  lemma {:induction false} AllFine(m: Memory, b: seq<Stmt>, ref: BlockRef)
    requires Represents(m, b) && Linked(m) && Proper(m, ref, |m.statements|)
    ensures Fine(m, ref)
    decreases if ref.Top? then 0 else ref.id + 1
  {
    hide HoldsNodes, Memory.Block, Memory.Valid, FineStatement;
    if !ref.Top? {
      assert StatementLinked(m, ref.id);
      var parent := m.statements[ref.id].parent;
      AllFine(m, b, parent);
      var x :| 0 <= x < |m.Block(parent)| && m.Block(parent)[x] == StatementNode(ref.id);
      NodeIsFine(m, parent, x);
      StatementIsFine(m, ref);
    }
  }

  lemma StatementIsFine(m: Memory, ref: BlockRef)
    requires !ref.Top? && FineStatement(m, ref.id) && Proper(m, ref, |m.statements|)
    ensures Fine(m, ref)
  {
    hide Fine;
  }

  lemma TreeIsNotSpoilt(m: Memory, b: seq<Stmt>)
    requires Represents(m, b) && Linked(m)
    ensures !Spoilt(m)
  {
    hide Represents, Memory.Block, Memory.Valid, StatementLinked, Fine, CleanNode;
    if id: nat :| LacksCondition(m, id) {
      var ref := if m.statements[id].For? then BodyOf(id) else TrueOf(id);
      ConditionIsThere(m, b, id);
    } else if ref, x: nat :| LacksExpression(m, ref, x) {
      AllFine(m, b, ref);
      NodeIsFine(m, ref, x);
    } else if k: nat, x: nat :| LateElseIf(m, k, x) {
      AllFine(m, b, FalseOf(k));
      NodeIsFine(m, FalseOf(k), x);
    }
  }

  lemma ConditionIsThere(m: Memory, b: seq<Stmt>, id: nat)
    requires Represents(m, b) && Linked(m) && id < |m.statements|
    ensures m.statements[id].condition.Some?
  {
    hide Represents, Memory.Block, Memory.Valid, Fine;
    assert StatementLinked(m, id);
    var parent := m.statements[id].parent;
    ParentProper(m, id);
    AllFine(m, b, parent);
    var x :| 0 <= x < |m.Block(parent)| && m.Block(parent)[x] == StatementNode(id);
    NodeIsFine(m, parent, x);
  }

  // ---- The theorem ----

  lemma EmptyLinked()
    ensures Linked(EMPTY_MEMORY)
  {
  }

  /** An accepted template that is not clean leaves no tree, nested or not. */
  lemma TreeIsClean(known: Functions, toks: seq<Token>, b: seq<Stmt>)
    requires ParseInto(known, toks, 0, EMPTY_MEMORY).Done?
    requires Represents(ParseInto(known, toks, 0, EMPTY_MEMORY).value, b)
    ensures Clean(known, toks, 0, EMPTY_MEMORY)
  {
    EmptyLinked();
    hide *;
    EmptyIsValid();
    RunLinked(known, toks, 0, EMPTY_MEMORY);
    TreeIsNotSpoilt(ParseInto(known, toks, 0, EMPTY_MEMORY).value, b);
  }

  /** For all tokens that are accepted and nested: the memory holds a tree if and only if they are clean. */
  lemma HoldsTreeExactly(known: Functions, toks: seq<Token>)
    requires ParseInto(known, toks, 0, EMPTY_MEMORY).Done? && N.Nested(N.TagsRead(known, toks))
    ensures EMPTY_MEMORY.Valid()
    ensures (exists b :: Represents(ParseInto(known, toks, 0, EMPTY_MEMORY).value, b))
      <==> Clean(known, toks, 0, EMPTY_MEMORY)
  {
    hide *;
    EmptyIsValid();
    var m := ParseInto(known, toks, 0, EMPTY_MEMORY).value;
    if Clean(known, toks, 0, EMPTY_MEMORY) {
      var b := CleanHoldsTree(known, toks);
      assert Represents(m, b);
    }
    if exists b :: Represents(m, b) {
      var b :| Represents(m, b);
      TreeIsClean(known, toks, b);
    }
  }

  // ---- Repeated else ----

  /** {% if c %}{% else %}x{% else %}y{% endif %} */
  function TwoElses(c: Expr, x: string, y: string): seq<Token> {
    Tag([Id("if")] + Print(c))
    + (Tag([Id("else")]) + ([Text(x)] + (Tag([Id("else")]) + ([Text(y)] + Tag([Id("endif")])))))
  }

  /** Two else branches are one. */
  lemma TwoElsesAreOne(c: Expr, x: string, y: string, known: Functions)
    requires WellFormed(c, known)
    ensures var r := ParseInto(known, TwoElses(c, x, y), 0, EMPTY_MEMORY);
      r.Done? && Represents(r.value, [IfStmt(c, [], ElseBranch([Plain(x), Plain(y)]))])
  {
    hide *;
    var toks, s := TwoElses(c, x, y), IfStmt(c, [], ElseBranch([Plain(x), Plain(y)]));
    var open, els, end := Tag([Id("if")] + Print(c)), Tag([Id("else")]), Tag([Id("endif")]);
    AtWhole(toks);
    TwoElsesParts(c, x, y);
    AtSplit(toks, 0, open, els + ([Text(x)] + (els + ([Text(y)] + end))));
    var i := |open|;
    AtSplit(toks, i, els, [Text(x)] + (els + ([Text(y)] + end)));
    AtSplit(toks, i + |els|, [Text(x)], els + ([Text(y)] + end));
    AtSplit(toks, i + |els| + 1, els, [Text(y)] + end);
    AtSplit(toks, i + |els| + 1 + |els|, [Text(y)], end);
    EmptyIsValid();
    TwoElsesMemory(c, x, y);
    var m := EMPTY_MEMORY.OpenIf(Some(c), false);
    var n := m.TakeElse().Add(TextNode(x));
    ReadsIf(c, known, toks, 0, EMPTY_MEMORY);
    ReadsElseWord(known, toks, i, m);
    ReadsText(x, known, toks, i + |els|, m.TakeElse());
    ReadsElseWord(known, toks, i + |els| + 1, n);
    ReadsText(y, known, toks, i + |els| + 1 + |els|, n.TakeElse());
    EmptyBuilt([s]);
    ReadsEndIf(known, toks, i + |els| + 1 + |els| + 1, n.TakeElse().Add(TextNode(y)));
    RepresentsClosed(BuildBlock(EMPTY_MEMORY, [s]), [s]);
    AtEndOfInput(known, toks, BuildBlock(EMPTY_MEMORY, [s]));
  }

  lemma TwoElsesParts(c: Expr, x: string, y: string)
    ensures TwoElses(c, x, y) == Tag([Id("if")] + Print(c))
      + (Tag([Id("else")]) + ([Text(x)] + (Tag([Id("else")]) + ([Text(y)] + Tag([Id("endif")])))))
    ensures |[Text(x)]| == |[Text(y)]| == 1
  {
    hide Tag, Print;
  }

  lemma TwoElsesMemory(c: Expr, x: string, y: string)
    ensures var m := EMPTY_MEMORY.OpenIf(Some(c), false); m.Valid() && m.ifStack != [] && m.TakeElse().Valid()
    ensures var n := EMPTY_MEMORY.OpenIf(Some(c), false).TakeElse().Add(TextNode(x));
      && n.Valid() && n.ifStack != [] && n.TakeElse().Valid()
      && n.TakeElse().Add(TextNode(y)).Valid() && n.TakeElse().Add(TextNode(y)).ifStack != []
      && n.TakeElse().Add(TextNode(y)).CloseIf()
        == BuildBlock(EMPTY_MEMORY, [IfStmt(c, [], ElseBranch([Plain(x), Plain(y)]))])
  {
    EmptyIsValid();
    OpenIfFacts(EMPTY_MEMORY, Some(c), false);
    var m := EMPTY_MEMORY.OpenIf(Some(c), false);
    OpenIfExtends(EMPTY_MEMORY, Some(c), false);
    TakeElseFacts(m);
    ElseAgain(m, [Plain(x)]);
    BuildIfIs(EMPTY_MEMORY, c, [], ElseBranch([Plain(x), Plain(y)]));
    BuildNone(m);
    OneBuilds(EMPTY_MEMORY, IfStmt(c, [], ElseBranch([Plain(x), Plain(y)])));
    TextsBuild(m.TakeElse(), x, y);
    BranchBuilds(m, [Plain(x), Plain(y)]);
    hide Memory.OpenIf, Memory.TakeElse, Memory.Add, Memory.CloseIf, Memory.Valid, Grows, Tidy, Build, BuildBlock,
      BuildElse, Extends, Memory.Block;
  }

  lemma BranchBuilds(m: Memory, b: seq<Stmt>)
    requires m.Valid() && m.ifStack != [] && m.TakeElse().Valid()
    ensures BuildElse(m, ElseBranch(b)) == BuildBlock(m.TakeElse(), b)
  {
    hide BuildBlock, Memory.TakeElse, Memory.Valid;
  }

  lemma TextsBuild(m: Memory, x: string, y: string)
    requires m.Valid()
    ensures BuildBlock(m, [Plain(x)]) == m.Add(TextNode(x)) && m.Add(TextNode(x)).Valid()
    ensures BuildBlock(m, [Plain(x), Plain(y)]) == m.Add(TextNode(x)).Add(TextNode(y))
    ensures m.Add(TextNode(x)).Add(TextNode(y)).Valid()
  {
    AddBalanced(m, TextNode(x));
    AddBalanced(m.Add(TextNode(x)), TextNode(y));
    OneBuilds(m, Plain(x));
    OneBuilds(m.Add(TextNode(x)), Plain(y));
    BuildCons(m, Plain(x), [Plain(y)]);
    assert [Plain(x)] + [Plain(y)] == [Plain(x), Plain(y)];
    hide Memory.Add, Memory.Valid, BuildBlock;
  }

  /** {% if c %}{% else %}x{% else if d %}{% endif %} */
  function ElseIfAfterElse(c: Expr, x: string, d: Expr): seq<Token> {
    Tag([Id("if")] + Print(c))
    + (Tag([Id("else")]) + ([Text(x)] + (Tag([Id("else"), Id("if")] + Print(d)) + Tag([Id("endif")]))))
  }

  /** The memory before the second else, and at its if. */
  function BeforeLate(c: Expr, x: string): Memory {
    EMPTY_MEMORY.OpenIf(Some(c), false).TakeElse().Add(TextNode(x))
  }

  function Late(c: Expr, x: string, d: Expr): Memory
    requires BeforeLate(c, x).Valid() && BeforeLate(c, x).ifStack != []
  {
    BeforeLate(c, x).TakeElse().OpenIf(Some(d), true)
  }

  /** An else-if after an else with something under it is accepted, but what it leaves is no tree. */
  lemma NoTreeAfterElse(c: Expr, x: string, d: Expr, known: Functions)
    requires WellFormed(c, known) && WellFormed(d, known)
    ensures var r := ParseInto(known, ElseIfAfterElse(c, x, d), 0, EMPTY_MEMORY);
      r.Done? && r.value.current == Top && !exists b :: Represents(r.value, b)
  {
    hide *;
    var toks := ElseIfAfterElse(c, x, d);
    var open, els := Tag([Id("if")] + Print(c)), Tag([Id("else")]);
    var elseIf, end := Tag([Id("else"), Id("if")] + Print(d)), Tag([Id("endif")]);
    AtWhole(toks);
    ElseIfAfterElseParts(c, x, d);
    AtSplit(toks, 0, open, els + ([Text(x)] + (elseIf + end)));
    var i := |open|;
    AtSplit(toks, i, els, [Text(x)] + (elseIf + end));
    AtSplit(toks, i + |els|, [Text(x)], elseIf + end);
    AtSplit(toks, i + |els| + 1, elseIf, end);
    EmptyIsValid();
    BeforeLateMemory(c, x);
    LateMemory(c, x, d);
    var m := EMPTY_MEMORY.OpenIf(Some(c), false);
    var n, o := BeforeLate(c, x), Late(c, x, d);
    ReadsIf(c, known, toks, 0, EMPTY_MEMORY);
    ReadsElseWord(known, toks, i, m);
    ReadsText(x, known, toks, i + |els|, m.TakeElse());
    ReadsElseIf(d, known, toks, i + |els| + 1, n);
    ReadsEndIf(known, toks, i + |els| + 1 + |elseIf|, o);
    AtEndOfInput(known, toks, o.CloseIf());
    forall b
      ensures !Represents(o.CloseIf(), b)
    {
      if Represents(o.CloseIf(), b) {
        TreeIsNotSpoilt(o.CloseIf(), b);
      }
    }
  }

  lemma ElseIfAfterElseParts(c: Expr, x: string, d: Expr)
    ensures ElseIfAfterElse(c, x, d) == Tag([Id("if")] + Print(c))
      + (Tag([Id("else")]) + ([Text(x)] + (Tag([Id("else"), Id("if")] + Print(d)) + Tag([Id("endif")]))))
    ensures |[Text(x)]| == 1
  {
    hide Tag, Print;
  }

  lemma BeforeLateMemory(c: Expr, x: string)
    ensures var m := EMPTY_MEMORY.OpenIf(Some(c), false);
      m.Valid() && m.ifStack != [] && m.TakeElse().Valid() && BeforeLate(c, x) == m.TakeElse().Add(TextNode(x))
    ensures var n := BeforeLate(c, x); n.Valid() && n.ifStack == [0] && n.Block(FalseOf(0)) == [TextNode(x)]
    ensures Linked(BeforeLate(c, x))
  {
    BeforeLateShape(c, x);
    EmptyLinked();
    var m := EMPTY_MEMORY.OpenIf(Some(c), false);
    ChangeLinked(EMPTY_MEMORY, OpensIf(Some(c)));
    ChangeLinked(m, TakesElse);
    ChangeLinked(m.TakeElse(), Adds(TextNode(x)));
    hide Memory.OpenIf, Memory.TakeElse, Memory.Add, Memory.Valid, Linked, Memory.Block;
  }

  lemma BeforeLateShape(c: Expr, x: string)
    ensures var m := EMPTY_MEMORY.OpenIf(Some(c), false); m.Valid() && m.ifStack != [] && m.TakeElse().Valid()
    ensures var n := BeforeLate(c, x);
      && n.Valid() && n.ifStack == [0] && n.Block(FalseOf(0)) == [TextNode(x)] && n.forStack == []
      && |n.statements| == 1 && n.statements[0].If? && n.statements[0].parent == Top && !n.statements[0].nested
  {
  }

  lemma LateShape(n: Memory, d: Expr)
    requires n.Valid() && n.ifStack == [0] && n.forStack == [] && |n.statements| == 1
    requires n.statements[0].If? && n.statements[0].parent == Top && !n.statements[0].nested
    ensures n.TakeElse().Valid()
    ensures var o := n.TakeElse().OpenIf(Some(d), true);
      && o.Valid() && o.ifStack == [0, 1] && o.CloseIf().ifStack == [] && o.CloseIf().forStack == []
      && o.CloseIf().current == Top
  {
    var o := n.TakeElse().OpenIf(Some(d), true);
    assert o.PopNested([0, 1]) == [0];
    hide Memory.Block;
  }

  lemma LateMemory(c: Expr, x: string, d: Expr)
    ensures BeforeLate(c, x).Valid() && BeforeLate(c, x).ifStack != [] && BeforeLate(c, x).TakeElse().Valid()
    ensures var o := Late(c, x, d);
      && o == BeforeLate(c, x).TakeElse().OpenIf(Some(d), true)
      && o.Valid() && o.ifStack != [] && o.CloseIf().Valid() && o.CloseIf().ifStack == [] && o.CloseIf().forStack == []
      && o.CloseIf().current == Top && Linked(o.CloseIf()) && Spoilt(o.CloseIf())
  {
    BeforeLateShape(c, x);
    BeforeLateMemory(c, x);
    LateShape(BeforeLate(c, x), d);
    LateSpoils(BeforeLate(c, x), d);
    hide BeforeLate, Memory.TakeElse, Memory.OpenIf, Memory.CloseIf, Memory.Valid, Linked, Spoilt, Memory.Block;
  }

  lemma LateSpoils(n: Memory, d: Expr)
    requires Linked(n) && n.ifStack == [0] && n.Block(FalseOf(0)) != []
    requires n.TakeElse().Valid() && n.TakeElse().OpenIf(Some(d), true).Valid()
    requires n.TakeElse().OpenIf(Some(d), true).ifStack != []
    ensures var o := n.TakeElse().OpenIf(Some(d), true);
      o.CloseIf().Valid() && Linked(o.CloseIf()) && Spoilt(o.CloseIf())
  {
    var o := n.TakeElse().OpenIf(Some(d), true);
    assert N.Last(n.ifStack) == 0;
    hide Memory.OpenIf, Memory.TakeElse, Memory.CloseIf, StatementLinked, Proper, Spoilt, Monotone, Memory.Block,
      Memory.Ifs, Memory.Fors;
    UncleanSpoils(n, TakesElseIf(Some(d)));
    ChangeLinked(n, TakesElseIf(Some(d)));
    EndIfParent(o);
    ChangeLinked(o, ClosesIf);
    ChangeMonotone(o, ClosesIf);
    StaysSpoilt(o, o.CloseIf());
  }
}
