/**
 When the cursor of the parser is where it should be, for every sequence of tokens. The parser keeps its open if
 and for statements on two stacks that know nothing of each other; a reader of the template would use one.
 */
module InjaNesting {
  import opened Sequences
  import opened InjaSyntax
  import opened InjaExpression
  import opened InjaStatements

  // ---- The statements of a template ----

  datatype Tag = IfTag | ElseTag | ElseIfTag | EndIfTag | ForTag | EndForTag | OtherTag

  /** What the item at a position does to the nesting; text, output, comments and set do nothing. */
  function TagAt(toks: seq<Token>, i: nat): Tag {
    var t, word := TokenAt(toks, i), TokenAt(toks, i + 1);
    if !(t.StatementOpen? || t.LineStatementOpen?) || !word.Id? then OtherTag
    else if word.name == "if" then IfTag
    else if word.name == "else" then if Word(toks, i + 2, "if") then ElseIfTag else ElseTag
    else if word.name == "endif" then EndIfTag
    else if word.name == "for" then ForTag
    else if word.name == "endfor" then EndForTag
    else OtherTag
  }

  /** A turn of the parser's loop: the item that it has read, and the memory after it. */
  datatype Turn = Turn(tag: Tag, after: Memory)

  /** The turns of the parser on any tokens, up to the end of the input or to the first error. */
  function Turns(known: Functions, toks: seq<Token>, i: nat, m: Memory): seq<Turn>
    requires i <= |toks| && m.Valid()
    decreases |toks| - i
  {
    if TokenAt(toks, i) == Eof then []
    else
      var r := ParseItem(known, toks, i, m);
      if r.Throw? then [] else [Turn(TagAt(toks, i), r.value.0)] + Turns(known, toks, r.value.1, r.value.0)
  }

  function Tags(ts: seq<Turn>): seq<Tag> {
    if ts == [] then [] else [ts[0].tag] + Tags(ts[1..])
  }

  // ---- One stack ----

  datatype Opened = AnIf | AFor

  /** Else and endif belong to the innermost open statement if it is an if, endfor if it is a for. */
  function StackAfter(stack: seq<Opened>, tag: Tag): Option<seq<Opened>> {
    var n := |stack|;
    match tag
    case IfTag => Some(stack + [AnIf])
    case ForTag => Some(stack + [AFor])
    case ElseTag | ElseIfTag => if n > 0 && stack[n - 1] == AnIf then Some(stack) else None
    case EndIfTag => if n > 0 && stack[n - 1] == AnIf then Some(stack[..n - 1]) else None
    case EndForTag => if n > 0 && stack[n - 1] == AFor then Some(stack[..n - 1]) else None
    case OtherTag => Some(stack)
  }

  predicate NestedFrom(stack: seq<Opened>, tags: seq<Tag>)
    decreases |tags|
  {
    tags != [] ==> StackAfter(stack, tags[0]).Some? && NestedFrom(StackAfter(stack, tags[0]).value, tags[1..])
  }

  /** The statements are nested: none is closed or continued while one inside it is open. */
  predicate Nested(tags: seq<Tag>) {
    NestedFrom([], tags)
  }

  // ---- The cursor ----

  function Last(s: seq<nat>): nat
    requires s != []
  {
    s[|s| - 1]
  }

  function ButLast(s: seq<nat>): seq<nat>
    requires s != []
  {
    s[..|s| - 1]
  }

  /** The innermost open statement, the one opened last, is an if. */
  predicate InnermostIsIf(ifs: seq<nat>, fors: seq<nat>) {
    ifs != [] && (fors == [] || Last(fors) < Last(ifs))
  }

  /** The branch of an open statement that is being filled. */
  function CurrentBranch(m: Memory, id: nat): BlockRef
    requires id < |m.statements|
  {
    var s := m.statements[id];
    if s.For? then BodyOf(id) else if s.hasFalse then FalseOf(id) else TrueOf(id)
  }

  /**
   `at` is the branch being filled of the innermost open statement, this statement stands in the branch being
   filled of the one around it, and so on up to the root.
   */
  predicate Follows(m: Memory, ifs: seq<nat>, fors: seq<nat>, at: BlockRef)
    requires m.Ifs(ifs) && m.Fors(fors)
    decreases |ifs| + |fors|
  {
    if ifs == [] && fors == [] then at == Top
    else if InnermostIsIf(ifs, fors) then
      at == CurrentBranch(m, Last(ifs)) && Follows(m, ButLast(ifs), fors, m.statements[Last(ifs)].parent)
    else
      at == CurrentBranch(m, Last(fors)) && Follows(m, ifs, ButLast(fors), m.statements[Last(fors)].parent)
  }

  /** The cursor is where the open statements say. */
  predicate OnTrack(m: Memory)
    requires m.Valid()
  {
    Follows(m, m.ifStack, m.forStack, m.current)
  }

  /** The open statements on one stack; an else-if belongs to the if that it continues. */
  function Combined(m: Memory, ifs: seq<nat>, fors: seq<nat>): seq<Opened>
    requires m.Ifs(ifs) && m.Fors(fors)
    decreases |ifs| + |fors|
  {
    if ifs == [] && fors == [] then []
    else if InnermostIsIf(ifs, fors) then
      Combined(m, ButLast(ifs), fors) + (if m.statements[Last(ifs)].nested then [] else [AnIf])
    else
      Combined(m, ifs, ButLast(fors)) + [AFor]
  }

  // ---- What holds of every memory of the parser ----

  predicate Increasing(s: seq<nat>) {
    forall i, j :: 0 <= i < j < |s| ==> s[i] < s[j]
  }

  predicate Older(ref: BlockRef, id: nat) {
    ref.Top? || ref.id < id
  }

  /** Statements stand in blocks of older ones. */
  predicate ParentsOlder(m: Memory) {
    Older(m.current, |m.statements|)
    && forall k {:trigger m.statements[k]} :: 0 <= k < |m.statements| ==> Older(m.statements[k].parent, k)
  }

  /** An else-if stands in the false branch of the statement below it on the stack. */
  predicate ElseIfsContinue(m: Memory, ifs: seq<nat>)
    requires m.Ifs(ifs)
  {
    forall k {:trigger ifs[k]} :: 0 <= k < |ifs| && m.statements[ifs[k]].nested ==>
      k > 0 && m.statements[ifs[k]].parent == FalseOf(ifs[k - 1])
  }

  predicate WellOrdered(m: Memory) {
    m.Valid() && Increasing(m.ifStack) && Increasing(m.forStack) && ParentsOlder(m) && ElseIfsContinue(m, m.ifStack)
  }

  /** The cursor and the nesting depend only on the open statements. */
  lemma {:induction false} SameFollows(m: Memory, r: Memory, ifs: seq<nat>, fors: seq<nat>, at: BlockRef)
    requires m.Ifs(ifs) && m.Fors(fors) && r.Ifs(ifs) && r.Fors(fors)
    requires forall k {:trigger ifs[k]} :: 0 <= k < |ifs| ==> r.statements[ifs[k]] == m.statements[ifs[k]]
    requires forall k {:trigger fors[k]} :: 0 <= k < |fors| ==> r.statements[fors[k]] == m.statements[fors[k]]
    ensures Follows(r, ifs, fors, at) == Follows(m, ifs, fors, at)
    ensures Combined(r, ifs, fors) == Combined(m, ifs, fors)
    decreases |ifs| + |fors|
  {
    if ifs == [] && fors == [] {
    } else if InnermostIsIf(ifs, fors) {
      SameFollows(m, r, ButLast(ifs), fors, m.statements[Last(ifs)].parent);
    } else {
      SameFollows(m, r, ifs, ButLast(fors), m.statements[Last(fors)].parent);
    }
  }

  // ---- One step ----

  /** After a step the cursor is on track exactly if one stack allows the step, and then it holds the same. */
  ghost predicate StepOk(m: Memory, tag: Tag, r: Memory)
    requires WellOrdered(m) && WellOrdered(r)
  {
    var stack := StackAfter(Combined(m, m.ifStack, m.forStack), tag);
    && (OnTrack(r) <==> stack.Some?)
    && (stack.Some? ==> Combined(r, r.ifStack, r.forStack) == stack.value)
  }

  lemma OtherStep(m: Memory, r: Memory)
    requires WellOrdered(m) && OnTrack(m) && r == m.(blocks := r.blocks)
    ensures WellOrdered(r) && StepOk(m, OtherTag, r)
  {
    SameFollows(m, r, m.ifStack, m.forStack, m.current);
  }

  /** The memory `r` has one statement more, on top of one of the stacks, and its first branch is current. */
  predicate Opens(m: Memory, r: Memory, s: Statement) {
    && r.statements == m.statements + [s] && s.parent == m.current && (s.If? ==> !s.hasFalse)
    && r.ifStack == (if s.If? then m.ifStack + [|m.statements|] else m.ifStack)
    && r.forStack == (if s.For? then m.forStack + [|m.statements|] else m.forStack)
    && r.current == if s.If? then TrueOf(|m.statements|) else BodyOf(|m.statements|)
  }

  lemma OpenIfOpens(m: Memory, c: Option<Expr>, nested: bool)
    ensures Opens(m, m.OpenIf(c, nested), If(c, m.current, nested, false))
  {
    hide Memory.Block;
  }

  lemma OpenForOpens(m: Memory, key: Option<string>, value: string, c: Option<Expr>)
    ensures Opens(m, m.OpenFor(key, value, c), For(key, value, c, m.current))
  {
    hide Memory.Block;
  }

  lemma IncreasingPush(s: seq<nat>, n: nat)
    requires Increasing(s) && forall i :: 0 <= i < |s| ==> s[i] < n
    ensures Increasing(s + [n])
  {
  }

  lemma StacksBelow(m: Memory)
    requires m.Valid()
    ensures forall i :: 0 <= i < |m.ifStack| ==> m.ifStack[i] < |m.statements|
    ensures forall i :: 0 <= i < |m.forStack| ==> m.forStack[i] < |m.statements|
  {
  }

  lemma OpensValid(m: Memory, r: Memory, s: Statement)
    requires m.Valid() && Opens(m, r, s) && (s.If? && s.nested ==> m.ifStack != [])
    ensures r.Valid()
  {
  }

  lemma OpensParents(m: Memory, r: Memory, s: Statement)
    requires ParentsOlder(m) && Opens(m, r, s)
    ensures ParentsOlder(r)
  {
  }

  lemma OpensElseIfs(m: Memory, r: Memory, s: Statement)
    requires m.Valid() && r.Valid() && ElseIfsContinue(m, m.ifStack) && Opens(m, r, s)
    requires s.If? && s.nested ==> m.ifStack != [] && m.current == FalseOf(Last(m.ifStack))
    ensures ElseIfsContinue(r, r.ifStack)
  {
    forall k {:trigger r.ifStack[k]} | 0 <= k < |r.ifStack| && r.statements[r.ifStack[k]].nested
      ensures k > 0 && r.statements[r.ifStack[k]].parent == FalseOf(r.ifStack[k - 1])
    {
      if k < |m.ifStack| {
        assert r.ifStack[k] == m.ifStack[k] && r.statements[m.ifStack[k]] == m.statements[m.ifStack[k]];
      }
    }
  }

  lemma OpensWellOrdered(m: Memory, r: Memory, s: Statement)
    requires WellOrdered(m) && Opens(m, r, s)
    requires s.If? && s.nested ==> m.ifStack != [] && m.current == FalseOf(Last(m.ifStack))
    ensures WellOrdered(r)
  {
    OpensValid(m, r, s);
    OpensParents(m, r, s);
    OpensElseIfs(m, r, s);
    StacksBelow(m);
    IncreasingPush(m.ifStack, |m.statements|);
    IncreasingPush(m.forStack, |m.statements|);
    hide ParentsOlder, ElseIfsContinue, Increasing, Memory.Valid;
  }

  /** A statement that is opened is the innermost one, and leaves those around it as they are. */
  lemma OpensFollows(m: Memory, r: Memory, s: Statement)
    requires m.Valid() && r.Valid() && Opens(m, r, s)
    ensures OnTrack(r) == OnTrack(m)
    ensures Combined(r, r.ifStack, r.forStack) == Combined(m, m.ifStack, m.forStack)
      + (if s.For? then [AFor] else if s.nested then [] else [AnIf])
  {
    StacksBelow(m);
    assert r.Ifs(m.ifStack) && r.Fors(m.forStack);
    SameFollows(m, r, m.ifStack, m.forStack, m.current);
    if s.If? {
      IfOnTop(r, m.ifStack, |m.statements|, m.forStack, r.current);
    } else {
      ForOnTop(r, m.ifStack, m.forStack, |m.statements|, r.current);
    }
    hide Follows, Combined, Memory.Ifs, Memory.Fors;
  }

  lemma IfOnTop(m: Memory, ifs: seq<nat>, id: nat, fors: seq<nat>, at: BlockRef)
    requires m.Ifs(ifs + [id]) && m.Ifs(ifs) && m.Fors(fors) && forall k :: 0 <= k < |fors| ==> fors[k] < id
    ensures id < |m.statements| && m.statements[id].If?
    ensures Follows(m, ifs + [id], fors, at)
      <==> at == CurrentBranch(m, id) && Follows(m, ifs, fors, m.statements[id].parent)
    ensures Combined(m, ifs + [id], fors) == Combined(m, ifs, fors) + (if m.statements[id].nested then [] else [AnIf])
  {
    assert (ifs + [id])[|ifs|] == id && ButLast(ifs + [id]) == ifs;
  }

  lemma ForOnTop(m: Memory, ifs: seq<nat>, fors: seq<nat>, id: nat, at: BlockRef)
    requires m.Ifs(ifs) && m.Fors(fors + [id]) && m.Fors(fors) && forall k :: 0 <= k < |ifs| ==> ifs[k] < id
    ensures id < |m.statements| && m.statements[id].For?
    ensures Follows(m, ifs, fors + [id], at)
      <==> at == CurrentBranch(m, id) && Follows(m, ifs, fors, m.statements[id].parent)
    ensures Combined(m, ifs, fors + [id]) == Combined(m, ifs, fors) + [AFor]
  {
    assert (fors + [id])[|fors|] == id && ButLast(fors + [id]) == fors;
  }

  lemma OpenIfStep(m: Memory, c: Option<Expr>)
    requires WellOrdered(m) && OnTrack(m)
    ensures WellOrdered(m.OpenIf(c, false)) && StepOk(m, IfTag, m.OpenIf(c, false))
  {
    OpenIfOpens(m, c, false);
    hide Memory.OpenIf, Opens, OnTrack, Combined;
    OpensWellOrdered(m, m.OpenIf(c, false), If(c, m.current, false, false));
    OpensFollows(m, m.OpenIf(c, false), If(c, m.current, false, false));
    hide Memory.Valid, ParentsOlder, ElseIfsContinue, Increasing;
  }

  lemma OpenForStep(m: Memory, key: Option<string>, value: string, c: Option<Expr>)
    requires WellOrdered(m) && OnTrack(m)
    ensures WellOrdered(m.OpenFor(key, value, c)) && StepOk(m, ForTag, m.OpenFor(key, value, c))
  {
    OpenForOpens(m, key, value, c);
    hide Memory.OpenFor, Opens, OnTrack, Combined;
    OpensWellOrdered(m, m.OpenFor(key, value, c), For(key, value, c, m.current));
    OpensFollows(m, m.OpenFor(key, value, c), For(key, value, c, m.current));
    hide Memory.Valid, ParentsOlder, ElseIfsContinue, Increasing;
  }

  // ---- Else ----

  lemma TakeElseWellOrdered(m: Memory)
    requires WellOrdered(m) && m.ifStack != []
    ensures WellOrdered(m.TakeElse())
  {
    var r, id := m.TakeElse(), Last(m.ifStack);
    assert forall k :: 0 <= k < |m.statements| ==>
      r.statements[k].parent == m.statements[k].parent && r.statements[k].If? == m.statements[k].If?
      && (m.statements[k].If? ==> r.statements[k].nested == m.statements[k].nested);
  }

  /** What being on track means for the innermost statement. */
  lemma IfInnermost(m: Memory, ifs: seq<nat>, fors: seq<nat>, at: BlockRef)
    requires m.Ifs(ifs) && m.Fors(fors) && InnermostIsIf(ifs, fors)
    ensures Follows(m, ifs, fors, at)
      == (at == CurrentBranch(m, Last(ifs)) && Follows(m, ButLast(ifs), fors, m.statements[Last(ifs)].parent))
    ensures Combined(m, ifs, fors)
      == Combined(m, ButLast(ifs), fors) + (if m.statements[Last(ifs)].nested then [] else [AnIf])
  {
  }

  lemma ForInnermost(m: Memory, ifs: seq<nat>, fors: seq<nat>, at: BlockRef)
    requires m.Ifs(ifs) && m.Fors(fors) && fors != [] && !InnermostIsIf(ifs, fors)
    ensures Follows(m, ifs, fors, at)
      == (at == BodyOf(Last(fors)) && Follows(m, ifs, ButLast(fors), m.statements[Last(fors)].parent))
    ensures Combined(m, ifs, fors) == Combined(m, ifs, ButLast(fors)) + [AFor]
  {
  }

  lemma FewerElseIfs(m: Memory, ifs: seq<nat>)
    requires m.Ifs(ifs) && ifs != [] && ElseIfsContinue(m, ifs)
    ensures m.Ifs(ButLast(ifs)) && ElseIfsContinue(m, ButLast(ifs))
  {
    var fewer := ButLast(ifs);
    assert forall k :: 0 <= k < |fewer| ==> fewer[k] == ifs[k];
  }

  /** An else-if leads back to the if that it continues, with no for between them. */
  lemma {:induction false} ChainPops(m: Memory, ifs: seq<nat>, fors: seq<nat>, at: BlockRef)
    requires m.Ifs(ifs) && m.Fors(fors) && ElseIfsContinue(m, ifs) && InnermostIsIf(ifs, fors)
    requires Follows(m, ifs, fors, at)
    ensures var stack := m.PopNested(ifs);
      && stack != [] && stack <= ifs
      && Combined(m, ifs, fors) == Combined(m, ButLast(stack), fors) + [AnIf]
      && Follows(m, ButLast(stack), fors, m.statements[Last(stack)].parent)
    decreases |ifs|
  {
    hide Combined, Follows;
    IfInnermost(m, ifs, fors, at);
    var id := Last(ifs);
    if m.statements[id].nested {
      var rest, parent := ButLast(ifs), m.statements[id].parent;
      FewerElseIfs(m, ifs);
      assert ifs[|ifs| - 1] == id && parent == FalseOf(Last(rest));
      if !InnermostIsIf(rest, fors) {
        ForInnermost(m, rest, fors, parent);
      }
      ChainPops(m, rest, fors, parent);
    }
  }

  lemma TakeElseSame(m: Memory)
    requires WellOrdered(m) && m.ifStack != []
    ensures var r := m.TakeElse();
      && (forall k {:trigger ButLast(m.ifStack)[k]} :: 0 <= k < |ButLast(m.ifStack)| ==>
           r.statements[ButLast(m.ifStack)[k]] == m.statements[ButLast(m.ifStack)[k]])
      && (forall k {:trigger m.forStack[k]} :: 0 <= k < |m.forStack| ==>
           r.statements[m.forStack[k]] == m.statements[m.forStack[k]])
      && r.statements[Last(m.ifStack)] == m.statements[Last(m.ifStack)].(hasFalse := true)
      && r.current == FalseOf(Last(m.ifStack)) && r.ifStack == m.ifStack && r.forStack == m.forStack
      && r.Ifs(ButLast(m.ifStack))
  {
  }

  /** What one stack says at an else or an end, by what is on its top. */
  lemma TopDecides(stack: seq<Opened>, below: seq<Opened>, o: Opened)
    requires stack == below + [o]
    ensures StackAfter(stack, ElseTag) == if o == AnIf then Some(stack) else None
    ensures StackAfter(stack, ElseIfTag) == StackAfter(stack, ElseTag)
    ensures StackAfter(stack, EndIfTag) == if o == AnIf then Some(below) else None
    ensures StackAfter(stack, EndForTag) == if o == AFor then Some(below) else None
  {
  }

  /** What one stack says if the innermost statement is an if, and where an endif leads. */
  lemma TopIsIf(m: Memory)
    requires WellOrdered(m) && OnTrack(m) && InnermostIsIf(m.ifStack, m.forStack)
    ensures var stack := Combined(m, m.ifStack, m.forStack); var chain := m.PopNested(m.ifStack);
      && StackAfter(stack, ElseTag) == StackAfter(stack, ElseIfTag) == Some(stack)
      && StackAfter(stack, EndForTag) == None
      && chain != [] && chain <= m.ifStack
      && StackAfter(stack, EndIfTag) == Some(Combined(m, ButLast(chain), m.forStack))
      && Follows(m, ButLast(chain), m.forStack, m.statements[Last(chain)].parent)
  {
    hide Follows, Combined, StackAfter, Increasing, ParentsOlder;
    ChainPops(m, m.ifStack, m.forStack, m.current);
    var chain := m.PopNested(m.ifStack);
    TopDecides(Combined(m, m.ifStack, m.forStack), Combined(m, ButLast(chain), m.forStack), AnIf);
    hide *;
  }

  /** What one stack says if the innermost statement is a for, and where an endfor leads. */
  lemma TopIsFor(m: Memory)
    requires WellOrdered(m) && OnTrack(m) && m.forStack != [] && !InnermostIsIf(m.ifStack, m.forStack)
    ensures var stack := Combined(m, m.ifStack, m.forStack); var fors := m.forStack;
      && StackAfter(stack, ElseTag) == StackAfter(stack, ElseIfTag) == None && StackAfter(stack, EndIfTag) == None
      && StackAfter(stack, EndForTag) == Some(Combined(m, m.ifStack, ButLast(fors)))
      && Follows(m, m.ifStack, ButLast(fors), m.statements[Last(fors)].parent)
  {
    hide Follows, Combined, StackAfter, Increasing, ParentsOlder, ElseIfsContinue;
    ForInnermost(m, m.ifStack, m.forStack, m.current);
    TopDecides(Combined(m, m.ifStack, m.forStack), Combined(m, m.ifStack, ButLast(m.forStack)), AFor);
    hide *;
  }

  lemma IfIsInnermost(m: Memory)
    requires m.Valid() && m.ifStack != []
    ensures !InnermostIsIf(m.ifStack, m.forStack) ==> m.forStack != []
  {
  }

  lemma ElseInIf(m: Memory, r: Memory)
    requires WellOrdered(m) && OnTrack(m) && m.ifStack != [] && r == m.TakeElse() && WellOrdered(r)
    requires InnermostIsIf(m.ifStack, m.forStack)
    ensures OnTrack(r) && Combined(r, r.ifStack, r.forStack) == Combined(m, m.ifStack, m.forStack)
  {
    TakeElseSame(m);
    var ifs, fors := m.ifStack, m.forStack;
    hide Memory.TakeElse, Follows, Combined, Increasing, ParentsOlder, ElseIfsContinue;
    SameFollows(m, r, ButLast(ifs), fors, m.statements[Last(ifs)].parent);
    IfInnermost(m, ifs, fors, m.current);
    IfInnermost(r, ifs, fors, r.current);
    hide Memory.Ifs, Memory.Fors, InnermostIsIf;
  }

  lemma ElseInFor(m: Memory, r: Memory)
    requires WellOrdered(m) && m.ifStack != [] && r == m.TakeElse() && WellOrdered(r)
    requires !InnermostIsIf(m.ifStack, m.forStack)
    ensures !OnTrack(r)
  {
    TakeElseSame(m);
    IfIsInnermost(m);
    hide Memory.TakeElse, Follows, Combined, Increasing, ParentsOlder, InnermostIsIf, ElseIfsContinue;
    ForInnermost(r, r.ifStack, r.forStack, r.current);
  }

  lemma ElseStep(m: Memory)
    requires WellOrdered(m) && OnTrack(m) && m.ifStack != []
    ensures WellOrdered(m.TakeElse()) && StepOk(m, ElseTag, m.TakeElse())
  {
    TakeElseWellOrdered(m);
    IfIsInnermost(m);
    hide WellOrdered, OnTrack, Combined, StackAfter, Memory.TakeElse, Memory.Valid, InnermostIsIf;
    if InnermostIsIf(m.ifStack, m.forStack) {
      TopIsIf(m);
      ElseInIf(m, m.TakeElse());
    } else {
      TopIsFor(m);
      ElseInFor(m, m.TakeElse());
    }
  }

  lemma ElseIfStep(m: Memory, c: Option<Expr>)
    requires WellOrdered(m) && OnTrack(m) && m.ifStack != []
    ensures var r := m.TakeElse();
      WellOrdered(r) && WellOrdered(r.OpenIf(c, true)) && StepOk(m, ElseIfTag, r.OpenIf(c, true))
  {
    ElseStep(m);
    TakeElseSame(m);
    hide Memory.TakeElse;
    NestedIfOpens(m.TakeElse(), c);
    SameAsElse(Combined(m, m.ifStack, m.forStack));
    hide Memory.OpenIf, OnTrack, Combined, WellOrdered, StackAfter, Memory.Valid;
  }

  lemma SameAsElse(stack: seq<Opened>)
    ensures StackAfter(stack, ElseIfTag) == StackAfter(stack, ElseTag)
  {
  }

  lemma NestedIfOpens(m: Memory, c: Option<Expr>)
    requires WellOrdered(m) && m.ifStack != [] && m.current == FalseOf(Last(m.ifStack))
    ensures var r := m.OpenIf(c, true);
      && WellOrdered(r) && OnTrack(r) == OnTrack(m)
      && Combined(r, r.ifStack, r.forStack) == Combined(m, m.ifStack, m.forStack)
  {
    OpenIfOpens(m, c, true);
    hide Memory.OpenIf, Opens, OnTrack, Combined;
    OpensWellOrdered(m, m.OpenIf(c, true), If(c, m.current, true, false));
    OpensFollows(m, m.OpenIf(c, true), If(c, m.current, true, false));
    hide Memory.Valid, ParentsOlder, ElseIfsContinue, Increasing;
  }

  // ---- Closing ----

  lemma CloseForWellOrdered(m: Memory)
    requires WellOrdered(m) && m.forStack != []
    ensures var r := m.CloseFor();
      && WellOrdered(r) && r.statements == m.statements && r.ifStack == m.ifStack && r.forStack == ButLast(m.forStack)
      && r.current == m.statements[Last(m.forStack)].parent
  {
  }

  lemma EndForInIf(m: Memory, r: Memory)
    requires WellOrdered(m) && m.forStack != [] && r == m.CloseFor() && WellOrdered(r)
    requires InnermostIsIf(m.ifStack, m.forStack)
    ensures !OnTrack(r)
  {
    CloseForWellOrdered(m);
    var ifs, fors := m.ifStack, m.forStack;
    assert InnermostIsIf(ifs, ButLast(fors)) && r.current != CurrentBranch(r, Last(ifs));
    hide Memory.CloseFor, Follows, Combined;
    IfInnermost(r, ifs, ButLast(fors), r.current);
    hide ElseIfsContinue, Memory.Ifs, Memory.Fors, InnermostIsIf, Increasing, ParentsOlder;
  }

  lemma CloseForStep(m: Memory)
    requires WellOrdered(m) && OnTrack(m) && m.forStack != []
    ensures WellOrdered(m.CloseFor()) && StepOk(m, EndForTag, m.CloseFor())
  {
    CloseForWellOrdered(m);
    var r := m.CloseFor();
    if InnermostIsIf(m.ifStack, m.forStack) {
      TopIsIf(m);
      EndForInIf(m, r);
    } else {
      TopIsFor(m);
      SameFollows(m, r, r.ifStack, r.forStack, r.current);
    }
    hide Memory.CloseFor, Follows, Combined, StackAfter, InnermostIsIf, ElseIfsContinue, Increasing, ParentsOlder,
      Memory.PopNested;
  }

  lemma PrefixWellOrdered(m: Memory, stack: seq<nat>, r: Memory)
    requires WellOrdered(m) && stack != [] && stack <= m.ifStack
    requires r == m.(current := m.statements[Last(stack)].parent, ifStack := ButLast(stack))
    ensures WellOrdered(r)
  {
    assert forall k :: 0 <= k < |stack| ==> stack[k] == m.ifStack[k];
    hide Memory.PopNested;
  }

  lemma CloseIfWellOrdered(m: Memory)
    requires WellOrdered(m) && m.ifStack != []
    ensures var r := m.CloseIf(); var stack := m.PopNested(m.ifStack);
      && stack != [] && stack <= m.ifStack
      && WellOrdered(r) && r.statements == m.statements && r.forStack == m.forStack && r.ifStack == ButLast(stack)
      && r.current == m.statements[Last(stack)].parent
  {
    m.PopNestedKeepsBottom(m.ifStack);
    PrefixWellOrdered(m, m.PopNested(m.ifStack), m.CloseIf());
    hide Memory.PopNested, Increasing, ParentsOlder, ElseIfsContinue, Memory.Ifs, Memory.Fors;
  }

  lemma EndIfInFor(m: Memory, r: Memory)
    requires WellOrdered(m) && m.ifStack != [] && r == m.CloseIf() && WellOrdered(r)
    requires !InnermostIsIf(m.ifStack, m.forStack)
    ensures !OnTrack(r)
  {
    CloseIfWellOrdered(m);
    ForStaysInnermost(m, m.ifStack, m.forStack, m.PopNested(m.ifStack));
    hide Memory.CloseIf, Follows, Combined, Memory.PopNested, Increasing, ParentsOlder, ElseIfsContinue, InnermostIsIf;
    ForInnermost(r, r.ifStack, r.forStack, r.current);
  }

  lemma CloseIfStep(m: Memory)
    requires WellOrdered(m) && OnTrack(m) && m.ifStack != []
    ensures WellOrdered(m.CloseIf()) && StepOk(m, EndIfTag, m.CloseIf())
  {
    CloseIfWellOrdered(m);
    IfIsInnermost(m);
    var r := m.CloseIf();
    if InnermostIsIf(m.ifStack, m.forStack) {
      TopIsIf(m);
      SameFollows(m, r, r.ifStack, r.forStack, r.current);
    } else {
      TopIsFor(m);
      EndIfInFor(m, r);
    }
    hide Memory.CloseIf, Follows, Combined, StackAfter, InnermostIsIf, ElseIfsContinue, Increasing, ParentsOlder,
      Memory.PopNested;
  }

  lemma ForStaysInnermost(m: Memory, ifs: seq<nat>, fors: seq<nat>, stack: seq<nat>)
    requires m.Ifs(ifs) && m.Fors(fors) && Increasing(ifs) && ParentsOlder(m) && ifs != [] && !InnermostIsIf(ifs, fors)
    requires stack != [] && stack <= ifs
    ensures fors != [] && !InnermostIsIf(ButLast(stack), fors)
    ensures m.statements[Last(stack)].parent != BodyOf(Last(fors))
  {
    assert Last(stack) == ifs[|stack| - 1];
  }

  // ---- All steps ----

  /** What an item does to the memory, by its tag. */
  ghost predicate Effect(m: Memory, tag: Tag, r: Memory)
    requires m.Valid()
  {
    match tag
    case IfTag => exists c :: r == m.OpenIf(c, false)
    case ElseTag => m.ifStack != [] && r == m.TakeElse()
    case ElseIfTag => m.ifStack != [] && exists c :: r == m.TakeElse().OpenIf(c, true)
    case EndIfTag => m.ifStack != [] && r == m.CloseIf()
    case ForTag => exists key, value, c :: r == m.OpenFor(key, value, c)
    case EndForTag => m.forStack != [] && r == m.CloseFor()
    case OtherTag => r == m.(blocks := r.blocks)
  }

  lemma EffectStep(m: Memory, tag: Tag, r: Memory)
    requires WellOrdered(m) && OnTrack(m) && Effect(m, tag, r)
    ensures WellOrdered(r) && StepOk(m, tag, r)
  {
    hide StepOk, Increasing, ParentsOlder, ElseIfsContinue, OnTrack, Memory.OpenIf, Memory.OpenFor, Memory.TakeElse,
      Memory.CloseIf, Memory.CloseFor, Memory.Valid;
    match tag
    case IfTag =>
      var c :| r == m.OpenIf(c, false);
      OpenIfStep(m, c);
    case ElseTag => ElseStep(m);
    case ElseIfTag =>
      var c :| r == m.TakeElse().OpenIf(c, true);
      ElseIfStep(m, c);
    case EndIfTag => CloseIfStep(m);
    case ForTag =>
      var key, value, c :| r == m.OpenFor(key, value, c);
      OpenForStep(m, key, value, c);
    case EndForTag => CloseForStep(m);
    case OtherTag => OtherStep(m, r);
  }

  lemma ForEffect(known: Functions, toks: seq<Token>, i: nat, m: Memory, closing: Token)
    requires i <= |toks| && m.Valid() && ParseFor(known, toks, i, m, closing).Done?
    ensures Effect(m, ForTag, ParseFor(known, toks, i, m, closing).value.0)
  {
    hide Condition, Memory.OpenFor, Memory.Valid;
  }

  lemma SetEffect(known: Functions, toks: seq<Token>, i: nat, m: Memory, closing: Token)
    requires i <= |toks| && m.Valid() && ParseSet(known, toks, i, m, closing).Done?
    ensures Effect(m, OtherTag, ParseSet(known, toks, i, m, closing).value.0)
  {
    hide Condition, Memory.Valid;
  }

  lemma ElseEffect(known: Functions, toks: seq<Token>, i: nat, m: Memory, closing: Token)
    requires i <= |toks| && m.Valid() && ParseElse(known, toks, i, m, closing).Done?
    ensures Effect(m, if Word(toks, i, "if") then ElseIfTag else ElseTag, ParseElse(known, toks, i, m, closing).value.0)
  {
    hide Condition, Memory.OpenIf, Memory.TakeElse, Memory.Valid, Word;
  }

  lemma IfEffect(known: Functions, toks: seq<Token>, i: nat, m: Memory, closing: Token)
    requires i <= |toks| && m.Valid() && ParseIf(known, toks, i, m, closing, false).Done?
    ensures Effect(m, IfTag, ParseIf(known, toks, i, m, closing, false).value.0)
  {
    hide Condition, Memory.OpenIf, Memory.Valid;
  }

  /** The effect of a statement on the memory. */
  lemma StatementEffect(known: Functions, toks: seq<Token>, i: nat, m: Memory, closing: Token)
    requires i < |toks| && m.Valid() && (toks[i] == StatementOpen || toks[i] == LineStatementOpen)
    requires ParseStatement(known, toks, i + 1, m, closing).Done?
    ensures Effect(m, TagAt(toks, i), ParseStatement(known, toks, i + 1, m, closing).value.0)
  {
    hide ParseIf, ParseElse, ParseFor, ParseSet, Memory.CloseIf, Memory.CloseFor, Memory.Valid, Word, Effect;
    match TagAt(toks, i)
    case IfTag => IfEffect(known, toks, i + 2, m, closing);
    case ElseTag | ElseIfTag => ElseEffect(known, toks, i + 2, m, closing);
    case ForTag => ForEffect(known, toks, i + 2, m, closing);
    case EndIfTag | EndForTag => EndEffect(m);
    case OtherTag => SetEffect(known, toks, i + 2, m, closing);
  }

  lemma EndEffect(m: Memory)
    requires m.Valid()
    ensures m.ifStack != [] ==> Effect(m, EndIfTag, m.CloseIf())
    ensures m.forStack != [] ==> Effect(m, EndForTag, m.CloseFor())
  {
    hide Memory.CloseIf, Memory.CloseFor, Memory.Valid;
  }

  lemma ItemEffect(known: Functions, toks: seq<Token>, i: nat, m: Memory)
    requires i <= |toks| && m.Valid() && TokenAt(toks, i) != Eof && ParseItem(known, toks, i, m).Done?
    ensures Effect(m, TagAt(toks, i), ParseItem(known, toks, i, m).value.0)
  {
    var t := toks[i];
    if t == StatementOpen {
      StatementEffect(known, toks, i, m, StatementClose);
    } else if t == LineStatementOpen {
      StatementEffect(known, toks, i, m, LineStatementClose);
    }
    hide ParseStatement, ParseExpression, Memory.Valid, Effect;
  }

  /** After each of the first `n` turns the cursor is on track. */
  ghost predicate OnTrackFor(ts: seq<Turn>, n: nat)
    requires n <= |ts| && forall k :: 0 <= k < n ==> ts[k].after.Valid()
  {
    forall k :: 0 <= k < n ==> OnTrack(ts[k].after)
  }

  lemma {:induction false} TurnsValid(known: Functions, toks: seq<Token>, i: nat, m: Memory)
    requires i <= |toks| && m.Valid()
    ensures forall k :: 0 <= k < |Turns(known, toks, i, m)| ==> Turns(known, toks, i, m)[k].after.Valid()
    decreases |toks| - i
  {
    if TokenAt(toks, i) != Eof && ParseItem(known, toks, i, m).Done? {
      var (r, j) := ParseItem(known, toks, i, m).value;
      TurnsValid(known, toks, j, r);
    }
    hide ParseItem, Memory.Valid;
  }

  lemma TagsPrefix(t: Turn, ts: seq<Turn>, n: nat)
    requires 0 < n <= |ts| + 1
    ensures Tags(([t] + ts)[..n]) == [t.tag] + Tags(ts[..n - 1])
  {
    assert ([t] + ts)[..n][0] == t && ([t] + ts)[..n][1..] == ts[..n - 1];
  }

  lemma NestedCons(stack: seq<Opened>, tag: Tag, tags: seq<Tag>)
    ensures NestedFrom(stack, [tag] + tags)
      <==> StackAfter(stack, tag).Some? && NestedFrom(StackAfter(stack, tag).value, tags)
  {
    hide StackAfter;
    assert ([tag] + tags)[1..] == tags;
  }

  lemma OnTrackCons(t: Turn, ts: seq<Turn>, n: nat)
    requires 0 < n <= |ts| + 1 && t.after.Valid() && forall k :: 0 <= k < |ts| ==> ts[k].after.Valid()
    ensures forall k :: 0 <= k < n ==> ([t] + ts)[k].after.Valid()
    ensures OnTrackFor([t] + ts, n) <==> OnTrack(t.after) && OnTrackFor(ts, n - 1)
  {
    hide OnTrack, Memory.Valid;
    var all := [t] + ts;
    assert all[0] == t && forall k :: 0 < k < n ==> all[k] == ts[k - 1];
    assert forall k :: 0 <= k < n - 1 ==> ts[k] == all[k + 1];
  }

  /** From any memory that is on track, the cursor stays so exactly as long as one stack goes along. */
  lemma {:induction false} TurnsFollow(known: Functions, toks: seq<Token>, i: nat, m: Memory, n: nat)
    requires i <= |toks| && WellOrdered(m) && OnTrack(m) && n <= |Turns(known, toks, i, m)|
    ensures var ts := Turns(known, toks, i, m);
      && (forall k :: 0 <= k < |ts| ==> ts[k].after.Valid())
      && (OnTrackFor(ts, n) <==> NestedFrom(Combined(m, m.ifStack, m.forStack), Tags(ts[..n])))
    decreases n
  {
    TurnsValid(known, toks, i, m);
    if n > 0 {
      var (r, j) := ParseItem(known, toks, i, m).value;
      ItemEffect(known, toks, i, m);
      hide ParseItem;
      TurnsValid(known, toks, j, r);
      FirstTurn(m, TagAt(toks, i), r, Turns(known, toks, j, r), n);
      if OnTrack(r) {
        EffectStep(m, TagAt(toks, i), r);
        TurnsFollow(known, toks, j, r, n - 1);
      }
    }
  }

  /** The first turn decides, or passes the question on to the others. */
  lemma FirstTurn(m: Memory, tag: Tag, r: Memory, ts: seq<Turn>, n: nat)
    requires WellOrdered(m) && OnTrack(m) && Effect(m, tag, r) && r.Valid()
    requires 0 < n <= |ts| + 1 && forall k :: 0 <= k < |ts| ==> ts[k].after.Valid()
    ensures var all := [Turn(tag, r)] + ts;
      && (forall k :: 0 <= k < n ==> all[k].after.Valid())
      && (!OnTrack(r) ==> !OnTrackFor(all, n) && !NestedFrom(Combined(m, m.ifStack, m.forStack), Tags(all[..n])))
      && (OnTrack(r) ==> OnTrackFor(all, n) == OnTrackFor(ts, n - 1))
      && (OnTrack(r) ==> (NestedFrom(Combined(m, m.ifStack, m.forStack), Tags(all[..n]))
                          == NestedFrom(Combined(r, r.ifStack, r.forStack), Tags(ts[..n - 1]))))
  {
    EffectStep(m, tag, r);
    OnTrackCons(Turn(tag, r), ts, n);
    TagsPrefix(Turn(tag, r), ts, n);
    NestedCons(Combined(m, m.ifStack, m.forStack), tag, Tags(ts[..n - 1]));
    hide OnTrack, OnTrackFor, Effect, Memory.Valid, Tags, NestedFrom, Combined, Increasing, ParentsOlder,
      ElseIfsContinue,
      StackAfter;
  }

  // ---- The theorem ----

  lemma EmptyOnTrack()
    ensures WellOrdered(EMPTY_MEMORY) && OnTrack(EMPTY_MEMORY) && Combined(EMPTY_MEMORY, [], []) == []
  {
  }

  /**
   For all tokens and as far as they are accepted: the cursor has followed the open statements in every turn if and
   only if the statements are nested.
   */
  lemma CursorFollowsNesting(known: Functions, toks: seq<Token>, n: nat)
    requires n <= |Turns(known, toks, 0, EMPTY_MEMORY)|
    ensures var ts := Turns(known, toks, 0, EMPTY_MEMORY);
      && (forall k :: 0 <= k < |ts| ==> ts[k].after.Valid())
      && ((forall k :: 0 <= k < n ==> OnTrack(ts[k].after)) <==> Nested(Tags(ts[..n])))
  {
    EmptyOnTrack();
    hide WellOrdered, OnTrack, NestedFrom, Turns, Combined;
    TurnsFollow(known, toks, 0, EMPTY_MEMORY, n);
  }

  /** The tags of all that the parser reads. */
  function TagsRead(known: Functions, toks: seq<Token>): seq<Tag> {
    Tags(Turns(known, toks, 0, EMPTY_MEMORY))
  }

  /** The last turn leaves the memory that the parser returns. */
  lemma {:induction false} LastTurn(known: Functions, toks: seq<Token>, i: nat, m: Memory)
    requires i <= |toks| && m.Valid() && ParseInto(known, toks, i, m).Done?
    ensures var ts := Turns(known, toks, i, m);
      ParseInto(known, toks, i, m).value == if ts == [] then m else ts[|ts| - 1].after
    decreases |toks| - i
  {
    if TokenAt(toks, i) != Eof {
      var (r, j) := ParseItem(known, toks, i, m).value;
      LastTurn(known, toks, j, r);
    }
    hide ParseItem, Memory.Valid;
  }

  /** A nested template that is accepted leaves the cursor at the root. */
  lemma NestedEndsAtTop(known: Functions, toks: seq<Token>)
    requires ParseInto(known, toks, 0, EMPTY_MEMORY).Done? && Nested(TagsRead(known, toks))
    ensures ParseInto(known, toks, 0, EMPTY_MEMORY).value.current == Top
  {
    var ts := Turns(known, toks, 0, EMPTY_MEMORY);
    EmptyOnTrack();
    LastTurn(known, toks, 0, EMPTY_MEMORY);
    CursorFollowsNesting(known, toks, |ts|);
    assert ts[..|ts|] == ts;
    hide Turns, Nested, ParseInto;
    if ts != [] {
      assert OnTrack(ts[|ts| - 1].after);
    }
  }
}
