/**
 Which sequences of operands and operators the two stacks accept. The parser does not ask for operators between
 operands: only the numbers of those that it has read decide.
 */
module InjaAcceptance {
  import opened Sequences
  import opened InjaSyntax
  import opened InjaExpression
  import opened InjaExpressionProof
  import opened InjaOperatorOrder
  import opened InjaGrouping

  // ---- Sequences ----

  predicate IsOperand(t: Token) {
    IsLiteralToken(t) || (t.Id? && PlainName(t.name))
  }

  function OperandOf(t: Token): Expr {
    if t.Id? && !IsLiteralToken(t) then Data(t.name) else Literal(t)
  }

  predicate IsOp(toks: seq<Token>, k: int) {
    0 <= k < |toks| && TokenOperator(toks[k]).Some?
  }

  function OpAt(toks: seq<Token>, k: nat): Op
    requires IsOp(toks, k)
  {
    TokenOperator(toks[k]).value
  }

  /** Operands and operators in any order, and nothing else. */
  predicate Plain(toks: seq<Token>) {
    forall k {:trigger toks[k]} :: 0 <= k < |toks| ==> IsOp(toks, k) || IsOperand(toks[k])
  }

  function Operands(toks: seq<Token>, n: nat): nat
    requires n <= |toks|
  {
    if n == 0 then 0 else Operands(toks, n - 1) + (if IsOp(toks, n - 1) then 0 else 1)
  }

  /** The operators among the first `n` tokens that take two operands. */
  function Binaries(toks: seq<Token>, n: nat): nat
    requires n <= |toks|
  {
    if n == 0 then 0 else Binaries(toks, n - 1) + (if IsOp(toks, n - 1) && OpAt(toks, n - 1) != Not then 1 else 0)
  }

  /** An operator before the token at `j` makes the one at `k` apply. */
  predicate Applied(toks: seq<Token>, k: nat, j: nat)
    requires IsOp(toks, k)
  {
    exists i :: k < i < j && IsOp(toks, i) && Pops(OpAt(toks, k), OpAt(toks, i))
  }

  /** How many operators among the first `n` take two operands and are applied before the token at `j`. */
  function AppliedBinaries(toks: seq<Token>, j: nat, n: nat): nat
    requires n <= |toks|
  {
    if n == 0 then 0
    else
      var takes := IsOp(toks, n - 1) && OpAt(toks, n - 1) != Not && Applied(toks, n - 1, j);
      AppliedBinaries(toks, j, n - 1) + (if takes then 1 else 0)
  }

  /** Some operator before the one at `j` gives way to it. */
  predicate MakesApply(toks: seq<Token>, j: nat)
    requires IsOp(toks, j)
  {
    exists k :: 0 <= k < j && IsOp(toks, k) && Pops(OpAt(toks, k), OpAt(toks, j))
  }

  /** Where an operator makes others apply, more operands have been read than operators of two have used up. */
  predicate EnoughAt(toks: seq<Token>, j: nat)
    requires IsOp(toks, j)
  {
    MakesApply(toks, j) ==> Operands(toks, j) > AppliedBinaries(toks, j + 1, j)
  }

  predicate EnoughFrom(toks: seq<Token>, i: nat) {
    forall j :: i <= j < |toks| && IsOp(toks, j) ==> EnoughAt(toks, j)
  }

  /** One operand more than operators of two, and enough operands whenever operators are applied. */
  predicate Acceptable(toks: seq<Token>) {
    toks != [] ==> Operands(toks, |toks|) == Binaries(toks, |toks|) + 1 && EnoughFrom(toks, 0)
  }

  // ---- The operators that wait ----

  /** The operators among the first `n` tokens that are not applied before the token at `j`. */
  function Waiting(toks: seq<Token>, j: nat, n: nat): seq<Op>
    requires n <= |toks|
  {
    if n == 0 then []
    else if IsOp(toks, n - 1) && !Applied(toks, n - 1, j) then Waiting(toks, j, n - 1) + [OpAt(toks, n - 1)]
    else Waiting(toks, j, n - 1)
  }

  function Count(ops: seq<Op>): nat {
    if ops == [] then 0 else Count(ops[..|ops| - 1]) + (if ops[|ops| - 1] == Not then 0 else 1)
  }

  lemma CountNone()
    ensures Count([]) == 0
  {
  }

  lemma CountPush(ops: seq<Op>, op: Op)
    ensures Count(ops + [op]) == Count(ops) + (if op == Not then 0 else 1)
  {
    assert (ops + [op])[..|ops|] == ops;
  }

  lemma {:induction false} WaitingCounts(toks: seq<Token>, j: nat, n: nat)
    requires n <= |toks|
    ensures Count(Waiting(toks, j, n)) + AppliedBinaries(toks, j, n) == Binaries(toks, n)
  {
    hide Applied, OpAt, Count;
    if n > 0 {
      WaitingCounts(toks, j, n - 1);
      if IsOp(toks, n - 1) {
        CountPush(Waiting(toks, j, n - 1), OpAt(toks, n - 1));
      }
    } else {
      CountNone();
    }
  }

  /** The operators that stay on the stack when `op` is pushed. */
  function Kept(ops: seq<Op>, op: Op): seq<Op> {
    if ops != [] && Pops(ops[|ops| - 1], op) then Kept(ops[..|ops| - 1], op) else ops
  }

  lemma AppliedNext(toks: seq<Token>, k: nat, j: nat)
    requires IsOp(toks, k) && k < j
    ensures Applied(toks, k, j + 1) <==> Applied(toks, k, j) || (IsOp(toks, j) && Pops(OpAt(toks, k), OpAt(toks, j)))
  {
    hide Pops;
  }

  /** What waits for an operator that waits for the one at `j` also waits for this. */
  lemma {:induction false} SameBelow(toks: seq<Token>, t: nat, j: nat, n: nat)
    requires n <= t < j && IsOp(toks, t) && IsOp(toks, j) && !Pops(OpAt(toks, t), OpAt(toks, j))
    ensures Waiting(toks, j + 1, n) == Waiting(toks, j, n)
    decreases n
  {
    if n > 0 {
      SameBelow(toks, t, j, n - 1);
      if IsOp(toks, n - 1) {
        AppliedNext(toks, n - 1, j);
        if !Applied(toks, n - 1, j) {
          StillWaits(toks, n - 1, t, j);
        }
      }
      hide Applied, Pops;
    }
  }

  lemma StillWaits(toks: seq<Token>, k: nat, t: nat, j: nat)
    requires IsOp(toks, k) && IsOp(toks, t) && IsOp(toks, j) && k < t < j
    requires !Applied(toks, k, j) && !Pops(OpAt(toks, t), OpAt(toks, j))
    ensures !Pops(OpAt(toks, k), OpAt(toks, j))
  {
    assert !Pops(OpAt(toks, k), OpAt(toks, t));
    WaitingIsTransitive(OpAt(toks, k), OpAt(toks, t), OpAt(toks, j));
  }

  lemma KeptPush(ops: seq<Op>, top: Op, op: Op)
    ensures Kept(ops + [top], op) == if Pops(top, op) then Kept(ops, op) else ops + [top]
  {
    assert (ops + [top])[..|ops|] == ops;
    hide Pops;
  }

  /** Pushing an operator applies exactly those that give way to it. */
  lemma {:induction false} WaitingNext(toks: seq<Token>, j: nat, n: nat)
    requires n <= j && IsOp(toks, j)
    ensures Waiting(toks, j + 1, n) == Kept(Waiting(toks, j, n), OpAt(toks, j))
  {
    hide Applied, Pops;
    if n > 0 {
      WaitingNext(toks, j, n - 1);
      if IsOp(toks, n - 1) {
        AppliedNext(toks, n - 1, j);
        KeptPush(Waiting(toks, j, n - 1), OpAt(toks, n - 1), OpAt(toks, j));
        if !Pops(OpAt(toks, n - 1), OpAt(toks, j)) && !Applied(toks, n - 1, j) {
          SameBelow(toks, n - 1, j, n - 1);
        }
      }
    }
  }

  lemma {:induction false} WaitingSame(toks: seq<Token>, j: nat, n: nat)
    requires n <= j < |toks| && !IsOp(toks, j)
    ensures Waiting(toks, j + 1, n) == Waiting(toks, j, n)
  {
    if n > 0 {
      WaitingSame(toks, j, n - 1);
      if IsOp(toks, n - 1) {
        AppliedNext(toks, n - 1, j);
      }
      hide Applied;
    }
  }

  lemma NotAppliedYet(toks: seq<Token>, j: nat)
    requires IsOp(toks, j)
    ensures !Applied(toks, j, j + 1)
  {
  }

  /** The stack before the token at `j`. */
  function OpsAt(toks: seq<Token>, j: nat): seq<Op>
    requires j <= |toks|
  {
    Waiting(toks, j, j)
  }

  lemma OpsNext(toks: seq<Token>, j: nat)
    requires j < |toks|
    ensures OpsAt(toks, j + 1) == if IsOp(toks, j) then Kept(OpsAt(toks, j), OpAt(toks, j)) + [OpAt(toks, j)]
      else OpsAt(toks, j)
  {
    hide Applied, Pops, Kept;
    if IsOp(toks, j) {
      WaitingNext(toks, j, j);
      NotAppliedYet(toks, j);
    } else {
      WaitingSame(toks, j, j);
    }
  }

  // ---- The arguments that are there ----

  lemma AddCounts(s: Stacks)
    requires s.ops != []
    ensures var top := s.ops[|s.ops| - 1]; var r := AddOperator(s); var used := if top == Not then 0 else 1;
      && Count(s.ops) == Count(s.ops[..|s.ops| - 1]) + used
      && (r.Done? <==> |s.args| > used)
      && (r.Done? ==> r.value.ops == s.ops[..|s.ops| - 1] && |r.value.args| == |s.args| - used)
  {
  }

  lemma {:induction false} KeptBounds(ops: seq<Op>, op: Op)
    ensures |Kept(ops, op)| <= |ops| && Count(Kept(ops, op)) <= Count(ops)
  {
    hide Pops;
    if ops != [] && Pops(ops[|ops| - 1], op) {
      KeptBounds(ops[..|ops| - 1], op);
    }
  }

  /** The loop that makes room succeeds exactly if it has nothing to do or leaves an argument. */
  lemma {:induction false} ReduceCounts(s: Stacks, op: Op)
    ensures var kept := Kept(s.ops, op); var r := Reduce(s, op);
      && |kept| <= |s.ops| && Count(kept) <= Count(s.ops)
      && (r.Done? <==> kept == s.ops || |s.args| > Count(s.ops) - Count(kept))
      && (r.Done? ==> r.value.ops == kept && |r.value.args| == |s.args| - (Count(s.ops) - Count(kept)))
    decreases |s.ops|
  {
    KeptBounds(s.ops, op);
    hide Pops, AddOperator, Count;
    if s.ops != [] && Pops(s.ops[|s.ops| - 1], op) {
      AddCounts(s);
      KeptBounds(s.ops[..|s.ops| - 1], op);
      var t := AddOperator(s);
      if t.Done? {
        ReduceCounts(t.value, op);
      }
    }
  }

  lemma {:induction false} ReduceAllCounts(s: Stacks)
    ensures var r := ReduceAll(s);
      && (r.Done? <==> s.ops == [] || |s.args| > Count(s.ops))
      && (r.Done? ==> |r.value.args| == |s.args| - Count(s.ops))
    decreases |s.ops|
  {
    hide AddOperator, Count;
    if s.ops != [] {
      AddCounts(s);
      var t := AddOperator(s);
      if t.Done? {
        ReduceAllCounts(t.value);
      }
    } else {
      CountNone();
    }
  }

  /** How many arguments are on the stack before the token at `j`, if the parser comes there. */
  function ArgsAt(toks: seq<Token>, j: nat): int
    requires j <= |toks|
  {
    Operands(toks, j) - (Binaries(toks, j) - Count(OpsAt(toks, j)))
  }

  predicate SomeApplied(toks: seq<Token>, j: nat) {
    exists k :: 0 <= k < j && IsOp(toks, k) && Applied(toks, k, j)
  }

  /** The stacks are those before the token at `j`, and an operator that has been applied has left an argument. */
  predicate StacksAt(toks: seq<Token>, j: nat, s: Stacks)
    requires j <= |toks|
  {
    s.ops == OpsAt(toks, j) && |s.args| == ArgsAt(toks, j) && (SomeApplied(toks, j) ==> s.args != [])
  }

  /** Operators leave the stack only if they give way. */
  lemma {:induction false} LeavesMakesApply(toks: seq<Token>, j: nat, n: nat)
    requires n <= j && IsOp(toks, j) && Waiting(toks, j + 1, n) != Waiting(toks, j, n)
    ensures MakesApply(toks, j)
  {
    if n > 0 {
      if IsOp(toks, n - 1) {
        AppliedNext(toks, n - 1, j);
      }
      if Waiting(toks, j + 1, n - 1) != Waiting(toks, j, n - 1) {
        LeavesMakesApply(toks, j, n - 1);
      }
      hide Applied, Pops;
    }
  }

  lemma {:induction false} FewerWait(toks: seq<Token>, j: nat, n: nat)
    requires n <= j && IsOp(toks, j)
    ensures |Waiting(toks, j + 1, n)| <= |Waiting(toks, j, n)|
  {
    if n > 0 {
      FewerWait(toks, j, n - 1);
      if IsOp(toks, n - 1) {
        AppliedNext(toks, n - 1, j);
      }
      hide Applied, Pops;
    }
  }

  /** An operator that is applied leaves the stack. */
  lemma {:induction false} AppliedLeaves(toks: seq<Token>, j: nat, n: nat, k: nat)
    requires k < n <= j && IsOp(toks, j) && IsOp(toks, k)
    requires !Applied(toks, k, j) && Applied(toks, k, j + 1)
    ensures |Waiting(toks, j + 1, n)| < |Waiting(toks, j, n)|
  {
    hide Applied, Pops;
    FewerWait(toks, j, n - 1);
    if IsOp(toks, n - 1) {
      AppliedNext(toks, n - 1, j);
    }
    if k < n - 1 {
      AppliedLeaves(toks, j, n - 1, k);
    }
  }

  /** If nothing leaves the stack, nothing is applied that was not applied before. */
  lemma NothingNew(toks: seq<Token>, j: nat, k: nat)
    requires k < j && IsOp(toks, j) && IsOp(toks, k) && Applied(toks, k, j + 1)
    requires Waiting(toks, j + 1, j) == Waiting(toks, j, j)
    ensures Applied(toks, k, j)
  {
    hide Applied;
    if !Applied(toks, k, j) {
      AppliedLeaves(toks, j, j, k);
    }
  }

  /** What an operator finds on the stacks, in terms of what has been read. */
  lemma EnoughForOperator(toks: seq<Token>, j: nat, s: Stacks)
    requires IsOp(toks, j) && StacksAt(toks, j, s)
    ensures Reduce(s, OpAt(toks, j)).Done? <==> EnoughAt(toks, j)
  {
    var op := OpAt(toks, j);
    ReduceCounts(s, op);
    WaitingNext(toks, j, j);
    WaitingCounts(toks, j + 1, j);
    hide Reduce, Kept, Count, Waiting, Operands, Binaries, AppliedBinaries, Pops, Applied;
    if Kept(s.ops, op) != s.ops {
      LeavesMakesApply(toks, j, j);
    } else if MakesApply(toks, j) {
      var k :| 0 <= k < j && IsOp(toks, k) && Pops(OpAt(toks, k), OpAt(toks, j));
      AppliedNext(toks, k, j);
      NothingNew(toks, j, k);
    }
  }

  /** After an operator that was accepted. */
  lemma AfterOperator(toks: seq<Token>, j: nat, s: Stacks)
    requires IsOp(toks, j) && StacksAt(toks, j, s) && Reduce(s, OpAt(toks, j)).Done?
    ensures StacksAt(toks, j + 1, Push(Reduce(s, OpAt(toks, j)).value, Stacks([], [OpAt(toks, j)])))
  {
    var op := OpAt(toks, j);
    var u := Reduce(s, op).value;
    ReduceCounts(s, op);
    OpsNext(toks, j);
    WaitingNext(toks, j, j);
    CountPush(Kept(s.ops, op), op);
    assert u.args + [] == u.args;
    hide Reduce, Kept, Count, Waiting, Pops, Applied;
    if SomeApplied(toks, j + 1) && Kept(s.ops, op) == s.ops {
      var k :| 0 <= k < j + 1 && IsOp(toks, k) && Applied(toks, k, j + 1);
      NotAppliedYet(toks, j);
      NothingNew(toks, j, k);
    }
  }

  lemma AfterOperand(toks: seq<Token>, j: nat, s: Stacks, e: Expr)
    requires j < |toks| && !IsOp(toks, j) && StacksAt(toks, j, s)
    ensures StacksAt(toks, j + 1, PushArg(s, e))
  {
    OpsNext(toks, j);
    assert s.ops + [] == s.ops;
    hide OpsAt, Count, SomeApplied;
  }

  lemma OperandReads(known: Functions, toks: seq<Token>, j: nat, s: Stacks)
    requires Plain(toks) && j < |toks| && IsOperand(toks[j])
    ensures !IsOp(toks, j) && Loop(known, toks, j, s) == Loop(known, toks, j + 1, PushArg(s, OperandOf(toks[j])))
  {
    var t := toks[j];
    OperandIsNoOperator(t);
    if IsLiteralToken(t) {
      LoopLiteral(known, toks, j, s, t);
    } else {
      assert TokenAt(toks, j + 1) != LeftParen;
      LoopData(known, toks, j, s, t.name);
    }
    hide Loop, IsLiteralToken, PlainName;
  }

  lemma OperandIsNoOperator(t: Token)
    requires IsOperand(t)
    ensures TokenOperator(t).None?
  {
  }

  lemma OperatorReads(known: Functions, toks: seq<Token>, j: nat, s: Stacks)
    requires IsOp(toks, j)
    ensures var u := Reduce(s, OpAt(toks, j));
      && (u.Throw? ==> Loop(known, toks, j, s).Throw?)
      && (u.Done? ==>
           Loop(known, toks, j, s) == Loop(known, toks, j + 1, Push(u.value, Stacks([], [OpAt(toks, j)]))))
  {
    OperatorTokenOf(toks[j]);
    var op := OpAt(toks, j);
    if Reduce(s, op).Done? {
      LoopOperator(known, toks, j, s, op, Reduce(s, op).value);
    } else {
      LoopThrows(known, toks, j, s, op);
    }
    hide Loop, Reduce, TokenOperator, OperatorToken;
  }

  /** Only the token of an operator denotes it. */
  lemma OperatorTokenOf(t: Token)
    requires TokenOperator(t).Some?
    ensures OperatorToken(TokenOperator(t).value) == t
  {
  }

  lemma {:induction false} OpsStay(toks: seq<Token>, n: nat)
    requires n <= |toks| && OpsAt(toks, n) == []
    ensures Binaries(toks, n) == 0 && Operands(toks, n) == n
  {
    if n > 0 {
      OpsNext(toks, n - 1);
      OpsStay(toks, n - 1);
    }
    hide OpsAt, Kept;
  }

  /** What is left at the end. */
  predicate Balanced(toks: seq<Token>) {
    toks == [] || Operands(toks, |toks|) == Binaries(toks, |toks|) + 1
  }

  lemma FinishCounts(known: Functions, toks: seq<Token>, s: Stacks)
    requires StacksAt(toks, |toks|, s)
    ensures var r := Loop(known, toks, |toks|, s);
      && (r.Done? <==> Balanced(toks))
      && (r.Done? ==> r.value.1 == |toks| && (r.value.0.None? <==> toks == []))
  {
    assert Stops(TokenAt(toks, |toks|));
    LoopStop(known, toks, |toks|, s);
    ReduceAllCounts(s);
    if s.ops == [] {
      OpsStay(toks, |toks|);
      CountNone();
    }
    hide Loop, ReduceAll, OpsAt, Count, SomeApplied, Binaries, Operands;
    EmptyCounts();
  }

  lemma EmptyCounts()
    ensures Operands([], 0) == 0 && Binaries([], 0) == 0
  {
  }

  lemma {:induction false} LoopCounts(known: Functions, toks: seq<Token>, j: nat, s: Stacks)
    requires Plain(toks) && j <= |toks| && StacksAt(toks, j, s)
    ensures var r := Loop(known, toks, j, s);
      && (r.Done? <==> EnoughFrom(toks, j) && Balanced(toks))
      && (r.Done? ==> r.value.1 == |toks| && (r.value.0.None? <==> toks == []))
    decreases |toks| - j
  {
    hide Loop, StacksAt, Balanced, EnoughAt, Reduce, IsOperand;
    if j == |toks| {
      FinishCounts(known, toks, s);
    } else if IsOp(toks, j) {
      EnoughForOperator(toks, j, s);
      OperatorReads(known, toks, j, s);
      if Reduce(s, OpAt(toks, j)).Done? {
        AfterOperator(toks, j, s);
        LoopCounts(known, toks, j + 1, Push(Reduce(s, OpAt(toks, j)).value, Stacks([], [OpAt(toks, j)])));
      }
    } else {
      OperandReads(known, toks, j, s);
      AfterOperand(toks, j, s, OperandOf(toks[j]));
      LoopCounts(known, toks, j + 1, PushArg(s, OperandOf(toks[j])));
    }
  }

  /**
   For all sequences of operands and operators: the parser accepts exactly those with one operand more than
   operators of two, and enough operands wherever operators are applied; it then reads them all.
   */
  lemma AcceptedExactly(known: Functions, toks: seq<Token>)
    requires Plain(toks)
    ensures var r := ParseExpression(known, toks, 0);
      && (r.Done? <==> Acceptable(toks))
      && (r.Done? ==> r.value.1 == |toks| && (r.value.0.None? <==> toks == []))
  {
    StartExpression(known, toks);
    StartCounts(toks);
    LoopCounts(known, toks, 0, Stacks([], []));
    hide Loop, EnoughAt;
  }

  lemma StartCounts(toks: seq<Token>)
    ensures StacksAt(toks, 0, Stacks([], []))
  {
  }

  // ---- Sequences that are no infix expressions ----

  lemma ReadOperand(known: Functions, toks: seq<Token>, j: nat, args: seq<Expr>, ops: seq<Op>)
    requires Plain(toks) && j < |toks| && IsOperand(toks[j])
    ensures Loop(known, toks, j, Stacks(args, ops))
      == Loop(known, toks, j + 1, Stacks(args + [OperandOf(toks[j])], ops))
  {
    OperandReads(known, toks, j, Stacks(args, ops));
    assert ops + [] == ops;
    hide Loop, OperandOf;
  }

  lemma ReadOperator(known: Functions, toks: seq<Token>, j: nat, s: Stacks, op: Op, u: Stacks)
    requires j < |toks| && toks[j] == OperatorToken(op) && Reduce(s, op) == Done(u)
    ensures Loop(known, toks, j, s) == Loop(known, toks, j + 1, Stacks(u.args, u.ops + [op]))
  {
    LoopOperator(known, toks, j, s, op, u);
    assert u.args + [] == u.args;
    hide Loop, Reduce, OperatorToken;
  }

  lemma FinishWith(s: Stacks, e: Expr, i: nat)
    requires ReduceAll(s) == Done(Stacks([e], []))
    ensures Finish(s, i) == Done((Some(e), i))
  {
    hide ReduceAll;
  }

  lemma ReadEnd(known: Functions, toks: seq<Token>, s: Stacks, e: Expr)
    requires ReduceAll(s) == Done(Stacks([e], []))
    ensures Loop(known, toks, |toks|, s) == Done((Some(e), |toks|))
  {
    FinishWith(s, e, |toks|);
    EndStops(toks);
    hide *;
    LoopStop(known, toks, |toks|, s);
  }

  lemma NothingToReduce(args: seq<Expr>, op: Op)
    ensures Reduce(Stacks(args, []), op) == Done(Stacks(args, []))
  {
  }

  lemma AddBinary(s: Stacks, args: seq<Expr>, x: Expr, y: Expr, ops: seq<Op>, op: Op)
    requires op != Not && s.args == args + [x, y] && s.ops == ops + [op]
    ensures AddOperator(s) == Done(Stacks(args + [Binary(op, x, y)], ops))
  {
    assert s.args[..|s.args| - 2] == args && s.ops[..|s.ops| - 1] == ops;
  }

  lemma AddPrefix(s: Stacks, args: seq<Expr>, x: Expr, ops: seq<Op>)
    requires s.args == args + [x] && s.ops == ops + [Not]
    ensures AddOperator(s) == Done(Stacks(args + [Prefix(x)], ops))
  {
    assert s.args[..|s.args| - 1] == args && s.ops[..|s.ops| - 1] == ops;
  }

  lemma ReduceOne(x: Expr, y: Expr, op: Op)
    requires op != Not
    ensures ReduceAll(Stacks([x, y], [op])) == Done(Stacks([Binary(op, x, y)], []))
  {
    assert [] + [x, y] == [x, y] && [] + [op] == [op] && [] + [Binary(op, x, y)] == [Binary(op, x, y)];
    AddBinary(Stacks([x, y], [op]), [], x, y, [], op);
    hide AddOperator;
  }

  lemma PlainOperator(op: Op)
    ensures TokenOperator(OperatorToken(op)) == Some(op)
  {
  }

  /** An operator may stand after its operands. */
  lemma AfterBoth(known: Functions, x: Token, y: Token, op: Op)
    requires IsOperand(x) && IsOperand(y) && op != Not
    ensures ParseExpression(known, [x, y, OperatorToken(op)], 0)
      == Done((Some(Binary(op, OperandOf(x), OperandOf(y))), 3))
  {
    PlainOperator(op);
    hide IsOperand, OperandOf, Loop, Reduce, ReduceAll, OperatorToken, TokenOperator;
    var toks, a, b := [x, y, OperatorToken(op)], OperandOf(x), OperandOf(y);
    StartExpression(known, toks);
    ReadOperand(known, toks, 0, [], []);
    ReadOperand(known, toks, 1, [a], []);
    assert [] + [a] == [a] && [a] + [b] == [a, b];
    NothingToReduce([a, b], op);
    ReadOperator(known, toks, 2, Stacks([a, b], []), op, Stacks([a, b], []));
    assert [] + [op] == [op];
    ReduceOne(a, b, op);
    ReadEnd(known, toks, Stacks([a, b], [op]), Binary(op, a, b));
  }

  /** An operator may stand before its operands. */
  lemma BeforeBoth(known: Functions, x: Token, y: Token, op: Op)
    requires IsOperand(x) && IsOperand(y) && op != Not
    ensures ParseExpression(known, [OperatorToken(op), x, y], 0)
      == Done((Some(Binary(op, OperandOf(x), OperandOf(y))), 3))
  {
    PlainOperator(op);
    hide IsOperand, OperandOf, Loop, Reduce, ReduceAll, OperatorToken, TokenOperator;
    var toks, a, b := [OperatorToken(op), x, y], OperandOf(x), OperandOf(y);
    StartExpression(known, toks);
    NothingToReduce([], op);
    ReadOperator(known, toks, 0, Stacks([], []), op, Stacks([], []));
    assert [] + [op] == [op];
    ReadOperand(known, toks, 1, [], [op]);
    ReadOperand(known, toks, 2, [a], [op]);
    assert [] + [a] == [a] && [a] + [b] == [a, b];
    ReduceOne(a, b, op);
    ReadEnd(known, toks, Stacks([a, b], [op]), Binary(op, a, b));
  }

  lemma ProductIsKept(args: seq<Expr>)
    ensures Reduce(Stacks(args, [Add]), Multiplication) == Done(Stacks(args, [Add]))
  {
  }

  lemma ProductIsApplied(x: Expr, y: Expr)
    ensures Reduce(Stacks([x, y], [Add, Multiplication]), Not) == Done(Stacks([Binary(Multiplication, x, y)], [Add]))
  {
    var product := Binary(Multiplication, x, y);
    assert [] + [x, y] == [x, y] && [Add] + [Multiplication] == [Add, Multiplication] && [] + [product] == [product];
    AddBinary(Stacks([x, y], [Add, Multiplication]), [], x, y, [Add], Multiplication);
    hide AddOperator;
    assert Reduce(Stacks([product], [Add]), Not) == Done(Stacks([product], [Add]));
  }

  lemma SumOfNot(x: Expr, y: Expr)
    ensures ReduceAll(Stacks([x, y], [Add, Not])) == Done(Stacks([Binary(Add, x, Prefix(y))], []))
  {
    assert [x] + [y] == [x, y] && [Add] + [Not] == [Add, Not] && [x] + [Prefix(y)] == [x, Prefix(y)];
    AddPrefix(Stacks([x, y], [Add, Not]), [x], y, [Add]);
    ReduceOne(x, Prefix(y), Add);
    hide AddOperator;
  }

  /** x + y * not z is read as x * y + not z. */
  lemma NotMovesOperator(known: Functions, x: Token, y: Token, z: Token)
    requires IsOperand(x) && IsOperand(y) && IsOperand(z)
    ensures ParseExpression(known,
        [x, OperatorToken(Add), y, OperatorToken(Multiplication), OperatorToken(Not), z], 0)
      == Done((Some(Binary(Add, Binary(Multiplication, OperandOf(x), OperandOf(y)), Prefix(OperandOf(z)))), 6))
  {
    PlainOperator(Add);
    PlainOperator(Multiplication);
    PlainOperator(Not);
    hide IsOperand, OperandOf, Loop, Reduce, ReduceAll, OperatorToken, TokenOperator;
    var toks := [x, OperatorToken(Add), y, OperatorToken(Multiplication), OperatorToken(Not), z];
    var a, b, c := OperandOf(x), OperandOf(y), OperandOf(z);
    var product := Binary(Multiplication, a, b);
    StartExpression(known, toks);
    ReadOperand(known, toks, 0, [], []);
    assert [] + [a] == [a] && [a] + [b] == [a, b] && [product] + [c] == [product, c];
    NothingToReduce([a], Add);
    ReadOperator(known, toks, 1, Stacks([a], []), Add, Stacks([a], []));
    assert [] + [Add] == [Add] && [Add] + [Multiplication] == [Add, Multiplication] && [Add] + [Not] == [Add, Not];
    ReadOperand(known, toks, 2, [a], [Add]);
    ProductIsKept([a, b]);
    ReadOperator(known, toks, 3, Stacks([a, b], [Add]), Multiplication, Stacks([a, b], [Add]));
    ProductIsApplied(a, b);
    ReadOperator(known, toks, 4, Stacks([a, b], [Add, Multiplication]), Not, Stacks([product], [Add]));
    ReadOperand(known, toks, 5, [product], [Add, Not]);
    SumOfNot(product, c);
    ReadEnd(known, toks, Stacks([product, c], [Add, Not]), Binary(Add, product, Prefix(c)));
  }
}
