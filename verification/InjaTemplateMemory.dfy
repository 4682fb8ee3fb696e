/**
 The tree that the parser leaves in its memory. `BuildBlock` says step by step what parsing does; here
 the result is read back, and the template that was printed is what it holds.
 */
module InjaTemplateMemory {
  import opened Sequences
  import opened InjaSyntax
  import opened InjaExpression
  import opened InjaExpressionProof
  import opened InjaStatements
  import opened InjaTemplateProof

  // ---- Which tree a memory holds ----

  /** The nodes of the block `home` are the statements of `b`; nodes are at addresses from `lo` up. */
  predicate HoldsNodes(m: Memory, home: BlockRef, nodes: seq<Node>, b: seq<Stmt>, lo: nat)
    decreases b
  {
    if b == [] then nodes == []
    else nodes != [] && HoldsStmt(m, home, nodes[0], b[0], lo) && HoldsNodes(m, home, nodes[1..], b[1..], lo)
  }

  predicate HoldsStmt(m: Memory, home: BlockRef, n: Node, s: Stmt, lo: nat)
    decreases s
  {
    match s
    case Plain(text) => n == TextNode(text)
    case Output(e) => n == OutputNode(Some(e))
    case SetStmt(key, e) => n == SetNode(key, Some(e))
    case IfStmt(c, t, e) => n.StatementNode? && HoldsIfAt(m, home, n.id, false, c, !e.NoElse?, lo)
      && HoldsNodes(m, TrueOf(n.id), m.Block(TrueOf(n.id)), t, lo) && HoldsElse(m, n.id, e, lo)
    case ForStmt(key, value, c, b) =>
      && n.StatementNode? && lo <= n.id < |m.statements|
      && m.statements[n.id] == For(key, value, Some(c), home)
      && HoldsNodes(m, BodyOf(n.id), m.Block(BodyOf(n.id)), b, lo)
  }

  /** An if statement at address `id` in the block `home`. */
  predicate HoldsIfAt(m: Memory, home: BlockRef, id: nat, nested: bool, c: Expr, hasFalse: bool, lo: nat) {
    lo <= id < |m.statements| && m.statements[id] == If(Some(c), home, nested, hasFalse)
  }

  /** The false branch of the if at `id`. */
  predicate HoldsElse(m: Memory, id: nat, e: Else, lo: nat)
    decreases e
  {
    match e
    case NoElse => m.Block(FalseOf(id)) == []
    case ElseBranch(b) => HoldsNodes(m, FalseOf(id), m.Block(FalseOf(id)), b, lo)
    case ElseIf(c, t, f) =>
      var nodes := m.Block(FalseOf(id));
      && |nodes| == 1 && nodes[0].StatementNode? && HoldsIfAt(m, FalseOf(id), nodes[0].id, true, c, !f.NoElse?, lo)
      && HoldsNodes(m, TrueOf(nodes[0].id), m.Block(TrueOf(nodes[0].id)), t, lo) && HoldsElse(m, nodes[0].id, f, lo)
  }

  // ---- Frames ----

  predicate SameBlocks(m: Memory, r: Memory, id: nat) {
    && r.Block(TrueOf(id)) == m.Block(TrueOf(id))
    && r.Block(FalseOf(id)) == m.Block(FalseOf(id))
    && r.Block(BodyOf(id)) == m.Block(BodyOf(id))
  }

  /** Nothing has changed from the address `lo` to the end of `m`. */
  ghost predicate Agrees(m: Memory, r: Memory, lo: nat) {
    && lo <= |m.statements| <= |r.statements|
    && forall k {:trigger m.statements[k]} {:trigger SameBlocks(m, r, k)} ::
         lo <= k < |m.statements| ==> r.statements[k] == m.statements[k] && SameBlocks(m, r, k)
  }

  lemma {:induction false} FrameNodes(
      m: Memory, r: Memory, home: BlockRef, nodes: seq<Node>, b: seq<Stmt>, lo: nat, low: nat)
    requires HoldsNodes(m, home, nodes, b, lo) && Agrees(m, r, lo) && low <= lo
    ensures HoldsNodes(r, home, nodes, b, low)
    decreases b
  {
    if b != [] {
      hide Agrees, HoldsStmt;
      FrameStmt(m, r, home, nodes[0], b[0], lo, low);
      FrameNodes(m, r, home, nodes[1..], b[1..], lo, low);
    }
  }

  lemma {:induction false} FrameStmt(m: Memory, r: Memory, home: BlockRef, n: Node, s: Stmt, lo: nat, low: nat)
    requires HoldsStmt(m, home, n, s, lo) && Agrees(m, r, lo) && low <= lo
    ensures HoldsStmt(r, home, n, s, low)
    decreases s
  {
    hide HoldsNodes, HoldsElse, Memory.Block;
    if s.IfStmt? {
      assert SameBlocks(m, r, n.id);
      FrameNodes(m, r, TrueOf(n.id), m.Block(TrueOf(n.id)), s.thn, lo, low);
      FrameElse(m, r, n.id, s.els, lo, low);
    } else if s.ForStmt? {
      assert SameBlocks(m, r, n.id);
      FrameNodes(m, r, BodyOf(n.id), m.Block(BodyOf(n.id)), s.body, lo, low);
    }
  }

  lemma {:induction false} FrameElse(m: Memory, r: Memory, id: nat, e: Else, lo: nat, low: nat)
    requires HoldsElse(m, id, e, lo) && Agrees(m, r, lo) && low <= lo && SameBlocks(m, r, id)
    ensures HoldsElse(r, id, e, low)
    decreases e
  {
    hide HoldsNodes, Memory.Block;
    if e.ElseBranch? {
      FrameNodes(m, r, FalseOf(id), m.Block(FalseOf(id)), e.body, lo, low);
    } else if e.ElseIf? {
      var k := m.Block(FalseOf(id))[0].id;
      assert SameBlocks(m, r, k);
      FrameNodes(m, r, TrueOf(k), m.Block(TrueOf(k)), e.thn, lo, low);
      FrameElse(m, r, k, e.els, lo, low);
    }
  }

  // ---- What building leaves alone ----

  predicate Known(m: Memory, ref: BlockRef) {
    ref.Top? || ref.id < |m.statements|
  }

  /** No block belongs to a statement that has not been allocated. */
  ghost predicate Tidy(m: Memory) {
    Known(m, m.current) && forall ref :: !Known(m, ref) ==> m.Block(ref) == []
  }

  /** Only the block `at` has got new nodes; all other changes are at new addresses. */
  ghost predicate Extends(m: Memory, r: Memory, at: BlockRef) {
    && |m.statements| <= |r.statements|
    && (forall i :: 0 <= i < |m.statements| ==> r.statements[i] == m.statements[i])
    && (forall ref :: Known(m, ref) && ref != at ==> r.Block(ref) == m.Block(ref))
    && m.Block(at) <= r.Block(at)
  }

  lemma ExtendsTransitive(a: Memory, b: Memory, c: Memory, at: BlockRef)
    requires Extends(a, b, at) && Extends(b, c, at)
    ensures Extends(a, c, at)
  {
    hide Memory.Block;
  }

  /** A block under a statement at `lo` or above is not touched by work in a block below `lo`. */
  lemma ExtendsAgrees(m: Memory, r: Memory, at: BlockRef, lo: nat)
    requires Extends(m, r, at) && lo <= |m.statements| && (at.Top? || at.id < lo)
    ensures Agrees(m, r, lo)
  {
    hide Memory.Block;
    forall k | lo <= k < |m.statements|
      ensures r.statements[k] == m.statements[k] && SameBlocks(m, r, k)
    {
      assert Known(m, TrueOf(k)) && Known(m, FalseOf(k)) && Known(m, BodyOf(k));
    }
  }

  /** What has been added to a block. */
  function Added(m: Memory, r: Memory, at: BlockRef): seq<Node>
    requires m.Block(at) <= r.Block(at)
  {
    r.Block(at)[|m.Block(at)|..]
  }

  /** Parsing `b` in memory `m` gives `r`. */
  ghost predicate Built(m: Memory, r: Memory, b: seq<Stmt>) {
    Tidy(r) && Extends(m, r, m.current) && HoldsNodes(r, m.current, Added(m, r, m.current), b, |m.statements|)
  }

  /** Parsing the else part `e` of the if at `id` gives `r`. */
  ghost predicate BuiltElse(m: Memory, r: Memory, id: nat, e: Else)
    requires id < |m.statements| && m.statements[id].If?
  {
    var u := m.(statements := m.statements[id := m.statements[id].(hasFalse := !e.NoElse?)]);
    Tidy(r) && Extends(u, r, FalseOf(id)) && HoldsElse(r, id, e, |m.statements|)
  }

  lemma AddBlocks(m: Memory, n: Node)
    ensures m.Add(n).Block(m.current) == m.Block(m.current) + [n]
    ensures forall ref :: ref != m.current ==> m.Add(n).Block(ref) == m.Block(ref)
  {
  }

  lemma AddExtends(m: Memory, n: Node)
    requires Tidy(m)
    ensures var r := m.Add(n); Tidy(r) && Extends(m, r, m.current) && Added(m, r, m.current) == [n]
  {
    AddBlocks(m, n);
    assert forall ref :: Known(m.Add(n), ref) == Known(m, ref);
    hide Memory.Block;
  }

  /** The blocks of a new statement are empty. */
  lemma NewBlocksAreEmpty(m: Memory)
    requires Tidy(m)
    ensures var id := |m.statements|;
      m.Block(TrueOf(id)) == [] && m.Block(FalseOf(id)) == [] && m.Block(BodyOf(id)) == []
  {
    var id := |m.statements|;
    assert !Known(m, TrueOf(id)) && !Known(m, FalseOf(id)) && !Known(m, BodyOf(id));
  }

  /** A statement is allocated, its node is added, and one of its blocks becomes current. */
  lemma AllocateExtends(m: Memory, r: Memory)
    requires Tidy(m)
    requires |r.statements| == |m.statements| + 1 && r.statements[..|m.statements|] == m.statements
    requires r.blocks == m.Add(StatementNode(|m.statements|)).blocks
    requires !r.current.Top? && r.current.id == |m.statements|
    ensures var id := |m.statements|;
      && Tidy(r) && Extends(m, r, m.current) && Added(m, r, m.current) == [StatementNode(id)]
      && r.Block(TrueOf(id)) == [] && r.Block(FalseOf(id)) == [] && r.Block(BodyOf(id)) == []
  {
    var n := StatementNode(|m.statements|);
    AddBlocks(m, n);
    NewBlocksAreEmpty(m);
    assert forall ref :: r.Block(ref) == m.Add(n).Block(ref);
    assert forall ref :: Known(m, ref) ==> Known(r, ref);
    hide Memory.Block, Memory.Add;
  }

  lemma OpenIfExtends(m: Memory, c: Option<Expr>, nested: bool)
    requires Tidy(m)
    ensures var r := m.OpenIf(c, nested); var id := |m.statements|;
      && Tidy(r) && Extends(m, r, m.current) && Added(m, r, m.current) == [StatementNode(id)]
      && r.current == TrueOf(id) && r.Block(TrueOf(id)) == [] && r.Block(FalseOf(id)) == []
      && |r.statements| == id + 1 && r.statements[id] == If(c, m.current, nested, false)
  {
    AllocateExtends(m, m.OpenIf(c, nested));
    hide Memory.Block, Tidy, Extends;
  }

  lemma OpenForExtends(m: Memory, key: Option<string>, value: string, c: Option<Expr>)
    requires Tidy(m)
    ensures var r := m.OpenFor(key, value, c); var id := |m.statements|;
      && Tidy(r) && Extends(m, r, m.current) && Added(m, r, m.current) == [StatementNode(id)]
      && r.current == BodyOf(id) && r.Block(BodyOf(id)) == []
      && |r.statements| == id + 1 && r.statements[id] == For(key, value, c, m.current)
  {
    AllocateExtends(m, m.OpenFor(key, value, c));
    hide Memory.Block, Tidy, Extends;
  }

  // ---- Building builds the tree ----

  lemma {:induction false} BlockBuilt(m: Memory, b: seq<Stmt>)
    requires m.Valid() && Tidy(m)
    ensures Built(m, BuildBlock(m, b), b)
    decreases b
  {
    if b != [] {
      var k := Build(m, b[0]);
      StmtBuilt(m, b[0]);
      BlockBuilt(k, b[1..]);
      ConsBuilt(m, k, BuildBlock(k, b[1..]), b);
    }
  }

  lemma ConsBuilt(m: Memory, k: Memory, r: Memory, b: seq<Stmt>)
    requires b != [] && Tidy(m) && k.current == m.current && Built(m, k, [b[0]]) && Built(k, r, b[1..])
    ensures Built(m, r, b)
  {
    hide HoldsStmt, Memory.Block;
    var at := m.current;
    ExtendsTransitive(m, k, r, at);
    ExtendsAgrees(k, r, at, |m.statements|);
    FrameNodes(k, r, at, Added(m, k, at), [b[0]], |m.statements|, |m.statements|);
    KeepAgrees(r);
    FrameNodes(r, r, at, Added(k, r, at), b[1..], |k.statements|, |m.statements|);
  }

  lemma KeepAgrees(m: Memory)
    ensures forall lo: nat :: lo <= |m.statements| ==> Agrees(m, m, lo)
  {
  }

  lemma {:induction false} StmtBuilt(m: Memory, s: Stmt)
    requires m.Valid() && Tidy(m)
    ensures Built(m, Build(m, s), [s])
    decreases s
  {
    hide HoldsElse, BuildElse, BuildBlock, Built, Tidy, Memory.Add, Memory.Block, Memory.Valid;
    match s
    case Plain(text) => NodeBuilt(m, TextNode(text), s);
    case Output(e) => NodeBuilt(m, OutputNode(Some(e)), s);
    case SetStmt(key, e) => NodeBuilt(m, SetNode(key, Some(e)), s);
    case IfStmt(_, _, _) => IfBuilt(m, s);
    case ForStmt(_, _, _, _) => ForBuilt(m, s);
  }

  lemma NodeBuilt(m: Memory, n: Node, s: Stmt)
    requires Tidy(m) && (s.Plain? || s.Output? || s.SetStmt?) && HoldsStmt(m, m.current, n, s, 0)
    ensures Built(m, m.Add(n), [s])
  {
    AddExtends(m, n);
    OneNode(m.Add(n), m.current, n, s, |m.statements|);
    hide Memory.Block, Memory.Add, Tidy, Extends, HoldsNodes;
  }

  lemma OneNode(m: Memory, home: BlockRef, n: Node, s: Stmt, lo: nat)
    ensures HoldsNodes(m, home, [n], [s], lo) == HoldsStmt(m, home, n, s, lo)
  {
    hide HoldsStmt;
    assert [s][1..] == [] && [n][1..] == [];
  }

  /** Nothing below the address `n` has changed. */
  ghost predicate Keeps(n: nat, o: Memory, r: Memory) {
    && n <= |o.statements| <= |r.statements|
    && (forall i :: 0 <= i < n ==> r.statements[i] == o.statements[i])
    && (forall ref: BlockRef :: (ref.Top? || ref.id < n) ==> r.Block(ref) == o.Block(ref))
  }

  /** `o` adds a statement to the current block of `m`, and `r` fills it without touching anything else. */
  ghost predicate Opened(m: Memory, o: Memory, r: Memory) {
    && Known(m, m.current) && Extends(m, o, m.current)
    && Added(m, o, m.current) == [StatementNode(|m.statements|)] && Keeps(|m.statements|, o, r)
  }

  lemma OpenedExtends(m: Memory, o: Memory, r: Memory)
    requires Opened(m, o, r)
    ensures Extends(m, r, m.current) && Added(m, r, m.current) == [StatementNode(|m.statements|)]
  {
    hide Memory.Block;
  }

  /** The statement is complete, and the parser returns to the block that it stands in. */
  lemma CloseBuilt(m: Memory, o: Memory, r: Memory, q: Memory, s: Stmt)
    requires Opened(m, o, r) && Tidy(r)
    requires q.blocks == r.blocks && q.statements == r.statements && q.current == m.current
    requires HoldsStmt(r, m.current, StatementNode(|m.statements|), s, |m.statements|)
    ensures Built(m, q, [s])
  {
    hide HoldsStmt, HoldsNodes;
    OpenedExtends(m, o, r);
    var n := StatementNode(|m.statements|);
    FrameStmt(r, q, m.current, n, s, |m.statements|, |m.statements|);
    OneNode(q, m.current, n, s, |m.statements|);
    assert forall ref :: q.Block(ref) == r.Block(ref) && Known(q, ref) == Known(r, ref);
    hide Opened, Memory.Block;
  }

  /** A block that was empty holds what has been built in it. */
  lemma BodyHolds(o: Memory, r: Memory, b: seq<Stmt>, low: nat)
    requires Built(o, r, b) && o.Block(o.current) == [] && low <= |o.statements|
    ensures HoldsNodes(r, o.current, r.Block(o.current), b, low)
  {
    hide HoldsNodes, Memory.Block, Tidy, Known;
    KeepAgrees(r);
    assert Added(o, r, o.current) == r.Block(o.current);
    FrameNodes(r, r, o.current, r.Block(o.current), b, |o.statements|, low);
  }

  lemma BodyKeeps(n: nat, o: Memory, r: Memory)
    requires Extends(o, r, o.current) && n < |o.statements| && !o.current.Top? && o.current.id == n
    ensures Keeps(n, o, r) && r.statements[n] == o.statements[n]
  {
    hide Memory.Block;
  }

  lemma {:induction false} ForBuilt(m: Memory, s: Stmt)
    requires s.ForStmt? && m.Valid() && Tidy(m)
    ensures Built(m, Build(m, s), [s])
    decreases s, 0
  {
    hide HoldsNodes, BuildElse, BuildBlock, Built, Tidy, Extends, Keeps, Memory.Block, Memory.Valid, Memory.OpenFor,
      Grows, Added;
    var o := m.OpenFor(s.key, s.value, Some(s.condition));
    OpenForFacts(m, s.key, s.value, Some(s.condition));
    OpenForExtends(m, s.key, s.value, Some(s.condition));
    BlockBuilt(o, s.body);
    var r := BuildBlock(o, s.body);
    BuiltParts(o, r, s.body);
    BodyHolds(o, r, s.body, |m.statements|);
    BodyKeeps(|m.statements|, o, r);
    CloseForBalances(m, s.key, s.value, Some(s.condition), r);
    assert Known(m, m.current) && |m.statements| < |r.statements| by { TidyCurrent(m, o, r); }
    CloseBuilt(m, o, r, r.CloseFor(), s);
  }

  lemma TidyCurrent(m: Memory, o: Memory, r: Memory)
    requires Tidy(m) && Extends(o, r, o.current)
    ensures Known(m, m.current) && |o.statements| <= |r.statements|
  {
  }

  lemma BuiltParts(m: Memory, r: Memory, b: seq<Stmt>)
    requires Built(m, r, b)
    ensures Tidy(r) && Extends(m, r, m.current)
  {
  }

  // ---- If statements ----

  /** The memory in which the if at `id` has a false branch or not. */
  function WithElse(m: Memory, id: nat, e: Else): Memory
    requires id < |m.statements| && m.statements[id].If?
  {
    m.(statements := m.statements[id := m.statements[id].(hasFalse := !e.NoElse?)])
  }

  /** What an if statement holds once its else part is parsed. */
  ghost predicate IfHolds(m: Memory, r: Memory, home: BlockRef, id: nat, nested: bool, c: Expr, t: seq<Stmt>, e: Else) {
    && HoldsIfAt(r, home, id, nested, c, !e.NoElse?, id)
    && HoldsNodes(r, TrueOf(id), r.Block(TrueOf(id)), t, id) && HoldsElse(r, id, e, id)
    && Keeps(id, m, r)
  }

  /** From the true branch to the end of the else part. */
  lemma BranchesHold(o: Memory, k: Memory, r: Memory, id: nat, c: Expr, t: seq<Stmt>, e: Else)
    requires id + 1 == |o.statements| && o.statements[id].If? && o.statements[id].condition == Some(c)
    requires o.current == TrueOf(id) && o.Block(TrueOf(id)) == []
    requires Built(o, k, t) && id < |k.statements| && k.statements[id] == o.statements[id]
    requires BuiltElse(k, r, id, e)
    ensures IfHolds(o, r, o.statements[id].parent, id, o.statements[id].nested, c, t, e)
  {
    hide HoldsNodes, HoldsElse, Tidy;
    var u := WithElse(k, id, e);
    BodyHolds(o, k, t, id + 1);
    BodyKeeps(id, o, k);
    assert Agrees(k, u, id + 1) && forall ref :: u.Block(ref) == k.Block(ref);
    ExtendsAgrees(u, r, FalseOf(id), id + 1);
    ChainAgrees(k, u, r, id + 1);
    assert r.Block(TrueOf(id)) == k.Block(TrueOf(id)) by { assert Known(u, TrueOf(id)); }
    FrameNodes(k, r, TrueOf(id), k.Block(TrueOf(id)), t, id + 1, id);
    KeepAgrees(r);
    FrameElse(r, r, id, e, |k.statements|, id);
    ElseKeeps(o, k, u, r, id);
  }

  lemma ChainAgrees(a: Memory, b: Memory, c: Memory, lo: nat)
    requires Agrees(a, b, lo) && Agrees(b, c, lo)
    ensures Agrees(a, c, lo)
  {
    hide Memory.Block;
    forall k | lo <= k < |a.statements|
      ensures c.statements[k] == a.statements[k] && SameBlocks(a, c, k)
    {
      assert SameBlocks(a, b, k) && SameBlocks(b, c, k);
    }
  }

  lemma ElseKeeps(o: Memory, k: Memory, u: Memory, r: Memory, id: nat)
    requires Keeps(id, o, k) && Extends(u, r, FalseOf(id)) && id < |k.statements| == |u.statements|
    requires u.blocks == k.blocks && forall i :: 0 <= i < id ==> u.statements[i] == k.statements[i]
    ensures Keeps(id, o, r)
  {
    assert forall ref :: u.Block(ref) == k.Block(ref);
    hide Memory.Block;
  }

  lemma {:induction false} IfBuilt(m: Memory, s: Stmt)
    requires s.IfStmt? && m.Valid() && Tidy(m)
    ensures Built(m, Build(m, s), [s])
    decreases s, 0
  {
    hide HoldsNodes, HoldsElse, BuildElse, BuildBlock, Built, Tidy, Extends, Keeps, Memory.Block, Memory.Valid,
      Memory.OpenIf, Grows, Added, BuiltElse;
    var c, id := Some(s.condition), |m.statements|;
    var o := m.OpenIf(c, false);
    OpenIfFacts(m, c, false);
    OpenIfExtends(m, c, false);
    BlockBuilt(o, s.thn);
    var k := BuildBlock(o, s.thn);
    BuiltParts(o, k, s.thn);
    FreshIf(o, k, id);
    ElseBuilt(k, id, s.els);
    var r := BuildElse(k, s.els);
    BranchesHold(o, k, r, id, s.condition, s.thn, s.els);
    ChainedAfter(o, k, r);
    CloseIfBalances(m, c, r);
    assert Known(m, m.current) && Tidy(r) by { TidyCurrent(m, o, k); BuiltElseTidy(k, r, id, s.els); }
    IfCloses(m, o, r, s);
  }

  lemma IfCloses(m: Memory, o: Memory, r: Memory, s: Stmt)
    requires s.IfStmt? && m.Valid() && Tidy(r) && Known(m, m.current)
    requires o == m.OpenIf(Some(s.condition), false) && Chained(o, r)
    requires Extends(m, o, m.current) && Added(m, o, m.current) == [StatementNode(|m.statements|)]
    requires IfHolds(o, r, m.current, |m.statements|, false, s.condition, s.thn, s.els)
    requires r.ifStack != [] && Balanced(m, r.CloseIf())
    ensures Built(m, r.CloseIf(), [s])
  {
    hide HoldsNodes, HoldsElse, Built, Tidy, Extends, Keeps, Memory.Block, Memory.Valid, Memory.OpenIf, Grows, Added,
      Memory.Ifs, Memory.PopNested;
    CloseBuilt(m, o, r, r.CloseIf(), s);
  }

  lemma BuiltElseTidy(m: Memory, r: Memory, id: nat, e: Else)
    requires id < |m.statements| && m.statements[id].If? && BuiltElse(m, r, id, e)
    ensures Tidy(r)
  {
  }

  /** The innermost open if is at `id` and has no false branch yet. */
  ghost predicate AtIf(m: Memory, id: nat) {
    && m.Valid() && Tidy(m) && m.ifStack != [] && m.ifStack[|m.ifStack| - 1] == id < |m.statements|
    && m.statements[id].If? && !m.statements[id].hasFalse && m.Block(FalseOf(id)) == []
  }

  lemma FreshIf(o: Memory, k: Memory, id: nat)
    requires k.Valid() && Tidy(k) && Extends(o, k, TrueOf(id)) && id < |o.statements| && k.ifStack == o.ifStack
    requires o.ifStack != [] && o.ifStack[|o.ifStack| - 1] == id
    requires o.statements[id].If? && !o.statements[id].hasFalse && o.Block(FalseOf(id)) == []
    ensures AtIf(k, id) && k.statements[id] == o.statements[id]
  {
    hide Memory.Block;
    assert Known(o, FalseOf(id));
  }

  lemma TakeElseTidy(m: Memory, id: nat, e: Else)
    requires AtIf(m, id) && !e.NoElse?
    ensures var t := m.TakeElse();
      && t.Valid() && Tidy(t) && t.ifStack != [] && t.current == FalseOf(id) && t.Block(FalseOf(id)) == []
      && t.statements == WithElse(m, id, e).statements && t.blocks == m.blocks
  {
    TakeElseFacts(m);
    var t := m.TakeElse();
    assert forall ref :: t.Block(ref) == m.Block(ref) && Known(t, ref) == Known(m, ref);
    hide Memory.Block, Memory.Valid;
  }

  lemma {:induction false} ElseBuilt(m: Memory, id: nat, e: Else)
    requires AtIf(m, id)
    ensures BuiltElse(m, BuildElse(m, e), id, e)
    decreases e
  {
    hide HoldsNodes, BuildBlock, Memory.Block, Memory.Valid, Grows, Built, Extends, Tidy, Keeps;
    if e.NoElse? {
      NoElseBuilt(m, id);
    } else if e.ElseBranch? {
      TakeElseTidy(m, id, e);
      BlockBuilt(m.TakeElse(), e.body);
      BranchBuilt(m, m.TakeElse(), BuildBlock(m.TakeElse(), e.body), id, e);
    } else {
      ElseIfBuilt(m, id, e);
    }
  }

  lemma NoElseBuilt(m: Memory, id: nat)
    requires AtIf(m, id)
    ensures BuiltElse(m, m, id, NoElse)
  {
    assert WithElse(m, id, NoElse).statements == m.statements;
  }

  lemma BranchBuilt(m: Memory, t: Memory, r: Memory, id: nat, e: Else)
    requires e.ElseBranch? && id < |m.statements| && m.statements[id].If?
    requires t.statements == WithElse(m, id, e).statements && t.blocks == m.blocks && t.current == FalseOf(id)
    requires t.Block(FalseOf(id)) == [] && Built(t, r, e.body)
    ensures BuiltElse(m, r, id, e)
  {
    BodyHolds(t, r, e.body, |m.statements|);
    BuiltParts(t, r, e.body);
    SameExtends(t, WithElse(m, id, e), r, FalseOf(id));
    hide HoldsNodes, Memory.Block, Extends, Tidy, Built;
  }

  lemma SameExtends(a: Memory, b: Memory, r: Memory, at: BlockRef)
    requires a.statements == b.statements && a.blocks == b.blocks && Extends(a, r, at)
    ensures Extends(b, r, at)
  {
    assert forall ref :: a.Block(ref) == b.Block(ref) && Known(a, ref) == Known(b, ref);
    hide Memory.Block;
  }

  lemma {:induction false} ElseIfBuilt(m: Memory, id: nat, e: Else)
    requires AtIf(m, id) && e.ElseIf?
    ensures BuiltElse(m, BuildElse(m, e), id, e)
    decreases e, 0
  {
    hide HoldsNodes, HoldsElse, BuildBlock, Memory.Block, Memory.Valid, Memory.OpenIf, Memory.TakeElse, Grows, Built,
      Extends, Tidy, Keeps, Added, BuiltElse;
    TakeElseTidy(m, id, e);
    var t, c, at := m.TakeElse(), Some(e.condition), |m.statements|;
    var o := t.OpenIf(c, true);
    OpenIfFacts(t, c, true);
    OpenIfExtends(t, c, true);
    BlockBuilt(o, e.thn);
    var k := BuildBlock(o, e.thn);
    BuiltParts(o, k, e.thn);
    FreshIf(o, k, at);
    ElseBuilt(k, at, e.els);
    var r := BuildElse(k, e.els);
    BranchesHold(o, k, r, at, e.condition, e.thn, e.els);
    BuiltElseTidy(k, r, at, e.els);
    TidyCurrent(t, o, k);
    ChainBuilt(m, t, o, r, id, e);
  }

  lemma ChainBuilt(m: Memory, t: Memory, o: Memory, r: Memory, id: nat, e: Else)
    requires e.ElseIf? && id < |m.statements| && m.statements[id].If? && Tidy(r)
    requires t.statements == WithElse(m, id, e).statements && t.blocks == m.blocks && t.current == FalseOf(id)
    requires t.Block(FalseOf(id)) == []
    requires Known(t, t.current) && Extends(t, o, t.current)
    requires Added(t, o, t.current) == [StatementNode(|m.statements|)]
    requires IfHolds(o, r, FalseOf(id), |m.statements|, true, e.condition, e.thn, e.els)
    ensures BuiltElse(m, r, id, e)
  {
    hide HoldsNodes, HoldsElse, Memory.Block, Extends, Tidy, Keeps;
    OpenedExtends(t, o, r);
    SameExtends(t, WithElse(m, id, e), r, FalseOf(id));
    assert r.Block(FalseOf(id)) == [StatementNode(|m.statements|)];
    ElseIfHolds(r, id, |m.statements|, e, |m.statements|);
  }

  lemma ElseIfHolds(m: Memory, id: nat, at: nat, e: Else, lo: nat)
    requires e.ElseIf? && m.Block(FalseOf(id)) == [StatementNode(at)]
    requires HoldsIfAt(m, FalseOf(id), at, true, e.condition, !e.els.NoElse?, lo)
    requires HoldsNodes(m, TrueOf(at), m.Block(TrueOf(at)), e.thn, lo) && HoldsElse(m, at, e.els, lo)
    ensures HoldsElse(m, id, e, lo)
  {
    hide HoldsNodes, HoldsIfAt, Memory.Block;
  }

  // ---- The whole template ----

  /** The parser has finished and its memory holds the template `b`. */
  predicate Represents(m: Memory, b: seq<Stmt>) {
    m.current == Top && m.ifStack == [] && m.forStack == [] && HoldsNodes(m, Top, m.Block(Top), b, 0)
  }

  /** Printing a template and parsing it gives a memory that holds this template. */
  lemma TemplateRoundTrip(b: seq<Stmt>, known: Functions)
    requires BlockOk(b, known)
    ensures var r := ParseInto(known, PrintBlock(b), 0, EMPTY_MEMORY); r.Done? && Represents(r.value, b)
  {
    hide *;
    var toks := PrintBlock(b);
    AtWhole(toks);
    EmptyIsValid();
    ReadsBlock(b, known, toks, 0, EMPTY_MEMORY);
    EmptyBuilt(b);
    RepresentsClosed(BuildBlock(EMPTY_MEMORY, b), b);
    AtEndOfInput(known, toks, BuildBlock(EMPTY_MEMORY, b));
  }

  lemma EmptyIsValid()
    ensures EMPTY_MEMORY.Valid() && Tidy(EMPTY_MEMORY) && EMPTY_MEMORY.Block(Top) == []
  {
  }

  lemma AtEndOfInput(known: Functions, toks: seq<Token>, m: Memory)
    requires m.Valid() && m.ifStack == [] && m.forStack == []
    ensures ParseInto(known, toks, |toks|, m) == Done(m)
  {
  }

  lemma RepresentsClosed(m: Memory, b: seq<Stmt>)
    requires Represents(m, b)
    ensures m.ifStack == [] && m.forStack == []
  {
  }

  lemma EmptyBuilt(b: seq<Stmt>)
    ensures BuildBlock(EMPTY_MEMORY, b).Valid() && Represents(BuildBlock(EMPTY_MEMORY, b), b)
  {
    EmptyIsValid();
    hide BuildBlock, HoldsNodes, Memory.Block;
    BlockBuilt(EMPTY_MEMORY, b);
    BodyHolds(EMPTY_MEMORY, BuildBlock(EMPTY_MEMORY, b), b, 0);
  }

  /** A memory holds at most one template, so what `Represents` says determines the tree. */
  lemma {:induction false} SameNodes(m: Memory, home: BlockRef, nodes: seq<Node>, b: seq<Stmt>, c: seq<Stmt>, lo: nat)
    requires HoldsNodes(m, home, nodes, b, lo) && HoldsNodes(m, home, nodes, c, lo)
    ensures b == c
    decreases b
  {
    if b != [] {
      hide HoldsStmt;
      SameStmt(m, home, nodes[0], b[0], c[0], lo);
      SameNodes(m, home, nodes[1..], b[1..], c[1..], lo);
      assert b == [b[0]] + b[1..] && c == [c[0]] + c[1..];
    }
  }

  lemma {:induction false} SameStmt(m: Memory, home: BlockRef, n: Node, s: Stmt, t: Stmt, lo: nat)
    requires HoldsStmt(m, home, n, s, lo) && HoldsStmt(m, home, n, t, lo)
    ensures s == t
    decreases s
  {
    hide HoldsNodes, HoldsElse, Memory.Block;
    if s.IfStmt? {
      SameNodes(m, TrueOf(n.id), m.Block(TrueOf(n.id)), s.thn, t.thn, lo);
      SameElse(m, n.id, s.els, t.els, lo);
    } else if s.ForStmt? {
      SameNodes(m, BodyOf(n.id), m.Block(BodyOf(n.id)), s.body, t.body, lo);
    }
  }

  lemma {:induction false} SameElse(m: Memory, id: nat, e: Else, f: Else, lo: nat)
    requires HoldsElse(m, id, e, lo) && HoldsElse(m, id, f, lo) && e.NoElse? == f.NoElse?
    ensures e == f
    decreases e
  {
    hide HoldsNodes, Memory.Block;
    match e
    case NoElse =>
    case ElseBranch(b) =>
      if f.ElseIf? {
        NotNested(m, id, b, lo);
      } else {
        SameNodes(m, FalseOf(id), m.Block(FalseOf(id)), b, f.body, lo);
      }
    case ElseIf(c, t, g) =>
      if f.ElseBranch? {
        NotNested(m, id, f.body, lo);
      } else {
        var k := m.Block(FalseOf(id))[0].id;
        SameNodes(m, TrueOf(k), m.Block(TrueOf(k)), t, f.thn, lo);
        SameElse(m, k, g, f.els, lo);
      }
  }

  /** An else-if is not an else branch that starts with an if. */
  lemma NotNested(m: Memory, id: nat, b: seq<Stmt>, lo: nat)
    requires HoldsNodes(m, FalseOf(id), m.Block(FalseOf(id)), b, lo)
    requires var nodes := m.Block(FalseOf(id));
      |nodes| == 1 && nodes[0].StatementNode? && nodes[0].id < |m.statements|
    requires m.statements[m.Block(FalseOf(id))[0].id].If?
    ensures !m.statements[m.Block(FalseOf(id))[0].id].nested
  {
    hide HoldsElse, Memory.Block;
  }

  /** Two templates with the same tokens are the same template. */
  lemma PrintingIsInjective(b: seq<Stmt>, c: seq<Stmt>, known: Functions)
    requires BlockOk(b, known) && BlockOk(c, known) && PrintBlock(b) == PrintBlock(c)
    ensures b == c
  {
    hide BlockOk, PrintBlock, ParseInto, HoldsNodes, Memory.Block;
    TemplateRoundTrip(b, known);
    TemplateRoundTrip(c, known);
    var m := ParseInto(known, PrintBlock(b), 0, EMPTY_MEMORY).value;
    SameNodes(m, Top, m.Block(Top), b, c, 0);
  }

  // ---- Crossed statements ----

  /** {% if c %}{% for x in d %}{% endif %}{% endfor %} */
  function Crossed(c: Expr, x: string, d: Expr): seq<Token> {
    Tag([Id("if")] + Print(c))
    + (Tag([Id("for")] + (ForNames(None, x) + ([Id("in")] + Print(d)))) + (Tag([Id("endif")]) + Tag([Id("endfor")])))
  }

  /**
   The two stacks know nothing of each other: crossed statements are accepted. Here the cursor is then not
   back at the root but in the true branch of an if that is closed. Text that follows would land there.
   */
  lemma CrossingIsAccepted(c: Expr, x: string, d: Expr, known: Functions)
    requires WellFormed(c, known) && WellFormed(d, known)
    ensures var r := ParseInto(known, Crossed(c, x, d), 0, EMPTY_MEMORY);
      r.Done? && r.value.ifStack == [] && r.value.forStack == [] && r.value.current == TrueOf(0)
  {
    hide *;
    var toks := Crossed(c, x, d);
    var open, loop := Tag([Id("if")] + Print(c)), Tag([Id("for")] + (ForNames(None, x) + ([Id("in")] + Print(d))));
    var close, end := Tag([Id("endif")]), Tag([Id("endfor")]);
    AtWhole(toks);
    CrossedParts(c, x, d);
    AtSplit(toks, 0, open, loop + (close + end));
    AtSplit(toks, |open|, loop, close + end);
    AtSplit(toks, |open| + |loop|, close, end);
    EmptyIsValid();
    CrossedMemory(c, x, d);
    var m := EMPTY_MEMORY.OpenIf(Some(c), false);
    ReadsIf(c, known, toks, 0, EMPTY_MEMORY);
    ReadsFor(None, x, d, known, toks, |open|, m);
    var n := m.OpenFor(None, x, Some(d));
    ReadsEndIf(known, toks, |open| + |loop|, n);
    ReadsEndFor(known, toks, |open| + |loop| + |close|, n.CloseIf());
    AtEndOfInput(known, toks, n.CloseIf().CloseFor());
  }

  lemma CrossedParts(c: Expr, x: string, d: Expr)
    ensures Crossed(c, x, d) == Tag([Id("if")] + Print(c))
      + (Tag([Id("for")] + (ForNames(None, x) + ([Id("in")] + Print(d)))) + (Tag([Id("endif")]) + Tag([Id("endfor")])))
  {
    hide Tag, Print, ForNames;
  }

  lemma CrossedMemory(c: Expr, x: string, d: Expr)
    ensures var m := EMPTY_MEMORY.OpenIf(Some(c), false);
      && m.Valid() && m.OpenFor(None, x, Some(d)).Valid() && m.OpenFor(None, x, Some(d)).ifStack != []
    ensures var n := EMPTY_MEMORY.OpenIf(Some(c), false).OpenFor(None, x, Some(d)).CloseIf();
      && n.Valid() && n.forStack != [] && n.CloseFor().Valid()
      && n.CloseFor().ifStack == [] && n.CloseFor().forStack == [] && n.CloseFor().current == TrueOf(0)
  {
    var n := EMPTY_MEMORY.OpenIf(Some(c), false).OpenFor(None, x, Some(d));
    assert n.ifStack == [0] && n.forStack == [1] && n.PopNested([0]) == [0];
    hide Memory.Block;
  }

  /** {% for x in c %}{% if d %}{% for y in e %}{% endif %}{% endfor %}{% endfor %} */
  function CrossedInside(x: string, c: Expr, d: Expr, y: string, e: Expr): seq<Token> {
    ForOpening(x, c) + (Tag([Id("if")] + Print(d)) + (ForOpening(y, e)
      + (Tag([Id("endif")]) + (Tag([Id("endfor")]) + Tag([Id("endfor")])))))
  }

  function ForOpening(x: string, c: Expr): seq<Token> {
    Tag([Id("for")] + (ForNames(None, x) + ([Id("in")] + Print(c))))
  }

  /** Crossed statements inside another one may still bring the cursor back to the root in the end. */
  lemma CrossingMayReturn(x: string, c: Expr, d: Expr, y: string, e: Expr, known: Functions)
    requires WellFormed(c, known) && WellFormed(d, known) && WellFormed(e, known)
    ensures var r := ParseInto(known, CrossedInside(x, c, d, y, e), 0, EMPTY_MEMORY);
      r.Done? && r.value.ifStack == [] && r.value.forStack == [] && r.value.current == Top
  {
    hide *;
    var toks := CrossedInside(x, c, d, y, e);
    var one, two, three := ForOpening(x, c), Tag([Id("if")] + Print(d)), ForOpening(y, e);
    var endIf, endFor := Tag([Id("endif")]), Tag([Id("endfor")]);
    AtWhole(toks);
    CrossedInsideParts(x, c, d, y, e);
    AtSplit(toks, 0, one, two + (three + (endIf + (endFor + endFor))));
    var i := |one|;
    AtSplit(toks, i, two, three + (endIf + (endFor + endFor)));
    var j := i + |two|;
    AtSplit(toks, j, three, endIf + (endFor + endFor));
    var k := j + |three|;
    AtSplit(toks, k, endIf, endFor + endFor);
    AtSplit(toks, k + |endIf|, endFor, endFor);
    EmptyIsValid();
    CrossedInsideMemory(x, c, d, y, e);
    var a := EMPTY_MEMORY.OpenFor(None, x, Some(c));
    var b := a.OpenIf(Some(d), false);
    var f := b.OpenFor(None, y, Some(e));
    ReadsForOpening(x, c, known, toks, 0, EMPTY_MEMORY);
    ReadsIf(d, known, toks, i, a);
    ReadsForOpening(y, e, known, toks, j, b);
    ReadsEndIf(known, toks, k, f);
    ReadsEndFor(known, toks, k + |endIf|, f.CloseIf());
    ReadsEndFor(known, toks, k + |endIf| + |endFor|, f.CloseIf().CloseFor());
    AtEndOfInput(known, toks, f.CloseIf().CloseFor().CloseFor());
  }

  lemma ReadsForOpening(x: string, c: Expr, known: Functions, toks: seq<Token>, i: nat, m: Memory)
    requires WellFormed(c, known) && m.Valid() && At(toks, i, ForOpening(x, c))
    ensures var j := i + |ForOpening(x, c)|; var r := m.OpenFor(None, x, Some(c));
      j <= |toks| && r.Valid() && ParseInto(known, toks, i, m) == ParseInto(known, toks, j, r)
  {
    hide At, Print, ForNames, Tag, ParseInto, Memory.OpenFor, Memory.Valid, WellFormed;
    ReadsFor(None, x, c, known, toks, i, m);
  }

  lemma CrossedInsideParts(x: string, c: Expr, d: Expr, y: string, e: Expr)
    ensures CrossedInside(x, c, d, y, e) == ForOpening(x, c) + (Tag([Id("if")] + Print(d)) + (ForOpening(y, e)
      + (Tag([Id("endif")]) + (Tag([Id("endfor")]) + Tag([Id("endfor")])))))
  {
    hide Tag, Print, ForOpening;
  }

  lemma CrossedInsideMemory(x: string, c: Expr, d: Expr, y: string, e: Expr)
    ensures var a := EMPTY_MEMORY.OpenFor(None, x, Some(c)); var b := a.OpenIf(Some(d), false);
      var f := b.OpenFor(None, y, Some(e));
      && a.Valid() && b.Valid() && f.Valid() && f.ifStack != []
    ensures var f := EMPTY_MEMORY.OpenFor(None, x, Some(c)).OpenIf(Some(d), false).OpenFor(None, y, Some(e)).CloseIf();
      && f.Valid() && f.forStack != [] && f.CloseFor().Valid() && f.CloseFor().forStack != []
      && f.CloseFor().CloseFor().Valid() && f.CloseFor().CloseFor().ifStack == []
      && f.CloseFor().CloseFor().forStack == [] && f.CloseFor().CloseFor().current == Top
  {
    var f := EMPTY_MEMORY.OpenFor(None, x, Some(c)).OpenIf(Some(d), false).OpenFor(None, y, Some(e));
    assert f.ifStack == [1] && f.forStack == [0, 2] && f.PopNested([1]) == [1];
    var g := f.CloseIf();
    assert g.forStack == [0, 2] && g.CloseFor().forStack == [0];
    hide Memory.Block;
  }
}
