/**
 The search for all matches in RegexMatch::match (jpcre2.hpp), over an engine of which only a contract is
 known. Subjects are sequences of 8-bit code units.
 */
module RegexSearch {
  import opened Sequences

  datatype Span = Span(start: nat, end: nat) {
    predicate Empty() {
      start == end
    }
  }

  datatype Answer = Found(span: Span) | NoMatch | Failed(code: int)

  /**
   A compiled pattern with the options of the caller. `ask(i, true)` is asked to match at `i` itself and
   there not with the empty string; `ask(i, false)` is asked for a match at `i` or later.
   */
  datatype Engine = Engine(ask: (nat, bool) -> Answer, utf: bool, crlfIsNewline: bool)

  predicate Continuation(unit: int) {
    0x80 <= unit < 0xC0
  }

  /** The units of UTF-8 that continue a character are those whose two high bits are 1 and 0. */
  lemma ContinuationBits(unit: int)
    requires 0 <= unit < 256
    ensures Continuation(unit) <==> unit / 128 == 1 && unit / 64 % 2 == 0
  {
  }

  /** A place where a character starts or the subject ends. */
  predicate Boundary(e: Engine, subject: seq<int>, i: nat) {
    i <= |subject| && (e.utf && i < |subject| ==> !Continuation(subject[i]))
  }

  /** A continuation unit never stands first nor after a character of one unit. */
  predicate WellFormed(subject: seq<int>) {
    forall i :: 0 <= i < |subject| && Continuation(subject[i]) ==> i > 0 && subject[i - 1] >= 0x80
  }

  /** A match lies where it may: after the start, and at the start and not empty if that is asked for. */
  predicate AnswerOk(e: Engine, subject: seq<int>, start: nat, restricted: bool) {
    match e.ask(start, restricted)
    case Found(m) =>
      && start <= m.start <= m.end <= |subject| && Boundary(e, subject, m.start) && Boundary(e, subject, m.end)
      && (restricted ==> m.start == start && !m.Empty())
    case NoMatch => true
    case Failed(_) => true
  }

  /**
   What PCRE2 promises for patterns that do not use \K, whatever the options of the caller: matches lie in the
   subject between characters, and a search that would start after its end fails.
   */
  ghost predicate Contract(e: Engine, subject: seq<int>) {
    && (e.utf ==> WellFormed(subject))
    && forall start: nat, restricted: bool {:trigger e.ask(start, restricted)} ::
         if start > |subject| then e.ask(start, restricted).Failed?
         else Boundary(e, subject, start) ==> AnswerOk(e, subject, start, restricted)
  }

  // ---- The next place to look ----

  /** The end of the character that `i` lies in. */
  function SkipContinuation(subject: seq<int>, i: nat): (r: nat)
    ensures i <= r && (i <= |subject| ==> r <= |subject|) && (i > |subject| ==> r == i)
    ensures r < |subject| ==> !Continuation(subject[r])
    ensures forall k :: i <= k < r && k < |subject| ==> Continuation(subject[k])
    decreases |subject| - i
  {
    if i < |subject| && Continuation(subject[i]) then SkipContinuation(subject, i + 1) else i
  }

  predicate AtCrLf(e: Engine, subject: seq<int>, i: nat) {
    e.crlfIsNewline && i + 1 < |subject| && subject[i] == 13 && subject[i + 1] == 10
  }

  /** One character on, or two at the end of a line. */
  function Advance(e: Engine, subject: seq<int>, i: nat): (r: nat)
    ensures i < r
  {
    if AtCrLf(e, subject, i) then i + 2
    else if e.utf then SkipContinuation(subject, i + 1)
    else i + 1
  }

  /** Advancing ends at a boundary, and passes over none but the middle of the end of a line. */
  lemma AdvanceToBoundary(e: Engine, subject: seq<int>, i: nat)
    requires i < |subject| && (e.utf ==> WellFormed(subject))
    ensures var r := Advance(e, subject, i);
      && Boundary(e, subject, r)
      && forall k :: i < k < r && Boundary(e, subject, k) ==> AtCrLf(e, subject, i) && k == i + 1
  {
  }

  // ---- The search ----

  /** What a search records, where it asks the engine, and the error that ends it, if any. */
  datatype Run = Run(matches: seq<Span>, asked: seq<nat>, error: Option<int>)

  /**
   The loop for the second and later matches. `previous` is the output vector: the previous match, or its
   start with the place where the search goes on. `callerOptions` says that the caller gave match options.
   */
  function Continue(e: Engine, subject: seq<int>, callerOptions: bool, previous: Span): Run
    requires Contract(e, subject) && previous.start <= previous.end
    requires previous.end <= |subject| ==> Boundary(e, subject, previous.end)
    decreases |subject| + 1 - previous.end, !previous.Empty()
  {
    if previous.Empty() && previous.start == |subject| then Run([], [], None)
    else
      var start := previous.end;
      match e.ask(start, previous.Empty())
      case NoMatch =>
        if !previous.Empty() && !callerOptions then Run([], [start], None)
        else
          var next := Advance(e, subject, start);
          AdvanceFits(e, subject, start);
          var r := Continue(e, subject, callerOptions, Span(previous.start, next));
          r.(asked := [start] + r.asked)
      case Failed(code) => Run([], [start], Some(code))
      case Found(m) =>
        assert start <= |subject|;
        var r := Continue(e, subject, callerOptions, m);
        Run([m] + r.matches, [start] + r.asked, r.error)
  }

  lemma AdvanceFits(e: Engine, subject: seq<int>, i: nat)
    requires i <= |subject| && (e.utf ==> WellFormed(subject))
    ensures var r := Advance(e, subject, i);
      r <= |subject| + 1 && (r <= |subject| ==> Boundary(e, subject, r))
  {
    if i < |subject| {
      AdvanceToBoundary(e, subject, i);
    }
  }

  /** match(): the first match, and with FIND_ALL the others. */
  function Search(e: Engine, subject: seq<int>, callerOptions: bool, findAll: bool, offset: nat): Run
    requires Contract(e, subject) && (offset <= |subject| ==> Boundary(e, subject, offset))
  {
    match e.ask(offset, false)
    case NoMatch => Run([], [offset], None)
    case Failed(code) => Run([], [offset], Some(code))
    case Found(m) =>
      assert offset <= |subject|;
      var r := if findAll then Continue(e, subject, callerOptions, m) else Run([], [], None);
      Run([m] + r.matches, [offset] + r.asked, r.error)
  }
}
