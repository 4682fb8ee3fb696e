/** What every search for all matches keeps. */
module RegexSearchProof {
  import opened Sequences
  import opened RegexSearch

  /** An output vector from which the loop can go on. */
  predicate Usable(e: Engine, subject: seq<int>, v: Span) {
    v.start <= v.end <= |subject| && Boundary(e, subject, v.end)
  }

  // ---- Where the engine is asked ----

  predicate InSubject(e: Engine, subject: seq<int>, asked: seq<nat>) {
    forall k :: 0 <= k < |asked| ==> asked[k] <= |subject| && Boundary(e, subject, asked[k])
  }

  lemma {:induction false} ContinueStaysInside(e: Engine, subject: seq<int>, v: Span)
    requires Contract(e, subject) && Usable(e, subject, v)
    ensures InSubject(e, subject, Continue(e, subject, false, v).asked)
    decreases |subject| + 1 - v.end, !v.Empty()
  {
    if !(v.Empty() && v.start == |subject|) {
      match e.ask(v.end, v.Empty())
      case NoMatch =>
        if v.Empty() {
          AdvanceToBoundary(e, subject, v.end);
          ContinueStaysInside(e, subject, Span(v.start, Advance(e, subject, v.end)));
        }
      case Failed(_) =>
      case Found(m) => ContinueStaysInside(e, subject, m);
    }
  }

  /** Without options of the caller, every search starts in the subject and at the start of a character. */
  lemma SearchStaysInside(e: Engine, subject: seq<int>, findAll: bool, offset: nat)
    requires Contract(e, subject) && Boundary(e, subject, offset)
    ensures InSubject(e, subject, Search(e, subject, false, findAll, offset).asked)
  {
    if e.ask(offset, false).Found? {
      ContinueStaysInside(e, subject, e.ask(offset, false).span);
    }
  }

  // ---- Order ----

  /** `a` lies before `b`, and they are not the same empty place. */
  predicate Before(a: Span, b: Span) {
    a.end <= b.start && a.start < b.end
  }

  /** Matches in order, apart from each other, all different, and inside the subject from `from` on. */
  ghost predicate Ordered(ms: seq<Span>, from: nat, length: nat) {
    && (forall i :: 0 <= i < |ms| ==> from <= ms[i].start <= ms[i].end <= length)
    && (forall i, j :: 0 <= i < j < |ms| ==> Before(ms[i], ms[j]) && ms[i] != ms[j])
  }

  lemma OrderedCons(m: Span, ms: seq<Span>, from: nat, length: nat)
    requires from <= m.start <= m.end <= length && Ordered(ms, m.end, length)
    requires ms != [] ==> Before(m, ms[0])
    ensures Ordered([m] + ms, from, length)
  {
    var all := [m] + ms;
    forall i, j | 0 <= i < j < |all|
      ensures Before(all[i], all[j]) && all[i] != all[j]
    {
      assert all[j] == ms[j - 1];
      if i > 0 {
        assert all[i] == ms[i - 1];
      } else if j > 1 {
        assert Before(ms[0], ms[j - 1]);
      }
    }
  }

  lemma {:induction false} ContinueOrdered(e: Engine, subject: seq<int>, opts: bool, v: Span)
    requires Contract(e, subject) && v.start <= v.end && (v.end <= |subject| ==> Boundary(e, subject, v.end))
    ensures var ms := Continue(e, subject, opts, v).matches;
      Ordered(ms, v.end, |subject|) && (ms != [] ==> Before(v, ms[0]))
    decreases |subject| + 1 - v.end, !v.Empty()
  {
    if !(v.Empty() && v.start == |subject|) {
      match e.ask(v.end, v.Empty())
      case NoMatch =>
        if v.Empty() || opts {
          AdvanceFits(e, subject, v.end);
          ContinueOrdered(e, subject, opts, Span(v.start, Advance(e, subject, v.end)));
        }
      case Failed(_) =>
      case Found(m) =>
        ContinueOrdered(e, subject, opts, m);
        OrderedCons(m, Continue(e, subject, opts, m).matches, v.end, |subject|);
    }
  }

  lemma SearchOrdered(e: Engine, subject: seq<int>, opts: bool, findAll: bool, offset: nat)
    requires Contract(e, subject) && (offset <= |subject| ==> Boundary(e, subject, offset))
    ensures Ordered(Search(e, subject, opts, findAll, offset).matches, offset, |subject|)
  {
    if e.ask(offset, false).Found? {
      var m := e.ask(offset, false).span;
      ContinueOrdered(e, subject, opts, m);
      OrderedCons(m, Continue(e, subject, opts, m).matches, offset, |subject|);
      OrderedCons(m, [], offset, |subject|);
    }
  }

  // ---- Completeness ----

  /** A search from `i` finds a match that starts there. */
  predicate MatchesAt(e: Engine, i: nat) {
    e.ask(i, false).Found? && e.ask(i, false).span.start == i
  }

  /** No search from a place between `start` and `end` finds a match at that place. */
  predicate NothingBefore(e: Engine, subject: seq<int>, start: nat, end: nat) {
    forall i: nat :: start <= i < end && Boundary(e, subject, i) ==> !MatchesAt(e, i)
  }

  /**
   A search finds the leftmost place where a match can start. Anchored patterns and those with \G do not do
   this: for them a match may start at a place, and a search from before it finds nothing.
   */
  ghost predicate Leftmost(e: Engine, subject: seq<int>) {
    forall start: nat {:trigger e.ask(start, false)} :: start <= |subject| && Boundary(e, subject, start) ==>
      match e.ask(start, false)
      case Found(m) => NothingBefore(e, subject, start, m.start)
      case NoMatch => NothingBefore(e, subject, start, |subject| + 1)
      case Failed(_) => true
  }

  /** `i` is the start of a recorded match or lies inside one. */
  predicate Recorded(ms: seq<Span>, i: nat) {
    exists k :: 0 <= k < |ms| && (ms[k].start == i || ms[k].start <= i < ms[k].end)
  }

  /** `i` is in the middle of an end of line that the search steps over: only the empty match was found before it. */
  predicate SteppedOver(e: Engine, subject: seq<int>, ms: seq<Span>, i: nat) {
    i > 0 && AtCrLf(e, subject, i - 1) && Span(i - 1, i - 1) in ms && e.ask(i - 1, true).NoMatch?
  }

  lemma RecordedCons(m: Span, ms: seq<Span>, i: nat)
    ensures Recorded([m] + ms, i) <==> Recorded(ms, i) || m.start == i || m.start <= i < m.end
  {
    var all := [m] + ms;
    if Recorded(all, i) {
      var k :| 0 <= k < |all| && (all[k].start == i || all[k].start <= i < all[k].end);
      if k > 0 {
        assert ms[k - 1] == all[k];
      }
    }
    if Recorded(ms, i) {
      var k :| 0 <= k < |ms| && (ms[k].start == i || ms[k].start <= i < ms[k].end);
      assert all[k + 1] == ms[k];
    }
    assert all[0] == m;
  }

  /** Whatever can match is recorded or stepped over. */
  lemma {:induction false} ContinueComplete(e: Engine, subject: seq<int>, v: Span, i: nat)
    requires Contract(e, subject) && Leftmost(e, subject) && Usable(e, subject, v)
    requires Continue(e, subject, false, v).error.None?
    requires v.end <= i && (v.Empty() ==> v.end < i) && Boundary(e, subject, i) && MatchesAt(e, i)
    ensures var ms := Continue(e, subject, false, v).matches;
      Recorded(ms, i) || SteppedOver(e, subject, [v] + ms, i)
    decreases |subject| + 1 - v.end, !v.Empty()
  {
    match e.ask(v.end, v.Empty())
    case NoMatch =>
      assert v.Empty();
      AdvanceToBoundary(e, subject, v.end);
      var next := Advance(e, subject, v.end);
      if next <= i {
        var w := Span(v.start, next);
        ContinueComplete(e, subject, w, i);
        var ms := Continue(e, subject, false, w).matches;
        if SteppedOver(e, subject, [w] + ms, i) {
          assert w != Span(i - 1, i - 1);
          assert SteppedOver(e, subject, [v] + ms, i);
        }
      }
    case Failed(_) =>
    case Found(m) =>
      assert m.start <= i;
      var ms := Continue(e, subject, false, m).matches;
      RecordedCons(m, ms, i);
      if m.start != i && m.end <= i {
        ContinueComplete(e, subject, m, i);
      }
  }

  /** Nothing that starts later is recorded at `i`. */
  lemma LaterIsNotRecorded(ms: seq<Span>, from: nat, length: nat, i: nat)
    requires Ordered(ms, from, length) && i < from
    ensures !Recorded(ms, i)
  {
  }

  /** What is stepped over is not recorded. */
  lemma {:induction false} ContinueSteps(e: Engine, subject: seq<int>, opts: bool, v: Span, i: nat)
    requires Contract(e, subject) && v.start <= v.end && (v.end <= |subject| ==> Boundary(e, subject, v.end))
    requires SteppedOver(e, subject, [v] + Continue(e, subject, opts, v).matches, i)
    ensures !Recorded(Continue(e, subject, opts, v).matches, i)
    decreases |subject| + 1 - v.end, !v.Empty()
  {
    var r, gap := Continue(e, subject, opts, v), Span(i - 1, i - 1);
    if !(v.Empty() && v.start == |subject|) {
      match e.ask(v.end, v.Empty())
      case NoMatch =>
        if v.Empty() || opts {
          AdvanceFits(e, subject, v.end);
          var w := Span(v.start, Advance(e, subject, v.end));
          if v == gap {
            ContinueOrdered(e, subject, opts, w);
            LaterIsNotRecorded(r.matches, w.end, |subject|, i);
          } else {
            assert SteppedOver(e, subject, [w] + r.matches, i);
            ContinueSteps(e, subject, opts, w, i);
          }
        }
      case Failed(_) =>
      case Found(m) =>
        assert v != gap;
        var ms := Continue(e, subject, opts, m).matches;
        assert SteppedOver(e, subject, [m] + ms, i);
        ContinueSteps(e, subject, opts, m, i);
        RecordedCons(m, ms, i);
        if m != gap {
          ContinueOrdered(e, subject, opts, m);
        }
    }
  }

  /**
   A search that ends without an error misses a place where a match can be found if and only if the place is in
   the middle of an end of line, an empty match was found before it, and nothing else was.
   */
  lemma SearchComplete(e: Engine, subject: seq<int>, offset: nat, i: nat)
    requires Contract(e, subject) && Leftmost(e, subject) && Boundary(e, subject, offset)
    requires Search(e, subject, false, true, offset).error.None?
    requires offset <= i && Boundary(e, subject, i) && MatchesAt(e, i)
    ensures var ms := Search(e, subject, false, true, offset).matches;
      Recorded(ms, i) <==> !SteppedOver(e, subject, ms, i)
  {
    assert e.ask(offset, false).Found?;
    var m := e.ask(offset, false).span;
    var ms := Continue(e, subject, false, m).matches;
    assert m.start <= i;
    RecordedCons(m, ms, i);
    if SteppedOver(e, subject, [m] + ms, i) {
      ContinueSteps(e, subject, false, m, i);
      ContinueOrdered(e, subject, false, m);
    } else if m.start != i && m.end <= i {
      ContinueComplete(e, subject, m, i);
    }
  }

  /** Nothing is missed if, at every end of line in the middle of which a match can start, another one starts before. */
  lemma SearchFindsAll(e: Engine, subject: seq<int>, offset: nat, i: nat)
    requires Contract(e, subject) && Leftmost(e, subject) && Boundary(e, subject, offset)
    requires Search(e, subject, false, true, offset).error.None?
    requires forall j: nat :: AtCrLf(e, subject, j) && MatchesAt(e, j + 1) ==> !e.ask(j, true).NoMatch?
    requires offset <= i && Boundary(e, subject, i) && MatchesAt(e, i)
    ensures Recorded(Search(e, subject, false, true, offset).matches, i)
  {
    SearchComplete(e, subject, offset, i);
    hide Contract, Leftmost, Search, Recorded;
    if i > 0 && AtCrLf(e, subject, i - 1) {
      assert !e.ask(i - 1, true).NoMatch?;
    }
  }

  /** A match is really missed: an empty match before CR, and a match of LF alone, in the subject CR LF. */
  lemma SearchMisses()
    ensures exists e: Engine, subject: seq<int> ::
      && Contract(e, subject) && Leftmost(e, subject) && MatchesAt(e, 1)
      && Search(e, subject, false, true, 0) == Run([Span(0, 0)], [0, 0, 2], None)
      && !Recorded(Search(e, subject, false, true, 0).matches, 1)
  {
    var ask := (i: nat, restricted: bool) =>
      if i == 0 then (if restricted then NoMatch else Found(Span(0, 0)))
      else if i == 1 then Found(Span(1, 2)) else if i == 2 then NoMatch else Failed(-33);
    var e, subject := Engine(ask, false, true), [13, 10];
    assert Contract(e, subject) && Leftmost(e, subject);
    var w := Span(0, 2);
    assert Advance(e, subject, 0) == 2;
    assert Continue(e, subject, false, w) == Run([], [2], None);
    assert Continue(e, subject, false, Span(0, 0)) == Run([], [0, 2], None);
  }

  // ---- Options of the caller ----

  /** The engine fails only when it is asked to start after the end of the subject. */
  ghost predicate FailsOnlyOutside(e: Engine, subject: seq<int>) {
    forall i: nat, restricted: bool {:trigger e.ask(i, restricted)} :: i <= |subject| ==> !e.ask(i, restricted).Failed?
  }

  function LastOf(v: Span, ms: seq<Span>): Span {
    if ms == [] then v else ms[|ms| - 1]
  }

  /** Some search starts after the end of the subject. */
  predicate Overruns(subject: seq<int>, asked: seq<nat>) {
    exists k :: 0 <= k < |asked| && asked[k] > |subject|
  }

  lemma OverrunsCons(subject: seq<int>, start: nat, asked: seq<nat>)
    ensures Overruns(subject, [start] + asked) == (start > |subject| || Overruns(subject, asked))
  {
    if Overruns(subject, asked) {
      var k :| 0 <= k < |asked| && asked[k] > |subject|;
      assert ([start] + asked)[k + 1] == asked[k];
    }
    assert ([start] + asked)[0] == start;
  }

  /** The place from which the loop goes on lies at or before the end, or one past it. */
  lemma {:induction false} ContinueOverruns(e: Engine, subject: seq<int>, v: Span, last: Span)
    requires Contract(e, subject) && FailsOnlyOutside(e, subject)
    requires v.start <= v.end <= |subject| + 1 && (v.end <= |subject| ==> Boundary(e, subject, v.end))
    requires last.start == v.start && (v == last || (v.end > last.end && !v.Empty()))
    requires last.start <= last.end <= |subject|
    ensures var r := Continue(e, subject, true, v); var full := Span(|subject|, |subject|);
      && (r.error.None? <==> LastOf(last, r.matches) == full && (r.matches == [] ==> v == last))
      && (Overruns(subject, r.asked) <==> r.error.Some?)
    decreases |subject| + 1 - v.end, !v.Empty()
  {
    if !(v.Empty() && v.start == |subject|) {
      var start := v.end;
      match e.ask(start, v.Empty())
      case NoMatch =>
        var next := Advance(e, subject, start);
        AdvanceFits(e, subject, start);
        ContinueOverruns(e, subject, Span(v.start, next), last);
        OverrunsCons(subject, start, Continue(e, subject, true, Span(v.start, next)).asked);
      case Failed(_) =>
        OverrunsCons(subject, start, []);
        assert [start] + [] == [start];
      case Found(m) =>
        ContinueOverruns(e, subject, m, m);
        OverrunsCons(subject, start, Continue(e, subject, true, m).asked);
    }
  }

  /** In terms of what the search records: it fails unless the last match is the empty one at the end. */
  lemma OverrunByLastMatch(e: Engine, subject: seq<int>, offset: nat)
    requires Contract(e, subject) && FailsOnlyOutside(e, subject) && Boundary(e, subject, offset)
    ensures var r := Search(e, subject, true, true, offset);
      && (Overruns(subject, r.asked) <==> r.error.Some?)
      && (r.error.Some? <==> r.matches != [] && r.matches[|r.matches| - 1] != Span(|subject|, |subject|))
  {
    if e.ask(offset, false).Found? {
      var m := e.ask(offset, false).span;
      ContinueOverruns(e, subject, m, m);
      var r := Continue(e, subject, true, m);
      OverrunsCons(subject, offset, r.asked);
    } else {
      OverrunsCons(subject, offset, []);
      assert [offset] + [] == [offset];
    }
  }

  /** An empty match at the end that a search finds from somewhere is found from there, too. */
  ghost predicate EndIsSeen(e: Engine, subject: seq<int>) {
    forall i: nat {:trigger e.ask(i, false)} ::
      i <= |subject| && e.ask(i, false) == Found(Span(|subject|, |subject|)) ==> MatchesAt(e, |subject|)
  }

  /** Every match starts where the engine is asked: an anchored pattern, or PCRE2_ANCHORED given by the caller. */
  ghost predicate Anchored(e: Engine) {
    forall i: nat {:trigger e.ask(i, false)} :: e.ask(i, false).Found? ==> e.ask(i, false).span.start == i
  }

  lemma AnchoredSeesEnd(e: Engine, subject: seq<int>)
    requires Anchored(e)
    ensures EndIsSeen(e, subject)
  {
  }

  /** If the end itself matches, the loop comes to the end, and stops there. */
  lemma {:induction false} ContinueReachesEnd(e: Engine, subject: seq<int>, v: Span)
    requires Contract(e, subject) && FailsOnlyOutside(e, subject) && Usable(e, subject, v) && MatchesAt(e, |subject|)
    ensures Continue(e, subject, true, v).error.None?
    decreases |subject| + 1 - v.end, !v.Empty()
  {
    if !(v.Empty() && v.start == |subject|) {
      match e.ask(v.end, v.Empty())
      case NoMatch =>
        AdvanceToBoundary(e, subject, v.end);
        ContinueReachesEnd(e, subject, Span(v.start, Advance(e, subject, v.end)));
      case Failed(_) =>
      case Found(m) => ContinueReachesEnd(e, subject, m);
    }
  }

  /** All matches are found by asking somewhere in the subject. */
  lemma {:induction false} ContinueAsksForMatches(e: Engine, subject: seq<int>, opts: bool, v: Span, m: Span)
    requires Contract(e, subject) && v.start <= v.end && (v.end <= |subject| ==> Boundary(e, subject, v.end))
    requires m in Continue(e, subject, opts, v).matches && m.Empty()
    ensures exists i: nat :: i <= |subject| && e.ask(i, false) == Found(m)
    decreases |subject| + 1 - v.end, !v.Empty()
  {
    match e.ask(v.end, v.Empty())
    case NoMatch =>
      AdvanceFits(e, subject, v.end);
      ContinueAsksForMatches(e, subject, opts, Span(v.start, Advance(e, subject, v.end)), m);
    case Failed(_) =>
    case Found(k) =>
      if k != m {
        ContinueAsksForMatches(e, subject, opts, k, m);
      }
  }

  /**
   With options of the caller the loop does not recognise that it has found all matches. Whether it then runs past
   the end of the subject and reports an error can be told before: it does if something matches, but not the end.
   */
  lemma CallerOptionsOverrun(e: Engine, subject: seq<int>, offset: nat)
    requires Contract(e, subject) && FailsOnlyOutside(e, subject)
    requires Boundary(e, subject, offset) && EndIsSeen(e, subject)
    ensures var r := Search(e, subject, true, true, offset);
      && (Overruns(subject, r.asked) <==> r.error.Some?)
      && (r.error.Some? <==> e.ask(offset, false).Found? && !MatchesAt(e, |subject|))
  {
    OverrunByLastMatch(e, subject, offset);
    var r, full := Search(e, subject, true, true, offset), Span(|subject|, |subject|);
    if e.ask(offset, false).Found? {
      var m := e.ask(offset, false).span;
      if MatchesAt(e, |subject|) {
        ContinueReachesEnd(e, subject, m);
      } else if r.matches[|r.matches| - 1] == full {
        if |r.matches| > 1 {
          ContinueAsksForMatches(e, subject, true, m, full);
        }
        assert false;
      }
    }
  }

  /** The same engine and subject, with and without an option of the caller: "a" is found in "a". */
  lemma CallerOptionsMatter()
    ensures exists e: Engine, subject: seq<int> ::
      && Contract(e, subject)
      && Search(e, subject, false, true, 0).error.None? && !Overruns(subject, Search(e, subject, false, true, 0).asked)
      && Search(e, subject, true, true, 0).error.Some? && Overruns(subject, Search(e, subject, true, true, 0).asked)
      && Search(e, subject, false, true, 0).matches == Search(e, subject, true, true, 0).matches == [Span(0, 1)]
  {
    var ask := (i: nat, restricted: bool) =>
      if i == 0 then Found(Span(0, 1)) else if i == 1 then NoMatch else Failed(-33);
    var e, subject := Engine(ask, false, false), [97];
    assert Contract(e, subject);
    OverrunByLastMatch(e, subject, 0);
    SearchStaysInside(e, subject, true, 0);
    assert e.ask(0, false) == Found(Span(0, 1)) && e.ask(1, false) == NoMatch;
  }
}
