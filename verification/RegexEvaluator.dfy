/**
 RegexMatch::match and MatchEvaluator::nreplace (jpcre2.hpp) as an object that fills vectors of offsets and
 of numbered substrings, and then splices the results of a callback into the subject.
 */
module RegexEvaluator {
  import opened Sequences
  import opened RegexSearch
  import opened RegexSearchProof

  type Text = seq<int>

  /** PCRE2_ERROR_BADSUBSPATTERN */
  const BAD_OFFSET := -60

  function GroupZero(subject: Text, ms: seq<Span>): (r: seq<Text>)
    requires forall i :: 0 <= i < |ms| ==> ms[i].start <= ms[i].end <= |subject|
    ensures |r| == |ms| && forall i :: 0 <= i < |ms| ==> r[i] == subject[ms[i].start..ms[i].end]
  {
    if ms == [] then [] else [subject[ms[0].start..ms[0].end]] + GroupZero(subject, ms[1..])
  }

  // ---- What nreplace is for ----

  /** From the match `i` on, no match starts before `from` or before the end of the match before it. */
  predicate Chained(ms: seq<Span>, i: nat, from: nat, length: nat)
    requires i <= |ms|
    decreases |ms| - i
  {
    if i == |ms| then from <= length
    else from <= ms[i].start <= ms[i].end && Chained(ms, i + 1, ms[i].end, length)
  }

  lemma {:induction false} ChainedFits(ms: seq<Span>, i: nat, from: nat, length: nat)
    requires i <= |ms| && Chained(ms, i, from, length)
    ensures from <= length && (i < |ms| ==> ms[i].end <= length)
    decreases |ms| - i
  {
    if i < |ms| {
      ChainedFits(ms, i + 1, ms[i].end, length);
    }
  }

  lemma {:induction false} OrderedIsChained(ms: seq<Span>, i: nat, from: nat, length: nat)
    requires Ordered(ms, 0, length) && i <= |ms| && from <= length && (i < |ms| ==> from <= ms[i].start)
    ensures Chained(ms, i, from, length)
    decreases |ms| - i
  {
    if i < |ms| {
      assert i + 1 < |ms| ==> Before(ms[i], ms[i + 1]);
      OrderedIsChained(ms, i + 1, ms[i].end, length);
    }
  }

  /** The subject from `from` on with the matches from `i` on replaced by what the callback makes of them. */
  function Splice(subject: Text, ms: seq<Span>, callback: Text -> Text, i: nat, from: nat): Text
    requires i <= |ms| && Chained(ms, i, from, |subject|)
    decreases |ms| - i
  {
    ChainedFits(ms, i, from, |subject|);
    if i == |ms| then subject[from..]
    else
      subject[from..ms[i].start] + (callback(subject[ms[i].start..ms[i].end])
        + Splice(subject, ms, callback, i + 1, ms[i].end))
  }

  /** A callback that returns what was matched leaves the subject as it is. */
  lemma {:induction false} FillKeepsSubject(subject: Text, ms: seq<Span>, callback: Text -> Text, i: nat, from: nat)
    requires i <= |ms| && Chained(ms, i, from, |subject|)
    requires forall t: Text :: callback(t) == t
    ensures from <= |subject| && Splice(subject, ms, callback, i, from) == subject[from..]
    decreases |ms| - i
  {
    ChainedFits(ms, i, from, |subject|);
    if i < |ms| {
      FillKeepsSubject(subject, ms, callback, i + 1, ms[i].end);
      var a, b := ms[i].start, ms[i].end;
      assert subject[from..a] + (subject[a..b] + subject[b..]) == subject[from..];
    }
  }

  /** Where the match before the match `n` ends. */
  function EndBefore(ms: seq<Span>, n: nat): nat
    requires n <= |ms|
  {
    if n == 0 then 0 else ms[n - 1].end
  }

  /** The match `k` is the first that starts before the one before it ends. */
  predicate FirstEarly(ms: seq<Span>, k: nat) {
    k < |ms| && ms[k].start < EndBefore(ms, k) && forall j :: 0 <= j < k ==> EndBefore(ms, j) <= ms[j].start
  }

  /** The matches lie in the subject in order, none overlapping the one before it. */
  predicate Apart(ms: seq<Span>, length: nat) {
    EndBefore(ms, |ms|) <= length
    && forall k :: 0 <= k < |ms| ==> EndBefore(ms, k) <= ms[k].start <= ms[k].end <= length
  }

  /** The pieces up to the end of the match before `n`: what lies before each match, and its replacement, once. */
  function Replaced(subject: Text, ms: seq<Span>, callback: Text -> Text, n: nat): Text
    requires n <= |ms| && Apart(ms, |subject|)
  {
    if n == 0 then []
    else
      Replaced(subject, ms, callback, n - 1) + subject[EndBefore(ms, n - 1)..ms[n - 1].start]
        + callback(subject[ms[n - 1].start..ms[n - 1].end])
  }

  lemma {:induction false} ChainedIsApart(ms: seq<Span>, i: nat, length: nat)
    requires i <= |ms|
    ensures Chained(ms, i, EndBefore(ms, i), length) <==>
      EndBefore(ms, |ms|) <= length
      && forall k :: i <= k < |ms| ==> EndBefore(ms, k) <= ms[k].start <= ms[k].end <= length
    decreases |ms| - i
  {
    if i < |ms| {
      ChainedIsApart(ms, i + 1, length);
    }
  }

  lemma {:induction false} SpliceRest(subject: Text, ms: seq<Span>, callback: Text -> Text, i: nat)
    requires i <= |ms| && Apart(ms, |subject|) && Chained(ms, i, EndBefore(ms, i), |subject|)
    ensures EndBefore(ms, |ms|) <= |subject|
    ensures Replaced(subject, ms, callback, i) + Splice(subject, ms, callback, i, EndBefore(ms, i))
      == Replaced(subject, ms, callback, |ms|) + subject[EndBefore(ms, |ms|)..]
    decreases |ms| - i
  {
    hide Chained, Apart, Splice, Replaced;
    if i < |ms| {
      SpliceOnce(subject, ms, callback, i);
      ReplacedOnce(subject, ms, callback, i);
      SpliceRest(subject, ms, callback, i + 1);
      var a, b := EndBefore(ms, i), ms[i].start;
      Associative(Replaced(subject, ms, callback, i), subject[a..b], callback(subject[b..ms[i].end]),
        Splice(subject, ms, callback, i + 1, ms[i].end));
    } else {
      SpliceEnd(subject, ms, callback);
    }
  }

  lemma SpliceEnd(subject: Text, ms: seq<Span>, callback: Text -> Text)
    requires Chained(ms, |ms|, EndBefore(ms, |ms|), |subject|)
    ensures EndBefore(ms, |ms|) <= |subject|
    ensures Splice(subject, ms, callback, |ms|, EndBefore(ms, |ms|)) == subject[EndBefore(ms, |ms|)..]
  {
  }

  lemma SpliceOnce(subject: Text, ms: seq<Span>, callback: Text -> Text, i: nat)
    requires i < |ms| && Chained(ms, i, EndBefore(ms, i), |subject|)
    ensures EndBefore(ms, i) <= ms[i].start <= ms[i].end <= |subject| && Chained(ms, i + 1, ms[i].end, |subject|)
    ensures Splice(subject, ms, callback, i, EndBefore(ms, i))
      == subject[EndBefore(ms, i)..ms[i].start] + (callback(subject[ms[i].start..ms[i].end])
         + Splice(subject, ms, callback, i + 1, ms[i].end))
  {
    ChainedFits(ms, i, EndBefore(ms, i), |subject|);
  }

  lemma ReplacedOnce(subject: Text, ms: seq<Span>, callback: Text -> Text, i: nat)
    requires i < |ms| && Apart(ms, |subject|)
    ensures EndBefore(ms, i) <= ms[i].start <= ms[i].end <= |subject|
    ensures Replaced(subject, ms, callback, i + 1)
      == Replaced(subject, ms, callback, i) + subject[EndBefore(ms, i)..ms[i].start]
         + callback(subject[ms[i].start..ms[i].end])
  {
  }

  /** For every callback: each match, in order, gives way to its replacement, and the rest stays. */
  lemma SplicePieces(subject: Text, ms: seq<Span>, callback: Text -> Text)
    ensures Chained(ms, 0, 0, |subject|) <==> Apart(ms, |subject|)
    ensures Apart(ms, |subject|) ==>
      Splice(subject, ms, callback, 0, 0) == Replaced(subject, ms, callback, |ms|) + subject[EndBefore(ms, |ms|)..]
  {
    ChainedIsApart(ms, 0, |subject|);
    if Apart(ms, |subject|) {
      SpliceRest(subject, ms, callback, 0);
      assert [] + Splice(subject, ms, callback, 0, 0) == Splice(subject, ms, callback, 0, 0);
    }
    hide Splice, Chained;
  }

  predicate Matched(ms: seq<Span>, k: nat) {
    exists i :: 0 <= i < |ms| && ms[i].start <= k < ms[i].end
  }

  /** The code units from `from` on that belong to no match. */
  function Unmatched(subject: Text, ms: seq<Span>, from: nat): Text
    requires from <= |subject|
    decreases |subject| - from
  {
    if from == |subject| then []
    else (if Matched(ms, from) then [] else [subject[from]]) + Unmatched(subject, ms, from + 1)
  }

  /** A callback that returns nothing leaves exactly the unmatched code units, in their order. */
  lemma EraseKeepsUnmatched(subject: Text, ms: seq<Span>, callback: Text -> Text)
    requires Chained(ms, 0, 0, |subject|) && forall t: Text :: callback(t) == []
    ensures Splice(subject, ms, callback, 0, 0) == Unmatched(subject, ms, 0)
  {
    EraseFrom(subject, ms, callback, 0, 0);
  }

  /** All matches before `i` end by `from`. */
  predicate Passed(ms: seq<Span>, i: nat, from: nat) {
    forall k :: 0 <= k < i && k < |ms| ==> ms[k].end <= from
  }

  lemma {:induction false} EraseFrom(subject: Text, ms: seq<Span>, callback: Text -> Text, i: nat, from: nat)
    requires i <= |ms| && Chained(ms, i, from, |subject|) && Passed(ms, i, from)
    requires forall t: Text :: callback(t) == []
    ensures from <= |subject| && Splice(subject, ms, callback, i, from) == Unmatched(subject, ms, from)
    decreases |ms| - i
  {
    ChainedFits(ms, i, from, |subject|);
    hide Unmatched;
    if i == |ms| {
      NoneBetween(ms, i, from, |subject|, |subject|);
      UnmatchedPiece(subject, ms, from, |subject|);
      UnmatchedAtEnd(subject, ms);
    } else {
      var a, b := ms[i].start, ms[i].end;
      EraseFrom(subject, ms, callback, i + 1, b);
      NoneBetween(ms, i, from, a, |subject|);
      UnmatchedPiece(subject, ms, from, a);
      MatchedPiece(subject, ms, i, a);
      assert [] + Unmatched(subject, ms, b) == Unmatched(subject, ms, b);
    }
  }

  lemma UnmatchedAtEnd(subject: Text, ms: seq<Span>)
    ensures Unmatched(subject, ms, |subject|) == []
  {
  }

  /** Later matches do not start before the next one does. */
  lemma {:induction false} StartsAfter(ms: seq<Span>, i: nat, k: nat, from: nat, length: nat)
    requires i <= k < |ms| && Chained(ms, i, from, length)
    ensures from <= ms[k].start && (i < k ==> ms[i].end <= ms[k].start)
    decreases k - i
  {
    if i < k {
      StartsAfter(ms, i + 1, k, ms[i].end, length);
    }
  }

  lemma NoneBetween(ms: seq<Span>, i: nat, from: nat, to: nat, length: nat)
    requires i <= |ms| && Chained(ms, i, from, length) && Passed(ms, i, from)
    requires if i < |ms| then to == ms[i].start else to == length
    ensures forall k :: from <= k < to ==> !Matched(ms, k)
  {
    forall k | from <= k < to
      ensures !Matched(ms, k)
    {
      if Matched(ms, k) {
        var j :| 0 <= j < |ms| && ms[j].start <= k < ms[j].end;
        if i <= j {
          StartsAfter(ms, i, j, from, length);
        }
      }
    }
  }

  lemma {:induction false} UnmatchedPiece(subject: Text, ms: seq<Span>, i: nat, j: nat)
    requires i <= j <= |subject| && forall k :: i <= k < j ==> !Matched(ms, k)
    ensures Unmatched(subject, ms, i) == subject[i..j] + Unmatched(subject, ms, j)
    decreases j - i
  {
    if i < j {
      UnmatchedPiece(subject, ms, i + 1, j);
      UnmatchedStep(subject, ms, i);
      OneMore(subject, i, j, Unmatched(subject, ms, j));
    }
    hide Unmatched, Matched;
  }

  lemma UnmatchedStep(subject: Text, ms: seq<Span>, i: nat)
    requires i < |subject| && !Matched(ms, i)
    ensures Unmatched(subject, ms, i) == [subject[i]] + Unmatched(subject, ms, i + 1)
  {
    hide Matched;
  }

  lemma OneMore(subject: Text, i: nat, j: nat, rest: Text)
    requires i < j <= |subject|
    ensures [subject[i]] + (subject[i + 1..j] + rest) == subject[i..j] + rest
  {
    assert subject[i..j] == [subject[i]] + subject[i + 1..j];
  }

  lemma {:induction false} MatchedPiece(subject: Text, ms: seq<Span>, i: nat, from: nat)
    requires i < |ms| && ms[i].start <= from <= ms[i].end <= |subject|
    ensures Unmatched(subject, ms, from) == Unmatched(subject, ms, ms[i].end)
    decreases ms[i].end - from
  {
    if from < ms[i].end {
      assert Matched(ms, from);
      MatchedPiece(subject, ms, i, from + 1);
    }
  }

  // ---- The object ----

  class MatchEvaluator {
    const engine: Engine
    const callerOptions: bool
    const findAll: bool
    const callback: Text -> Text
    var subject: Text
    var startOffset: nat
    var vecSoff: seq<nat>
    var vecEoff: seq<nat>
    var vecNum: seq<Text>
    var errorNumber: int
    ghost var matches: seq<Span>

    constructor (engine: Engine, callerOptions: bool, findAll: bool, callback: Text -> Text,
                 subject: Text, startOffset: nat)
      ensures this.engine == engine && this.callerOptions == callerOptions && this.findAll == findAll
      ensures this.callback == callback && this.subject == subject && this.startOffset == startOffset
      ensures matches == [] && errorNumber == 0 && Records()
    {
      this.engine, this.callerOptions, this.findAll, this.callback := engine, callerOptions, findAll, callback;
      this.subject, this.startOffset := subject, startOffset;
      vecSoff, vecEoff, vecNum, errorNumber, matches := [], [], [], 0, [];
    }

    /** The vectors describe the recorded matches. */
    ghost predicate Records()
      reads this`subject, this`vecSoff, this`vecEoff, this`vecNum, this`matches
    {
      && |vecSoff| == |vecEoff| == |matches|
      && (forall i :: 0 <= i < |matches| ==>
           vecSoff[i] == matches[i].start && vecEoff[i] == matches[i].end && matches[i].end <= |subject|
           && matches[i].start <= matches[i].end)
      && vecNum == GroupZero(subject, matches)
    }

    /** The precondition that PCRE2 puts on the pattern, the subject and the place to start. */
    ghost predicate Searchable()
      reads this
    {
      Contract(engine, subject) && (startOffset <= |subject| ==> Boundary(engine, subject, startOffset))
    }

    method Record(m: Span)
      requires Records() && m.start <= m.end <= |subject|
      modifies this`vecSoff, this`vecEoff, this`vecNum, this`matches
      ensures Records() && matches == old(matches) + [m]
    {
      vecSoff, vecEoff := vecSoff + [m.start], vecEoff + [m.end];
      vecNum := vecNum + [subject[m.start..m.end]];
      matches := matches + [m];
      assert vecNum == GroupZero(subject, matches);
    }

    /** The place after the one that was asked in vain. */
    method NextOffset(start: nat) returns (next: nat)
      ensures next == Advance(engine, subject, start)
    {
      next := start + 1;
      if engine.crlfIsNewline && start + 1 < |subject| && subject[start] == 13 && subject[start + 1] == 10 {
        next := next + 1;
      } else if engine.utf {
        while next < |subject| && Continuation(subject[next])
          invariant SkipContinuation(subject, next) == SkipContinuation(subject, start + 1)
        {
          next := next + 1;
        }
      }
    }

    /** match() records what `Search` says, and returns how much it has recorded. */
    method Match() returns (count: nat)
      requires Searchable()
      modifies this`vecSoff, this`vecEoff, this`vecNum, this`matches, this`errorNumber
      ensures var r := Search(engine, subject, callerOptions, findAll, startOffset);
        && Records() && matches == r.matches && count == |matches|
        && errorNumber == if r.error.Some? then r.error.value else old(errorNumber)
    {
      vecSoff, vecEoff, vecNum, matches, count := [], [], [], [], 0;
      var answer := engine.ask(startOffset, false);
      match answer
      case NoMatch => return 0;
      case Failed(code) =>
        errorNumber := code;
        return 0;
      case Found(m) =>
        count := 1;
        Record(m);
        if findAll {
          var more := MatchMore(m);
          count := count + more;
        }
    }

    /** The loop for the second and later matches. */
    method MatchMore(first: Span) returns (count: nat)
      requires Searchable() && Records()
      requires first.start <= first.end <= |subject| && Boundary(engine, subject, first.end)
      modifies this`vecSoff, this`vecEoff, this`vecNum, this`matches, this`errorNumber
      ensures var r := Continue(engine, subject, callerOptions, first);
        && Records() && matches == old(matches) + r.matches && count == |r.matches|
        && errorNumber == if r.error.Some? then r.error.value else old(errorNumber)
    {
      hide Contract, Continue, Advance, Boundary, MatchEvaluator.Records;
      ghost var todo := Continue(engine, subject, callerOptions, first);
      var v := first;
      count := 0;
      while true
        invariant Searchable() && Records() && v.start <= v.end
        invariant v.end <= |subject| ==> Boundary(engine, subject, v.end)
        invariant errorNumber == old(errorNumber) && count == |matches| - |old(matches)|
        invariant Continues(Continue(engine, subject, callerOptions, v), old(matches), matches, todo)
        decreases |subject| + 1 - v.end, !v.Empty()
      {
        ContinueStep(engine, subject, callerOptions, v);
        if v.start == v.end && v.start == |subject| {
          break;
        }
        var restricted := v.start == v.end;
        var answer := engine.ask(v.end, restricted);
        match answer
        case NoMatch =>
          if !restricted && !callerOptions {
            break;
          }
          var next := NextOffset(v.end);
          v := Span(v.start, next);
        case Failed(code) =>
          errorNumber := code;
          break;
        case Found(m) =>
          count := count + 1;
          Record(m);
          v := m;
      }
    }

    /** The matches that nreplace uses: all of them, or only the first. */
    ghost function Used(): seq<Span>
      reads this
    {
      if findAll || matches == [] then matches else matches[..1]
    }

    /**
     nreplace() splices the results of the callback into the subject. Matches that start before the one before
     them ends are not supported: then the subject comes back, with an error and the number of the matches before it.
     */
    method NReplace(doMatch: bool) returns (res: Text, counter: nat)
      requires if doMatch then Searchable() else Records()
      modifies this`vecSoff, this`vecEoff, this`vecNum, this`matches, this`errorNumber
      ensures !doMatch ==> matches == old(matches)
      ensures Records() && if Chained(Used(), 0, 0, |subject|)
        then res == Splice(subject, Used(), callback, 0, 0) && counter == |Used()|
        else res == subject && errorNumber == BAD_OFFSET && FirstEarly(Used(), counter)
      ensures doMatch ==>
        && Chained(Used(), 0, 0, |subject|)
        && matches == Search(engine, subject, callerOptions, findAll, startOffset).matches
    {
      hide Contract, Search;
      if doMatch {
        var count := Match();
        SearchOrdered(engine, subject, callerOptions, findAll, startOffset);
        UsedIsChained();
      }
      res, counter := Rebuild();
    }

    lemma UsedIsChained()
      requires Ordered(matches, 0, |subject|)
      ensures Chained(Used(), 0, 0, |subject|)
    {
      OrderedIsChained(Used(), 0, 0, |subject|);
    }

    method Rebuild() returns (res: Text, counter: nat)
      requires Records()
      modifies this`errorNumber
      ensures if Chained(Used(), 0, 0, |subject|)
        then res == Splice(subject, Used(), callback, 0, 0) && counter == |Used()| && errorNumber == old(errorNumber)
        else res == subject && errorNumber == BAD_OFFSET && FirstEarly(Used(), counter)
    {
      counter := 0;
      if |vecSoff| == 0 {
        return subject, 0;
      }
      ghost var used := Used();
      ghost var good := Chained(used, 0, 0, |subject|);
      var currentOffset: nat := 0;
      res := [];
      while counter < |vecSoff|
        invariant Records() && errorNumber == old(errorNumber) && counter <= |used| <= |vecSoff|
        invariant currentOffset <= |subject| && good == Chained(used, counter, currentOffset, |subject|)
        invariant currentOffset == EndBefore(used, counter)
        invariant forall j :: 0 <= j < counter ==> EndBefore(used, j) <= used[j].start
        invariant good ==> Spliced(subject, used, callback, counter, currentOffset, res)
        invariant counter > 0 ==> findAll
      {
        if vecSoff[counter] < currentOffset {
          errorNumber := BAD_OFFSET;
          return subject, counter;
        }
        ghost var before := res;
        res := res + subject[currentOffset..vecSoff[counter]];
        res := res + callback(vecNum[counter]);
        SpliceStep(subject, used, callback, counter, currentOffset, before, res);
        currentOffset := vecEoff[counter];
        counter := counter + 1;
        if !findAll {
          break;
        }
      }
      res := res + subject[currentOffset..];
    }
  }

  /** `done` and the rest make up the whole. */
  predicate Spliced(subject: Text, ms: seq<Span>, callback: Text -> Text, i: nat, from: nat, done: Text)
    requires i <= |ms| && Chained(ms, i, from, |subject|) && Chained(ms, 0, 0, |subject|)
  {
    done + Splice(subject, ms, callback, i, from) == Splice(subject, ms, callback, 0, 0)
  }

  lemma SpliceStep(subject: Text, ms: seq<Span>, callback: Text -> Text, i: nat, from: nat, before: Text, after: Text)
    requires i < |ms| && from <= ms[i].start <= ms[i].end <= |subject|
    requires after == before + subject[from..ms[i].start] + callback(subject[ms[i].start..ms[i].end])
    ensures Chained(ms, i, from, |subject|) == Chained(ms, i + 1, ms[i].end, |subject|)
    ensures (Chained(ms, i, from, |subject|) && Chained(ms, 0, 0, |subject|)
        && Spliced(subject, ms, callback, i, from, before))
      ==> Spliced(subject, ms, callback, i + 1, ms[i].end, after)
  {
    if Chained(ms, i, from, |subject|) {
      var x, y := subject[from..ms[i].start], callback(subject[ms[i].start..ms[i].end]);
      var z := Splice(subject, ms, callback, i + 1, ms[i].end);
      assert Splice(subject, ms, callback, i, from) == x + (y + z);
      hide Splice, Chained;
      Associative(before, x, y, z);
    }
  }

  lemma Associative(a: Text, b: Text, c: Text, d: Text)
    ensures a + (b + (c + d)) == a + b + c + d
  {
  }

  /** What has been recorded and what is still to be done make up the whole. */
  ghost predicate Continues(rest: Run, before: seq<Span>, now: seq<Span>, whole: Run) {
    && now + rest.matches == before + whole.matches && rest.error == whole.error && |before| <= |now|
    && (rest.matches == [] ==> now == before + whole.matches)
  }

  predicate Ends(r: Run, error: Option<int>) {
    r.matches == [] && r.error == error
  }

  /** One turn of the loop. */
  lemma ContinueStep(e: Engine, subject: Text, opts: bool, v: Span)
    requires Contract(e, subject) && v.start <= v.end && (v.end <= |subject| ==> Boundary(e, subject, v.end))
    ensures v.Empty() && v.start == |subject| ==> Ends(Continue(e, subject, opts, v), None)
    ensures !(v.Empty() && v.start == |subject|) ==>
      var answer := e.ask(v.end, v.Empty());
      var r := Continue(e, subject, opts, v);
      var w := Span(v.start, Advance(e, subject, v.end));
      && (answer.Failed? ==> Ends(r, Some(answer.code)))
      && (answer.NoMatch? && !v.Empty() && !opts ==> Ends(r, None))
      && (answer.NoMatch? && (v.Empty() || opts) ==>
           && v.end <= |subject| && v.end < w.end && (w.end <= |subject| ==> Boundary(e, subject, w.end))
           && r.matches == Continue(e, subject, opts, w).matches && r.error == Continue(e, subject, opts, w).error)
      && (answer.Found? ==>
           && v.end <= |subject| && v.end <= answer.span.start <= answer.span.end <= |subject|
           && Boundary(e, subject, answer.span.end) && (v.Empty() ==> v.end < answer.span.end)
           && (v.end == answer.span.end ==> answer.span.Empty())
           && r.matches == [answer.span] + Continue(e, subject, opts, answer.span).matches
           && r.error == Continue(e, subject, opts, answer.span).error)
  {
    if v.end <= |subject| {
      AdvanceFits(e, subject, v.end);
    }
    hide Advance, Boundary, NothingBefore;
  }
}
