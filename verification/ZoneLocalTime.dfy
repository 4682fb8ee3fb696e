/** Local times of a zone with rules: how many instants show a given clock reading, and the way back. */
module ZoneLocalTime {
  import opened CppArithmetic
  import opened ZoneSchedule

  /** The instants whose clock reading is `tp`: only the two offsets of the zone can produce one. */
  ghost function Preimages(s: Schedule, tp: int): set<int> {
    set t | t in {tp - s.offset, tp - (s.offset + s.save)} && t + s.OffsetAt(t) == tp
  }

  lemma PreimagesAreAll(s: Schedule, tp: int, t: int)
    ensures t in Preimages(s, tp) <==> t + s.OffsetAt(t) == tp
  {
  }

  /** nonexistent, unique or ambiguous for none, one or two instants. */
  function ResultOfCount(n: nat): LocalResult {
    if n == 0 then Nonexistent else if n == 1 then Unique else Ambiguous
  }

  /** The earlier and the later of the two candidate instants of a local time. */
  function Low(s: Schedule, tp: int): int {
    tp - s.offset - Max(0, s.save)
  }

  function High(s: Schedule, tp: int): int {
    tp - s.offset - Min(0, s.save)
  }

  lemma SeparatesIsBetween(s: Schedule, tp: int, t: int)
    ensures s.Separates(tp, t) <==> Low(s, tp) < t <= High(s, tp)
    ensures High(s, tp) - Low(s, tp) == Abs(s.save)
  {
  }

  /** A transition of another year than that of `tp` decides how often `tp` occurs. */
  ghost predicate ForeignCrossing(s: Schedule, tp: int) {
    exists k :: k != s.yearOf(tp) && (s.Separates(tp, s.start(k)) || s.Separates(tp, s.end(k)))
  }

  ghost predicate QuietReading(s: Schedule, tp: int) {
    forall k {:trigger s.start(k)} {:trigger s.end(k)} :: !s.Separates(tp, s.start(k)) && !s.Separates(tp, s.end(k))
  }

  // ---- Counting the instants of a local time ----

  lemma QuietIsQuiet(s: Schedule, tp: int)
    requires QuietReading(s, tp)
    ensures Quiet(s, Low(s, tp), High(s, tp))
  {
    hide Low, High;
    forall y
      ensures !(Low(s, tp) < s.start(y) <= High(s, tp)) && !(Low(s, tp) < s.end(y) <= High(s, tp))
    {
      SeparatesIsBetween(s, tp, s.start(y));
      SeparatesIsBetween(s, tp, s.end(y));
    }
  }

  lemma QuietCount(s: Schedule, tp: int)
    requires QuietReading(s, tp)
    ensures Preimages(s, tp) == {tp - s.OffsetAt(tp - s.offset)}
    ensures |Preimages(s, tp)| == 1
  {
    hide QuietReading, Schedule.DaylightAt;
    QuietIsQuiet(s, tp);
    SameDaylight(s, Low(s, tp), High(s, tp));
    assert Preimages(s, tp) == {tp - s.OffsetAt(tp - s.offset)};
  }

  /** Two transitions cannot both separate the readings of one local time. */
  lemma OneStart(s: Schedule, tp: int, j: int, k: int)
    requires Ordered(s) && s.Spaced()
    requires s.Separates(tp, s.start(j))
    ensures j != k ==> !s.Separates(tp, s.start(k))
    ensures !s.Separates(tp, s.end(k))
  {
    assert Abs(s.start(j) - s.end(k)) >= Abs(s.save);
    if j != k {
      var e := if j < k then EndAfter(s, j) else EndAfter(s, k);
      assert s.start(Min(j, k)) < e < s.start(Max(j, k));
      assert Abs(s.start(j) - e) >= Abs(s.save);
    }
  }

  lemma OneEnd(s: Schedule, tp: int, j: int, k: int)
    requires Ordered(s) && s.Spaced()
    requires s.Separates(tp, s.end(j))
    ensures j != k ==> !s.Separates(tp, s.end(k))
    ensures !s.Separates(tp, s.start(k))
  {
    assert Abs(s.start(k) - s.end(j)) >= Abs(s.save);
    if j != k {
      var e := if j < k then StartAfter(s, j) else StartAfter(s, k);
      assert s.end(Min(j, k)) < e < s.end(Max(j, k));
      assert Abs(e - s.end(j)) >= Abs(s.save);
    }
  }

  /** The year of the end that precedes the start of year `k`. */
  ghost function EndBefore(s: Schedule, k: int): int {
    if s.Northern() then k - 1 else k
  }

  ghost function StartBefore(s: Schedule, k: int): int {
    if s.Northern() then k else k - 1
  }

  lemma SpacedStart(s: Schedule, k: int)
    requires Ordered(s) && s.Spaced()
    ensures EndAfter(s, k) - s.start(k) >= Abs(s.save)
    ensures s.start(k) - s.end(EndBefore(s, k)) >= Abs(s.save)
    ensures StartAfter(s, EndBefore(s, k)) == s.start(k)
  {
    assert s.start(k) < EndAfter(s, k);
    assert s.end(EndBefore(s, k)) < s.start(k);
  }

  lemma SpacedEnd(s: Schedule, k: int)
    requires Ordered(s) && s.Spaced()
    ensures StartAfter(s, k) - s.end(k) >= Abs(s.save)
    ensures s.end(k) - s.start(StartBefore(s, k)) >= Abs(s.save)
    ensures EndAfter(s, StartBefore(s, k)) == s.end(k)
  {
    assert s.end(k) < StartAfter(s, k);
    assert s.start(StartBefore(s, k)) < s.end(k);
  }

  /** The candidates on the two sides of a start that separates them. */
  lemma StartSides(s: Schedule, tp: int, k: int)
    requires Ordered(s) && s.Spaced()
    requires s.Separates(tp, s.start(k))
    ensures !s.DaylightAt(Low(s, tp)) && s.DaylightAt(High(s, tp))
  {
    hide Ordered, Low, High, EndAfter, StartAfter, EndBefore;
    hide Schedule.Spaced, Schedule.DaylightAt, Schedule.Describes, Schedule.Separates;
    SeparatesIsBetween(s, tp, s.start(k));
    SpacedStart(s, k);
    DaylightStretch(s, k, High(s, tp));
    StandardStretch(s, EndBefore(s, k), Low(s, tp));
  }

  lemma EndSides(s: Schedule, tp: int, k: int)
    requires Ordered(s) && s.Spaced()
    requires s.Separates(tp, s.end(k))
    ensures s.DaylightAt(Low(s, tp)) && !s.DaylightAt(High(s, tp))
  {
    hide Ordered, Low, High, EndAfter, StartAfter, StartBefore;
    hide Schedule.Spaced, Schedule.DaylightAt, Schedule.Describes, Schedule.Separates;
    SeparatesIsBetween(s, tp, s.end(k));
    SpacedEnd(s, k);
    StandardStretch(s, k, High(s, tp));
    DaylightStretch(s, StartBefore(s, k), Low(s, tp));
  }

  ghost function BothReadings(s: Schedule, tp: int): set<int> {
    {tp - s.offset, tp - (s.offset + s.save)}
  }

  /** Opposite rules at the two candidates leave a gap or a repetition. */
  lemma SidesCount(s: Schedule, tp: int)
    requires s.save != 0 && s.DaylightAt(Low(s, tp)) != s.DaylightAt(High(s, tp))
    ensures Preimages(s, tp) ==
      if s.DaylightAt(Low(s, tp)) == (s.save > 0) then BothReadings(s, tp) else {}
    ensures |Preimages(s, tp)| == if s.DaylightAt(Low(s, tp)) == (s.save > 0) then 2 else 0
  {
    hide Schedule.DaylightAt;
    assert Preimages(s, tp) == if s.DaylightAt(Low(s, tp)) == (s.save > 0) then BothReadings(s, tp) else {};
  }

  // ---- The classification ----

  /**
   The lookup of a local time classifies it by the number of its instants, except exactly where a
   transition of another calendar year skips or repeats it.
   */
  lemma ClassificationIsExact(s: Schedule, tp: int)
    requires s.Alternating() && s.Spaced()
    ensures s.GetLocalInfo(tp).result == ResultOfCount(|Preimages(s, tp)|) <==> !ForeignCrossing(s, tp)
  {
    hide Preimages, Low, High, Schedule.Spaced, Ordered, Schedule.DaylightAt;
    AlternatingIsOrdered(s);
    var y := s.yearOf(tp);
    if k :| s.Separates(tp, s.start(k)) {
      OneStart(s, tp, k, y);
      forall j ensures (j != k ==> !s.Separates(tp, s.start(j))) && !s.Separates(tp, s.end(j)) {
        OneStart(s, tp, k, j);
      }
      StartSides(s, tp, k);
      SidesCount(s, tp);
    } else if k :| s.Separates(tp, s.end(k)) {
      OneEnd(s, tp, k, y);
      forall j ensures (j != k ==> !s.Separates(tp, s.end(j))) && !s.Separates(tp, s.start(j)) {
        OneEnd(s, tp, k, j);
      }
      EndSides(s, tp, k);
      SidesCount(s, tp);
    } else {
      QuietCount(s, tp);
    }
  }

  lemma WindowOf(s: Schedule, tp: int, t: int)
    ensures s.Separates(tp, t) <==> t + s.offset + Min(0, s.save) <= tp < t + s.offset + Max(0, s.save)
  {
  }

  lemma ForeignWindow(s: Schedule, y: int, t: int) returns (tp: int)
    requires s.Calendar() && !s.WindowInYear(y, t)
    ensures s.Separates(tp, t) && s.yearOf(tp) != y
  {
    hide Schedule.Calendar, Schedule.Separates;
    tp := t + s.offset + Min(0, s.save);
    if s.newYear(y) <= tp {
      tp := t + s.offset + Max(0, s.save) - 1;
    }
    WindowOf(s, tp, t);
    InItsYear(s, tp);
  }

  lemma OwnWindow(s: Schedule, y: int, t: int, tp: int)
    requires s.Calendar() && s.WindowInYear(y, t) && s.Separates(tp, t)
    ensures s.yearOf(tp) == y
  {
    hide Schedule.Calendar, Schedule.Separates;
    WindowOf(s, tp, t);
    YearOfUnique(s, tp, y);
  }

  /** All local times are classified rightly exactly when each window of skipped or repeated times lies in its year. */
  lemma WindowsAreExact(s: Schedule)
    requires s.Calendar() && s.Alternating() && s.Spaced()
    ensures (forall tp :: s.GetLocalInfo(tp).result == ResultOfCount(|Preimages(s, tp)|))
      <==> forall y :: s.WindowsInYear(y)
  {
    hide Schedule.Calendar, Schedule.Alternating, Schedule.Spaced, Schedule.GetLocalInfo, Schedule.WindowInYear,
      Schedule.Separates, Preimages, ResultOfCount;
    if forall y :: s.WindowsInYear(y) {
      forall tp
        ensures s.GetLocalInfo(tp).result == ResultOfCount(|Preimages(s, tp)|)
      {
        ClassificationIsExact(s, tp);
        NoForeignCrossing(s, tp);
      }
    } else {
      var y :| !s.WindowsInYear(y);
      var tp := ForeignWindow(s, y, if s.WindowInYear(y, s.start(y)) then s.end(y) else s.start(y));
      ClassificationIsExact(s, tp);
      assert s.GetLocalInfo(tp).result != ResultOfCount(|Preimages(s, tp)|);
    }
  }

  lemma NoForeignCrossing(s: Schedule, tp: int)
    requires s.Calendar() && forall y :: s.WindowsInYear(y)
    ensures !ForeignCrossing(s, tp)
  {
    hide Schedule.Calendar, Schedule.Separates, Schedule.WindowInYear;
    forall k | s.Separates(tp, s.start(k)) || s.Separates(tp, s.end(k))
      ensures k == s.yearOf(tp)
    {
      assert s.WindowsInYear(k);
      OwnWindow(s, k, if s.Separates(tp, s.start(k)) then s.start(k) else s.end(k), tp);
    }
  }

  // ---- The records of a local lookup ----

  /** Only one stretch describes an instant. */
  lemma StretchIsInfo(s: Schedule, i: SysInfo, t: int)
    requires s.Calendar() && s.Alternating() && s.SpillFree()
    requires s.Describes(i, t)
    ensures s.GetInfo(t) == i
  {
    hide Schedule.Calendar, Schedule.Alternating, Schedule.SpillFree, Schedule.Describes, Schedule.GetInfo, Spilled;
    NoSpill(s, t);
    InfoIsExact(s, t);
    SameStretch(s, i, s.GetInfo(t), t, t);
  }

  /** The record of a unique local time is the stretch around its one instant. */
  lemma UniqueRecord(s: Schedule, tp: int)
    requires s.WellFormed() && s.GetLocalInfo(tp).result == Unique
    ensures var i := s.GetLocalInfo(tp).first;
      i == s.GetInfo(tp - i.offset) && Preimages(s, tp) == {tp - i.offset}
  {
    hide Schedule.Calendar, Schedule.Alternating, Schedule.SpillFree, Schedule.Spaced, Schedule.WindowsInYear,
      Schedule.GetInfo, Preimages, QuietReading, Quiet, Low, High, Schedule.DaylightAt;
    UniqueIsQuiet(s, tp);
    QuietCount(s, tp);
    InfoOffset(s, tp - s.offset);
    QuietIsQuiet(s, tp);
    QuietInfo(s, tp, tp - s.offset, tp - s.GetInfo(tp - s.offset).offset);
  }

  lemma UniqueIsQuiet(s: Schedule, tp: int)
    requires s.WellFormed() && s.GetLocalInfo(tp).result == Unique
    ensures QuietReading(s, tp) && s.GetLocalInfo(tp).first == s.GetInfo(tp - s.offset)
  {
    hide Schedule.Calendar, Schedule.Alternating, Schedule.SpillFree, Schedule.Spaced, Schedule.GetInfo,
      Schedule.Separates;
    NoForeignCrossing(s, tp);
  }

  lemma InfoOffset(s: Schedule, t: int)
    requires s.Calendar() && s.Alternating() && s.SpillFree()
    ensures s.GetInfo(t).offset == s.OffsetAt(t)
    ensures s.ToLocal(t) == t + s.OffsetAt(t)
    ensures s.GetInfo(t).offset in {s.offset, s.offset + s.save}
  {
    hide Schedule.Calendar, Schedule.Alternating, Schedule.SpillFree, Schedule.GetInfo, Spilled;
    NoSpill(s, t);
    InfoIsExact(s, t);
  }

  lemma QuietInfo(s: Schedule, tp: int, t: int, u: int)
    requires s.Calendar() && s.Alternating() && s.SpillFree()
    requires Quiet(s, Low(s, tp), High(s, tp))
    requires t in BothReadings(s, tp) && u in BothReadings(s, tp)
    ensures s.GetInfo(t) == s.GetInfo(u)
  {
    hide Schedule.Calendar, Schedule.Alternating, Schedule.SpillFree, Schedule.GetInfo, Spilled;
    NoSpill(s, t);
    NoSpill(s, u);
    SameInfo(s, Min(t, u), Max(t, u));
  }

  lemma StartRecords(s: Schedule, y: int)
    requires Ordered(s)
    ensures s.Describes(s.StandardInfo(s.end(EndBefore(s, y)), s.start(y)), s.start(y) - 1)
    ensures s.Describes(s.DaylightInfo(s.start(y), EndAfter(s, y)), s.start(y))
  {
    YearOrder(s, y);
    hide Ordered, Schedule.Describes;
    StandardStretch(s, EndBefore(s, y), s.start(y) - 1);
    DaylightStretch(s, y, s.start(y));
  }

  lemma EndRecords(s: Schedule, y: int)
    requires Ordered(s)
    ensures s.Describes(s.DaylightInfo(s.start(StartBefore(s, y)), s.end(y)), s.end(y) - 1)
    ensures s.Describes(s.StandardInfo(s.end(y), StartAfter(s, y)), s.end(y))
  {
    YearOrder(s, y);
    hide Ordered, Schedule.Describes;
    DaylightStretch(s, StartBefore(s, y), s.end(y) - 1);
    StandardStretch(s, y, s.end(y));
  }

  /**
   The two records of a skipped or repeated local time meet at the transition that causes it: they
   are the stretches just before and just after.
   */
  lemma CrossingRecords(s: Schedule, tp: int)
    requires s.WellFormed() && s.GetLocalInfo(tp).result != Unique
    ensures var i := s.GetLocalInfo(tp); var t := i.first.end;
      && t == i.second.begin && s.IsTransition(t) && s.Separates(tp, t)
      && i.first == s.GetInfo(t - 1) && i.second == s.GetInfo(t)
      && i.first.offset + i.second.offset == s.offset + (s.offset + s.save)
      && (i.result == Nonexistent <==> i.first.offset < i.second.offset)
      && (i.result == Ambiguous <==> i.first.offset > i.second.offset)
      && (i.first.offset == s.offset || i.second.offset == s.offset)
  {
    hide Schedule.Calendar, Schedule.Alternating, Schedule.SpillFree, Schedule.Spaced, Schedule.WindowsInYear,
      Schedule.GetInfo, Schedule.Describes, Ordered;
    AlternatingIsOrdered(s);
    var y := s.yearOf(tp);
    YearOrder(s, y);
    assert s.Northern() <==> s.start(y) <= s.end(y);
    var i := s.GetLocalInfo(tp);
    if s.Separates(tp, s.start(y)) {
      StartRecords(s, y);
    } else {
      EndRecords(s, y);
    }
    StretchIsInfo(s, i.first, i.first.end - 1);
    StretchIsInfo(s, i.second, i.first.end);
  }

  lemma YearOrder(s: Schedule, y: int)
    requires Ordered(s)
    ensures s.start(y) < s.end(y) <==> s.Northern()
    ensures s.start(y) != s.end(y)
    ensures s.start(y) < EndAfter(s, y) && s.end(y) < StartAfter(s, y)
    ensures s.end(EndBefore(s, y)) < s.start(y) && s.start(StartBefore(s, y)) < s.end(y)
  {
  }

  // ---- Round trips ----

  /** Every instant comes back from its own clock reading. */
  lemma InstantRoundTrip(s: Schedule, t: int)
    requires s.WellFormed()
    ensures var tp := s.ToLocal(t); var i := s.GetLocalInfo(tp);
      && i.result != Nonexistent
      && (i.result == Unique ==>
            s.ToSys(tp) == Instant(t) && s.ToSysChoose(tp, Earliest) == s.ToSysChoose(tp, Latest) == t)
      && (i.result == Ambiguous ==>
            s.ToSys(tp) == AmbiguousTime(i) && t in {s.ToSysChoose(tp, Earliest), s.ToSysChoose(tp, Latest)})
  {
    hide Schedule.Calendar, Schedule.Alternating, Schedule.SpillFree, Schedule.Spaced, Schedule.WindowsInYear,
      Schedule.GetInfo, Schedule.GetLocalInfo, Schedule.Separates, Schedule.IsTransition;
    var tp := s.ToLocal(t);
    InfoOffset(s, t);
    PreimagesAreAll(s, tp, t);
    NoForeignCrossing(s, tp);
    ClassificationIsExact(s, tp);
    if s.GetLocalInfo(tp).result == Unique {
      UniqueRecord(s, tp);
    } else {
      CrossingRecords(s, tp);
    }
  }

  /** The instants that `ToLocal` takes to `tp`. */
  function Shown(s: Schedule, tp: int): set<int> {
    set t | t in {tp - s.offset, tp - (s.offset + s.save)} && s.ToLocal(t) == tp
  }

  /** In terms of the conversions alone: the lookup counts the instants that are shown as this local time. */
  lemma ResultCountsInstants(s: Schedule, tp: int)
    requires s.WellFormed()
    ensures s.GetLocalInfo(tp).result == ResultOfCount(|Shown(s, tp)|)
    ensures forall t :: t in Shown(s, tp) <==> s.ToLocal(t) == tp
  {
    hide Schedule.Calendar, Schedule.Alternating, Schedule.SpillFree, Schedule.Spaced, Schedule.WindowsInYear,
      Schedule.GetInfo, Schedule.GetLocalInfo, Schedule.DaylightAt, ForeignCrossing;
    forall t
      ensures s.ToLocal(t) == t + s.OffsetAt(t)
    {
      InfoOffset(s, t);
    }
    assert Shown(s, tp) == Preimages(s, tp);
    NoForeignCrossing(s, tp);
    ClassificationIsExact(s, tp);
    forall t
      ensures t in Shown(s, tp) <==> s.ToLocal(t) == tp
    {
      PreimagesAreAll(s, tp, t);
    }
  }

  /** The choices of an ambiguous local time are its two instants, the earlier one first. */
  lemma AmbiguousChoices(s: Schedule, tp: int)
    requires s.WellFormed() && s.GetLocalInfo(tp).result == Ambiguous
    ensures s.ToSysChoose(tp, Earliest) < s.ToSysChoose(tp, Latest)
    ensures Preimages(s, tp) == {s.ToSysChoose(tp, Earliest), s.ToSysChoose(tp, Latest)}
  {
    hide Schedule.Calendar, Schedule.Alternating, Schedule.SpillFree, Schedule.Spaced, Schedule.WindowsInYear,
      Schedule.GetInfo, Schedule.GetLocalInfo, Schedule.Separates, Schedule.IsTransition, Schedule.DaylightAt;
    CrossingRecords(s, tp);
    NoForeignCrossing(s, tp);
    ClassificationIsExact(s, tp);
    BothPreimages(s, tp);
  }

  lemma BothPreimages(s: Schedule, tp: int)
    requires |Preimages(s, tp)| > 1
    ensures Preimages(s, tp) == BothReadings(s, tp)
  {
    var p := Preimages(s, tp);
    var t, u := tp - s.offset, tp - (s.offset + s.save);
    assert t !in p ==> p == if u in p then {u} else {};
    assert u !in p ==> p == if t in p then {t} else {};
  }

  /** A skipped local time is taken to the transition whose clock change jumps over it. */
  lemma NonexistentChoice(s: Schedule, tp: int, z: Choose)
    requires s.WellFormed() && s.GetLocalInfo(tp).result == Nonexistent
    ensures var t := s.ToSysChoose(tp, z);
      s.IsTransition(t) && s.ToLocal(t - 1) < tp < s.ToLocal(t)
  {
    hide Schedule.Calendar, Schedule.Alternating, Schedule.SpillFree, Schedule.Spaced, Schedule.WindowsInYear,
      Schedule.GetInfo, Schedule.GetLocalInfo, Schedule.IsTransition, Schedule.DaylightAt;
    CrossingRecords(s, tp);
  }
}
