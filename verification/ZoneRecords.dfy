/**
 What the records of a lookup say, in the terms of a zone's fields and rules alone: the offset, the save in whole
 minutes and the abbreviation in force, the instants at which the rules take effect, and the days they name.
 */
module ZoneRecords {
  import opened CppArithmetic
  import opened Gregorian
  import opened ZoneSchedule
  import opened ZoneLocalTime
  import opened PosixZone

  // ---- Schedules ----

  /** A record of daylight saving: the save is rounded up to whole minutes. */
  predicate NamesDaylight(i: SysInfo, offset: int, save: int, abbrev: string) {
    i.offset == offset + save && i.abbrev == abbrev && 60 * (i.save - 1) < save <= 60 * i.save
  }

  /** A record of standard time. */
  predicate NamesStandard(i: SysInfo, offset: int, abbrev: string) {
    i.offset == offset && i.abbrev == abbrev && i.save == 0
  }

  lemma MinutesRoundUp(s: Schedule)
    ensures 60 * (s.SaveMinutes() - 1) < s.save <= 60 * s.SaveMinutes()
  {
  }

  lemma DescribedNames(s: Schedule, i: SysInfo, t: int)
    requires s.Describes(i, t)
    ensures if s.DaylightAt(t) then NamesDaylight(i, s.offset, s.save, s.dstAbbrev)
      else NamesStandard(i, s.offset, s.stdAbbrev)
  {
    MinutesRoundUp(s);
    hide Schedule.DaylightAt, Schedule.IsTransition, Schedule.SaveMinutes;
  }

  /** The record of an instant names the rule that is in force. */
  lemma InfoNames(s: Schedule, t: int)
    requires s.Calendar() && s.Alternating() && !Spilled(s, t)
    ensures var i := s.GetInfo(t);
      if s.DaylightAt(t) then NamesDaylight(i, s.offset, s.save, s.dstAbbrev)
      else NamesStandard(i, s.offset, s.stdAbbrev)
  {
    InfoIsExact(s, t);
    DescribedNames(s, s.GetInfo(t), t);
    hide Schedule.Calendar, Schedule.Alternating, Spilled, Schedule.GetInfo, Schedule.Describes, Schedule.DaylightAt;
  }

  /** The two records of a skipped or repeated local time name the rules before and after the transition. */
  lemma LocalInfoNames(s: Schedule, tp: int)
    requires s.WellFormed() && s.GetLocalInfo(tp).result != Unique
    ensures var i := s.GetLocalInfo(tp); var t := i.first.end;
      && i.second.begin == t
      && (s.DaylightAt(t) ==> NamesStandard(i.first, s.offset, s.stdAbbrev))
      && (s.DaylightAt(t) ==> NamesDaylight(i.second, s.offset, s.save, s.dstAbbrev))
      && (!s.DaylightAt(t) ==> NamesDaylight(i.first, s.offset, s.save, s.dstAbbrev))
      && (!s.DaylightAt(t) ==> NamesStandard(i.second, s.offset, s.stdAbbrev))
  {
    var i := s.GetLocalInfo(tp);
    var t := i.first.end;
    CrossingRecords(s, tp);
    TransitionTurns(s, t);
    hide Schedule.Calendar, Schedule.Alternating, Schedule.SpillFree, Schedule.Spaced, Schedule.WindowsInYear,
      Schedule.GetInfo, Schedule.GetLocalInfo, Schedule.DaylightAt, Schedule.Separates, Spilled;
    NoSpill(s, t - 1);
    NoSpill(s, t);
    InfoNames(s, t - 1);
    InfoNames(s, t);
  }

  /** Daylight saving changes at every transition. */
  lemma TransitionTurns(s: Schedule, t: int)
    requires s.Alternating() && s.IsTransition(t)
    ensures s.DaylightAt(t) != s.DaylightAt(t - 1)
  {
    AlternatingIsOrdered(s);
    var y :| t == s.start(y) || t == s.end(y);
    YearOrder(s, y);
    hide Ordered, Schedule.Describes, Schedule.DaylightAt, Schedule.Alternating;
    if t == s.start(y) {
      StandardStretch(s, EndBefore(s, y), t - 1);
      DaylightStretch(s, y, t);
    } else {
      DaylightStretch(s, StartBefore(s, y), t - 1);
      StandardStretch(s, y, t);
    }
    hide *;
  }

  /** The one record of a unique local time names the rule at its one instant. */
  lemma UniqueInfoNames(s: Schedule, tp: int)
    requires s.WellFormed() && s.GetLocalInfo(tp).result == Unique
    ensures var i := s.GetLocalInfo(tp).first;
      if s.DaylightAt(tp - i.offset) then NamesDaylight(i, s.offset, s.save, s.dstAbbrev)
      else NamesStandard(i, s.offset, s.stdAbbrev)
    ensures s.GetLocalInfo(tp).second == SysInfo(0, 0, 0, 0, "")
  {
    hide *;
    var t := tp - s.GetLocalInfo(tp).first.offset;
    UniqueRecord(s, tp);
    UniqueSecond(s, tp);
    WellFormedHolds(s, t);
    InfoNames(s, t);
  }

  lemma WellFormedHolds(s: Schedule, t: int)
    requires s.WellFormed()
    ensures s.Calendar() && s.Alternating() && !Spilled(s, t)
  {
    NoSpill(s, t);
    hide Schedule.Calendar, Schedule.Alternating, Schedule.SpillFree, Schedule.Spaced, Schedule.WindowsInYear, Spilled;
  }

  lemma UniqueSecond(s: Schedule, tp: int)
    requires s.GetLocalInfo(tp).result == Unique
    ensures s.GetLocalInfo(tp).second == SysInfo(0, 0, 0, 0, "")
  {
    hide Schedule.Separates, Schedule.GetInfo;
  }

  /** Converting a local time gives its only instant, or the error for none or for two, with both records. */
  lemma ToSysExact(s: Schedule, tp: int)
    requires s.WellFormed()
    ensures var r := s.ToSys(tp);
      && (r.Instant? ==> forall t :: s.ToLocal(t) == tp <==> t == r.t)
      && (r.NonexistentTime? ==> (forall t :: s.ToLocal(t) != tp) && r.info == s.GetLocalInfo(tp))
      && (r.AmbiguousTime? ==> (exists t, u :: t < u && s.ToLocal(t) == s.ToLocal(u) == tp))
      && (r.AmbiguousTime? ==> r.info == s.GetLocalInfo(tp))
  {
    var i := s.GetLocalInfo(tp);
    hide Schedule.WellFormed, Schedule.GetLocalInfo, Schedule.GetInfo, Schedule.ToLocal, Preimages, Shown;
    ResultCountsInstants(s, tp);
    if i.result == Unique {
      OnlyInstant(s, tp);
    } else if i.result == Ambiguous {
      AmbiguousChoices(s, tp);
      ChoicesShowReading(s, tp);
      var t, u := s.ToSysChoose(tp, Earliest), s.ToSysChoose(tp, Latest);
      hide Schedule.ToSysChoose;
      assert t < u && s.ToLocal(t) == s.ToLocal(u) == tp;
    }
  }

  lemma OnlyInstant(s: Schedule, tp: int)
    requires s.WellFormed() && s.GetLocalInfo(tp).result == Unique
    ensures forall t :: s.ToLocal(t) == tp <==> t == tp - s.GetLocalInfo(tp).first.offset
  {
    var u := tp - s.GetLocalInfo(tp).first.offset;
    UniqueRecord(s, tp);
    forall t
      ensures s.ToLocal(t) == tp <==> t == u
    {
      WellFormedHolds(s, t);
      InfoOffset(s, t);
      PreimagesAreAll(s, tp, t);
    }
    hide *;
  }

  /** A local time that a transition of another year skips or repeats is taken for a unique one in standard time. */
  lemma ForeignIsUnique(s: Schedule, tp: int)
    requires s.Alternating() && s.Spaced() && ForeignCrossing(s, tp)
    ensures var i := s.GetLocalInfo(tp);
      i.result == Unique && i.first == s.GetInfo(tp - s.offset) && i.second == SysInfo(0, 0, 0, 0, "")
  {
    hide Schedule.Spaced, Ordered, Schedule.GetInfo;
    AlternatingIsOrdered(s);
    var y := s.yearOf(tp);
    var k :| k != y && (s.Separates(tp, s.start(k)) || s.Separates(tp, s.end(k)));
    if s.Separates(tp, s.start(k)) {
      OneStart(s, tp, k, y);
    } else {
      OneEnd(s, tp, k, y);
    }
  }

  /** A record of daylight saving between two transitions, and no transition from there to `t`. */
  ghost predicate NextTo(s: Schedule, i: SysInfo, t: int) {
    && s.Describes(i, i.begin) && NamesDaylight(i, s.offset, s.save, s.dstAbbrev)
    && (t < i.begin || i.end <= t)
    && (t < i.begin ==> Quiet(s, t, i.begin - 1))
    && (i.end <= t ==> Quiet(s, i.end, t))
  }

  lemma SpilledYear(s: Schedule, t: int)
    requires Ordered(s) && !s.Northern() && Spilled(s, t)
    ensures var y := s.yearOf(t);
      && (t < s.start(y - 1) ==> s.GetInfo(t) == s.DaylightInfo(s.start(y - 1), s.end(y)))
      && (s.start(y - 1) <= t ==> s.GetInfo(t) == s.DaylightInfo(s.start(y), s.end(y + 1)))
  {
    var y := s.yearOf(t);
    assert s.end(y) < s.start(y) && s.start(y - 1) < s.end(y) && s.start(y) < s.end(y + 1);
    assert s.start(y - 1) < s.start(y) < s.start(y + 1) && s.end(y - 1) < s.end(y) < s.end(y + 1);
    hide Ordered, Schedule.Northern;
  }

  lemma SouthernStandard(s: Schedule, y: int, t: int)
    requires Ordered(s) && !s.Northern() && s.end(y) <= t < s.start(y)
    ensures !s.DaylightAt(t) && s.Describes(s.StandardInfo(s.end(y), s.start(y)), t)
  {
    hide Ordered, Schedule.DaylightAt, Schedule.Northern, Schedule.Describes;
    StandardStretch(s, y, t);
  }

  lemma SouthernDaylight(s: Schedule, y: int)
    requires Ordered(s) && !s.Northern()
    ensures s.Describes(s.DaylightInfo(s.start(y), s.end(y + 1)), s.start(y))
  {
    YearOrder(s, y);
    hide Ordered, Schedule.DaylightAt, Schedule.Northern, Schedule.Describes;
    DaylightStretch(s, y, s.start(y));
  }

  lemma DaylightNames(s: Schedule, begin: int, end: int)
    ensures var i := s.DaylightInfo(begin, end);
      NamesDaylight(i, s.offset, s.save, s.dstAbbrev) && i.begin == begin && i.end == end
  {
    MinutesRoundUp(s);
    hide Schedule.SaveMinutes;
  }

  lemma NextToStandard(s: Schedule, y: int, z: int, t: int)
    requires Ordered(s) && !s.Northern() && s.end(y) <= t < s.start(y)
    requires z == y || z == y - 1
    ensures !s.DaylightAt(t) && NextTo(s, s.DaylightInfo(s.start(z), s.end(z + 1)), t)
  {
    hide *;
    var i := s.DaylightInfo(s.start(z), s.end(z + 1));
    var standard := s.StandardInfo(s.end(y), s.start(y));
    SouthernStandard(s, y, t);
    SouthernDaylight(s, z);
    DaylightNames(s, s.start(z), s.end(z + 1));
    StandardSpan(s, s.end(y), s.start(y));
    if z == y {
      InsideQuiet(s, standard, t, t, s.start(y) - 1);
    } else {
      InsideQuiet(s, standard, t, s.end(y), t);
    }
    DescribedSpan(s, i, s.start(z));
    IsNextTo(s, i, t);
  }

  lemma StandardSpan(s: Schedule, begin: int, end: int)
    ensures s.StandardInfo(begin, end).begin == begin && s.StandardInfo(begin, end).end == end
  {
  }

  lemma IsNextTo(s: Schedule, i: SysInfo, t: int)
    requires s.Describes(i, i.begin) && NamesDaylight(i, s.offset, s.save, s.dstAbbrev) && i.begin < i.end
    requires (t < i.begin && Quiet(s, t, i.begin - 1)) || (i.end <= t && Quiet(s, i.end, t))
    ensures NextTo(s, i, t)
  {
    hide Schedule.Describes, NamesDaylight, Quiet;
  }

  lemma DescribedSpan(s: Schedule, i: SysInfo, t: int)
    requires s.Describes(i, t)
    ensures i.begin <= t < i.end
  {
  }

  lemma InsideQuiet(s: Schedule, i: SysInfo, t: int, a: int, b: int)
    requires s.Describes(i, t) && i.begin <= a <= b < i.end
    ensures Quiet(s, a, b)
  {
    hide Schedule.DaylightAt, Schedule.IsTransition;
  }

  /**
   A southern instant that has spilled into another calendar year gets the record of a neighbouring stretch of
   daylight saving, which has ended or not begun, with no transition between.
   */
  lemma SpilledInfo(s: Schedule, t: int)
    requires s.Alternating() && Spilled(s, t)
    ensures !s.DaylightAt(t) && NextTo(s, s.GetInfo(t), t)
  {
    hide *;
    AlternatingIsOrdered(s);
    SpilledIsSouthern(s, t);
    SpilledYear(s, t);
    var y := s.yearOf(t);
    if s.end(y - 1) <= t < s.start(y - 1) {
      NextToStandard(s, y - 1, y - 1, t);
    } else {
      NextToStandard(s, y + 1, y, t);
    }
  }

  lemma SpilledIsSouthern(s: Schedule, t: int)
    requires Ordered(s) && Spilled(s, t)
    ensures var y := s.yearOf(t);
      && !s.Northern() && s.start(y - 1) < s.start(y + 1)
      && (s.end(y - 1) <= t < s.start(y - 1) || s.end(y + 1) <= t < s.start(y + 1))
      && (s.end(y + 1) <= t ==> s.start(y - 1) <= t)
  {
    var y := s.yearOf(t);
    YearOrder(s, y);
    assert s.start(y - 1) < s.end(y + 1) && s.start(y - 1) < s.start(y + 1);
    hide Ordered, Schedule.Northern;
  }

  // ---- The days of a rule ----

  lemma JulianRuleDay(n: int, time: int, y: int)
    requires 1 <= n <= 365 && 0 <= time < 25 * 3600
    ensures Julian(n, time).Day(y) == Jan1(y) + (if IsLeap(y) && n >= 60 then n else n - 1)
    ensures Julian(n, time).At(y) == Julian(n, time).Day(y) * 86400 + time
  {
    JulianDay(n, time, y);
    hide Jan1, IsLeap, Rule.Day;
  }

  /**
   For every rule and year: the n-th given weekday of a month lies in its n-th seven days, the last one in its final
   seven days; the other days are counted from 1 January, by J without 29 February; and the time of day is added.
   */
  lemma RuleDayExact(r: Rule, y: int)
    requires r.Valid() && !r.Off?
    ensures r.At(y) == r.Day(y) * 86400 + r.time
    ensures r.Julian? ==> r.Day(y) == Jan1(y) + (if IsLeap(y) && r.n >= 60 then r.n else r.n - 1)
    ensures r.DayOfYear? ==> r.Day(y) == Jan1(y) + r.n
    ensures r.MonthWeekday? ==> Weekday(r.Day(y)) == r.wd
    ensures r.MonthWeekday? && r.n <= 4 ==>
      MonthStart(y, r.m) + 7 * (r.n - 1) <= r.Day(y) < MonthStart(y, r.m) + 7 * r.n
    ensures r.MonthWeekday? && r.n == 5 ==>
      MonthStart(y, r.m) + LastDay(y, r.m) - 7 <= r.Day(y) < MonthStart(y, r.m) + LastDay(y, r.m)
  {
    match r
    case Julian(n, time) =>
      JulianRuleDay(n, time, y);
      hide *;
    case MonthWeekday(m, n, wd, _) =>
      NthWeekdayInMonth(y, m, wd, n);
      LastWeekdayInMonth(y, m, wd);
      hide NthWeekday, LastWeekday, MonthStart, LastDay, Weekday, Jan1, IsLeap;
    case DayOfYear(_, _) =>
  }

  // ---- Zones ----

  /** A rule takes effect at `t`: the starting rule in standard time, the ending rule in daylight saving time. */
  ghost predicate Changes(z: TimeZone, t: int)
    requires z.Valid() && !z.startRule.Off?
  {
    exists y :: t == z.startRule.At(y) - z.offset || t == z.endRule.At(y) - (z.offset + z.save)
  }

  /** The starting rule has taken effect, and the ending rule has not since. */
  ghost predicate InForce(z: TimeZone, t: int)
    requires z.Valid() && !z.startRule.Off?
  {
    exists y :: z.startRule.At(y) - z.offset <= t && EndedBefore(z, t, z.startRule.At(y) - z.offset)
  }

  ghost predicate EndedBefore(z: TimeZone, t: int, start: int)
    requires z.Valid() && !z.startRule.Off?
  {
    forall k :: z.endRule.At(k) - (z.offset + z.save) <= t ==> z.endRule.At(k) - (z.offset + z.save) < start
  }

  lemma ZoneChanges(z: TimeZone, t: int)
    requires z.Valid() && !z.startRule.Off?
    ensures Changes(z, t) <==> ScheduleOf(z).IsTransition(t)
    ensures InForce(z, t) <==> ScheduleOf(z).DaylightAt(t)
  {
    hide Rule.At, Rule.Valid, Seconds, YearOfSecond;
    var s := ScheduleOf(z);
    assert forall y :: s.start(y) == z.startRule.At(y) - z.offset && s.end(y) == z.endRule.At(y) - (z.offset + z.save);
  }

  /** A record whose ends are changes, with no change between them. */
  ghost predicate Between(z: TimeZone, i: SysInfo, t: int)
    requires z.Valid() && !z.startRule.Off?
  {
    && i.begin <= t < i.end && Changes(z, i.begin) && Changes(z, i.end)
    && forall u :: i.begin < u < i.end ==> !Changes(z, u)
  }

  /**
   In a well-formed zone with rules the record of an instant reaches from the last change of rule to the next one,
   and names the rule in force by its offset, save and abbreviation.
   */
  lemma ZoneInfoExact(z: TimeZone, t: int)
    requires z.Valid() && !z.startRule.Off? && WellFormed(z)
    ensures var i := SysInfoAt(z, t);
      && Between(z, i, t)
      && (InForce(z, t) ==> NamesDaylight(i, z.offset, z.save, z.dstAbbrev))
      && (!InForce(z, t) ==> NamesStandard(i, z.offset, z.stdAbbrev))
  {
    var s := ScheduleOf(z);
    var i := SysInfoAt(z, t);
    ScheduleFields(z, t);
    WellFormedHolds(s, t);
    InfoNames(s, t);
    InfoIsExact(s, t);
    DescribedBetween(s, i, t);
    hide *;
    ZoneChanges(z, t);
    ZoneChanges(z, i.begin);
    ZoneChanges(z, i.end);
    NoneBetween(z, i);
    BetweenIs(z, i, t);
  }

  /** Exactly the instant `u` shows `tp`. */
  ghost predicate OnlyShows(z: TimeZone, tp: int, u: int)
    requires z.Valid()
  {
    forall t :: ToLocal(z, t) == tp <==> t == u
  }

  ghost predicate TwoShow(z: TimeZone, tp: int)
    requires z.Valid()
  {
    exists t, u :: t < u && ToLocal(z, t) == ToLocal(z, u) == tp
  }

  /**
   In a well-formed zone with rules the record of a unique local time is that of its only instant; those of a skipped
   or repeated one are the records of the instants on both sides of a change.
   */
  lemma ZoneLocalExact(z: TimeZone, tp: int)
    requires z.Valid() && !z.startRule.Off? && WellFormed(z)
    ensures var i := LocalInfoAt(z, tp); var u := tp - i.first.offset; var t := i.first.end;
      && (i.result == Unique ==> OnlyShows(z, tp, u) && i.first == SysInfoAt(z, u) && ToSys(z, tp) == Instant(u))
      && (i.result == Nonexistent ==> (forall v :: ToLocal(z, v) != tp) && ToSys(z, tp) == NonexistentTime(i))
      && (i.result == Ambiguous ==> TwoShow(z, tp) && ToSys(z, tp) == AmbiguousTime(i))
      && (i.result != Unique ==> Changes(z, t) && i.first == SysInfoAt(z, t - 1) && i.second == SysInfoAt(z, t))
  {
    hide *;
    LocalFields(z, tp);
    LocalTold(ScheduleOf(z), tp);
    Shows(z, tp);
    ZoneChanges(z, LocalInfoAt(z, tp).first.end);
  }

  lemma Shows(z: TimeZone, tp: int)
    requires z.Valid() && !z.startRule.Off?
    requires forall t :: ToLocal(z, t) == ScheduleOf(z).ToLocal(t)
    ensures forall u :: (forall t :: ScheduleOf(z).ToLocal(t) == tp <==> t == u) ==> OnlyShows(z, tp, u)
    ensures (exists t, u :: t < u && ScheduleOf(z).ToLocal(t) == ScheduleOf(z).ToLocal(u) == tp) ==> TwoShow(z, tp)
  {
    hide TimeZone.Valid, ScheduleOf, ToLocal, Schedule.ToLocal;
  }

  lemma LocalTold(s: Schedule, tp: int)
    requires s.WellFormed()
    ensures var i := s.GetLocalInfo(tp); var u := tp - i.first.offset; var t := i.first.end;
      && (i.result == Unique ==> forall v :: s.ToLocal(v) == tp <==> v == u)
      && (i.result == Unique ==> i.first == s.GetInfo(u) && s.ToSys(tp) == Instant(u))
      && (i.result == Nonexistent ==> (forall v :: s.ToLocal(v) != tp) && s.ToSys(tp) == NonexistentTime(i))
      && (i.result == Ambiguous ==> exists v, w :: v < w && s.ToLocal(v) == s.ToLocal(w) == tp)
      && (i.result == Ambiguous ==> s.ToSys(tp) == AmbiguousTime(i))
      && (i.result != Unique ==> s.IsTransition(t) && i.first == s.GetInfo(t - 1) && i.second == s.GetInfo(t))
  {
    ToSysExact(s, tp);
    if s.GetLocalInfo(tp).result == Unique {
      UniqueRecord(s, tp);
    } else {
      CrossingRecords(s, tp);
    }
    hide Schedule.WellFormed, Schedule.GetInfo, Schedule.GetLocalInfo, Schedule.Separates, Preimages, Schedule.ToLocal,
      Schedule.IsTransition;
  }

  lemma LocalFields(z: TimeZone, tp: int)
    requires z.Valid() && !z.startRule.Off? && WellFormed(z)
    ensures var s := ScheduleOf(z);
      && s.WellFormed() && LocalInfoAt(z, tp) == s.GetLocalInfo(tp) && ToSys(z, tp) == s.ToSys(tp)
      && (forall t :: SysInfoAt(z, t) == s.GetInfo(t)) && (forall t :: ToLocal(z, t) == s.ToLocal(t))
  {
    hide TimeZone.Valid, Rule.At, Seconds, YearOfSecond, Schedule.WellFormed, Schedule.GetInfo, Schedule.GetLocalInfo;
  }

  lemma ScheduleFields(z: TimeZone, t: int)
    requires z.Valid() && !z.startRule.Off? && WellFormed(z)
    ensures var s := ScheduleOf(z);
      && s.WellFormed() && s.offset == z.offset && s.save == z.save
      && s.stdAbbrev == z.stdAbbrev && s.dstAbbrev == z.dstAbbrev && SysInfoAt(z, t) == s.GetInfo(t)
  {
    hide TimeZone.Valid, Rule.At, Seconds, YearOfSecond, Schedule.WellFormed, Schedule.GetInfo;
  }

  lemma DescribedBetween(s: Schedule, i: SysInfo, t: int)
    requires s.Describes(i, t)
    ensures i.begin <= t < i.end && s.IsTransition(i.begin) && s.IsTransition(i.end)
    ensures forall u :: i.begin < u < i.end ==> !s.IsTransition(u)
  {
    hide Schedule.DaylightAt;
  }

  lemma NoneBetween(z: TimeZone, i: SysInfo)
    requires z.Valid() && !z.startRule.Off?
    requires forall u :: i.begin < u < i.end ==> !ScheduleOf(z).IsTransition(u)
    ensures forall u :: i.begin < u < i.end ==> !Changes(z, u)
  {
    hide *;
    forall u | i.begin < u < i.end
      ensures !Changes(z, u)
    {
      ZoneChanges(z, u);
    }
  }

  lemma BetweenIs(z: TimeZone, i: SysInfo, t: int)
    requires z.Valid() && !z.startRule.Off? && i.begin <= t < i.end && Changes(z, i.begin) && Changes(z, i.end)
    requires forall u :: i.begin < u < i.end ==> !Changes(z, u)
    ensures Between(z, i, t)
  {
    hide Changes, TimeZone.Valid;
  }

  /** A zone without rules has one record, for all years that the calendar counts, up to a second before their end. */
  lemma ConstantZone(z: TimeZone, t: int)
    requires z.Valid() && z.startRule.Off?
    ensures var i := SysInfoAt(z, t);
      && i.begin == Jan1(-32767) * 86400 && i.end + 1 == Jan1(32768) * 86400
      && LocalInfoAt(z, t) == LocalInfo(Unique, i, SysInfo(0, 0, 0, 0, ""))
      && (z.stdAbbrev != "" ==> NamesStandard(i, z.offset, z.stdAbbrev))
      && (z.stdAbbrev == "" ==> NamesDaylight(i, z.offset, z.save, z.dstAbbrev))
  {
    assert Jan1(32768) == ToDays(Date(32767, 12, 31)) + 1;
    hide TimeZone.Valid;
  }
}
