/** Rules and zones of ptz.h, and the lookups of a zone. */
module PosixZone {
  import opened CppArithmetic
  import opened Gregorian
  import opened ZoneSchedule
  import opened ZoneLocalTime

  /** A date rule with its time of day in seconds; `Off` is the rule of a zone without rules. */
  datatype Rule =
    | Off
    | Julian(n: int, time: int)
    | MonthWeekday(m: int, n: int, wd: int, time: int)
    | DayOfYear(n: int, time: int)
  {
    /** The ranges that a parsed rule obeys; 24:59:59 is the greatest time of day. */
    predicate Valid() {
      match this
      case Off => true
      case Julian(n, time) => 1 <= n <= 365 && 0 <= time < 25 * 3600
      case MonthWeekday(m, n, wd, time) => 1 <= m <= 12 && 1 <= n <= 5 && 0 <= wd <= 6 && 0 <= time < 25 * 3600
      case DayOfYear(n, time) => 0 <= n <= 365 && 0 <= time < 25 * 3600
    }

    /** The day on which the rule takes effect in a year. */
    function Day(y: int): int
      requires Valid() && !Off?
    {
      match this
      case Julian(n, _) => ToDays(Date(y, 1, 0)) + (n + (if IsLeap(y) && n > 59 then 1 else 0))
      case MonthWeekday(m, n, wd, _) => if n == 5 then LastWeekday(y, m, wd) else NthWeekday(y, m, wd, n)
      case DayOfYear(n, _) => ToDays(Date(y, 1, 1)) + n
    }

    /** rule::operator(): the local second at which the rule takes effect in a year. */
    function At(y: int): int
      requires Valid() && !Off?
    {
      Day(y) * 86400 + time
    }
  }

  datatype TimeZone = TimeZone(stdAbbrev: string, dstAbbrev: string, offset: int, save: int,
                               startRule: Rule, endRule: Rule)
  {
    /** The zones that the constructor can build. */
    predicate Valid() {
      && -25 * 3600 < offset < 25 * 3600
      && startRule.Valid() && endRule.Valid()
      && NameOk(stdAbbrev) && NameOk(dstAbbrev)
      && if startRule.Off? then
           && endRule.Off?
           && (if |dstAbbrev| == 0 then |stdAbbrev| >= 3 && save == 0
               else stdAbbrev == "" && |dstAbbrev| >= 3 && SaveOk())
         else
           !endRule.Off? && |stdAbbrev| >= 3 && |dstAbbrev| >= 3 && SaveOk()
    }

    /** The save is one hour, or comes from a daylight offset that was read. */
    predicate SaveOk() {
      save == 3600 || -25 * 3600 < offset + save < 25 * 3600
    }
  }

  predicate NameOk(s: string) {
    '>' !in s
  }

  function Seconds(y: int): int {
    Jan1(y) * 86400
  }

  function YearOfSecond(t: int): int {
    YearOf(t / 86400)
  }

  /** get_start and get_end for every year, with the fields the lookups use. */
  function ScheduleOf(z: TimeZone): Schedule
    requires z.Valid() && !z.startRule.Off?
  {
    Schedule(
      (y: int) => Seconds(y),
      (t: int) => YearOfSecond(t),
      (y: int) => z.startRule.At(y) - z.offset,
      (y: int) => z.endRule.At(y) - (z.offset + z.save),
      z.offset, z.save, z.stdAbbrev, z.dstAbbrev)
  }

  // ---- Rules and the calendar ----

  /** Every month lies inside its year. */
  lemma MonthInYear(y: int, m: int)
    requires 1 <= m <= 12
    ensures Jan1(y) <= MonthStart(y, m) && MonthStart(y, m) + LastDay(y, m) <= Jan1(y + 1)
    ensures LastDay(y, m) >= 28
  {
    hide ToDays, IsLeap;
    if m > 1 {
      MonthOrder(y, 1, m);
    }
    if m < 12 {
      MonthOrder(y, m, 12);
    }
    MonthDays(y, 12, 1);
  }

  /** A weekday rule falls in its month. */
  lemma WeekdayRuleDay(r: Rule, y: int)
    requires r.Valid() && r.MonthWeekday?
    ensures MonthStart(y, r.m) <= r.Day(y) < MonthStart(y, r.m) + LastDay(y, r.m)
  {
    hide MonthStart, LastWeekday, NthWeekday, Weekday;
    MonthInYear(y, r.m);
    LastWeekdayInMonth(y, r.m, r.wd);
    NthWeekdayInMonth(y, r.m, r.wd, r.n);
  }

  /** The day of a rule lies in its year, but day 365 of a common year is the next 1 January. */
  lemma RuleDay(r: Rule, y: int)
    requires r.Valid() && !r.Off?
    ensures Jan1(y) <= r.Day(y) <= Jan1(y + 1)
    ensures !r.DayOfYear? ==> r.Day(y) < Jan1(y + 1)
  {
    hide ToDays, IsLeap, LastWeekday, NthWeekday, LastDay;
    YearLength(y);
    match r
    case Julian(n, _) =>
      MonthDays(y, 1, 0);
    case MonthWeekday(m, _, _, _) =>
      MonthInYear(y, m);
      WeekdayRuleDay(r, y);
    case DayOfYear(n, _) =>
  }

  lemma RuleBounds(r: Rule, y: int)
    requires r.Valid() && !r.Off?
    ensures Seconds(y) <= r.At(y) < Seconds(y + 1) + 25 * 3600
  {
    hide Jan1, Rule.Day;
    RuleDay(r, y);
  }

  lemma SecondInYear(t: int)
    ensures Seconds(YearOfSecond(t)) <= t < Seconds(YearOfSecond(t) + 1)
  {
    hide Jan1, YearOf;
    DayInItsYear(t / 86400);
  }

  lemma SecondsApart(y: int, z: int)
    requires y < z
    ensures Seconds(y) + 365 * 86400 <= Seconds(z)
  {
    hide Jan1;
    Jan1Spacing(y, z);
  }

  lemma ScheduleNearYear(z: TimeZone, y: int)
    requires z.Valid() && !z.startRule.Off?
    ensures ScheduleOf(z).NearYear(y)
  {
    hide Seconds, Rule.At, NameOk;
    RuleBounds(z.startRule, y);
    RuleBounds(z.endRule, y);
  }

  lemma ScheduleYears(z: TimeZone)
    requires z.Valid() && !z.startRule.Off?
    ensures ScheduleOf(z).YearsCover() && ScheduleOf(z).YearsFollow()
  {
    hide Seconds, YearOfSecond, Rule.At, TimeZone.Valid;
    forall t
      ensures Seconds(YearOfSecond(t)) <= t < Seconds(YearOfSecond(t) + 1)
    {
      SecondInYear(t);
    }
    forall y, z | y < z
      ensures Seconds(y) + 365 * 86400 <= Seconds(z)
    {
      SecondsApart(y, z);
    }
  }

  /** The schedule of a zone keeps to the calendar. */
  lemma ScheduleKeepsCalendar(z: TimeZone)
    requires z.Valid() && !z.startRule.Off?
    ensures ScheduleOf(z).Calendar()
  {
    hide TimeZone.Valid, Schedule.NearYear, ScheduleOf;
    ScheduleYears(z);
    forall y
      ensures ScheduleOf(z).NearYear(y)
    {
      ScheduleNearYear(z, y);
    }
  }

  // ---- Lookups of a zone, with or without rules ----

  const FIRST_YEAR := -32767
  const LAST_YEAR := 32767

  /** contant_offset: one record for all time. */
  function ConstantInfo(z: TimeZone): SysInfo {
    var begin, end := Seconds(FIRST_YEAR), (ToDays(Date(LAST_YEAR, 12, LastDay(LAST_YEAR, 12))) + 1) * 86400 - 1;
    if |z.stdAbbrev| > 0 then SysInfo(begin, end, z.offset, 0, z.stdAbbrev)
    else SysInfo(begin, end, z.offset + z.save, -((-z.save) / 60), z.dstAbbrev)
  }

  function SysInfoAt(z: TimeZone, st: int): SysInfo
    requires z.Valid()
  {
    if z.startRule.Off? then ConstantInfo(z) else ScheduleOf(z).GetInfo(st)
  }

  function LocalInfoAt(z: TimeZone, tp: int): LocalInfo
    requires z.Valid()
  {
    if z.startRule.Off? then LocalInfo(Unique, ConstantInfo(z), EMPTY_INFO) else ScheduleOf(z).GetLocalInfo(tp)
  }

  function ToLocal(z: TimeZone, t: int): int
    requires z.Valid()
  {
    t + SysInfoAt(z, t).offset
  }

  function ToSys(z: TimeZone, tp: int): SysResult
    requires z.Valid()
  {
    if z.startRule.Off? then Instant(tp - ConstantInfo(z).offset) else ScheduleOf(z).ToSys(tp)
  }

  function ToSysChoose(z: TimeZone, tp: int, c: Choose): int
    requires z.Valid()
  {
    if z.startRule.Off? then tp - ConstantInfo(z).offset else ScheduleOf(z).ToSysChoose(tp, c)
  }

  ghost predicate WellFormed(z: TimeZone)
    requires z.Valid()
  {
    !z.startRule.Off? ==> ScheduleOf(z).WellFormed()
  }

  /**
   In a well-formed zone every instant comes back from its own clock reading: as the only answer when
   no other instant shows that reading, and as one of the two choices when another does.
   */
  lemma ZoneRoundTrip(z: TimeZone, t: int)
    requires z.Valid() && WellFormed(z)
    ensures var tp := ToLocal(z, t); var i := LocalInfoAt(z, tp);
      if forall u :: ToLocal(z, u) == tp ==> u == t
      then i.result == Unique && ToSys(z, tp) == Instant(t) && forall c :: ToSysChoose(z, tp, c) == t
      else i.result == Ambiguous && ToSys(z, tp) == AmbiguousTime(i)
           && ToSysChoose(z, tp, Earliest) < ToSysChoose(z, tp, Latest)
           && (t == ToSysChoose(z, tp, Earliest) || t == ToSysChoose(z, tp, Latest))
  {
    hide TimeZone.Valid, Seconds, YearOfSecond, Rule.At, Schedule.GetLocalInfo, Schedule.GetInfo, Schedule.WellFormed;
    if !z.startRule.Off? {
      var s := ScheduleOf(z);
      ScheduleRoundTrip(s, t);
      assert forall u :: ToLocal(z, u) == s.ToLocal(u);
    }
  }

  lemma ScheduleRoundTrip(s: Schedule, t: int)
    requires s.WellFormed()
    ensures var tp := s.ToLocal(t); var i := s.GetLocalInfo(tp);
      if forall u :: s.ToLocal(u) == tp ==> u == t
      then i.result == Unique && s.ToSys(tp) == Instant(t) && forall c :: s.ToSysChoose(tp, c) == t
      else i.result == Ambiguous && s.ToSys(tp) == AmbiguousTime(i)
           && s.ToSysChoose(tp, Earliest) < s.ToSysChoose(tp, Latest)
           && (t == s.ToSysChoose(tp, Earliest) || t == s.ToSysChoose(tp, Latest))
  {
    hide Schedule.GetLocalInfo, Schedule.GetInfo, Schedule.WellFormed, Schedule.ToSys, Schedule.ToSysChoose,
      Schedule.ToLocal, Preimages;
    var tp := s.ToLocal(t);
    InstantRoundTrip(s, t);
    if s.GetLocalInfo(tp).result == Unique {
      forall u | s.ToLocal(u) == tp
        ensures u == t
      {
        InstantRoundTrip(s, u);
      }
      forall c
        ensures s.ToSysChoose(tp, c) == t
      {
        assert c == Earliest || c == Latest;
      }
    } else {
      AmbiguousChoices(s, tp);
      ChoicesShowReading(s, tp);
    }
  }

  /** Both choices of an ambiguous local time show that time. */
  lemma ChoicesShowReading(s: Schedule, tp: int)
    requires s.WellFormed() && s.GetLocalInfo(tp).result == Ambiguous
    ensures forall c :: s.ToLocal(s.ToSysChoose(tp, c)) == tp
  {
    hide Schedule.GetLocalInfo, Schedule.GetInfo, Schedule.ToSysChoose, Schedule.Alternating, Schedule.Spaced,
      Schedule.SpillFree, Schedule.Calendar, Schedule.ToLocal, Schedule.OffsetAt;
    AmbiguousChoices(s, tp);
    forall c
      ensures s.ToLocal(s.ToSysChoose(tp, c)) == tp
    {
      var t := s.ToSysChoose(tp, c);
      assert c == Earliest || c == Latest;
      PreimagesAreAll(s, tp, t);
      InfoOffset(s, t);
    }
  }

  // ---- Zones that are well-formed ----

  /** Weekday rules in February to November, at least two months apart: the zones in civil use. */
  predicate Usual(z: TimeZone) {
    && z.Valid()
    && z.startRule.MonthWeekday? && z.endRule.MonthWeekday?
    && 2 <= z.startRule.m <= 11 && 2 <= z.endRule.m <= 11
    && (z.startRule.m + 2 <= z.endRule.m || z.endRule.m + 2 <= z.startRule.m)
  }

  lemma WeekdayRuleAt(r: Rule, y: int)
    requires r.Valid() && r.MonthWeekday? && 2 <= r.m <= 11
    ensures MonthStart(y, r.m) * 86400 <= r.At(y) < (MonthStart(y, r.m) + LastDay(y, r.m)) * 86400 + 3600
    ensures Seconds(y) + 31 * 86400 <= r.At(y) < Seconds(y + 1) - 31 * 86400 + 3600
  {
    hide MonthStart, LastDay, Jan1, Rule.Day, YearOfSecond;
    WeekdayRuleDay(r, y);
    AwayFromNewYear(y, r.m);
  }

  lemma AwayFromNewYear(y: int, m: int)
    requires 2 <= m <= 11
    ensures Jan1(y) + 31 <= MonthStart(y, m) && MonthStart(y, m) + LastDay(y, m) <= Jan1(y + 1) - 31
  {
    hide ToDays;
    MonthOrder(y, 1, m);
    MonthOrder(y, m, 12);
    MonthDays(y, 12, 1);
  }

  lemma TwoMonthsApart(y: int, m: int, n: int)
    requires 1 <= m && m + 2 <= n <= 12
    ensures MonthStart(y, m) + LastDay(y, m) + 28 <= MonthStart(y, n)
  {
    hide MonthStart, IsLeap;
    MonthOrder(y, m, m + 1);
    MonthOrder(y, m + 1, n);
  }

  lemma RulesApart(a: Rule, b: Rule, y: int)
    requires a.Valid() && a.MonthWeekday? && b.Valid() && b.MonthWeekday?
    requires 2 <= a.m && a.m + 2 <= b.m <= 11
    ensures a.At(y) + 27 * 86400 <= b.At(y)
  {
    hide MonthStart, LastDay, Rule.At;
    WeekdayRuleAt(a, y);
    WeekdayRuleAt(b, y);
    TwoMonthsApart(y, a.m, b.m);
  }

  /** Transitions of a usual zone keep clear of the new year and of each other. */
  lemma UsualYear(z: TimeZone, y: int)
    requires Usual(z)
    ensures var s := ScheduleOf(z);
      && s.newYear(y) + 28 * 86400 <= s.start(y) <= s.newYear(y + 1) - 28 * 86400
      && s.newYear(y) + 28 * 86400 <= s.end(y) <= s.newYear(y + 1) - 28 * 86400
      && (if z.startRule.m < z.endRule.m then s.start(y) + 20 * 86400 <= s.end(y)
          else s.end(y) + 20 * 86400 <= s.start(y))
  {
    hide Seconds, YearOfSecond, Rule.At, NameOk;
    WeekdayRuleAt(z.startRule, y);
    WeekdayRuleAt(z.endRule, y);
    if z.startRule.m < z.endRule.m {
      RulesApart(z.startRule, z.endRule, y);
    } else {
      RulesApart(z.endRule, z.startRule, y);
    }
  }

  /** Transitions that keep clear of the new year and of each other, by more than the save. */
  ghost predicate Roomy(s: Schedule, y: int, north: bool) {
    && s.newYear(y) + 28 * 86400 <= s.start(y) <= s.newYear(y + 1) - 28 * 86400
    && s.newYear(y) + 28 * 86400 <= s.end(y) <= s.newYear(y + 1) - 28 * 86400
    && (if north then s.start(y) + 20 * 86400 <= s.end(y) else s.end(y) + 20 * 86400 <= s.start(y))
    && Abs(s.save) <= 3 * 86400 && Abs(s.offset) <= 2 * 86400 && Abs(s.offset + s.save) <= 2 * 86400
  }

  lemma RoomyIsWellFormed(s: Schedule, north: bool)
    requires s.Calendar() && forall y :: Roomy(s, y, north)
    ensures s.WellFormed()
  {
    hide Schedule.Calendar;
    forall y
      ensures if north then s.NorthernYear(y) else s.SouthernYear(y)
      ensures s.InYear(y) && s.WindowsInYear(y)
    {
      assert Roomy(s, y, north) && Roomy(s, y + 1, north);
    }
    forall y, k
      ensures Abs(s.start(y) - s.end(k)) >= Abs(s.save)
    {
      assert Roomy(s, y, north) && Roomy(s, k, north);
      RoomySpaced(s, y, k, north);
    }
  }

  lemma RoomySpaced(s: Schedule, y: int, k: int, north: bool)
    requires s.Calendar() && Roomy(s, y, north) && Roomy(s, k, north)
    ensures Abs(s.start(y) - s.end(k)) >= Abs(s.save)
  {
    if y + 1 < k {
      NewYears(s, y + 1, k);
    } else if k + 1 < y {
      NewYears(s, k + 1, y);
    }
    hide Schedule.Calendar;
  }

  /** Every usual zone, in either hemisphere and with either sign of save, is well-formed. */
  lemma UsualIsWellFormed(z: TimeZone)
    requires Usual(z)
    ensures WellFormed(z)
  {
    hide Seconds, YearOfSecond, Rule.At, Rule.Day, Schedule.WellFormed, Schedule.Calendar;
    ScheduleKeepsCalendar(z);
    var s := ScheduleOf(z);
    var north := z.startRule.m < z.endRule.m;
    forall y
      ensures Roomy(s, y, north)
    {
      UsualYear(z, y);
    }
    RoomyIsWellFormed(s, north);
  }

  // ---- Zones that the lookups get wrong ----

  /** AAA-12BBB,J300,J1: twelve hours east, daylight saving ends on 1 January, which is 31 December in UTC. */
  const SPILLING_ZONE := TimeZone("AAA", "BBB", 12 * 3600, 3600, Julian(300, 7200), Julian(1, 7200))

  lemma JulianDay(n: int, time: int, y: int)
    requires 1 <= n <= 365 && 0 <= time < 25 * 3600
    ensures Julian(n, time).Day(y) == Jan1(y) - 1 + n + (if IsLeap(y) && n > 59 then 1 else 0)
  {
    hide ToDays, IsLeap;
    MonthDays(y, 1, 0);
  }

  lemma YearOfSecondIs(t: int, y: int)
    requires Seconds(y) <= t < Seconds(y + 1)
    ensures YearOfSecond(t) == y
  {
    hide Jan1, YearOf;
    YearOfDay(t / 86400, y);
  }

  /** In the evening of every UTC year the record of this zone has already ended. */
  lemma SpillingZoneFails(y: int)
    ensures SPILLING_ZONE.Valid()
    ensures var t := Seconds(y) - 3600; SysInfoAt(SPILLING_ZONE, t).end <= t
  {
    hide Jan1, IsLeap, YearOfSecond, Rule.Day;
    var t := Seconds(y) - 3600;
    YearLength(y - 2);
    YearLength(y - 1);
    YearLength(y);
    JulianDay(300, 7200, y - 1);
    JulianDay(300, 7200, y);
    JulianDay(1, 7200, y - 2);
    JulianDay(1, 7200, y - 1);
    JulianDay(1, 7200, y);
    YearOfSecondIs(t, y - 1);
  }

  /** AAA0BBB,J60,J365/24:30: the repeated half hours lie on both sides of the new year. */
  const LATE_ZONE := TimeZone("AAA", "BBB", 0, 3600, Julian(60, 7200), Julian(365, 24 * 3600 + 1800))

  lemma LateZoneYear(y: int)
    ensures LATE_ZONE.Valid()
    ensures var s := ScheduleOf(LATE_ZONE);
      && s.start(y) == Seconds(y) + (59 + (if IsLeap(y) then 1 else 0)) * 86400 + 7200
      && s.end(y) == Seconds(y + 1) - 1800
      && Seconds(y) + 365 * 86400 <= Seconds(y + 1)
  {
    hide Jan1, IsLeap, YearOfSecond, Rule.Day;
    YearLength(y);
    JulianDay(60, 7200, y);
    JulianDay(365, 24 * 3600 + 1800, y);
  }

  /** A quarter past midnight on 1 January occurs twice in this zone, and is reported as unique. */
  lemma LateZoneFails(y: int)
    ensures LATE_ZONE.Valid()
    ensures var tp := Seconds(y) + 900;
      && LocalInfoAt(LATE_ZONE, tp).result == Unique
      && ToLocal(LATE_ZONE, tp) == tp && ToLocal(LATE_ZONE, tp - 3600) == tp
  {
    hide Seconds, IsLeap, YearOfSecond, Rule.At, TimeZone.Valid;
    var tp := Seconds(y) + 900;
    LateZoneYear(y - 2);
    LateZoneYear(y - 1);
    LateZoneYear(y);
    LateZoneYear(y + 1);
    YearOfSecondIs(tp, y);
    YearOfSecondIs(tp - 3600, y - 1);
  }
}
