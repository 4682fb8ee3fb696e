/** ISO week dates (iso_week.h) against day counts: section 4.1.4 of ISO 8601:2004. */
module IsoWeek {
  import opened CppArithmetic
  import opened Weekdays
  import G = Gregorian

  /** Weekdays run from 1 for Monday to 7 for Sunday. */
  datatype WeekDate = WeekDate(year: int, week: int, weekday: int)

  const MON := 1
  const THU := 4
  const SUN := 7

  function ToIsoEncoding(z: int): int {
    if z != 0 then z else 7
  }

  function WeekdayFromDays(z: int): int {
    ToIsoEncoding(SundayBased(z))
  }

  /** Days are added to a weekday in `long long`, rounding the week count down. */
  function WeekdayPlus(x: int, n: int): int {
    var wdu := Unsigned(x - 1) + n;
    var wk := Quot(if wdu >= 0 then wdu else wdu - 6, 7);
    Unsigned(wdu - wk * 7) + 1
  }

  function LastThursday(y: int): int {
    G.LastWeekday(y, 12, 4)
  }

  /** The Monday on which a week year begins. */
  function YearStart(y: int): int {
    LastThursday(y - 1) + WeekdayMinus(MON, THU)
  }

  /** year::is_leap: whether the week year has a 53rd week. */
  predicate IsLeap(y: int) {
    LastThursday(y) - LastThursday(y - 1) != 7 * 52
  }

  function LastWeek(y: int): int {
    if IsLeap(y) then 53 else 52
  }

  predicate Ok(c: WeekDate) {
    1 <= c.weekday <= 7 && 1 <= c.week <= LastWeek(c.year)
  }

  function ToDays(c: WeekDate): int {
    LastThursday(c.year - 1) + G.WeekdayDiff(1, 4) + 7 * (c.week - 1) + WeekdayMinus(c.weekday, MON)
  }

  function FromDays(dp: int): WeekDate {
    var y0 := G.YearOf(dp + 3);
    var y := if dp < YearStart(y0) then y0 - 1 else y0;
    WeekDate(y, Quot(dp - YearStart(y), 7) + 1, WeekdayFromDays(dp))
  }

  /** year_lastweek_weekday: a weekday of the last week of a year. */
  function LastWeekToDays(y: int, wd: int): int {
    LastThursday(y) + WeekdayMinus(SUN, THU) - WeekdayMinus(SUN, wd)
  }

  /** operator< of week dates. */
  predicate Before(a: WeekDate, b: WeekDate) {
    if a.year < b.year then true
    else if a.year > b.year then false
    else if a.week < b.week then true
    else if a.week > b.week then false
    else a.weekday < b.weekday
  }

  // ---- Weekdays ----

  /** Weekdays repeat every seven days, also before the epoch. */
  lemma WeekdayFloors(z: int)
    ensures 1 <= WeekdayFromDays(z) <= 7
    ensures WeekdayFromDays(z) == (z + 3) % 7 + 1
  {
    SundayBasedFloors(z);
    hide SundayBased;
  }

  lemma Mod7(a: int, q: int, r: int)
    requires 0 <= r < 7 && (a == 7 * q + r || a == 7 * (q - 1) + r)
    ensures a % 7 == r
  {
  }

  /** Adding days to a weekday counts on around the week, in unsigned and in signed arithmetic. */
  lemma WeekdayPlusFloors(x: int, n: int)
    requires 1 <= x <= 7
    ensures WeekdayPlus(x, n) == (x - 1 + n) % 7 + 1
  {
    hide Quot;
    WeeksFloor(x - 1 + n);
    RemainderOfWeeks(x - 1 + n);
  }

  lemma RemainderOfWeeks(a: int)
    ensures a - a / 7 * 7 == a % 7
  {
  }

  /** Adding days to a weekday follows the calendar: the weekday of a later day, or of an earlier one. */
  lemma WeekdayPlusDays(dp: int, n: int)
    ensures WeekdayPlus(WeekdayFromDays(dp), n) == WeekdayFromDays(dp + n)
  {
    WeekdayFloors(dp);
    WeekdayFloors(dp + n);
    WeekdayPlusFloors(WeekdayFromDays(dp), n);
    SumMod7(dp + 3, n);
    hide *;
  }

  lemma SumMod7(a: int, n: int)
    ensures (a + n) % 7 == (a % 7 + n) % 7
    ensures (a % 7 + n) - (a % 7 + n) / 7 * 7 == (a % 7 + n) % 7
  {
  }

  // ---- Week years ----

  lemma LastThursdayBounds(y: int)
    ensures G.Jan1(y + 1) - 7 <= LastThursday(y) < G.Jan1(y + 1)
    ensures (LastThursday(y) + 4) % 7 == 4
  {
    hide G.Jan1, G.MonthStart, G.LastDay, G.LastWeekday;
    G.MonthDays(y, 12, 1);
    G.LastWeekdayInMonth(y, 12, 4);
  }

  /** A week year begins within three days of 1 January, on a Monday. */
  lemma YearStartBounds(y: int)
    ensures G.Jan1(y) - 3 <= YearStart(y) <= G.Jan1(y) + 3
    ensures (YearStart(y) + 3) % 7 == 0
    ensures YearStart(y) == LastThursday(y - 1) + 4
  {
    hide G.Jan1, LastThursday;
    LastThursdayBounds(y - 1);
    ThursdayPlus4(LastThursday(y - 1));
  }

  lemma ThursdayPlus4(d: int)
    requires (d + 4) % 7 == 4
    ensures (d + 4 + 3) % 7 == 0
  {
  }

  /** A week year is 371 days long when it has 53 weeks, and 364 days otherwise. */
  lemma YearLength(y: int)
    ensures YearStart(y + 1) - YearStart(y) == 7 * LastWeek(y)
    ensures IsLeap(y) <==> YearStart(y + 1) - YearStart(y) == 371
  {
    hide G.Jan1, LastThursday, YearStart, G.IsLeap;
    YearStartBounds(y);
    YearStartBounds(y + 1);
    G.YearLength(y);
    MultipleOf7(YearStart(y), YearStart(y + 1));
  }

  lemma MultipleOf7(a: int, b: int)
    requires (a + 3) % 7 == 0 && (b + 3) % 7 == 0
    requires 359 <= b - a <= 372
    ensures b - a == 364 || b - a == 371
  {
    var p, q := (a + 3) / 7, (b + 3) / 7;
    assert b - a == 7 * (q - p);
  }

  lemma {:induction false} YearStartsIncrease(y: int, z: int)
    requires y < z
    ensures YearStart(y) + 364 <= YearStart(z)
    decreases z - y
  {
    hide YearStart, IsLeap;
    YearLength(z - 1);
    if y < z - 1 {
      YearStartsIncrease(y, z - 1);
    }
  }

  /** The day count of a week date, from the Monday that begins its year. */
  lemma ToDaysFromStart(c: WeekDate)
    requires 1 <= c.weekday <= 7
    ensures ToDays(c) == YearStart(c.year) + 7 * (c.week - 1) + (c.weekday - 1)
  {
    hide LastThursday;
    YearStartBounds(c.year);
    assert G.WeekdayDiff(1, 4) == 4;
  }

  lemma DayInYear(c: WeekDate)
    requires Ok(c)
    ensures YearStart(c.year) <= ToDays(c) < YearStart(c.year + 1)
  {
    hide YearStart, ToDays, IsLeap;
    ToDaysFromStart(c);
    YearLength(c.year);
  }

  // ---- The bijection ----

  lemma YearStartNear(y: int)
    ensures G.Jan1(y) - 3 <= YearStart(y) <= G.Jan1(y) + 3
    ensures 365 <= G.Jan1(y + 1) - G.Jan1(y)
  {
    hide G.Jan1, YearStart, G.IsLeap;
    YearStartBounds(y);
    G.YearLength(y);
  }

  /** One correction of the Gregorian year always finds the week year of a day. */
  lemma OneCorrection(dp: int)
    ensures var y := FromDays(dp).year; YearStart(y) <= dp < YearStart(y + 1)
  {
    hide G.Jan1, G.YearOf, YearStart, WeekdayFromDays, Quot;
    var y0 := G.YearOf(dp + 3);
    G.DayInItsYear(dp + 3);
    YearStartNear(y0 - 1);
    YearStartNear(y0);
    YearStartNear(y0 + 1);
  }

  lemma {:induction false} DaysRoundTrip(dp: int)
    ensures Ok(FromDays(dp))
    ensures ToDays(FromDays(dp)) == dp
  {
    hide YearStart, ToDays, IsLeap, G.YearOf, WeekdayFromDays;
    var c := FromDays(dp);
    OneCorrection(dp);
    WeekdayFloors(dp);
    ToDaysFromStart(c);
    WeekOfYear(dp, c.year);
  }

  lemma WeekOfYear(dp: int, y: int)
    requires YearStart(y) <= dp < YearStart(y + 1)
    ensures dp - YearStart(y) == 7 * ((dp - YearStart(y)) / 7) + (dp + 3) % 7
    ensures 0 <= (dp - YearStart(y)) / 7 < LastWeek(y)
  {
    hide YearStart, IsLeap;
    YearLength(y);
    YearStartBounds(y);
    WeekOffset(dp, YearStart(y));
  }

  lemma WeekOffset(dp: int, start: int)
    requires (start + 3) % 7 == 0 && start <= dp
    ensures dp - start == 7 * ((dp - start) / 7) + (dp + 3) % 7
  {
    var p := (start + 3) / 7;
    Mod7(dp + 3, p + (dp - start) / 7, (dp - start) % 7);
  }

  lemma {:induction false} WeekDateRoundTrip(c: WeekDate)
    requires Ok(c)
    ensures FromDays(ToDays(c)) == c
  {
    hide YearStart, ToDays, IsLeap, G.YearOf, WeekdayFromDays, FromDays;
    var dp := ToDays(c);
    DayInYear(c);
    DaysRoundTrip(dp);
    DayInYear(FromDays(dp));
    SameYear(FromDays(dp).year, c.year, dp);
    ToDaysFromStart(c);
    ToDaysFromStart(FromDays(dp));
  }

  lemma SameYear(y: int, z: int, dp: int)
    requires YearStart(y) <= dp < YearStart(y + 1)
    requires YearStart(z) <= dp < YearStart(z + 1)
    ensures y == z
  {
    hide YearStart;
    if y + 1 < z {
      YearStartsIncrease(y + 1, z);
    } else if z + 1 < y {
      YearStartsIncrease(z + 1, y);
    }
  }

  /** The order of week dates is the order of their days. */
  lemma OrderIsDayOrder(a: WeekDate, b: WeekDate)
    requires Ok(a) && Ok(b)
    ensures Before(a, b) <==> ToDays(a) < ToDays(b)
  {
    hide YearStart, ToDays, IsLeap;
    DayInYear(a);
    DayInYear(b);
    if a.year + 1 < b.year {
      YearStartsIncrease(a.year + 1, b.year);
    } else if b.year + 1 < a.year {
      YearStartsIncrease(b.year + 1, a.year);
    }
    ToDaysFromStart(a);
    ToDaysFromStart(b);
  }

  // ---- The first and the last week ----

  /** Week 1 is the week of the first Thursday of the Gregorian year. */
  lemma FirstThursday(y: int)
    ensures var thursday := ToDays(WeekDate(y, 1, THU));
      && G.YearOf(thursday) == y && G.Weekday(thursday) == 4
      && forall d :: G.YearOf(d) == y && G.Weekday(d) == 4 ==> thursday <= d
  {
    hide YearStart, ToDays, G.Jan1, G.YearOf, G.IsLeap;
    var thursday := ToDays(WeekDate(y, 1, THU));
    YearStartBounds(y);
    ToDaysFromStart(WeekDate(y, 1, THU));
    G.YearLength(y);
    G.YearOfDay(thursday, y);
    MondayPlus3(YearStart(y));
    forall d | G.YearOf(d) == y && G.Weekday(d) == 4
      ensures thursday <= d
    {
      G.YearOfDay(d, y);
      NoEarlierThursday(thursday, d);
    }
  }

  lemma MondayPlus3(d: int)
    requires (d + 3) % 7 == 0
    ensures G.Weekday(d + 3) == 4
  {
  }

  lemma NoEarlierThursday(thursday: int, d: int)
    requires G.Weekday(thursday) == 4 && G.Weekday(d) == 4
    requires thursday - 6 <= d
    ensures thursday <= d
  {
    var p, q := (thursday + 4) / 7, (d + 4) / 7;
    assert thursday - d == 7 * (p - q);
  }

  /** A weekday of the last week is the same day as in the numbered week. */
  lemma LastWeekIsNumbered(y: int, wd: int)
    requires 1 <= wd <= 7
    ensures Ok(WeekDate(y, LastWeek(y), wd))
    ensures LastWeekToDays(y, wd) == ToDays(WeekDate(y, LastWeek(y), wd))
  {
    hide LastThursday, ToDays, IsLeap, YearStart;
    WeekdayMinusMod(SUN, wd);
    ToDaysFromStart(WeekDate(y, LastWeek(y), wd));
    YearLength(y);
    YearStartBounds(y + 1);
  }
}
