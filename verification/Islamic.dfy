/** The tabular Islamic calendar of islamic.h, on day counts since 1970-01-01. */
module Islamic {
  import opened CppArithmetic
  import opened Weekdays

  datatype Date = Date(year: int, month: int, day: int)

  /** Years of a 30-year era, counted from 0, that have 355 days. */
  predicate LeapOfEra(yoe: int) {
    match yoe
    case 1 => true
    case 4 => true
    case 6 => true
    case 9 => true
    case 12 => true
    case 15 => true
    case 17 => true
    case 20 => true
    case 23 => true
    case 25 => true
    case 28 => true
    case _ => false
  }

  predicate IsLeap(y: int) {
    var era := EraQuot(y - 1, 30);
    LeapOfEra(y - 1 - era * 30)
  }

  function LastDay(y: int, m: int): int
    requires 1 <= m <= 12
  {
    if m != 12 || !IsLeap(y) then [30, 29, 30, 29, 30, 29, 30, 29, 30, 29, 30, 29][m - 1] else 30
  }

  predicate Ok(c: Date) {
    1 <= c.month <= 12 && 1 <= c.day <= LastDay(c.year, c.month)
  }

  predicate Before(a: Date, b: Date) {
    if a.year < b.year then true
    else if a.year > b.year then false
    else if a.month < b.month then true
    else if a.month > b.month then false
    else a.day < b.day
  }

  function DayOfYear(m: int, d: int): int {
    29 * (m - 1) + m / 2 + d - 1
  }

  /** The days of a 30-year era that precede its year `yoe`. */
  function EraDays(yoe: int): int {
    yoe * 354 + (11 * (yoe + 1) + 3) / 30
  }

  function DayOfEra(era: int, yoe: int, doy: int): int {
    var doe := EraDays(yoe) + doy;
    era * 10631 + doe - 492148
  }

  function ToDays(c: Date): int {
    var y := c.year - 1;
    var era := EraQuot(y, 30);
    DayOfEra(era, y - era * 30, DayOfYear(c.month, c.day))
  }

  function YearOfEra(doe: int): int {
    (30 * doe + 10646) / 10631 - 1
  }

  function DateOfEra(era: int, yoe: int, doy: int): Date {
    var y := yoe + era * 30 + 1;
    var m := (11 * doy + 330) / 325;
    var d := doy - (29 * (m - 1) + m / 2) + 1;
    Date(y, m, d)
  }

  function DateOfEraDay(era: int, doe: int): Date {
    var yoe := YearOfEra(doe);
    DateOfEra(era, yoe, doe - EraDays(yoe))
  }

  function FromDays(dp: int): Date {
    var z := dp + 492148;
    var era := EraQuot(z, 10631);
    DateOfEraDay(era, z - era * 10631)
  }

  // ---- Years inside an era ----

  function EraYearLength(yoe: int): int {
    if LeapOfEra(yoe) then 355 else 354
  }

  /** The leap years of the list are those at which the leap-day count of the formula steps. */
  lemma LeapRemainder(yoe: int)
    requires 0 <= yoe < 30
    ensures LeapOfEra(yoe) <==> (11 * (yoe + 1) + 3) % 30 >= 19
  {
  }

  lemma EraDaysStep(yoe: int)
    requires 0 <= yoe < 30
    ensures EraDays(yoe + 1) == EraDays(yoe) + EraYearLength(yoe)
    ensures yoe == 29 ==> EraDays(yoe + 1) == 10631
  {
    LeapRemainder(yoe);
    hide LeapOfEra;
    var a := 11 * (yoe + 1) + 3;
    assert (a + 11) / 30 == a / 30 + (if a % 30 >= 19 then 1 else 0);
  }

  /** The quotient formula for the year of the era is exact on every day of every year. */
  lemma YearOfEraExact(yoe: int, doy: int)
    requires 0 <= yoe < 30 && 0 <= doy < EraYearLength(yoe)
    ensures YearOfEra(EraDays(yoe) + doy) == yoe
  {
    LeapRemainder(yoe);
    hide LeapOfEra;
    var a := 11 * (yoe + 1) + 3;
    assert a == 30 * (a / 30) + a % 30;
    var n := 29 - a % 30 + 30 * doy;
    assert 30 * (EraDays(yoe) + doy) + 10646 == 10631 * (yoe + 1) + n;
    assert 0 <= n < 10631;
  }

  lemma {:induction false} SplitEra(doe: int, yoe: int) returns (y: int)
    requires 0 <= yoe <= 30 && 0 <= doe < EraDays(yoe)
    ensures 0 <= y < 30 && 0 <= doe - EraDays(y) < EraYearLength(y)
  {
    hide EraDays, LeapOfEra;
    FirstEraDay();
    if yoe > 0 {
      EraDaysStep(yoe - 1);
      if EraDays(yoe - 1) <= doe {
        y := yoe - 1;
      } else {
        y := SplitEra(doe, yoe - 1);
      }
    } else {
      assert false;
    }
  }

  lemma FirstEraDay()
    ensures EraDays(0) == 0
  {
  }

  // ---- Months inside a year ----

  lemma MonthOfDay(era: int, yoe: int, doy: int)
    requires 0 <= yoe < 30 && 0 <= doy < EraYearLength(yoe)
    ensures var c := DateOfEra(era, yoe, doy); Ok(c) && DayOfYear(c.month, c.day) == doy
  {
    LeapAt(era, yoe);
    hide IsLeap, LeapOfEra;
  }

  lemma DayOfMonth(c: Date, era: int, yoe: int)
    requires 0 <= yoe < 30 && c.year == yoe + era * 30 + 1 && Ok(c)
    ensures 0 <= DayOfYear(c.month, c.day) < EraYearLength(yoe)
    ensures DateOfEra(era, yoe, DayOfYear(c.month, c.day)) == c
  {
    LeapAt(era, yoe);
    hide IsLeap, LeapOfEra;
  }

  lemma EraOfYear(era: int, yoe: int)
    requires 0 <= yoe < 30
    ensures EraQuot(yoe + era * 30, 30) == era
  {
  }

  lemma EraOfDay(era: int, doe: int)
    requires 0 <= doe < 10631
    ensures EraQuot(doe + era * 10631, 10631) == era
  {
  }

  lemma LeapAt(era: int, yoe: int)
    requires 0 <= yoe < 30
    ensures IsLeap(yoe + era * 30 + 1) <==> LeapOfEra(yoe)
  {
    hide LeapOfEra;
    EraOfYear(era, yoe);
  }

  // ---- The bijection ----

  lemma ToDaysAt(era: int, yoe: int, c: Date)
    requires 0 <= yoe < 30 && c.year == yoe + era * 30 + 1
    ensures ToDays(c) == DayOfEra(era, yoe, DayOfYear(c.month, c.day))
  {
    hide DayOfEra, EraQuot;
    EraOfYear(era, yoe);
  }

  lemma EraDaysBounds(yoe: int, doy: int)
    requires 0 <= yoe < 30 && 0 <= doy < EraYearLength(yoe)
    ensures 0 <= EraDays(yoe) + doy < 10631
  {
    hide LeapOfEra;
    EraDaysStep(yoe);
    hide EraDays;
    EraDaysIncrease(yoe + 1, 30);
    EraDaysIncrease(0, yoe);
    EraDaysStep(29);
    FirstEraDay();
  }

  lemma {:induction false} EraDaysIncrease(a: int, b: int)
    requires 0 <= a <= b <= 30
    ensures EraDays(a) <= EraDays(b)
    decreases b - a
  {
    hide EraDays, LeapOfEra;
    if a < b {
      EraDaysStep(b - 1);
      EraDaysIncrease(a, b - 1);
    }
  }

  lemma FromDaysAt(era: int, yoe: int, doy: int)
    requires 0 <= yoe < 30 && 0 <= doy < EraYearLength(yoe)
    ensures FromDays(DayOfEra(era, yoe, doy)) == DateOfEra(era, yoe, doy)
  {
    hide EraDays, DateOfEra, EraQuot, YearOfEra, EraYearLength;
    var doe := EraDays(yoe) + doy;
    EraDaysBounds(yoe, doy);
    EraOfDay(era, doe);
    YearOfEraExact(yoe, doy);
    assert DayOfEra(era, yoe, doy) + 492148 == doe + era * 10631;
  }

  lemma SplitDays(dp: int) returns (era: int, yoe: int, doy: int)
    ensures 0 <= yoe < 30 && 0 <= doy < EraYearLength(yoe) && dp == DayOfEra(era, yoe, doy)
  {
    hide EraDays, EraYearLength;
    era := (dp + 492148) / 10631;
    var doe := dp + 492148 - era * 10631;
    EraDaysStep(29);
    yoe := SplitEra(doe, 30);
    doy := doe - EraDays(yoe);
  }

  lemma {:induction false} DaysRoundTrip(dp: int)
    ensures Ok(FromDays(dp))
    ensures ToDays(FromDays(dp)) == dp
  {
    hide FromDays, ToDays, DayOfEra, EraYearLength, Ok, DayOfYear;
    var era, yoe, doy := SplitDays(dp);
    FromDaysAt(era, yoe, doy);
    MonthOfDay(era, yoe, doy);
    ToDaysAt(era, yoe, DateOfEra(era, yoe, doy));
  }

  lemma {:induction false} DateRoundTrip(c: Date)
    requires Ok(c)
    ensures FromDays(ToDays(c)) == c
  {
    hide FromDays, ToDays, DayOfEra, EraYearLength, Ok, DayOfYear, DateOfEra;
    var era, yoe := (c.year - 1) / 30, (c.year - 1) % 30;
    DayOfMonth(c, era, yoe);
    ToDaysAt(era, yoe, c);
    FromDaysAt(era, yoe, DayOfYear(c.month, c.day));
  }

  // ---- Years, months and the order of dates ----

  function NewYear(y: int): int {
    ToDays(Date(y, 1, 1))
  }

  lemma DayOfEraSteps(era: int, yoe: int, doy: int)
    ensures DayOfEra(era, yoe, doy) == DayOfEra(era, yoe, 0) + doy
  {
    hide EraDays;
  }

  lemma NextYear(era: int, yoe: int)
    requires 0 <= yoe < 30
    ensures DayOfEra(era, yoe, EraYearLength(yoe))
      == if yoe < 29 then DayOfEra(era, yoe + 1, 0) else DayOfEra(era + 1, 0, 0)
  {
    EraDaysStep(yoe);
    FirstEraDay();
    hide EraDays, EraYearLength;
  }

  /** A year has 355 days exactly when the list has it as a leap year, and 354 otherwise. */
  lemma YearLength(y: int)
    ensures NewYear(y + 1) - NewYear(y) == if IsLeap(y) then 355 else 354
  {
    hide ToDays, DayOfEra, IsLeap, LeapOfEra;
    var era, yoe := (y - 1) / 30, (y - 1) % 30;
    LeapAt(era, yoe);
    ToDaysAt(era, yoe, Date(y, 1, 1));
    DayOfEraSteps(era, yoe, EraYearLength(yoe));
    NextYear(era, yoe);
    if yoe < 29 {
      ToDaysAt(era, yoe + 1, Date(y + 1, 1, 1));
    } else {
      ToDaysAt(era + 1, 0, Date(y + 1, 1, 1));
    }
  }

  lemma {:induction false} NewYearsIncrease(y: int, z: int)
    requires y < z
    ensures NewYear(y) + 354 <= NewYear(z)
    decreases z - y
  {
    hide NewYear, IsLeap;
    YearLength(z - 1);
    if y < z - 1 {
      NewYearsIncrease(y, z - 1);
    }
  }

  /** The day count of a date, from the first day of its year. */
  lemma ToDaysFromNewYear(c: Date)
    ensures ToDays(c) == NewYear(c.year) + DayOfYear(c.month, c.day)
  {
    hide ToDays, DayOfEra;
    var era, yoe := (c.year - 1) / 30, (c.year - 1) % 30;
    ToDaysAt(era, yoe, c);
    ToDaysAt(era, yoe, Date(c.year, 1, 1));
    DayOfEraSteps(era, yoe, DayOfYear(c.month, c.day));
  }

  lemma DayInYear(c: Date)
    requires Ok(c)
    ensures NewYear(c.year) <= ToDays(c) < NewYear(c.year + 1)
  {
    hide NewYear, ToDays, IsLeap;
    ToDaysFromNewYear(c);
    YearLength(c.year);
  }

  /** Day counts strictly increase in the order of dates. */
  lemma OrderIsDayOrder(a: Date, b: Date)
    requires Ok(a) && Ok(b)
    ensures Before(a, b) <==> ToDays(a) < ToDays(b)
  {
    hide NewYear, ToDays, Ok, DayOfYear;
    DayInYear(a);
    DayInYear(b);
    if a.year + 1 < b.year {
      NewYearsIncrease(a.year + 1, b.year);
    } else if b.year + 1 < a.year {
      NewYearsIncrease(b.year + 1, a.year);
    }
    ToDaysFromNewYear(a);
    ToDaysFromNewYear(b);
    if a.year == b.year {
      OrderInYear(a, b);
      OrderInYear(b, a);
    }
  }

  lemma OrderInYear(a: Date, b: Date)
    requires Ok(a) && Ok(b) && a.year == b.year
    ensures Before(a, b) ==> DayOfYear(a.month, a.day) < DayOfYear(b.month, b.day)
  {
    hide IsLeap;
  }

  // ---- Weekdays, 0 for Sunday ----

  function WeekdayFromDays(z: int): int {
    SundayBased(z)
  }

  lemma WeekdayFloors(z: int)
    ensures WeekdayFromDays(z) == (z + 4) % 7
  {
    SundayBasedFloors(z);
  }

  // ---- The n-th weekday of a month ----

  datatype WeekdayDate = WeekdayDate(year: int, month: int, weekday: int, index: int)

  function MonthStart(y: int, m: int): int {
    ToDays(Date(y, m, 1))
  }

  /** Days from the first of the month to the first given weekday in it. */
  function FirstOffset(y: int, m: int, wd: int): int {
    WeekdayMinus(wd, WeekdayFromDays(MonthStart(y, m)))
  }

  predicate WeekdayDateOk(w: WeekdayDate) {
    && 1 <= w.month <= 12 && 0 <= w.weekday <= 6 && 1 <= w.index
    && (w.index <= 4
        || FirstOffset(w.year, w.month, w.weekday) + ((w.index - 1) * 7 + 1) <= LastDay(w.year, w.month))
  }

  function WeekdayDateFromDays(dp: int): WeekdayDate {
    var c := FromDays(dp);
    WeekdayDate(c.year, c.month, WeekdayFromDays(dp), (c.day - 1) / 7 + 1)
  }

  function WeekdayDateToDays(w: WeekdayDate): int {
    MonthStart(w.year, w.month) + (FirstOffset(w.year, w.month, w.weekday) + (w.index - 1) * 7)
  }

  function LastWeekdayToDays(y: int, m: int, wd: int): int
    requires 1 <= m <= 12
  {
    var d := ToDays(Date(y, m, LastDay(y, m)));
    d - WeekdayMinus(WeekdayFromDays(d), wd)
  }

  /** A day belongs to a month. */
  predicate InMonth(dp: int, y: int, m: int) {
    FromDays(dp).year == y && FromDays(dp).month == m
  }

  lemma MonthDays(y: int, m: int, d: int)
    ensures ToDays(Date(y, m, d)) == MonthStart(y, m) + d - 1
  {
    hide ToDays, NewYear;
    ToDaysFromNewYear(Date(y, m, d));
    ToDaysFromNewYear(Date(y, m, 1));
  }

  /** The days of a month are the `LastDay` days from its start. */
  lemma InMonthBounds(dp: int, y: int, m: int)
    requires 1 <= m <= 12
    ensures InMonth(dp, y, m) <==> MonthStart(y, m) <= dp < MonthStart(y, m) + LastDay(y, m)
  {
    hide FromDays, ToDays, LastDay, MonthStart;
    var c := FromDays(dp);
    DaysRoundTrip(dp);
    MonthDays(c.year, c.month, c.day);
    if MonthStart(y, m) <= dp < MonthStart(y, m) + LastDay(y, m) {
      var e := Date(y, m, dp - MonthStart(y, m) + 1);
      MonthDays(y, m, e.day);
      DateRoundTrip(e);
    }
  }

  lemma FirstOffsetMod(y: int, m: int, wd: int)
    requires 0 <= wd < 7
    ensures 0 <= FirstOffset(y, m, wd) < 7
    ensures (MonthStart(y, m) + FirstOffset(y, m, wd) + 4) % 7 == wd
  {
    hide MonthStart, WeekdayFromDays, WeekdayMinus;
    var d := MonthStart(y, m);
    WeekdayFloors(d);
    WeekdayMinusMod(wd, WeekdayFromDays(d));
    OffsetMod(d, wd);
  }

  lemma OffsetMod(d: int, wd: int)
    requires 0 <= wd < 7
    ensures var w := (d + 4) % 7; (d + (if wd >= w then wd - w else wd - w + 7) + 4) % 7 == wd
  {
    var q, w := (d + 4) / 7, (d + 4) % 7;
    assert d + 4 == 7 * q + w;
  }

  lemma SameWeekday(a: int, b: int)
    requires (a + 4) % 7 == (b + 4) % 7
    ensures (a - b) % 7 == 0 && a - b == 7 * ((a - b) / 7)
  {
    var p, q := (a + 4) / 7, (b + 4) / 7;
    assert a - b == 7 * (p - q);
  }

  /** Every day comes back from its weekday and index. */
  lemma {:induction false} WeekdayDateRoundTrip(dp: int)
    ensures WeekdayDateOk(WeekdayDateFromDays(dp))
    ensures WeekdayDateToDays(WeekdayDateFromDays(dp)) == dp
  {
    hide FromDays, ToDays, MonthStart, WeekdayFromDays, FirstOffset, LastDay;
    var c := FromDays(dp);
    DaysRoundTrip(dp);
    MonthDays(c.year, c.month, c.day);
    WeekdayFloors(dp);
    FirstOffsetMod(c.year, c.month, WeekdayFromDays(dp));
    var first := MonthStart(c.year, c.month) + FirstOffset(c.year, c.month, WeekdayFromDays(dp));
    SameWeekday(dp, first);
    IndexOfDay(c.day, dp - first, FirstOffset(c.year, c.month, WeekdayFromDays(dp)));
  }

  lemma IndexOfDay(day: int, gap: int, offset: int)
    requires 1 <= day && 0 <= offset < 7 && day - 1 == offset + gap && gap == 7 * (gap / 7)
    ensures ((day - 1) / 7 + 1 - 1) * 7 == gap
  {
  }

  /** A weekday with an index is accepted exactly when the day it denotes lies in its month. */
  lemma WeekdayDateOkIsInMonth(w: WeekdayDate)
    requires 1 <= w.month <= 12 && 0 <= w.weekday <= 6 && 1 <= w.index
    ensures WeekdayDateOk(w) <==> InMonth(WeekdayDateToDays(w), w.year, w.month)
  {
    hide FromDays, ToDays, MonthStart, FirstOffset, LastDay, InMonth;
    FirstOffsetMod(w.year, w.month, w.weekday);
    InMonthBounds(WeekdayDateToDays(w), w.year, w.month);
    AtLeast29(w.year, w.month);
  }

  /** Every accepted weekday date comes back from its day. */
  lemma {:induction false} WeekdayDateReverse(w: WeekdayDate)
    requires WeekdayDateOk(w)
    ensures WeekdayDateFromDays(WeekdayDateToDays(w)) == w
  {
    hide FromDays, ToDays, MonthStart, FirstOffset, LastDay, WeekdayFromDays, WeekdayDateOk;
    var dp := WeekdayDateToDays(w);
    OkRanges(w);
    WeekdayDateOkIsInMonth(w);
    FirstOffsetMod(w.year, w.month, w.weekday);
    var c := FromDays(dp);
    DaysRoundTrip(dp);
    MonthDays(c.year, c.month, c.day);
    WeekdayFloors(dp);
    var offset := FirstOffset(w.year, w.month, w.weekday);
    WeeksLater(MonthStart(w.year, w.month) + offset, w.index - 1);
    assert c.day - 1 == offset + (w.index - 1) * 7;
    IndexOfOffset(c.day, offset, w.index);
  }

  lemma OkRanges(w: WeekdayDate)
    requires WeekdayDateOk(w)
    ensures 1 <= w.month <= 12 && 0 <= w.weekday <= 6 && 1 <= w.index
  {
  }

  lemma WeeksLater(d: int, n: int)
    ensures (d + n * 7 + 4) % 7 == (d + 4) % 7
  {
  }

  lemma IndexOfOffset(day: int, offset: int, index: int)
    requires 0 <= offset < 7 && 1 <= index && day - 1 == offset + (index - 1) * 7
    ensures (day - 1) / 7 + 1 == index
  {
  }

  lemma AtLeast29(y: int, m: int)
    requires 1 <= m <= 12
    ensures 29 <= LastDay(y, m) <= 30
  {
    hide IsLeap;
  }

  /** The last weekday of a month is the greatest day of the month with that weekday. */
  lemma LastWeekdayIsGreatest(y: int, m: int, wd: int)
    requires 1 <= m <= 12 && 0 <= wd <= 6
    ensures var d := LastWeekdayToDays(y, m, wd);
      && InMonth(d, y, m) && WeekdayFromDays(d) == wd
      && forall e :: InMonth(e, y, m) && WeekdayFromDays(e) == wd ==> e <= d
  {
    hide FromDays, ToDays, MonthStart, LastDay, InMonth, WeekdayFromDays, WeekdayMinus;
    var last := ToDays(Date(y, m, LastDay(y, m)));
    var d := LastWeekdayToDays(y, m, wd);
    MonthDays(y, m, LastDay(y, m));
    AtLeast29(y, m);
    WeekdayFloors(last);
    WeekdayMinusMod(WeekdayFromDays(last), wd);
    WeekdayFloors(d);
    BackMod(last, wd);
    InMonthBounds(d, y, m);
    forall e | InMonth(e, y, m) && WeekdayFromDays(e) == wd
      ensures e <= d
    {
      InMonthBounds(e, y, m);
      WeekdayFloors(e);
      SameWeekday(e, d);
    }
  }

  lemma BackMod(d: int, wd: int)
    requires 0 <= wd < 7
    ensures var w := (d + 4) % 7; (d - (if w >= wd then w - wd else w - wd + 7) + 4) % 7 == wd
  {
    var q, w := (d + 4) / 7, (d + 4) % 7;
    assert d + 4 == 7 * q + w;
  }
}
