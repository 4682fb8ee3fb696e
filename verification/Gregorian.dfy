/** The proleptic Gregorian calendar of date.h, on day counts since 1970-01-01. */
module Gregorian {
  import opened CppArithmetic

  datatype Date = Date(year: int, month: int, day: int)

  // A C++ remainder is zero exactly when the Euclidean one is.
  predicate IsLeap(y: int) {
    y % 4 == 0 && (y % 100 != 0 || y % 400 == 0)
  }

  function LastDay(y: int, m: int): int
    requires 1 <= m <= 12
  {
    if m != 2 || !IsLeap(y) then [31, 28, 31, 30, 31, 30, 31, 31, 30, 31, 30, 31][m - 1] else 29
  }

  predicate Ok(c: Date) {
    1 <= c.month <= 12 && 1 <= c.day <= LastDay(c.year, c.month)
  }

  /** The order of dates: year first, then month, then day. */
  predicate Before(a: Date, b: Date) {
    a.year < b.year || (a.year == b.year && (a.month < b.month || (a.month == b.month && a.day < b.day)))
  }

  /** Day number inside a year that begins on 1 March. */
  function MarchDay(m: int, d: int): int {
    (153 * (if m > 2 then m - 3 else m + 9) + 2) / 5 + d - 1
  }

  /** The days of a 400-year era that precede its year `yoe`. */
  function EraDays(yoe: int): int {
    yoe * 365 + yoe / 4 - yoe / 100
  }

  function YearOfEra(doe: int): int {
    (doe - doe / 1460 + doe / 36524 - doe / 146096) / 365
  }

  function ToDays(c: Date): int {
    var y := c.year - (if c.month <= 2 then 1 else 0);
    var era := EraQuot(y, 400);
    DayOfEra(era, y - era * 400, MarchDay(c.month, c.day))
  }

  function DayOfEra(era: int, yoe: int, doy: int): int {
    var doe := EraDays(yoe) + doy;
    era * 146097 + doe - 719468
  }

  function FromDays(dp: int): Date {
    var z := dp + 719468;
    var era := EraQuot(z, 146097);
    DateOfEraDay(era, z - era * 146097)
  }

  function DateOfEraDay(era: int, doe: int): Date {
    var yoe := YearOfEra(doe);
    DateOfEra(era, yoe, doe - EraDays(yoe))
  }

  function DateOfEra(era: int, yoe: int, doy: int): Date {
    var y := yoe + era * 400;
    var mp := (5 * doy + 2) / 153;
    var d := doy - (153 * mp + 2) / 5 + 1;
    var m := if mp < 10 then mp + 3 else mp - 9;
    Date(y + (if m <= 2 then 1 else 0), m, d)
  }

  /** The day count of 1 January. */
  function Jan1(y: int): int {
    ToDays(Date(y, 1, 1))
  }

  function YearOf(dp: int): int {
    FromDays(dp).year
  }

  // ---- Years inside an era ----

  /** A day of the era split into century, four-year cycle, year and day of the year. */
  datatype EraSplit = EraSplit(c: int, q: int, r: int, doy: int) {
    ghost predicate Valid() {
      && 0 <= c <= 3 && 0 <= q <= 24 && 0 <= r <= 3
      && 0 <= doy <= 365
      && (doy == 365 ==> r == 3 && (q == 24 ==> c == 3))
    }

    function Year(): int {
      100 * c + 4 * q + r
    }

    function Doe(): int {
      36524 * c + 1461 * q + 365 * r + doy
    }
  }

  lemma SplitEra(doe: int) returns (s: EraSplit)
    requires 0 <= doe < 146097
    ensures s.Valid() && s.Doe() == doe
  {
    var c := Min(doe / 36524, 3);
    var a := doe - 36524 * c;
    var q := Min(a / 1461, 24);
    var b := a - 1461 * q;
    var r := Min(b / 365, 3);
    s := EraSplit(c, q, r, b - 365 * r);
  }

  /** The quotient formula for the year of the era is exact on every day of the era. */
  lemma SplitYear(s: EraSplit)
    requires s.Valid()
    ensures EraDays(s.Year()) + s.doy == s.Doe()
    ensures YearOfEra(s.Doe()) == s.Year()
  {
    var y := s.Year();
    assert y / 4 == 25 * s.c + s.q;
    assert y / 100 == s.c;
    var rest := 24 * s.c + s.q + 365 * s.r + s.doy;
    var e := if rest >= 1460 then 1 else 0;
    assert s.Doe() == 1460 * (25 * s.c + s.q) + rest;
    assert s.Doe() / 1460 == 25 * s.c + s.q + e;
    var f := if s.Doe() == 146096 then 1 else 0;
    assert s.Doe() / 36524 == s.c + f;
    assert s.Doe() / 146096 == f;
    assert s.Doe() - s.Doe() / 1460 + s.Doe() / 36524 - s.Doe() / 146096 == 365 * y + (s.doy - e);
  }

  /** Whether the February that ends March-year `yoe` has 29 days. */
  predicate LongYear(yoe: int) {
    yoe % 4 == 3 && (yoe % 100 != 99 || yoe == 399)
  }

  lemma LongYearIsLeap(era: int, yoe: int)
    requires 0 <= yoe < 400
    ensures LongYear(yoe) <==> IsLeap(yoe + era * 400 + 1)
  {
    LeapInsideEra(yoe);
    assert (yoe + era * 400 + 1) % 4 == (yoe + 1) % 4 by { RemainderOfEra(era, yoe + 1); }
    assert (yoe + era * 400 + 1) % 100 == (yoe + 1) % 100 by { RemainderOfEra(era, yoe + 1); }
    assert (yoe + era * 400 + 1) % 400 == (yoe + 1) % 400 by { RemainderOfEra(era, yoe + 1); }
  }

  lemma LeapInsideEra(yoe: int)
    requires 0 <= yoe < 400
    ensures LongYear(yoe) <==> IsLeap(yoe + 1)
  {
  }

  lemma RemainderOfEra(era: int, n: int)
    ensures (n + era * 400) % 4 == n % 4
    ensures (n + era * 400) % 100 == n % 100
    ensures (n + era * 400) % 400 == n % 400
  {
    Shift4(n, 100 * era);
    Shift100(n, 4 * era);
    Shift400(n, era);
  }

  lemma Shift4(n: int, k: int)
    ensures (n + k * 4) % 4 == n % 4
  {
  }

  lemma Shift100(n: int, k: int)
    ensures (n + k * 100) % 100 == n % 100
  {
  }

  lemma Shift400(n: int, k: int)
    ensures (n + k * 400) % 400 == n % 400
  {
  }

  lemma ValidSplitOfYear(yoe: int, doy: int) returns (s: EraSplit)
    requires 0 <= yoe < 400 && 0 <= doy < 365 + (if LongYear(yoe) then 1 else 0)
    ensures s.Valid() && s.Year() == yoe && s.doy == doy
  {
    s := EraSplit(yoe / 100, yoe % 100 / 4, yoe % 4, doy);
    assert yoe == 100 * (yoe / 100) + yoe % 100;
    assert yoe % 100 == 4 * (yoe % 100 / 4) + yoe % 4;
  }

  lemma SplitDayInYear(s: EraSplit)
    requires s.Valid()
    ensures 0 <= s.Year() < 400
    ensures 0 <= s.doy < 365 + (if LongYear(s.Year()) then 1 else 0)
  {
    assert s.Year() % 4 == s.r;
    assert s.Year() % 100 == 4 * s.q + s.r;
  }

  // ---- Months inside a March-year ----

  lemma MonthOfMarchDay(c: Date, era: int, yoe: int)
    requires 0 <= yoe < 400
    requires 1 <= c.month <= 12
    requires c.year == yoe + era * 400 + (if c.month <= 2 then 1 else 0)
    requires Ok(c)
    ensures 0 <= MarchDay(c.month, c.day) < 365 + (if LongYear(yoe) then 1 else 0)
    ensures DateOfEra(era, yoe, MarchDay(c.month, c.day)) == c
  {
    LongYearIsLeap(era, yoe);
  }

  lemma MarchDayOfMonth(era: int, yoe: int, doy: int)
    requires 0 <= yoe < 400
    requires 0 <= doy < 365 + (if LongYear(yoe) then 1 else 0)
    ensures var c := DateOfEra(era, yoe, doy); Ok(c) && MarchDay(c.month, c.day) == doy
  {
    LongYearIsLeap(era, yoe);
  }

  // ---- The bijection ----

  lemma EraOfYear(era: int, yoe: int)
    requires 0 <= yoe < 400
    ensures EraQuot(yoe + era * 400, 400) == era
  {
  }

  lemma EraOfDay(era: int, doe: int)
    requires 0 <= doe < 146097
    ensures EraQuot(doe + era * 146097, 146097) == era
  {
  }

  lemma ToDaysAt(era: int, yoe: int, c: Date)
    requires 0 <= yoe < 400
    requires c.year == yoe + era * 400 + (if c.month <= 2 then 1 else 0)
    ensures ToDays(c) == DayOfEra(era, yoe, MarchDay(c.month, c.day))
  {
    EraOfYear(era, yoe);
  }

  lemma FromDaysInEra(era: int, doe: int)
    requires 0 <= doe < 146097
    ensures FromDays(doe + era * 146097 - 719468) == DateOfEraDay(era, doe)
  {
    hide DateOfEraDay, EraQuot;
    EraOfDay(era, doe);
  }

  lemma DateOfEraSplit(era: int, s: EraSplit)
    requires s.Valid()
    ensures DateOfEraDay(era, s.Doe()) == DateOfEra(era, s.Year(), s.doy)
  {
    hide YearOfEra, EraDays, DateOfEra;
    SplitYear(s);
  }

  lemma DayOfEraSplit(era: int, s: EraSplit)
    requires s.Valid()
    ensures 0 <= s.Doe() < 146097
    ensures DayOfEra(era, s.Year(), s.doy) == s.Doe() + era * 146097 - 719468
  {
    hide YearOfEra, EraDays;
    SplitYear(s);
  }

  lemma FromDaysAt(era: int, s: EraSplit)
    requires s.Valid()
    ensures FromDays(DayOfEra(era, s.Year(), s.doy)) == DateOfEra(era, s.Year(), s.doy)
  {
    hide *;
    DayOfEraSplit(era, s);
    FromDaysInEra(era, s.Doe());
    DateOfEraSplit(era, s);
  }

  lemma SplitDays(dp: int) returns (era: int, s: EraSplit)
    ensures s.Valid() && dp == DayOfEra(era, s.Year(), s.doy)
  {
    era := (dp + 719468) / 146097;
    s := SplitEra(dp + 719468 - era * 146097);
    SplitYear(s);
  }

  lemma {:induction false} DaysRoundTrip(dp: int)
    ensures Ok(FromDays(dp))
    ensures ToDays(FromDays(dp)) == dp
  {
    var era, s := SplitDays(dp);
    FromDaysAt(era, s);
    SplitDayInYear(s);
    MarchDayOfMonth(era, s.Year(), s.doy);
    ToDaysAt(era, s.Year(), DateOfEra(era, s.Year(), s.doy));
  }

  lemma {:induction false} DateRoundTrip(c: Date)
    requires Ok(c)
    ensures FromDays(ToDays(c)) == c
  {
    var y := c.year - (if c.month <= 2 then 1 else 0);
    var era, yoe := y / 400, y % 400;
    MonthOfMarchDay(c, era, yoe);
    var s := ValidSplitOfYear(yoe, MarchDay(c.month, c.day));
    ToDaysAt(era, yoe, c);
    FromDaysAt(era, s);
  }

  // ---- Whole years ----

  lemma EraDaysStep(yoe: int)
    requires 0 <= yoe < 399
    ensures EraDays(yoe + 1) == EraDays(yoe) + 365 + (if LongYear(yoe) then 1 else 0)
  {
    assert (yoe + 1) / 4 == yoe / 4 + (if yoe % 4 == 3 then 1 else 0);
    assert (yoe + 1) / 100 == yoe / 100 + (if yoe % 100 == 99 then 1 else 0);
  }

  lemma YearLength(y: int)
    ensures Jan1(y + 1) - Jan1(y) == if IsLeap(y) then 366 else 365
  {
    hide ToDays, DayOfEra, LongYear, IsLeap;
    var era, yoe := (y - 1) / 400, (y - 1) % 400;
    LongYearIsLeap(era, yoe);
    ToDaysAt(era, yoe, Date(y, 1, 1));
    MarchYearStep(era, yoe);
    DayOfEraSteps(era, yoe, 0, 306);
    if yoe < 399 {
      ToDaysAt(era, yoe + 1, Date(y + 1, 1, 1));
      DayOfEraSteps(era, yoe + 1, 0, 306);
    } else {
      ToDaysAt(era + 1, 0, Date(y + 1, 1, 1));
      DayOfEraSteps(era + 1, 0, 0, 306);
    }
  }

  /** A date lies between its own 1 January and the next. */
  lemma DateInYear(c: Date)
    requires Ok(c)
    ensures Jan1(c.year) <= ToDays(c) < Jan1(c.year + 1)
  {
    var y := c.year;
    if c.month <= 2 {
      var era, yoe := (y - 1) / 400, (y - 1) % 400;
      ToDaysAt(era, yoe, c);
      ToDaysAt(era, yoe, Date(y, 1, 1));
      YearLength(y);
    } else {
      var era, yoe := y / 400, y % 400;
      ToDaysAt(era, yoe, c);
      ToDaysAt(era, yoe, Date(y + 1, 1, 1));
      YearLength(y);
    }
  }

  lemma {:induction false} Jan1Spacing(y: int, z: int)
    requires y <= z
    ensures Jan1(y) + 365 * (z - y) <= Jan1(z) <= Jan1(y) + 366 * (z - y)
    decreases z - y
  {
    if y < z {
      Jan1Spacing(y, z - 1);
      YearLength(z - 1);
    }
  }

  /** The year of a day is the one whose 1 January it follows most closely. */
  lemma YearOfDay(dp: int, y: int)
    ensures YearOf(dp) == y <==> Jan1(y) <= dp < Jan1(y + 1)
  {
    hide *;
    assert Jan1(YearOf(dp)) <= dp < Jan1(YearOf(dp) + 1) by {
      DayInItsYear(dp);
    }
    var y1 := YearOf(dp);
    if y1 < y {
      Jan1Spacing(y1 + 1, y);
    } else if y < y1 {
      Jan1Spacing(y + 1, y1);
    }
  }

  lemma DayInItsYear(dp: int)
    ensures Jan1(YearOf(dp)) <= dp < Jan1(YearOf(dp) + 1)
  {
    hide FromDays, ToDays, Ok;
    DaysRoundTrip(dp);
    DateInYear(FromDays(dp));
  }

  /** Day counts follow the order of dates. */
  lemma DateOrder(a: Date, b: Date)
    requires Ok(a) && Ok(b)
    ensures Before(a, b) <==> ToDays(a) < ToDays(b)
  {
    hide ToDays, Ok;
    if Before(a, b) {
      BeforeIsEarlier(a, b);
    } else if Before(b, a) {
      BeforeIsEarlier(b, a);
    }
  }

  lemma BeforeIsEarlier(a: Date, b: Date)
    requires Ok(a) && Ok(b)
    requires Before(a, b)
    ensures ToDays(a) < ToDays(b)
  {
    hide *;
    if a.year == b.year {
      DateOrderInYear(a, b);
    } else {
      DateInYear(a);
      DateInYear(b);
      assert a.year < b.year by { BeforeYears(a, b); }
      Jan1Spacing(a.year + 1, b.year);
    }
  }

  lemma BeforeYears(a: Date, b: Date)
    requires Before(a, b)
    ensures a.year <= b.year
  {
  }

  // ---- Months ----

  function MonthStart(y: int, m: int): int {
    ToDays(Date(y, m, 1))
  }

  lemma DayOfEraSteps(era: int, yoe: int, a: int, b: int)
    ensures DayOfEra(era, yoe, b) - DayOfEra(era, yoe, a) == b - a
  {
    hide EraDays;
  }

  lemma MarchDaySteps(y: int, m: int, d: int)
    requires 1 <= m <= 12
    ensures MarchDay(m, d) == MarchDay(m, 1) + d - 1
    ensures m != 2 && m < 12 ==> MarchDay(m + 1, 1) == MarchDay(m, 1) + LastDay(y, m)
    ensures m == 12 ==> MarchDay(1, 1) == MarchDay(m, 1) + LastDay(y, m)
  {
    hide IsLeap;
  }

  /** Days of a month are consecutive, and the next month follows its last day. */
  lemma MonthDays(y: int, m: int, d: int)
    requires 1 <= m <= 12
    ensures ToDays(Date(y, m, d)) == MonthStart(y, m) + d - 1
    ensures m < 12 ==> MonthStart(y, m + 1) == MonthStart(y, m) + LastDay(y, m)
    ensures m == 12 ==> Jan1(y + 1) == MonthStart(y, m) + LastDay(y, m)
  {
    hide ToDays, DayOfEra, MarchDay, LastDay;
    var y1 := y - (if m <= 2 then 1 else 0);
    var era, yoe := y1 / 400, y1 % 400;
    MarchDaySteps(y, m, d);
    ToDaysAt(era, yoe, Date(y, m, d));
    ToDaysAt(era, yoe, Date(y, m, 1));
    DayOfEraSteps(era, yoe, MarchDay(m, 1), MarchDay(m, d));
    if m == 2 {
      FebruaryEnd(y);
    } else {
      var next := if m < 12 then Date(y, m + 1, 1) else Date(y + 1, 1, 1);
      ToDaysAt(era, yoe, next);
      DayOfEraSteps(era, yoe, MarchDay(m, 1), MarchDay(next.month, 1));
    }
  }

  /** The era days before a March-year, stepped over the February that ends it. */
  lemma MarchYearStep(era: int, yoe: int)
    requires 0 <= yoe < 400
    ensures var len := 365 + (if LongYear(yoe) then 1 else 0);
      if yoe < 399 then DayOfEra(era, yoe + 1, 0) == DayOfEra(era, yoe, 0) + len
      else DayOfEra(era + 1, 0, 0) == DayOfEra(era, yoe, 0) + len
  {
    if yoe < 399 {
      EraDaysStep(yoe);
    }
  }

  lemma FebruaryEnd(y: int)
    ensures MonthStart(y, 3) == MonthStart(y, 2) + LastDay(y, 2)
  {
    hide ToDays, DayOfEra, LongYear, IsLeap;
    var era, yoe := (y - 1) / 400, (y - 1) % 400;
    LongYearIsLeap(era, yoe);
    ToDaysAt(era, yoe, Date(y, 2, 1));
    DayOfEraSteps(era, yoe, 0, 337);
    MarchYearStep(era, yoe);
    if yoe < 399 {
      ToDaysAt(era, yoe + 1, Date(y, 3, 1));
    } else {
      ToDaysAt(era + 1, 0, Date(y, 3, 1));
    }
  }

  lemma {:induction false} MonthOrder(y: int, m: int, n: int)
    requires 1 <= m < n <= 12
    ensures MonthStart(y, m) + LastDay(y, m) <= MonthStart(y, n)
    decreases n - m
  {
    hide MonthStart, IsLeap;
    MonthDays(y, m, 1);
    if m + 1 < n {
      MonthOrder(y, m + 1, n);
    }
  }

  lemma DateOrderInYear(a: Date, b: Date)
    requires Ok(a) && Ok(b) && a.year == b.year
    requires Before(a, b)
    ensures ToDays(a) < ToDays(b)
  {
    MonthDays(a.year, a.month, a.day);
    MonthDays(b.year, b.month, b.day);
    if a.month < b.month {
      MonthOrder(a.year, a.month, b.month);
    }
  }

  // ---- Weekdays, 0 for Sunday ----

  /** date.h computes weekdays in `unsigned` arithmetic; 2^32 is 4 modulo 7. */
  function WeekdayFromDays(z: int): int {
    var u := Unsigned(z);
    if z >= -4 then Unsigned(u + 4) % 7 else u % 7
  }

  function Weekday(dp: int): (wd: int)
    ensures 0 <= wd < 7
  {
    (dp + 4) % 7
  }

  lemma WeekdayFromDaysFloors(z: int)
    requires -0x8000_0000 <= z < 0x8000_0000
    ensures WeekdayFromDays(z) == Weekday(z)
  {
    if z < -4 {
      assert Unsigned(z) == z + 4 + 7 * 613566756;
    }
  }

  /** Days forward from weekday `y` to weekday `x`. */
  function WeekdayDiff(x: int, y: int): int {
    var wdu := x - y;
    var wk := Quot(if wdu >= 0 then wdu else wdu - 6, 7);
    wdu - wk * 7
  }

  lemma WeekdayDiffMod(x: int, y: int)
    requires 0 <= x < 7 && 0 <= y < 7
    ensures WeekdayDiff(x, y) == (x - y) % 7 == if x >= y then x - y else x - y + 7
  {
  }

  /** The `n`-th given weekday of a month, counting from its first day. */
  function NthWeekday(y: int, m: int, wd: int, n: int): int {
    var d := MonthStart(y, m);
    d + WeekdayDiff(wd, Weekday(d)) + (n - 1) * 7
  }

  function LastWeekday(y: int, m: int, wd: int): int
    requires 1 <= m <= 12
  {
    var d := ToDays(Date(y, m, LastDay(y, m)));
    d - WeekdayDiff(Weekday(d), wd)
  }

  lemma NthWeekdayInMonth(y: int, m: int, wd: int, n: int)
    requires 1 <= m <= 12 && 0 <= wd < 7 && 1 <= n
    ensures var d := NthWeekday(y, m, wd, n);
      Weekday(d) == wd && MonthStart(y, m) + 7 * (n - 1) <= d < MonthStart(y, m) + 7 * n
  {
    var d := MonthStart(y, m);
    WeekdayDiffMod(wd, Weekday(d));
    WeekdayStep(d, (wd - Weekday(d)) % 7, n - 1);
  }

  lemma WeekdayStep(d: int, k: int, n: int)
    requires 0 <= k < 7
    ensures Weekday(d + k + n * 7) == if Weekday(d) + k < 7 then Weekday(d) + k else Weekday(d) + k - 7
  {
  }

  /** The last given weekday of a month is the only one among the month's final seven days. */
  lemma LastWeekdayInMonth(y: int, m: int, wd: int)
    requires 1 <= m <= 12 && 0 <= wd < 7
    ensures var d := LastWeekday(y, m, wd);
      && Weekday(d) == wd
      && MonthStart(y, m) + LastDay(y, m) - 7 <= d < MonthStart(y, m) + LastDay(y, m)
  {
    var last := ToDays(Date(y, m, LastDay(y, m)));
    MonthDays(y, m, LastDay(y, m));
    WeekdayDiffMod(Weekday(last), wd);
    WeekdayStep(LastWeekday(y, m, wd), (Weekday(last) - wd) % 7, 0);
  }
}
