/**
 The lookups of Posix::time_zone (ptz.h) for a zone with rules, over its schedule: the instants at
 which daylight saving starts and ends in each year. All instants are whole seconds.
 */
module ZoneSchedule {
  import opened CppArithmetic

  datatype SysInfo = SysInfo(begin: int, end: int, offset: int, save: int, abbrev: string)

  datatype LocalResult = Unique | Nonexistent | Ambiguous

  datatype LocalInfo = LocalInfo(result: LocalResult, first: SysInfo, second: SysInfo)

  datatype Choose = Earliest | Latest

  /** The result of to_sys, with the two exceptions it throws. */
  datatype SysResult = Instant(t: int) | NonexistentTime(info: LocalInfo) | AmbiguousTime(info: LocalInfo)

  const EMPTY_INFO := SysInfo(0, 0, 0, 0, "")

  datatype Schedule = Schedule(
    newYear: int -> int,    // the first second of a year
    yearOf: int -> int,     // the year of a second
    start: int -> int,      // get_start: the instant daylight saving starts in a year
    end: int -> int,        // get_end
    offset: int, save: int, stdAbbrev: string, dstAbbrev: string)
  {
    /** std::chrono ceil to whole minutes. */
    function SaveMinutes(): int {
      -((-save) / 60)
    }

    function StandardInfo(begin: int, end: int): SysInfo {
      SysInfo(begin, end, offset, 0, stdAbbrev)
    }

    function DaylightInfo(begin: int, end: int): SysInfo {
      SysInfo(begin, end, offset + save, SaveMinutes(), dstAbbrev)
    }

    function SearchYear(st: int): int {
      var y := yearOf(st);
      if st >= start(y + 1) then y + 1 else if st < end(y - 1) then y - 1 else y
    }

    function GetInfo(st: int): SysInfo {
      var y := SearchYear(st);
      if start(y) <= end(y) then
        if start(y) <= st < end(y) then DaylightInfo(start(y), end(y))
        else if st < start(y) then StandardInfo(end(y - 1), start(y))
        else StandardInfo(end(y), start(y + 1))
      else
        if end(y) <= st < start(y) then StandardInfo(end(y), start(y))
        else if st < end(y) then DaylightInfo(start(y - 1), end(y))
        else DaylightInfo(start(y), end(y + 1))
    }

    /** The two clock readings `tp - offset` and `tp - (offset + save)` fall on both sides of `t`. */
    predicate Separates(tp: int, t: int) {
      (tp - offset < t) != (tp - (offset + save) < t)
    }

    function GetLocalInfo(tp: int): LocalInfo {
      var y := yearOf(tp);
      var northern := start(y) <= end(y);
      if Separates(tp, start(y)) then
        LocalInfo(
          if save > 0 then Nonexistent else Ambiguous,
          StandardInfo(if northern then end(y - 1) else end(y), start(y)),
          DaylightInfo(start(y), if northern then end(y) else end(y + 1)))
      else if Separates(tp, end(y)) then
        LocalInfo(
          if save > 0 then Ambiguous else Nonexistent,
          DaylightInfo(if northern then start(y) else start(y - 1), end(y)),
          StandardInfo(end(y), if northern then start(y + 1) else start(y)))
      else
        LocalInfo(Unique, GetInfo(tp - offset), EMPTY_INFO)
    }

    function ToLocal(t: int): int {
      t + GetInfo(t).offset
    }

    function ToSys(tp: int): SysResult {
      var i := GetLocalInfo(tp);
      if i.result == Nonexistent then NonexistentTime(i)
      else if i.result == Ambiguous then AmbiguousTime(i)
      else Instant(tp - i.first.offset)
    }

    function ToSysChoose(tp: int, z: Choose): int {
      var i := GetLocalInfo(tp);
      if i.result == Nonexistent then i.first.end
      else if i.result == Ambiguous && z == Latest then tp - i.second.offset
      else tp - i.first.offset
    }

    // ---- What a schedule means ----

    ghost predicate IsTransition(t: int) {
      exists y :: t == start(y) || t == end(y)
    }

    /** Daylight saving is on at `t`: it has started and has not ended since. */
    ghost predicate DaylightAt(t: int) {
      exists y :: start(y) <= t && forall k :: end(k) <= t ==> end(k) < start(y)
    }

    ghost function OffsetAt(t: int): int {
      if DaylightAt(t) then offset + save else offset
    }

    /** `i` is the stretch between consecutive transitions around `t`, with the rule in force there. */
    ghost predicate Describes(i: SysInfo, t: int) {
      && i.begin <= t < i.end
      && IsTransition(i.begin) && IsTransition(i.end)
      && (forall y :: !(i.begin < start(y) < i.end) && !(i.begin < end(y) < i.end))
      && i == if DaylightAt(t) then DaylightInfo(i.begin, i.end) else StandardInfo(i.begin, i.end)
    }

    // ---- Requirements on a schedule ----

    ghost predicate YearsCover() {
      forall t {:trigger yearOf(t)} :: newYear(yearOf(t)) <= t < newYear(yearOf(t) + 1)
    }

    ghost predicate YearsFollow() {
      forall y, z {:trigger newYear(y), newYear(z)} :: y < z ==> newYear(y) + 365 * 86400 <= newYear(z)
    }

    predicate NearYear(y: int) {
      && newYear(y) - 4 * 86400 <= start(y) <= newYear(y + 1) + 4 * 86400
      && newYear(y) - 4 * 86400 <= end(y) <= newYear(y + 1) + 4 * 86400
    }

    /** Years follow one another, and transitions stay within a few days of their year. */
    ghost predicate Calendar() {
      YearsCover() && YearsFollow() && forall y :: NearYear(y)
    }

    ghost predicate NorthernYear(y: int) {
      start(y) < end(y) < start(y + 1)
    }

    ghost predicate SouthernYear(y: int) {
      end(y) < start(y) < end(y + 1)
    }

    ghost predicate Northern() {
      forall y :: NorthernYear(y)
    }

    ghost predicate Southern() {
      forall y :: SouthernYear(y)
    }

    /** Starts and ends alternate over the years. */
    ghost predicate Alternating() {
      Northern() || Southern()
    }

    /** The transitions of a southern year stay in that year. */
    predicate InYear(y: int) {
      newYear(y) <= end(y) && start(y) <= newYear(y + 1)
    }

    ghost predicate SpillFree() {
      Northern() || forall y :: InYear(y)
    }

    /** A start and an end are never closer than the size of the clock change. */
    ghost predicate Spaced() {
      forall y, k {:trigger start(y), end(k)} :: Abs(start(y) - end(k)) >= Abs(save)
    }

    /** The local times skipped or repeated at `t` all lie in year `y`. */
    predicate WindowInYear(y: int, t: int) {
      save == 0 || (newYear(y) <= t + offset + Min(0, save) && t + offset + Max(0, save) <= newYear(y + 1))
    }

    predicate WindowsInYear(y: int) {
      WindowInYear(y, start(y)) && WindowInYear(y, end(y))
    }

    ghost predicate WellFormed() {
      Calendar() && Alternating() && SpillFree() && Spaced() && forall y :: WindowsInYear(y)
    }
  }

  // ---- Order of transitions ----

  /** The transitions of an alternating schedule in order: by year, and within a year by hemisphere. */
  ghost predicate Ordered(s: Schedule) {
    && (forall a, b {:trigger s.start(a), s.start(b)} :: s.start(a) < s.start(b) <==> a < b)
    && (forall a, b {:trigger s.end(a), s.end(b)} :: s.end(a) < s.end(b) <==> a < b)
    && (forall a, b {:trigger s.start(a), s.end(b)} ::
          && (s.start(a) < s.end(b) <==> if s.Northern() then a <= b else a < b)
          && s.start(a) != s.end(b))
  }

  lemma {:induction false} StartsIncrease(s: Schedule, a: int, b: int)
    requires s.Alternating() && a < b
    ensures s.start(a) < s.start(b) && s.end(a) < s.end(b)
    ensures s.end(a) < s.start(b) && s.start(a) < s.end(b)
    decreases b - a
  {
    var c := b - 1;
    if s.Northern() {
      assert s.NorthernYear(c) && s.NorthernYear(b);
    } else {
      assert s.SouthernYear(c) && s.SouthernYear(b);
    }
    if a < c {
      StartsIncrease(s, a, c);
    }
  }

  lemma OrderedPair(s: Schedule, a: int, b: int)
    requires s.Alternating()
    ensures s.start(a) < s.start(b) <==> a < b
    ensures s.end(a) < s.end(b) <==> a < b
    ensures s.start(a) < s.end(b) <==> if s.Northern() then a <= b else a < b
    ensures s.start(a) != s.end(b)
  {
    assert if s.Northern() then s.NorthernYear(a) else s.SouthernYear(a);
    if a < b {
      StartsIncrease(s, a, b);
    } else if b < a {
      StartsIncrease(s, b, a);
    }
  }

  lemma AlternatingIsOrdered(s: Schedule)
    requires s.Alternating()
    ensures Ordered(s)
  {
    forall a, b
      ensures s.start(a) < s.start(b) <==> a < b
      ensures s.end(a) < s.end(b) <==> a < b
      ensures s.start(a) < s.end(b) <==> if s.Northern() then a <= b else a < b
      ensures s.start(a) != s.end(b)
    {
      OrderedPair(s, a, b);
    }
  }

  // ---- Stretches between consecutive transitions ----

  /** The end of the daylight period that starts in year `y`. */
  ghost function EndAfter(s: Schedule, y: int): int {
    if s.Northern() then s.end(y) else s.end(y + 1)
  }

  /** The start of the daylight period after the standard period that begins in year `y`. */
  ghost function StartAfter(s: Schedule, y: int): int {
    if s.Northern() then s.start(y + 1) else s.start(y)
  }

  lemma DaylightStretch(s: Schedule, y: int, t: int)
    requires Ordered(s)
    requires s.start(y) <= t < EndAfter(s, y)
    ensures s.DaylightAt(t)
    ensures s.Describes(s.DaylightInfo(s.start(y), EndAfter(s, y)), t)
  {
    forall k | s.end(k) <= t
      ensures s.end(k) < s.start(y)
    {
      assert s.start(y) < s.end(k) <==> if s.Northern() then y <= k else y < k;
    }
  }

  lemma StandardStretch(s: Schedule, y: int, t: int)
    requires Ordered(s)
    requires s.end(y) <= t < StartAfter(s, y)
    ensures !s.DaylightAt(t)
    ensures s.Describes(s.StandardInfo(s.end(y), StartAfter(s, y)), t)
  {
    forall z | s.start(z) <= t
      ensures s.start(z) < s.end(y)
    {
      assert s.start(z) < StartAfter(s, y);
    }
  }

  // ---- Instants ----

  /** The years two away from an instant's year have no transition on its side. */
  lemma FarYears(s: Schedule, t: int)
    requires s.Calendar()
    ensures var y := s.yearOf(t); s.end(y - 2) < t < s.start(y + 2) && s.start(y - 2) < t < s.end(y + 2)
  {
    hide Ordered;
    var y := s.yearOf(t);
    assert s.newYear(y - 1) + 365 * 86400 <= s.newYear(y) <= t;
    assert t < s.newYear(y + 1) && s.newYear(y + 1) + 365 * 86400 <= s.newYear(y + 2);
    YearBounds(s, y - 2);
    YearBounds(s, y + 2);
  }

  lemma YearBounds(s: Schedule, y: int)
    requires s.Calendar()
    ensures s.NearYear(y)
  {
  }

  /** In the southern hemisphere, the standard period of a neighbouring year reaches into the year of `t`. */
  predicate Spilled(s: Schedule, t: int) {
    var y := s.yearOf(t);
    s.end(y) < s.start(y) && (s.end(y - 1) <= t < s.start(y - 1) || s.end(y + 1) <= t < s.start(y + 1))
  }

  /**
   The lookup of an instant finds the stretch around it, except exactly where a southern standard
   period spills into the neighbouring calendar year.
   */
  lemma InfoIsExact(s: Schedule, t: int)
    requires s.Calendar() && s.Alternating()
    ensures s.Describes(s.GetInfo(t), t) <==> !Spilled(s, t)
  {
    AlternatingIsOrdered(s);
    FarYears(s, t);
    if s.Northern() {
      NorthernAt(s, s.yearOf(t));
      NorthernInfo(s, t);
    } else {
      SouthernInfo(s, t);
    }
  }

  lemma NorthernAt(s: Schedule, y: int)
    requires s.Northern()
    ensures s.NorthernYear(y)
  {
  }

  /** The single correction of the year reaches the year whose transitions enclose the instant. */
  lemma NorthernSearch(s: Schedule, t: int)
    requires s.Northern()
    requires var y := s.yearOf(t); s.end(y - 2) < t < s.start(y + 2)
    ensures var y := s.SearchYear(t); s.end(y - 1) <= t < s.start(y + 1)
  {
    var y := s.yearOf(t);
    assert s.NorthernYear(y) && s.NorthernYear(y - 1);
  }

  lemma NorthernStretches(s: Schedule, y: int, t: int)
    requires Ordered(s) && s.Northern()
    ensures s.start(y) <= t < s.end(y) ==> s.Describes(s.DaylightInfo(s.start(y), s.end(y)), t)
    ensures s.end(y - 1) <= t < s.start(y) ==> s.Describes(s.StandardInfo(s.end(y - 1), s.start(y)), t)
    ensures s.end(y) <= t < s.start(y + 1) ==> s.Describes(s.StandardInfo(s.end(y), s.start(y + 1)), t)
  {
    hide Ordered, Schedule.Describes, Schedule.Northern;
    if s.start(y) <= t < s.end(y) {
      DaylightStretch(s, y, t);
    }
    if s.end(y - 1) <= t < s.start(y) {
      StandardStretch(s, y - 1, t);
    }
    if s.end(y) <= t < s.start(y + 1) {
      StandardStretch(s, y, t);
    }
  }

  lemma NorthernInfo(s: Schedule, t: int)
    requires Ordered(s) && s.Northern()
    requires var y := s.yearOf(t); s.end(y - 2) < t < s.start(y + 2)
    ensures s.Describes(s.GetInfo(t), t)
  {
    hide Ordered, Schedule.Describes, Schedule.SearchYear, Schedule.Northern;
    NorthernSearch(s, t);
    var y := s.SearchYear(t);
    NorthernAt(s, y);
    NorthernStretches(s, y, t);
  }

  lemma SouthernInfo(s: Schedule, t: int)
    requires Ordered(s) && s.Southern() && !s.Northern()
    requires var y := s.yearOf(t); s.start(y - 2) < t < s.end(y + 2)
    ensures s.Describes(s.GetInfo(t), t) <==> !Spilled(s, t)
  {
    hide Ordered, Schedule.Describes;
    var y := s.SearchYear(t);
    assert s.SouthernYear(y);
    assert s.SouthernYear(s.yearOf(t) - 1) && s.SouthernYear(s.yearOf(t)) && s.SouthernYear(s.yearOf(t) + 1);
    if s.end(y) <= t < s.start(y) {
      StandardStretch(s, y, t);
    } else if t < s.end(y) {
      if s.start(y - 1) <= t {
        DaylightStretch(s, y - 1, t);
      } else {
        NotInside(s, s.GetInfo(t), t);
      }
    } else if t < s.end(y + 1) {
      DaylightStretch(s, y, t);
    } else {
      NotInside(s, s.GetInfo(t), t);
    }
  }

  lemma NotInside(s: Schedule, i: SysInfo, t: int)
    requires !(i.begin <= t < i.end)
    ensures !s.Describes(i, t)
  {
  }

  /** Every lookup of an instant is right exactly when no southern transition leaves its year. */
  lemma SpillFreeIsExact(s: Schedule)
    requires s.Calendar() && s.Alternating()
    ensures (forall t :: s.Describes(s.GetInfo(t), t)) <==> s.SpillFree()
  {
    hide Schedule.Calendar, Schedule.Describes, Schedule.GetInfo, Schedule.NorthernYear, Schedule.SouthernYear,
      Schedule.InYear, Spilled;
    if s.SpillFree() {
      forall t
        ensures s.Describes(s.GetInfo(t), t)
      {
        NoSpill(s, t);
        InfoIsExact(s, t);
      }
    } else {
      var y :| !s.InYear(y);
      var t := SpillWitness(s, y);
      InfoIsExact(s, t);
      assert !s.Describes(s.GetInfo(t), t);
    }
  }

  lemma NewYears(s: Schedule, y: int, z: int)
    requires s.Calendar() && y < z
    ensures s.newYear(y) + 365 * 86400 <= s.newYear(z)
  {
  }

  lemma InItsYear(s: Schedule, t: int)
    requires s.Calendar()
    ensures s.newYear(s.yearOf(t)) <= t < s.newYear(s.yearOf(t) + 1)
  {
  }

  lemma YearOfUnique(s: Schedule, t: int, y: int)
    requires s.Calendar()
    requires s.newYear(y) <= t < s.newYear(y + 1)
    ensures s.yearOf(t) == y
  {
    hide Schedule.Calendar;
    var z := s.yearOf(t);
    InItsYear(s, t);
    if z + 1 < y {
      NewYears(s, z + 1, y);
    } else if y + 1 < z {
      NewYears(s, y + 1, z);
    }
  }

  lemma NoSpill(s: Schedule, t: int)
    requires s.Calendar() && s.Alternating() && s.SpillFree()
    ensures !Spilled(s, t)
  {
    hide Schedule.Calendar;
    var y := s.yearOf(t);
    InItsYear(s, t);
    if s.Northern() {
      assert s.NorthernYear(y);
    } else {
      assert s.InYear(y - 1) && s.InYear(y + 1);
    }
  }

  lemma SpillWitness(s: Schedule, y: int) returns (t: int)
    requires s.Calendar() && s.Southern()
    requires !s.InYear(y)
    ensures Spilled(s, t)
  {
    hide Schedule.Calendar;
    YearBounds(s, y);
    assert s.SouthernYear(y - 1) && s.SouthernYear(y) && s.SouthernYear(y + 1);
    if s.end(y) < s.newYear(y) {
      t := Min(s.newYear(y), s.start(y)) - 1;
      NewYears(s, y - 1, y);
      YearOfUnique(s, t, y - 1);
    } else {
      t := Max(s.newYear(y + 1), s.end(y));
      NewYears(s, y + 1, y + 2);
      YearOfUnique(s, t, y + 1);
    }
  }

  /** No transition lies after `t` and up to `u`. */
  ghost predicate Quiet(s: Schedule, t: int, u: int) {
    forall y {:trigger s.start(y)} {:trigger s.end(y)} :: !(t < s.start(y) <= u) && !(t < s.end(y) <= u)
  }

  /** Two instants share their stretch exactly when no transition separates them. */
  lemma SameInfo(s: Schedule, t: int, u: int)
    requires s.Calendar() && s.Alternating() && t <= u
    requires !Spilled(s, t) && !Spilled(s, u)
    ensures s.GetInfo(t) == s.GetInfo(u) <==> Quiet(s, t, u)
  {
    hide Schedule.Calendar, Schedule.Alternating, Schedule.GetInfo, Spilled, Quiet, Schedule.Describes;
    InfoIsExact(s, t);
    InfoIsExact(s, u);
    var i, j := s.GetInfo(t), s.GetInfo(u);
    if i == j {
      QuietInside(s, i, t, u);
    } else if Quiet(s, t, u) {
      SameStretch(s, i, j, t, u);
    }
  }

  lemma QuietInside(s: Schedule, i: SysInfo, t: int, u: int)
    requires s.Describes(i, t) && s.Describes(i, u)
    ensures Quiet(s, t, u)
  {
  }

  lemma SameDaylight(s: Schedule, t: int, u: int)
    requires t <= u && Quiet(s, t, u)
    ensures s.DaylightAt(t) <==> s.DaylightAt(u)
  {
  }

  lemma SameStretch(s: Schedule, i: SysInfo, j: SysInfo, t: int, u: int)
    requires t <= u && Quiet(s, t, u)
    requires s.Describes(i, t) && s.Describes(j, u)
    ensures i == j
  {
    SameDaylight(s, t, u);
    hide Schedule.DaylightAt;
  }

  /** The stretch after the one around `t` begins where that one ends. */
  lemma NextInfo(s: Schedule, t: int)
    requires s.Calendar() && s.Alternating() && s.SpillFree()
    ensures var e := s.GetInfo(t).end; t < e && s.GetInfo(e).begin == e
  {
    hide Schedule.Calendar, Schedule.Alternating, Schedule.GetInfo, Spilled;
    var e := s.GetInfo(t).end;
    NoSpill(s, t);
    InfoIsExact(s, t);
    NoSpill(s, e);
    InfoIsExact(s, e);
  }
}
