/** Weekday arithmetic that iso_week.h and islamic.h have in common. */
module Weekdays {
  import opened CppArithmetic

  /** weekday_from_days with a signed remainder: 0 for Sunday. */
  function SundayBased(z: int): int {
    if z >= -4 then Rem(z + 4, 7) else Rem(z + 5, 7) + 6
  }

  /** Weekdays repeat every seven days, also before the epoch. */
  lemma SundayBasedFloors(z: int)
    ensures SundayBased(z) == (z + 4) % 7
  {
    if z < -4 {
      var q, r := (-(z + 5)) / 7, (-(z + 5)) % 7;
      assert Rem(z + 5, 7) == -r;
      assert z + 4 == 7 * (-q - 1) + (6 - r);
    }
  }

  /** Days forward from weekday `y` to weekday `x`; the difference is taken in `unsigned`. */
  function WeekdayMinus(x: int, y: int): int {
    var diff := Unsigned(x - y);
    if diff <= 6 then diff else Unsigned(diff + 7)
  }

  lemma WeekdayMinusMod(x: int, y: int)
    requires -6 <= x - y <= 6
    ensures WeekdayMinus(x, y) == (x - y) % 7 == if x >= y then x - y else x - y + 7
  {
  }
}
