/** One day in each calendar: what the round trips leave open is where the count of days begins. */
module CalendarEpochs {
  import G = Gregorian
  import I = Islamic
  import W = IsoWeek

  /** Day 0 is 1 January 1970, a Thursday. */
  lemma UnixEpoch()
    ensures G.FromDays(0) == G.Date(1970, 1, 1) && G.ToDays(G.Date(1970, 1, 1)) == 0 && G.Weekday(0) == 4
  {
    DaysSinceEpoch();
    G.DateRoundTrip(G.Date(1970, 1, 1));
    hide *;
    assert G.Weekday(0) == 4 by { ThursdayFirst(); }
  }

  lemma DaysSinceEpoch()
    ensures G.ToDays(G.Date(1970, 1, 1)) == 0
  {
  }

  lemma ThursdayFirst()
    ensures G.Weekday(0) == 4
  {
  }

  /** The Islamic calendar begins on 19 July 622 of the Gregorian one. */
  lemma IslamicEpoch()
    ensures I.ToDays(I.Date(1, 1, 1)) == -492148 == G.ToDays(G.Date(622, 7, 19))
    ensures I.FromDays(-492148) == I.Date(1, 1, 1)
  {
    FirstIslamicDay();
    GregorianDay();
    I.DateRoundTrip(I.Date(1, 1, 1));
    hide *;
  }

  lemma FirstIslamicDay()
    ensures I.ToDays(I.Date(1, 1, 1)) == -492148 && I.Ok(I.Date(1, 1, 1))
  {
  }

  lemma GregorianDay()
    ensures G.ToDays(G.Date(622, 7, 19)) == -492148
  {
  }

  /** Day 0 is the fourth day of the first week of 1970. */
  lemma WeekEpoch()
    ensures W.FromDays(0) == W.WeekDate(1970, 1, 4) && W.ToDays(W.WeekDate(1970, 1, 4)) == 0
  {
    WeekYearStarts();
    W.ToDaysFromStart(W.WeekDate(1970, 1, 4));
    W.WeekDateRoundTrip(W.WeekDate(1970, 1, 4));
    hide W.YearStart, W.IsLeap, W.ToDays, W.FromDays;
  }

  lemma WeekYearStarts()
    ensures W.YearStart(1970) == -3
  {
  }
}
