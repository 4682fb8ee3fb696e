/**
 The language of the constructor of Posix::time_zone (ptz.h): which strings denote which zone, said by what stands
 where in the string, and the proof that the readers accept exactly these strings.
 */
module PosixGrammar {
  import opened Decimals
  import opened Sequences
  import opened PosixZone
  import opened PosixText

  // ---- Numbers and times ----

  /** As many digits as there are from `i` on, but at most `limit`, end at `j` and denote `n`. */
  predicate Numeral(s: string, i: nat, j: nat, limit: nat, n: int) {
    && i < j <= |s| && j - i <= limit && AllDigits(s[i..j]) && NumberOf(s[i..j]) == n
    && (j - i == limit || !Digit(s, j))
  }

  /** A colon, and one or two digits that denote at most 59. */
  predicate SixtiethAt(s: string, i: nat, j: nat, x: int) {
    Char(s, i, ':') && x <= 59 && Numeral(s, i + 1, j, 2, x)
  }

  predicate SecondsAt(s: string, i: nat, j: nat, x: int) {
    if Char(s, i, ':') then SixtiethAt(s, i, j, x) else i == j && x == 0
  }

  ghost predicate MinutesAt(s: string, i: nat, j: nat, x: int) {
    if Char(s, i, ':') then exists k: nat, m: int :: SixtiethAt(s, i, k, m) && SecondsAt(s, k, j, x - 60 * m)
    else i == j && x == 0
  }

  /** Hours, with minutes and seconds if colons say so. */
  ghost predicate TimeAt(s: string, i: nat, j: nat, t: int) {
    exists k: nat, h: int :: h <= 24 && Numeral(s, i, k, 2, h) && MinutesAt(s, k, j, t - 3600 * h)
  }

  /** A time with a sign or without one: a plus changes nothing, a minus negates. */
  ghost predicate SignedAt(s: string, i: nat, j: nat, t: int) {
    if Char(s, i, '-') then TimeAt(s, i + 1, j, -t)
    else if Char(s, i, '+') then TimeAt(s, i + 1, j, t)
    else TimeAt(s, i, j, t)
  }

  lemma NumberOfMore(s: string, a: nat, i: nat)
    requires a <= i < |s| && AllDigits(s[a..i]) && IsDigit(s[i])
    ensures AllDigits(s[a..i + 1]) && NumberOf(s[a..i + 1]) == NumberOf(s[a..i]) * 10 + DigitValue(s[i])
  {
    var t := s[a..i + 1];
    assert t[..|t| - 1] == s[a..i] && t[|t| - 1] == s[i];
  }

  lemma {:induction false} DigitsAre(s: string, a: nat, i: nat, limit: nat, count: nat, u: nat)
    requires a < i <= |s| && count == i - a <= limit && AllDigits(s[a..i]) && u == NumberOf(s[a..i])
    ensures var (n, j) := ReadDigits(s, i, limit, count, u); Numeral(s, a, j, limit, n)
    decreases |s| - i
  {
    if count < limit && Digit(s, i) {
      NumberOfMore(s, a, i);
      DigitsAre(s, a, i + 1, limit, count + 1, u * 10 + DigitValue(s[i]));
    }
    hide NumberOf;
  }

  lemma FirstDigitIs(s: string, i: nat)
    requires Digit(s, i)
    ensures AllDigits(s[i..i + 1]) && NumberOf(s[i..i + 1]) == DigitValue(s[i])
  {
    assert s[i..i] == "";
    NumberOfMore(s, i, i);
  }

  lemma NumeralOnce(s: string, i: nat, j: nat, limit: nat, n: int, k: nat, m: int)
    requires Numeral(s, i, j, limit, n) && Numeral(s, i, k, limit, m)
    ensures j == k && n == m
  {
    DigitInside(s, i, k, j);
    DigitInside(s, i, j, k);
    hide NumberOf, AllDigits;
  }

  lemma DigitInside(s: string, i: nat, k: nat, j: nat)
    requires i <= k <= |s| && AllDigits(s[i..k]) && i <= j
    ensures j < k ==> Digit(s, j)
  {
    if j < k {
      assert s[i..k][j - i] == s[j];
    }
  }

  lemma NumeralReads(s: string, i: nat, j: nat, limit: nat, n: nat, reason: Reason)
    requires i <= |s| && limit >= 1
    ensures ReadUnsigned(s, i, limit, reason) == Good((n, j)) <==> Numeral(s, i, j, limit, n)
  {
    if Digit(s, i) {
      FirstDigitIs(s, i);
      DigitsAre(s, i, i + 1, limit, 1, DigitValue(s[i]));
      var (m, k) := ReadDigits(s, i + 1, limit, 1, DigitValue(s[i]));
      if Numeral(s, i, j, limit, n) {
        NumeralOnce(s, i, j, limit, n, k, m);
      }
    } else if i < j <= |s| {
      assert s[i..j][0] == s[i];
    }
    hide NumberOf, ReadDigits;
  }

  lemma SecondsRead(s: string, i: nat, j: nat, t: nat, x: int)
    requires i <= |s|
    ensures ReadSeconds(s, i, t) == Good((t + x, j)) && x >= 0 <==> SecondsAt(s, i, j, x)
  {
    if Char(s, i, ':') && x >= 0 {
      NumeralReads(s, i + 1, j, 2, x, SecondsExpected);
    }
    hide ReadUnsigned, NumberOf;
  }

  lemma MinutesRead(s: string, i: nat, j: nat, t: nat, x: int)
    requires i <= |s|
    ensures ReadMinutes(s, i, t) == Good((t + x, j)) && x >= 0 <==> MinutesAt(s, i, j, x)
  {
    hide ReadUnsigned, Numeral, ReadSeconds, SecondsAt;
    if Char(s, i, ':') {
      var r := ReadUnsigned(s, i + 1, 2, MinutesExpected);
      if ReadMinutes(s, i, t) == Good((t + x, j)) {
        var (m, k) := r.value;
        NumeralReads(s, i + 1, k, 2, m, MinutesExpected);
        SecondsRead(s, k, j, t + m * 60, x - 60 * m);
        assert SixtiethAt(s, i, k, m);
      }
      if MinutesAt(s, i, j, x) {
        var k: nat, m: int :| SixtiethAt(s, i, k, m) && SecondsAt(s, k, j, x - 60 * m);
        NumeralSpan(s, i + 1, k, 2, m);
        NumeralReads(s, i + 1, k, 2, m, MinutesExpected);
        SecondsRead(s, k, j, t + m * 60, x - 60 * m);
      }
    }
  }

  lemma NumeralSpan(s: string, i: nat, j: nat, limit: nat, n: int)
    requires Numeral(s, i, j, limit, n)
    ensures i < j <= |s| && n >= 0
  {
    hide NumberOf;
  }

  lemma TimeReads(s: string, i: nat, j: nat, t: int)
    requires i <= |s|
    ensures ReadUnsignedTime(s, i) == Good((t, j)) && t >= 0 <==> TimeAt(s, i, j, t)
  {
    hide ReadUnsigned, Numeral, ReadMinutes, MinutesAt;
    if ReadUnsignedTime(s, i).Good? && t >= 0 {
      var (h, k) := ReadUnsigned(s, i, 2, HoursExpected).value;
      NumeralReads(s, i, k, 2, h, HoursExpected);
      MinutesRead(s, k, j, h * 3600, t - 3600 * h);
    }
    if TimeAt(s, i, j, t) {
      var k: nat, h: int :| h <= 24 && Numeral(s, i, k, 2, h) && MinutesAt(s, k, j, t - 3600 * h);
      NumeralSpan(s, i, k, 2, h);
      NumeralReads(s, i, k, 2, h, HoursExpected);
      MinutesRead(s, k, j, h * 3600, t - 3600 * h);
    }
  }

  /** The reader of signed times reads exactly those: a plus sign is allowed and changes nothing. */
  lemma SignedReads(s: string, i: nat, j: nat, t: int)
    requires i <= |s|
    ensures ReadSignedTime(s, i) == Good((t, j)) <==> SignedAt(s, i, j, t)
  {
    hide ReadUnsignedTime, TimeAt;
    if i == |s| {
      NoTime(s, i, j, t);
    } else {
      var k := if s[i] == '-' || s[i] == '+' then i + 1 else i;
      TimeReads(s, k, j, if s[i] == '-' then -t else t);
    }
  }

  lemma NoTime(s: string, i: nat, j: nat, t: int)
    requires i == |s|
    ensures !TimeAt(s, i, j, t)
  {
    hide NumberOf;
  }

  // ---- Names ----

  /** A name in brackets, which may hold anything but the closing one; or all letters that stand here, even none. */
  predicate NameAt(s: string, i: nat, j: nat, name: string) {
    if Char(s, i, '<') then At(s, i + 1, name + ">") && j == i + 1 + |name| + 1 && '>' !in name
    else i < |s| && At(s, i, name) && j == i + |name| && AllLetters(name) && !(j < |s| && IsAlpha(s[j]))
  }

  lemma {:induction false} LettersAre(s: string, i: nat)
    requires i <= |s|
    ensures var name := Letters(s, i); var j := i + |name|;
      At(s, i, name) && AllLetters(name) && !(j < |s| && IsAlpha(s[j]))
    decreases |s| - i
  {
    if i < |s| && IsAlpha(s[i]) {
      LettersAre(s, i + 1);
      var rest := Letters(s, i + 1);
      assert s[i..i + 1 + |rest|] == [s[i]] + s[i + 1..i + 1 + |rest|];
    }
  }

  lemma LetterInside(s: string, i: nat, name: string, n: nat)
    requires At(s, i, name) && AllLetters(name)
    ensures n < |name| ==> i + n < |s| && IsAlpha(s[i + n])
  {
    if n < |name| {
      AtElement(s, i, name, n);
    }
  }

  lemma LettersOnce(s: string, i: nat, a: string, b: string)
    requires At(s, i, a) && At(s, i, b) && AllLetters(b) && !(i + |a| < |s| && IsAlpha(s[i + |a|]))
    ensures |b| <= |a|
  {
    LetterInside(s, i, b, |a|);
    hide At, AllLetters;
  }

  lemma SameText(s: string, i: nat, a: string, b: string)
    requires At(s, i, a) && At(s, i, b) && |a| == |b|
    ensures a == b
  {
  }

  lemma {:induction false} BracketedIs(s: string, i: nat, name: string)
    requires i <= |s|
    ensures Bracketed(s, i) == Good(name) <==> At(s, i, name + ">") && '>' !in name
    decreases |s| - i
  {
    if name == "" {
      assert name + ">" == ">";
      assert i < |s| ==> s[i..i + 1] == [s[i]];
    } else if i < |s| {
      BracketedIs(s, i + 1, name[1..]);
      BracketedStep(s, i, name[0], name[1..] + ">");
      BracketedRest(s, i, name);
      hide At, Bracketed;
    }
  }

  lemma BracketedRest(s: string, i: nat, name: string)
    requires i < |s| && name != ""
    ensures name + ">" == [name[0]] + (name[1..] + ">")
    ensures '>' !in name <==> name[0] != '>' && '>' !in name[1..]
    ensures Bracketed(s, i) == Good(name) <==>
      s[i] != '>' && s[i] == name[0] && Bracketed(s, i + 1) == Good(name[1..])
  {
    assert name == [name[0]] + name[1..];
    var rest := Bracketed(s, i + 1);
    if s[i] != '>' && rest.Good? {
      assert ([s[i]] + rest.value)[1..] == rest.value;
    }
  }

  lemma BracketedStep(s: string, i: nat, c: char, rest: string)
    requires i < |s|
    ensures At(s, i, [c] + rest) <==> s[i] == c && At(s, i + 1, rest)
  {
    if At(s, i, [c] + rest) {
      AtCons(s, i, c, rest);
    }
    if i + 1 + |rest| <= |s| {
      assert s[i..i + 1 + |rest|] == [s[i]] + s[i + 1..i + 1 + |rest|];
    }
  }

  lemma NameReads(s: string, i: nat, j: nat, name: string)
    requires i <= |s|
    ensures ReadName(s, i) == Good((name, j)) <==> NameAt(s, i, j, name)
  {
    hide At, Letters, Bracketed, AllLetters;
    if Char(s, i, '<') {
      BracketedIs(s, i + 1, name);
    } else if i < |s| {
      LettersAre(s, i);
      if NameAt(s, i, j, name) {
        LettersOnce(s, i, name, Letters(s, i));
        LettersOnce(s, i, Letters(s, i), name);
        SameText(s, i, name, Letters(s, i));
      }
    }
  }

  // ---- Rules ----

  /** Month, week and weekday, with dots between them. */
  ghost predicate MonthRuleAt(s: string, i: nat, j: nat, m: int, n: int, wd: int) {
    && 1 <= m <= 12 && 1 <= n <= 5 && wd <= 6
    && exists k: nat, l: nat :: Numeral(s, i, k, 2, m) && WeekAt(s, k, l, n) && WeekdayAt(s, l, j, wd)
  }

  predicate WeekAt(s: string, i: nat, j: nat, n: int) {
    Char(s, i, '.') && Numeral(s, i + 1, j, 1, n)
  }

  predicate WeekdayAt(s: string, i: nat, j: nat, wd: int) {
    Char(s, i, '.') && Numeral(s, i + 1, j, 1, wd)
  }

  /** The day of a rule: J and 1 to 365, or M and a weekday, or 0 to 365. */
  ghost predicate DayAt(s: string, i: nat, j: nat, r: Rule) {
    match r
    case Off => false
    case Julian(n, _) => Char(s, i, 'J') && 1 <= n <= 365 && Numeral(s, i + 1, j, 3, n)
    case MonthWeekday(m, n, wd, _) => Char(s, i, 'M') && MonthRuleAt(s, i + 1, j, m, n, wd)
    case DayOfYear(n, _) => n <= 365 && Numeral(s, i, j, 3, n)
  }

  /** A day, and after a slash its time; without one the time is two o'clock. */
  ghost predicate RuleAt(s: string, i: nat, j: nat, r: Rule) {
    !r.Off? && exists k: nat :: DayAt(s, i, k, r) && ClockAt(s, k, j, r.time)
  }

  ghost predicate ClockAt(s: string, i: nat, j: nat, t: int) {
    if Char(s, i, '/') then TimeAt(s, i + 1, j, t) else i == j && t == 7200
  }

  lemma MonthRuleReads(s: string, i: nat, j: nat, m: int, n: int, wd: int)
    requires i <= |s|
    ensures ReadMonthRule(s, i) == Good((MonthWeekday(m, n, wd, 7200), j)) <==> MonthRuleAt(s, i, j, m, n, wd)
  {
    hide ReadUnsigned, Numeral;
    if ReadMonthRule(s, i) == Good((MonthWeekday(m, n, wd, 7200), j)) {
      var k := ReadUnsigned(s, i, 2, MonthExpected).value.1;
      var l := ReadUnsigned(s, k + 1, 1, WeekExpected).value.1;
      NumeralReads(s, i, k, 2, m, MonthExpected);
      NumeralReads(s, k + 1, l, 1, n, WeekExpected);
      NumeralReads(s, l + 1, j, 1, wd, WeekdayExpected);
      assert WeekAt(s, k, l, n) && WeekdayAt(s, l, j, wd);
    }
    if MonthRuleAt(s, i, j, m, n, wd) {
      var k: nat, l: nat :| Numeral(s, i, k, 2, m) && WeekAt(s, k, l, n) && WeekdayAt(s, l, j, wd);
      NumeralSpan(s, i, k, 2, m);
      NumeralSpan(s, k + 1, l, 1, n);
      NumeralSpan(s, l + 1, j, 1, wd);
      NumeralReads(s, i, k, 2, m, MonthExpected);
      NumeralReads(s, k + 1, l, 1, n, WeekExpected);
      NumeralReads(s, l + 1, j, 1, wd, WeekdayExpected);
    }
  }

  lemma DayReads(s: string, i: nat, j: nat, r: Rule)
    requires i <= |s| && !r.Off?
    ensures ReadRuleDay(s, i) == Good((WithTime(r, 7200), j)) <==> DayAt(s, i, j, r)
  {
    hide ReadUnsigned, Numeral, ReadMonthRule, MonthRuleAt;
    match r
    case Julian(n, _) =>
      if i < |s| && n >= 0 {
        NumeralReads(s, i + 1, j, 3, n, JulianExpected);
      }
    case MonthWeekday(m, n, wd, _) =>
      if i < |s| {
        MonthRuleReads(s, i + 1, j, m, n, wd);
      }
    case DayOfYear(n, _) =>
      if DayAt(s, i, j, r) {
        NumeralSpan(s, i, j, 3, n);
        FirstIsDigit(s, i, j, 3, n);
      }
      if n >= 0 {
        NumeralReads(s, i, j, 3, n, NoMessage);
      }
      DigitReads(s, i);
  }

  lemma DigitReads(s: string, i: nat)
    requires i <= |s|
    ensures Digit(s, i) ==> ReadUnsigned(s, i, 3, NoMessage).Good?
  {
    hide ReadDigits;
  }

  lemma FirstIsDigit(s: string, i: nat, j: nat, limit: nat, n: int)
    requires Numeral(s, i, j, limit, n)
    ensures Digit(s, i)
  {
    assert s[i..j][0] == s[i];
    hide NumberOf;
  }

  lemma SameButTime(r: Rule, q: Rule, t: int)
    requires !r.Off? && !q.Off?
    ensures WithTime(q, t) == r <==> WithTime(r, 7200) == WithTime(q, 7200) && r.time == t
    ensures WithTime(r, r.time) == r && WithTime(WithTime(r, 7200), r.time) == r
  {
  }

  lemma DayTime(s: string, i: nat)
    requires i <= |s| && ReadRuleDay(s, i).Good?
    ensures WithTime(ReadRuleDay(s, i).value.0, 7200) == ReadRuleDay(s, i).value.0
  {
    hide ReadUnsigned;
  }

  lemma RuleReads(s: string, i: nat, j: nat, r: Rule)
    requires i <= |s|
    ensures ReadDate(s, i) == Good((r, j)) <==> RuleAt(s, i, j, r)
  {
    hide ReadRuleDay, DayAt, ReadUnsignedTime, TimeAt;
    if ReadDate(s, i) == Good((r, j)) {
      var (day, k) := ReadRuleDay(s, i).value;
      DayTime(s, i);
      SameButTime(r, day, r.time);
      DayReads(s, i, k, r);
      if Char(s, k, '/') {
        TimeReads(s, k + 1, j, r.time);
      }
      assert ClockAt(s, k, j, r.time);
    }
    if RuleAt(s, i, j, r) {
      var k: nat :| DayAt(s, i, k, r) && ClockAt(s, k, j, r.time);
      DayReads(s, i, k, r);
      SameButTime(r, r, r.time);
      if Char(s, k, '/') {
        TimeReads(s, k + 1, j, r.time);
      }
    }
  }

  // ---- Zones ----

  /** Two rules, with a comma before each, up to the end of the string. */
  ghost predicate RulesAt(s: string, i: nat, start: Rule, end: Rule) {
    Char(s, i, ',') && exists j: nat :: RuleAt(s, i + 1, j, start) && LastRuleAt(s, j, end)
  }

  ghost predicate LastRuleAt(s: string, i: nat, r: Rule) {
    Char(s, i, ',') && RuleAt(s, i + 1, |s|, r)
  }

  /** The offset of daylight saving time, west of Greenwich as all offsets are written; an hour ahead without one. */
  ghost predicate SaveAt(s: string, i: nat, j: nat, offset: int, save: int) {
    if Char(s, i, ',') then i == j && save == 3600 else i < |s| && SignedAt(s, i, j, -(offset + save))
  }

  lemma RulesRead(s: string, i: nat, start: Rule, end: Rule)
    requires i < |s|
    ensures ReadRules(s, i) == Good((start, end)) <==> RulesAt(s, i, start, end)
  {
    hide ReadDate, RuleAt;
    if s[i] == ',' {
      if ReadRules(s, i) == Good((start, end)) {
        var j := ReadDate(s, i + 1).value.1;
        RuleReads(s, i + 1, j, start);
        RuleReads(s, j + 1, |s|, end);
        assert LastRuleAt(s, j, end);
      }
      if RulesAt(s, i, start, end) {
        var j: nat :| RuleAt(s, i + 1, j, start) && LastRuleAt(s, j, end);
        RuleReads(s, i + 1, j, start);
        RuleReads(s, j + 1, |s|, end);
      }
    }
  }

  lemma SaveReads(s: string, i: nat, j: nat, offset: int, save: int)
    requires i < |s|
    ensures ReadSave(s, i, offset) == Good((save, j)) <==> SaveAt(s, i, j, offset, save)
  {
    hide ReadSignedTime, SignedAt;
    if s[i] != ',' {
      SignedReads(s, i, j, -(offset + save));
    }
  }

  /** What follows the abbreviation of daylight saving time: nothing, or an offset, or rules, or both. */
  ghost predicate SaveAndRulesAt(s: string, i: nat, offset: int, save: int, start: Rule, end: Rule) {
    if i == |s| then save == 3600 && start == end == Off
    else exists j: nat :: SaveAt(s, i, j, offset, save) && EndOrRulesAt(s, j, start, end)
  }

  ghost predicate EndOrRulesAt(s: string, i: nat, start: Rule, end: Rule) {
    if i == |s| then start == end == Off else RulesAt(s, i, start, end)
  }

  /** What follows the offset of standard time: nothing, or daylight saving time. */
  ghost predicate DaylightAt(s: string, i: nat, offset: int, dst: string, save: int, start: Rule, end: Rule) {
    if i == |s| then dst == "" && save == 3600 && start == end == Off
    else exists j: nat :: NameAt(s, i, j, dst) && SaveAndRulesAt(s, j, offset, save, start, end)
  }

  /** The string says all this: names, offset, save and rules, one after the other up to its end. */
  ghost predicate Says(s: string, std: string, offset: int, dst: string, save: int, start: Rule, end: Rule) {
    exists i: nat, j: nat ::
      NameAt(s, 0, i, std) && SignedAt(s, i, j, -offset) && DaylightAt(s, j, offset, dst, save, start, end)
  }

  lemma SignedSpan(s: string, i: nat, j: nat, t: int)
    requires i <= |s| && SignedAt(s, i, j, t)
    ensures j <= |s|
  {
    SignedReads(s, i, j, t);
    hide SignedAt;
  }

  lemma NameSpan(s: string, i: nat, j: nat, name: string)
    requires NameAt(s, i, j, name)
    ensures j <= |s|
  {
  }

  lemma SaveAndRulesRead(s: string, i: nat, offset: int, save: int, start: Rule, end: Rule)
    requires i <= |s|
    ensures ReadSaveAndRules(s, i, offset) == Good((save, start, end))
      <==> SaveAndRulesAt(s, i, offset, save, start, end)
  {
    hide ReadSave, SaveAt, ReadRules, RulesAt;
    if i < |s| {
      if ReadSaveAndRules(s, i, offset) == Good((save, start, end)) {
        var j := ReadSave(s, i, offset).value.1;
        SaveReads(s, i, j, offset, save);
        if j < |s| {
          RulesRead(s, j, start, end);
        }
        assert EndOrRulesAt(s, j, start, end);
      }
      if SaveAndRulesAt(s, i, offset, save, start, end) {
        var j: nat :| SaveAt(s, i, j, offset, save) && EndOrRulesAt(s, j, start, end);
        SaveReads(s, i, j, offset, save);
        if j < |s| {
          RulesRead(s, j, start, end);
        }
      }
    }
  }

  lemma TailReads(s: string, i: nat, nameEnd: nat, offset: int)
    requires i <= |s| && ReadTail(s, i, nameEnd, offset).Good?
    ensures var t := ReadTail(s, i, nameEnd, offset).value;
      DaylightAt(s, i, offset, t.dst, t.save, t.startRule, t.endRule)
  {
    hide ReadName, NameAt, ReadSaveAndRules, SaveAndRulesAt;
    if i < |s| {
      var (dst, j) := ReadName(s, i).value;
      var (save, start, end) := ReadSaveAndRules(s, j, offset).value;
      NameReads(s, i, j, dst);
      SaveAndRulesRead(s, j, offset, save, start, end);
    }
  }

  lemma TailIsRead(s: string, i: nat, nameEnd: nat, offset: int, dst: string, save: int, start: Rule, end: Rule)
    requires i <= |s| && DaylightAt(s, i, offset, dst, save, start, end)
    ensures var r := ReadTail(s, i, nameEnd, offset);
      && r.Good? && r.value.dst == dst && r.value.save == save && r.value.startRule == start && r.value.endRule == end
  {
    hide ReadName, NameAt, ReadSaveAndRules, SaveAndRulesAt;
    if i < |s| {
      var j: nat :| NameAt(s, i, j, dst) && SaveAndRulesAt(s, j, offset, save, start, end);
      NameReads(s, i, j, dst);
      NameSpan(s, i, j, dst);
      SaveAndRulesRead(s, j, offset, save, start, end);
    }
  }

  /** The zone that a string denotes: with rules, with one abbreviation for daylight saving time only, or plain. */
  predicate Denotes(z: TimeZone, std: string, offset: int, dst: string, save: int, start: Rule, end: Rule) {
    if !start.Off? then |std| >= 3 && |dst| >= 3 && z == TimeZone(std, dst, offset, save, start, end)
    else if |dst| >= 3 then z == TimeZone("", dst, offset, save, Off, Off)
    else |std| >= 3 && z == TimeZone(std, "", offset, 0, Off, Off)
  }

  ghost predicate Denoted(s: string, z: TimeZone) {
    exists std: string, offset: int, dst: string, save: int, start: Rule, end: Rule ::
      Says(s, std, offset, dst, save, start, end) && Denotes(z, std, offset, dst, save, start, end)
  }

  lemma RulesTogether(s: string, i: nat, offset: int, dst: string, save: int, start: Rule, end: Rule)
    requires DaylightAt(s, i, offset, dst, save, start, end)
    ensures start.Off? <==> end.Off?
  {
    hide NameAt, SaveAt, DayAt, ClockAt;
  }

  lemma Finished(std: string, stdEnd: nat, offset: int, t: Tail, z: TimeZone)
    requires t.startRule.Off? <==> t.endRule.Off?
    ensures Finish(std, stdEnd, offset, t) == Good(z)
      <==> Denotes(z, std, offset, t.dst, t.save, t.startRule, t.endRule)
  {
  }

  lemma ParsedIsDenoted(s: string)
    requires ParseZone(s).Good?
    ensures Denoted(s, ParseZone(s).value)
  {
    hide ReadName, ReadSignedTime, ReadTail, NameAt, SignedAt, DaylightAt, Finish, Denotes;
    var (std, i) := ReadName(s, 0).value;
    var (t, j) := ReadSignedTime(s, i).value;
    var tail := ReadTail(s, j, i, -t).value;
    NameReads(s, 0, i, std);
    SignedReads(s, i, j, t);
    TailReads(s, j, i, -t);
    RulesTogether(s, j, -t, tail.dst, tail.save, tail.startRule, tail.endRule);
    Finished(std, i, -t, tail, ParseZone(s).value);
    assert Says(s, std, -t, tail.dst, tail.save, tail.startRule, tail.endRule);
  }

  lemma DenotedIsParsed(s: string, z: TimeZone)
    requires Denoted(s, z)
    ensures ParseZone(s) == Good(z)
  {
    hide ReadName, ReadSignedTime, ReadTail, NameAt, SignedAt, DaylightAt, Finish, Denotes;
    var std: string, offset: int, dst: string, save: int, start: Rule, end: Rule :|
      Says(s, std, offset, dst, save, start, end) && Denotes(z, std, offset, dst, save, start, end);
    var i: nat, j: nat :|
      NameAt(s, 0, i, std) && SignedAt(s, i, j, -offset) && DaylightAt(s, j, offset, dst, save, start, end);
    NameReads(s, 0, i, std);
    NameSpan(s, 0, i, std);
    SignedReads(s, i, j, -offset);
    SignedSpan(s, i, j, -offset);
    TailIsRead(s, j, i, offset, dst, save, start, end);
    RulesTogether(s, j, offset, dst, save, start, end);
    Finished(std, i, offset, ReadTail(s, j, i, offset).value, z);
  }

  /** The constructor builds a zone from a string exactly if the string says so. */
  lemma ParsedExactly(s: string, z: TimeZone)
    ensures ParseZone(s) == Good(z) <==> Denoted(s, z)
  {
    if ParseZone(s).Good? {
      ParsedIsDenoted(s);
    }
    if Denoted(s, z) {
      DenotedIsParsed(s, z);
    }
    hide *;
  }

  // ---- What is reported of other strings ----

  predicate Reports<T(==)>(r: Parsed<T>, at: int, reason: Reason) {
    r.Bad? && r.error.at == at && r.error.reason == reason
  }

  lemma NumberMissing(s: string, i: nat, limit: nat, reason: Reason)
    requires i <= |s|
    ensures ReadUnsigned(s, i, limit, reason).Bad? <==> !Digit(s, i)
    ensures !Digit(s, i) ==> ReadUnsigned(s, i, limit, reason) == Bad(Error(i, reason))
  {
    hide ReadDigits;
  }

  /** Each part of a time that is missing is reported where it should stand, one out of range at its last digit. */
  lemma TimeErrors(s: string, i: nat, k: nat, h: int)
    requires i <= |s|
    ensures i == |s| ==> Reports(ReadUnsignedTime(s, i), i, TimeMissing)
    ensures i < |s| && !Digit(s, i) ==> Reports(ReadUnsignedTime(s, i), i, HoursExpected)
    ensures Numeral(s, i, k, 2, h) && h > 24 ==> Reports(ReadUnsignedTime(s, i), k - 1, HoursRange)
    ensures Numeral(s, i, k, 2, h) && h <= 24 && Char(s, k, ':') && !Digit(s, k + 1) ==>
      Reports(ReadUnsignedTime(s, i), k + 1, MinutesExpected)
  {
    NumberMissing(s, i, 2, HoursExpected);
    if Numeral(s, i, k, 2, h) {
      NumeralSpan(s, i, k, 2, h);
      NumeralReads(s, i, k, 2, h, HoursExpected);
      if Char(s, k, ':') {
        NumberMissing(s, k + 1, 2, MinutesExpected);
      }
    }
    hide ReadUnsigned, Numeral, ReadSeconds;
  }

  /** The same for minutes and seconds. */
  lemma SixtiethErrors(s: string, i: nat, t: nat, k: nat, x: int)
    requires Char(s, i, ':')
    ensures Numeral(s, i + 1, k, 2, x) && x > 59 ==> Reports(ReadMinutes(s, i, t), k - 1, MinutesRange)
    ensures Numeral(s, i + 1, k, 2, x) && x <= 59 && Char(s, k, ':') && !Digit(s, k + 1) ==>
      Reports(ReadMinutes(s, i, t), k + 1, SecondsExpected)
    ensures !Digit(s, i + 1) ==> Reports(ReadSeconds(s, i, t), i + 1, SecondsExpected)
    ensures Numeral(s, i + 1, k, 2, x) && x > 59 ==> Reports(ReadSeconds(s, i, t), k - 1, SecondsRange)
  {
    NumberMissing(s, i + 1, 2, SecondsExpected);
    if Numeral(s, i + 1, k, 2, x) {
      NumeralSpan(s, i + 1, k, 2, x);
      NumeralReads(s, i + 1, k, 2, x, MinutesExpected);
      NumeralReads(s, i + 1, k, 2, x, SecondsExpected);
      if Char(s, k, ':') {
        NumberMissing(s, k + 1, 2, SecondsExpected);
      }
    }
    hide ReadUnsigned, Numeral;
  }

  /** What is wrong with the day of a rule that begins with J, with a digit, or with neither of them nor M. */
  lemma DayErrors(s: string, i: nat, k: nat, n: int)
    requires i <= |s|
    ensures i == |s| ==> Reports(ReadDate(s, i), i, RuleMissing)
    ensures i < |s| && s[i] != 'J' && s[i] != 'M' && !Digit(s, i) ==> Reports(ReadDate(s, i), i, RuleStart)
    ensures Char(s, i, 'J') && !Digit(s, i + 1) ==> Reports(ReadDate(s, i), i + 1, JulianExpected)
    ensures Char(s, i, 'J') && Numeral(s, i + 1, k, 3, n) && !(1 <= n <= 365) ==>
      Reports(ReadDate(s, i), k - 1, JulianRange)
    ensures Numeral(s, i, k, 3, n) && n > 365 ==> Reports(ReadDate(s, i), k - 1, DayOfYearRange)
  {
    if Char(s, i, 'J') {
      NumberMissing(s, i + 1, 3, JulianExpected);
      if Numeral(s, i + 1, k, 3, n) {
        NumeralSpan(s, i + 1, k, 3, n);
        NumeralReads(s, i + 1, k, 3, n, JulianExpected);
      }
    }
    if Numeral(s, i, k, 3, n) {
      NumeralSpan(s, i, k, 3, n);
      FirstIsDigit(s, i, k, 3, n);
      NumeralReads(s, i, k, 3, n, NoMessage);
    }
    hide ReadUnsigned, Numeral, ReadMonthRule;
  }

  /** What is wrong with the month of a rule that begins with M, or with what follows it. */
  lemma MonthErrors(s: string, i: nat, k: nat, m: int)
    requires i <= |s|
    ensures !Digit(s, i) ==> Reports(ReadMonthRule(s, i), i, MonthExpected)
    ensures Numeral(s, i, k, 2, m) && !(1 <= m <= 12) ==> Reports(ReadMonthRule(s, i), k - 1, MonthRange)
    ensures Numeral(s, i, k, 2, m) && 1 <= m <= 12 && !Char(s, k, '.') ==>
      Reports(ReadMonthRule(s, i), k, DotAfterMonth)
    ensures Numeral(s, i, k, 2, m) && 1 <= m <= 12 && Char(s, k, '.') && !Digit(s, k + 1) ==>
      Reports(ReadMonthRule(s, i), k + 1, WeekExpected)
  {
    NumberMissing(s, i, 2, MonthExpected);
    if Numeral(s, i, k, 2, m) {
      NumeralSpan(s, i, k, 2, m);
      NumeralReads(s, i, k, 2, m, MonthExpected);
      if Char(s, k, '.') {
        NumberMissing(s, k + 1, 1, WeekExpected);
      }
    }
    hide ReadUnsigned, Numeral;
  }

  /** What a rule comes to from its week on, after a month that is right. */
  lemma WeekOn(s: string, i: nat, k: nat, m: int, l: nat, n: int)
    requires i <= |s| && Numeral(s, i, k, 2, m) && 1 <= m <= 12 && WeekAt(s, k, l, n)
    ensures k < |s| && k + 1 < l <= |s|
    ensures ReadMonthRule(s, i) ==
      if !(1 <= n <= 5) then Bad(Error(l - 1, WeekRange))
      else if !Char(s, l, '.') then Bad(Error(l, DotAfterWeek))
      else
        var wd := ReadUnsigned(s, l + 1, 1, WeekdayExpected);
        if wd.Bad? then Bad(wd.error)
        else if wd.value.0 > 6 then Bad(Error(wd.value.1 - 1, WeekdayRange))
        else Good((MonthWeekday(m, n, wd.value.0, 7200), wd.value.1))
  {
    NumeralSpan(s, i, k, 2, m);
    NumeralReads(s, i, k, 2, m, MonthExpected);
    NumeralSpan(s, k + 1, l, 1, n);
    NumeralReads(s, k + 1, l, 1, n, WeekExpected);
    hide ReadUnsigned, Numeral;
  }

  /** What is wrong with its week and its weekday, after a month that is right. */
  lemma WeekdayErrors(s: string, i: nat, k: nat, m: int, l: nat, n: int, j: nat, wd: int)
    requires i <= |s| && Numeral(s, i, k, 2, m) && 1 <= m <= 12 && WeekAt(s, k, l, n)
    ensures !(1 <= n <= 5) ==> Reports(ReadMonthRule(s, i), l - 1, WeekRange)
    ensures 1 <= n <= 5 && !Char(s, l, '.') ==> Reports(ReadMonthRule(s, i), l, DotAfterWeek)
    ensures 1 <= n <= 5 && Char(s, l, '.') && !Digit(s, l + 1) ==>
      Reports(ReadMonthRule(s, i), l + 1, WeekdayExpected)
    ensures 1 <= n <= 5 && WeekdayAt(s, l, j, wd) && wd > 6 ==> Reports(ReadMonthRule(s, i), j - 1, WeekdayRange)
  {
    WeekOn(s, i, k, m, l, n);
    if Char(s, l, '.') {
      NumberMissing(s, l + 1, 1, WeekdayExpected);
    }
    if WeekdayAt(s, l, j, wd) {
      NumeralSpan(s, l + 1, j, 1, wd);
      NumeralReads(s, l + 1, j, 1, wd, WeekdayExpected);
    }
    hide ReadUnsigned, Numeral, ReadMonthRule, WeekAt;
  }

  /** A name or a signed time is missing, or a bracket is not closed. */
  lemma PartErrors(s: string, i: nat)
    requires i <= |s|
    ensures i == |s| ==> Reports(ReadName(s, i), i, NameMissing) && Reports(ReadSignedTime(s, i), i, SignedTimeMissing)
    ensures Char(s, i, '<') && '>' !in s[i + 1..] ==> Reports(ReadName(s, i), |s|, BracketOpen)
  {
    if Char(s, i, '<') {
      NoBracket(s, i + 1);
    }
    hide Bracketed, ReadUnsignedTime;
  }

  lemma RulesCut(s: string, i: nat, j: nat, q: Rule)
    requires Char(s, i, ',') && ReadDate(s, i + 1) == Good((q, j))
    ensures !Char(s, j, ',') ==> Reports(ReadRules(s, i), j, EndRuleExpected)
    ensures Char(s, j, ',') && ReadDate(s, j + 1).Good? && ReadDate(s, j + 1).value.1 < |s| ==>
      Reports(ReadRules(s, i), ReadDate(s, j + 1).value.1, TrailingText)
  {
    hide ReadDate;
  }

  /** A comma before a rule is missing, or something stands after the second rule. */
  lemma CommaErrors(s: string, i: nat, j: nat, q: Rule, k: nat, r: Rule)
    requires i < |s|
    ensures s[i] != ',' ==> Reports(ReadRules(s, i), i, CommaExpected)
    ensures s[i] == ',' && RuleAt(s, i + 1, j, q) && !Char(s, j, ',') ==> Reports(ReadRules(s, i), j, EndRuleExpected)
    ensures s[i] == ',' && RuleAt(s, i + 1, j, q) && Char(s, j, ',') && RuleAt(s, j + 1, k, r) && k < |s| ==>
      Reports(ReadRules(s, i), k, TrailingText)
  {
    hide *;
    NoComma(s, i);
    if s[i] == ',' && RuleAt(s, i + 1, j, q) {
      IsChar(s, i, ',');
      RuleReads(s, i + 1, j, q);
      RulesCut(s, i, j, q);
      if Char(s, j, ',') && RuleAt(s, j + 1, k, r) {
        CharSpan(s, j, ',');
        RuleReads(s, j + 1, k, r);
      }
    }
  }

  lemma IsChar(s: string, i: nat, c: char)
    requires i < |s| && s[i] == c
    ensures Char(s, i, c)
  {
  }

  lemma CharSpan(s: string, i: nat, c: char)
    requires Char(s, i, c)
    ensures i < |s| && s[i] == c
  {
  }

  lemma NoComma(s: string, i: nat)
    requires i < |s|
    ensures s[i] != ',' ==> Reports(ReadRules(s, i), i, CommaExpected)
  {
    hide ReadDate;
  }

  lemma {:induction false} NoBracket(s: string, i: nat)
    requires i <= |s|
    ensures '>' !in s[i..] ==> Bracketed(s, i) == Bad(Error(|s|, BracketOpen))
    decreases |s| - i
  {
    if i < |s| {
      NoBracket(s, i + 1);
      assert s[i..] == [s[i]] + s[i + 1..];
    }
  }

  /** What is wrong with names that are too short: which one is reported, and where. */
  lemma NameErrors(std: string, stdEnd: nat, offset: int, t: Tail)
    ensures !t.startRule.Off? && |std| < 3 ==> Reports(Finish(std, stdEnd, offset, t), stdEnd, StdNameTooShort)
    ensures !t.startRule.Off? && |std| >= 3 && |t.dst| < 3 ==>
      Reports(Finish(std, stdEnd, offset, t), t.nameEnd, DstNameTooShort)
    ensures t.startRule.Off? && |t.dst| < 3 && |std| < 3 ==> Reports(Finish(std, stdEnd, offset, t), stdEnd, NoName)
  {
  }

  // ---- How a zone is printed ----

  /** Two digits, the first of them a zero for numbers below ten. */
  predicate TwoDigitText(text: string, n: int) {
    |text| == 2 && AllDigits(text) && NumberOf(text) == n
  }

  /** A number without needless zeros. */
  predicate PlainNumber(text: string, n: int) {
    text != "" && AllDigits(text) && NumberOf(text) == n && (text[0] == '0' ==> |text| == 1)
  }

  lemma {:induction false} DecimalIsPlain(n: nat)
    ensures PlainNumber(Decimal(n), n)
  {
    DecimalReadsBack(n);
    if n >= 10 {
      DecimalIsPlain(n / 10);
      NotJustZero(n / 10);
    }
    hide NumberOf;
  }

  lemma NotJustZero(n: nat)
    requires n > 0 && PlainNumber(Decimal(n), n)
    ensures Decimal(n)[0] != '0'
  {
    if |Decimal(n)| == 1 {
      assert Decimal(n)[..0] == "";
    }
  }

  lemma TwoDigitsAre(n: nat)
    requires n < 60
    ensures TwoDigitText(TwoDigits(n), n)
  {
    DecimalDigits(n);
    var text := TwoDigits(n);
    assert text == [DigitChar(n / 10), DigitChar(n % 10)];
    assert text[..1] == [DigitChar(n / 10)] && text[..1][..0] == "";
    assert NumberOf(text[..1]) == n / 10;
  }

  /** Hours, and minutes only if they or the seconds are not zero, and seconds only if they are not. */
  ghost predicate ClockText(text: string, h: int, m: int, x: int) {
    exists hours: string, minutes: string, seconds: string ::
      PlainNumber(hours, h) && TwoDigitText(minutes, m) && TwoDigitText(seconds, x)
      && text == hours + (if m == x == 0 then "" else [':'] + (minutes + (if x == 0 then "" else [':'] + seconds)))
  }

  lemma ClockIs(h: nat, m: nat, x: nat)
    requires m < 60 && x < 60
    ensures ClockText(Clock(3600 * h + 60 * m + x), h, m, x)
  {
    ClockParts(h, m, x);
    DecimalIsPlain(h);
    TwoDigitsAre(m);
    TwoDigitsAre(x);
    hide Decimal, TwoDigits, PlainNumber, TwoDigitText, Clock;
  }

  lemma ClockParts(h: nat, m: nat, x: nat)
    requires m < 60 && x < 60
    ensures Clock(3600 * h + 60 * m + x) == Decimal(h)
      + (if m == x == 0 then "" else [':'] + (TwoDigits(m) + (if x == 0 then "" else [':'] + TwoDigits(x))))
  {
    SplitSeconds(h, m, x);
    hide Decimal, TwoDigits;
  }

  lemma SplitSeconds(h: nat, m: nat, x: nat)
    requires m < 60 && x < 60
    ensures var t := 3600 * h + 60 * m + x; t / 3600 == h && t / 60 % 60 == m && t % 60 == x
  {
  }

  /** An offset is printed west of Greenwich, with a minus sign for the east and never a plus. */
  lemma OffsetIs(h: nat, m: nat, x: nat)
    requires m < 60 && x < 60
    ensures ClockText(PrintOffset(-(3600 * h + 60 * m + x)), h, m, x)
    ensures h + m + x > 0 ==>
      exists text :: ClockText(text, h, m, x) && PrintOffset(3600 * h + 60 * m + x) == ['-'] + text
  {
    ClockIs(h, m, x);
    hide ClockText, Clock;
  }

  /** A name stands in brackets exactly if it holds anything but letters. */
  lemma AbbrevIs(name: string)
    ensures (forall k :: 0 <= k < |name| ==> IsAlpha(name[k])) ==> PrintAbbrev(name) == name
    ensures (exists k :: 0 <= k < |name| && !IsAlpha(name[k])) ==> PrintAbbrev(name) == "<" + name + ">"
  {
  }

  /** The day of a rule in plain numbers, and its time after a slash if it is not two o'clock. */
  lemma RuleIs(r: Rule)
    requires r.Valid() && !r.Off?
    ensures exists day: string, time: string ::
      DayText(day, r) && ClockText(time, r.time / 3600, r.time / 60 % 60, r.time % 60)
      && PrintRule(r) == day + (if r.time == 7200 then "" else ['/'] + time)
  {
    DayTextIs(r);
    TimeText(r);
    hide *;
    RuleParts(r);
  }

  lemma RuleParts(r: Rule)
    requires r.Valid() && !r.Off?
    ensures PrintRule(r) == RuleDayText(r) + (if r.time == 7200 then "" else ['/'] + Clock(r.time))
  {
    RuleTime(r);
    hide RuleDayText, Clock, Rule.Valid;
  }

  lemma RuleTime(r: Rule)
    requires r.Valid() && !r.Off?
    ensures r.time >= 0
  {
  }

  lemma TimeText(r: Rule)
    requires r.Valid() && !r.Off?
    ensures r.time >= 0 && ClockText(Clock(r.time), r.time / 3600, r.time / 60 % 60, r.time % 60)
  {
    RuleTime(r);
    hide *;
    AnyClock(r.time);
  }

  lemma AnyClock(t: nat)
    ensures ClockText(Clock(t), t / 3600, t / 60 % 60, t % 60)
  {
    hide *;
    var h, m, x := t / 3600, t / 60 % 60, t % 60;
    SixtiethParts(t);
    ClockIs(h, m, x);
  }

  lemma SixtiethParts(t: nat)
    ensures t == 3600 * (t / 3600) + 60 * (t / 60 % 60) + t % 60
  {
  }

  ghost predicate DayText(text: string, r: Rule) {
    match r
    case Off => false
    case Julian(n, _) => exists a :: PlainNumber(a, n) && text == "J" + a
    case MonthWeekday(m, n, wd, _) => exists a: string, b: string, c: string ::
      PlainNumber(a, m) && PlainNumber(b, n) && PlainNumber(c, wd) && text == "M" + a + "." + b + "." + c
    case DayOfYear(n, _) => PlainNumber(text, n)
  }

  lemma DayTextIs(r: Rule)
    requires r.Valid() && !r.Off?
    ensures DayText(RuleDayText(r), r)
  {
    match r
    case Julian(n, _) =>
      DecimalIsPlain(n);
      hide Decimal, PlainNumber;
    case MonthWeekday(m, n, wd, _) =>
      DecimalIsPlain(m);
      DecimalIsPlain(n);
      DecimalIsPlain(wd);
      hide Decimal, PlainNumber;
      assert RuleDayText(r) == "M" + Decimal(m) + "." + Decimal(n) + "." + Decimal(wd);
    case DayOfYear(n, _) =>
      DecimalIsPlain(n);
      hide Decimal, PlainNumber;
  }

  /** The name of a zone: daylight saving only if it has a name, its offset only if it is not an hour ahead. */
  lemma NameIs(z: TimeZone)
    requires z.Valid()
    ensures var save := if z.save == 3600 then "" else PrintOffset(z.offset + z.save);
      var rules := if z.startRule.Off? then "" else [','] + (PrintRule(z.startRule) + ([','] + PrintRule(z.endRule)));
      var daylight := if z.dstAbbrev == "" then "" else PrintAbbrev(z.dstAbbrev) + (save + rules);
      Name(z) == PrintAbbrev(z.stdAbbrev) + (PrintOffset(z.offset) + daylight)
  {
    hide TimeZone.Valid, PrintAbbrev, PrintOffset, PrintRule;
    assert z.startRule.Off? || !z.endRule.Off? by { BothRules(z); }
  }

  lemma BothRules(z: TimeZone)
    requires z.Valid()
    ensures z.startRule.Valid() && z.endRule.Valid() && (z.startRule.Off? <==> z.endRule.Off?)
  {
    hide Rule.Valid, NameOk;
  }
}
