/**
 The text form of a zone (ptz.h): the constructor's grammar, and name(), which prints a zone. Each
 reader is a function from a position to a value and the next position; PosixReader.dfy holds the
 loops that compute them.
 */
module PosixText {
  import opened Decimals
  import opened Sequences
  import opened PosixZone

  /** What throw_invalid reports. */
  datatype Reason =
    | NameMissing | BracketOpen
    | SignedTimeMissing | TimeMissing
    | HoursExpected | HoursRange | MinutesExpected | MinutesRange | SecondsExpected | SecondsRange
    | RuleMissing | RuleStart
    | JulianExpected | JulianRange | DayOfYearRange
    | MonthExpected | MonthRange | DotAfterMonth
    | WeekExpected | WeekRange | DotAfterWeek
    | WeekdayExpected | WeekdayRange
    | NoMessage
    | CommaExpected | EndRuleExpected | TrailingText
    | StdNameTooShort | DstNameTooShort | NoName

  datatype Error = Error(at: int, reason: Reason)

  datatype Parsed<+T> = Good(value: T) | Bad(error: Error) {
    predicate IsFailure() {
      Bad?
    }

    function PropagateFailure<U>(): Parsed<U>
      requires Bad?
    {
      Bad(error)
    }

    function Extract(): T
      requires Good?
    {
      value
    }
  }

  predicate Digit(s: string, i: nat) {
    i < |s| && IsDigit(s[i])
  }

  predicate Char(s: string, i: nat, c: char) {
    i < |s| && s[i] == c
  }

  // ---- Reading ----

  /** The loop of read_unsigned: at most `limit` digits in all, `count` of them already read. */
  function ReadDigits(s: string, i: nat, limit: nat, count: nat, u: nat): (r: (nat, nat))
    requires i <= |s|
    ensures i <= r.1 <= |s|
    decreases |s| - i
  {
    if count < limit && Digit(s, i) then ReadDigits(s, i + 1, limit, count + 1, u * 10 + DigitValue(s[i]))
    else (u, i)
  }

  function ReadUnsigned(s: string, i: nat, limit: nat, reason: Reason): (r: Parsed<(nat, nat)>)
    requires i <= |s|
    ensures r.Good? ==> i < r.value.1 <= |s|
  {
    if !Digit(s, i) then Bad(Error(i, reason))
    else Good(ReadDigits(s, i + 1, limit, 1, DigitValue(s[i])))
  }

  function ReadSeconds(s: string, i: nat, t: nat): (r: Parsed<(nat, nat)>)
    requires i <= |s|
    ensures r.Good? ==> i <= r.value.1 <= |s| && t <= r.value.0 < t + 60
  {
    if !Char(s, i, ':') then Good((t, i))
    else
      var (x, j) :- ReadUnsigned(s, i + 1, 2, SecondsExpected);
      if x > 59 then Bad(Error(j - 1, SecondsRange)) else Good((t + x, j))
  }

  function ReadMinutes(s: string, i: nat, t: nat): (r: Parsed<(nat, nat)>)
    requires i <= |s|
    ensures r.Good? ==> i <= r.value.1 <= |s| && t <= r.value.0 < t + 3600
  {
    if !Char(s, i, ':') then Good((t, i))
    else
      var (m, j) :- ReadUnsigned(s, i + 1, 2, MinutesExpected);
      if m > 59 then Bad(Error(j - 1, MinutesRange)) else ReadSeconds(s, j, t + m * 60)
  }

  function ReadUnsignedTime(s: string, i: nat): (r: Parsed<(nat, nat)>)
    requires i <= |s|
    ensures r.Good? ==> i < r.value.1 <= |s| && r.value.0 < 25 * 3600
  {
    if i == |s| then Bad(Error(i, TimeMissing))
    else
      var (h, j) :- ReadUnsigned(s, i, 2, HoursExpected);
      if h > 24 then Bad(Error(j - 1, HoursRange)) else ReadMinutes(s, j, h * 3600)
  }

  function Signed(negative: bool, t: int): int {
    if negative then -t else t
  }

  function ReadSignedTime(s: string, i: nat): (r: Parsed<(int, nat)>)
    requires i <= |s|
    ensures r.Good? ==> i < r.value.1 <= |s| && -25 * 3600 < r.value.0 < 25 * 3600
  {
    if i == |s| then Bad(Error(i, SignedTimeMissing))
    else
      var (t, j) :- ReadUnsignedTime(s, if s[i] == '-' || s[i] == '+' then i + 1 else i);
      Good((Signed(s[i] == '-', t), j))
  }

  /** The letters from position `i` on. */
  function Letters(s: string, i: nat): (name: string)
    requires i <= |s|
    ensures i + |name| <= |s| && '>' !in name
    decreases |s| - i
  {
    if i < |s| && IsAlpha(s[i]) then [s[i]] + Letters(s, i + 1) else ""
  }

  /** The text from position `i` up to a closing bracket. */
  function Bracketed(s: string, i: nat): (r: Parsed<string>)
    requires i <= |s|
    ensures r.Good? ==> i + |r.value| < |s| && '>' !in r.value
    decreases |s| - i
  {
    if i == |s| then Bad(Error(i, BracketOpen))
    else if s[i] == '>' then Good("")
    else
      var rest :- Bracketed(s, i + 1);
      Good([s[i]] + rest)
  }

  function ReadName(s: string, i: nat): (r: Parsed<(string, nat)>)
    requires i <= |s|
    ensures r.Good? ==> i <= r.value.1 <= |s| && NameOk(r.value.0)
  {
    if i == |s| then Bad(Error(i, NameMissing))
    else if s[i] == '<' then
      var name :- Bracketed(s, i + 1);
      Good((name, i + 1 + |name| + 1))
    else
      Good((Letters(s, i), i + |Letters(s, i)|))
  }

  function ReadMonthRule(s: string, i: nat): (r: Parsed<(Rule, nat)>)
    requires i <= |s|
    ensures r.Good? ==> i < r.value.1 <= |s| && r.value.0.Valid() && r.value.0.MonthWeekday?
  {
    var (m, j) :- ReadUnsigned(s, i, 2, MonthExpected);
    if !(1 <= m <= 12) then Bad(Error(j - 1, MonthRange))
    else if !Char(s, j, '.') then Bad(Error(j, DotAfterMonth))
    else
      var (n, k) :- ReadUnsigned(s, j + 1, 1, WeekExpected);
      if !(1 <= n <= 5) then Bad(Error(k - 1, WeekRange))
      else if !Char(s, k, '.') then Bad(Error(k, DotAfterWeek))
      else
        var (wd, l) :- ReadUnsigned(s, k + 1, 1, WeekdayExpected);
        if wd > 6 then Bad(Error(l - 1, WeekdayRange)) else Good((MonthWeekday(m, n, wd, 7200), l))
  }

  /** The day part of a rule, at the default time 02:00. */
  function ReadRuleDay(s: string, i: nat): (r: Parsed<(Rule, nat)>)
    requires i <= |s|
    ensures r.Good? ==> i < r.value.1 <= |s| && r.value.0.Valid() && !r.value.0.Off?
  {
    if i == |s| then Bad(Error(i, RuleMissing))
    else if s[i] == 'J' then
      var (n, j) :- ReadUnsigned(s, i + 1, 3, JulianExpected);
      if !(1 <= n <= 365) then Bad(Error(j - 1, JulianRange)) else Good((Julian(n, 7200), j))
    else if s[i] == 'M' then ReadMonthRule(s, i + 1)
    else if IsDigit(s[i]) then
      var (n, j) := ReadUnsigned(s, i, 3, NoMessage).value;
      if n > 365 then Bad(Error(j - 1, DayOfYearRange)) else Good((DayOfYear(n, 7200), j))
    else Bad(Error(i, RuleStart))
  }

  function WithTime(r: Rule, t: int): Rule
    requires !r.Off?
  {
    match r
    case Julian(n, _) => Julian(n, t)
    case MonthWeekday(m, n, wd, _) => MonthWeekday(m, n, wd, t)
    case DayOfYear(n, _) => DayOfYear(n, t)
  }

  function ReadDate(s: string, i: nat): (r: Parsed<(Rule, nat)>)
    requires i <= |s|
    ensures r.Good? ==> i < r.value.1 <= |s| && r.value.0.Valid() && !r.value.0.Off?
  {
    var (rule, j) :- ReadRuleDay(s, i);
    if !Char(s, j, '/') then Good((rule, j))
    else
      var (t, k) :- ReadUnsignedTime(s, j + 1);
      Good((WithTime(rule, t), k))
  }

  /** What follows the standard offset. */
  datatype Tail = Tail(dst: string, nameEnd: nat, save: int, startRule: Rule, endRule: Rule)

  function ReadRules(s: string, i: nat): (r: Parsed<(Rule, Rule)>)
    requires i < |s|
    ensures r.Good? ==>
      r.value.0.Valid() && r.value.1.Valid() && !r.value.0.Off? && !r.value.1.Off?
  {
    if s[i] != ',' then Bad(Error(i, CommaExpected))
    else
      var (start, j) :- ReadDate(s, i + 1);
      if !Char(s, j, ',') then Bad(Error(j, EndRuleExpected))
      else
        var (end, k) :- ReadDate(s, j + 1);
        if k != |s| then Bad(Error(k, TrailingText)) else Good((start, end))
  }

  function ReadSave(s: string, i: nat, offset: int): (r: Parsed<(int, nat)>)
    requires i < |s|
    ensures r.Good? ==> i <= r.value.1 <= |s|
    ensures r.Good? ==> r.value.0 == 3600 || -25 * 3600 < offset + r.value.0 < 25 * 3600
  {
    if s[i] == ',' then Good((3600, i))
    else
      var (t, j) :- ReadSignedTime(s, i);
      Good((-t - offset, j))
  }

  /** What follows the daylight abbreviation: an offset, then rules, each of which may be missing. */
  function ReadSaveAndRules(s: string, i: nat, offset: int): Parsed<(int, Rule, Rule)>
    requires i <= |s|
  {
    if i == |s| then Good((3600, Off, Off))
    else
      var (save, j) :- ReadSave(s, i, offset);
      if j == |s| then Good((save, Off, Off))
      else
        var (start, end) :- ReadRules(s, j);
        Good((save, start, end))
  }

  function ReadTail(s: string, i: nat, nameEnd: nat, offset: int): Parsed<Tail>
    requires i <= |s|
  {
    if i == |s| then Good(Tail("", nameEnd, 3600, Off, Off))
    else
      var (dst, j) :- ReadName(s, i);
      var (save, start, end) :- ReadSaveAndRules(s, j, offset);
      Good(Tail(dst, j, save, start, end))
  }

  /** The checks and defaults at the end of the constructor. */
  function Finish(std: string, stdEnd: nat, offset: int, t: Tail): Parsed<TimeZone> {
    if !t.startRule.Off? then
      if |std| < 3 then Bad(Error(stdEnd, StdNameTooShort))
      else if |t.dst| < 3 then Bad(Error(t.nameEnd, DstNameTooShort))
      else Good(TimeZone(std, t.dst, offset, t.save, t.startRule, t.endRule))
    else if |t.dst| >= 3 then Good(TimeZone("", t.dst, offset, t.save, Off, t.endRule))
    else if |std| < 3 then Bad(Error(stdEnd, NoName))
    else Good(TimeZone(std, "", offset, 0, Off, t.endRule))
  }

  /** The constructor of Posix::time_zone. */
  function ParseZone(s: string): Parsed<TimeZone> {
    var (std, i) :- ReadName(s, 0);
    var (t, j) :- ReadSignedTime(s, i);
    var tail :- ReadTail(s, j, i, -t);
    Finish(std, i, -t, tail)
  }

  /** Everything the constructor builds is a valid zone. */
  lemma ParsedIsValid(s: string)
    requires ParseZone(s).Good?
    ensures ParseZone(s).value.Valid()
  {
    hide ReadName, ReadSignedTime, ReadSave, ReadRules;
  }

  // ---- Printing ----

  function TwoDigits(n: nat): string {
    (if n < 10 then "0" else "") + Decimal(n)
  }

  function SecondsText(x: nat): string {
    if x != 0 then [':'] + TwoDigits(x) else ""
  }

  function MinutesText(m: nat, x: nat): string {
    if m != 0 || x != 0 then [':'] + (TwoDigits(m) + SecondsText(x)) else ""
  }

  /** Hours, and minutes and seconds where they are not zero. */
  function Clock(t: nat): string {
    Decimal(t / 3600) + MinutesText(t / 60 % 60, t % 60)
  }

  function PrintOffset(off: int): string {
    if off > 0 then ['-'] + Clock(off) else Clock(-off)
  }

  predicate AllLetters(name: string) {
    forall c :: c in name ==> IsAlpha(c)
  }

  function PrintAbbrev(name: string): string {
    if AllLetters(name) then name else ['<'] + (name + ['>'])
  }

  function RuleDayText(r: Rule): string
    requires r.Valid() && !r.Off?
  {
    match r
    case Julian(n, _) => ['J'] + Decimal(n)
    case MonthWeekday(m, n, wd, _) => ['M'] + (Decimal(m) + (['.'] + (Decimal(n) + (['.'] + Decimal(wd)))))
    case DayOfYear(n, _) => Decimal(n)
  }

  /** rule::to_string. */
  function PrintRule(r: Rule): string
    requires r.Valid() && !r.Off?
  {
    RuleDayText(r) + (if r.time != 7200 then ['/'] + Clock(r.time) else "")
  }

  function SaveText(z: TimeZone): string {
    if z.save != 3600 then PrintOffset(z.offset + z.save) else ""
  }

  function RulesText(z: TimeZone): string
    requires z.Valid()
  {
    if z.startRule.Off? then "" else [','] + (PrintRule(z.startRule) + ([','] + PrintRule(z.endRule)))
  }

  function DaylightText(z: TimeZone): string
    requires z.Valid()
  {
    if z.dstAbbrev == "" then "" else PrintAbbrev(z.dstAbbrev) + (SaveText(z) + RulesText(z))
  }

  /** time_zone::name. */
  function Name(z: TimeZone): string
    requires z.Valid()
  {
    PrintAbbrev(z.stdAbbrev) + (PrintOffset(z.offset) + DaylightText(z))
  }

  // ---- Printing, then reading ----

  /** A character, and what stands after it. */
  lemma CharThen(s: string, i: nat, c: char, text: string)
    requires At(s, i, [c] + text)
    ensures Char(s, i, c) && At(s, i + 1, text) && i + 1 + |text| <= |s|
  {
    AtCons(s, i, c, text);
  }

  lemma DecimalDigits(n: nat)
    requires n < 1000
    ensures Decimal(n) ==
      if n < 10 then [DigitChar(n)]
      else if n < 100 then [DigitChar(n / 10), DigitChar(n % 10)]
      else [DigitChar(n / 100), DigitChar(n / 10 % 10), DigitChar(n % 10)]
  {
    if n >= 100 {
      assert Decimal(n) == Decimal(n / 10) + [DigitChar(n % 10)];
      assert Decimal(n / 10) == Decimal(n / 10 / 10) + [DigitChar(n / 10 % 10)];
      assert n / 10 / 10 == n / 100;
    }
  }

  /** Reading goes on with a digit, or stops. */
  lemma ReadsOneMore(s: string, i: nat, limit: nat, count: nat, u: nat)
    requires i < |s| && Digit(s, i) && count < limit
    ensures ReadDigits(s, i, limit, count, u) == ReadDigits(s, i + 1, limit, count + 1, u * 10 + DigitValue(s[i]))
  {
  }

  lemma ReadsNoMore(s: string, i: nat, limit: nat, count: nat, u: nat)
    requires i <= |s| && (!Digit(s, i) || count >= limit)
    ensures ReadDigits(s, i, limit, count, u) == (u, i)
  {
  }

  /** A digit stands at this place. */
  predicate DigitAt(s: string, i: nat, d: nat) {
    Digit(s, i) && DigitValue(s[i]) == d
  }

  lemma AtDigit(s: string, i: nat, text: string, k: nat, d: nat)
    requires At(s, i, text) && k < |text| && d < 10 && text[k] == DigitChar(d)
    ensures i + k < |s| && DigitAt(s, i + k, d)
  {
    AtElement(s, i, text, k);
    hide At;
  }

  lemma OneRead(s: string, i: nat, a: nat, limit: nat, reason: Reason)
    requires i < |s| && DigitAt(s, i, a) && !Digit(s, i + 1)
    ensures ReadUnsigned(s, i, limit, reason) == Good((a, i + 1))
  {
    hide ReadDigits;
    ReadsNoMore(s, i + 1, limit, 1, a);
  }

  lemma TwoRead(s: string, i: nat, a: nat, b: nat, limit: nat, reason: Reason)
    requires i + 1 < |s| && DigitAt(s, i, a) && DigitAt(s, i + 1, b) && !Digit(s, i + 2) && limit >= 2
    ensures ReadUnsigned(s, i, limit, reason) == Good((a * 10 + b, i + 2))
  {
    hide ReadDigits;
    ReadsOneMore(s, i + 1, limit, 1, a);
    ReadsNoMore(s, i + 2, limit, 2, a * 10 + b);
  }

  lemma ThreeRead(s: string, i: nat, a: nat, b: nat, c: nat, limit: nat, reason: Reason)
    requires i + 2 < |s| && DigitAt(s, i, a) && DigitAt(s, i + 1, b) && DigitAt(s, i + 2, c) && !Digit(s, i + 3)
    requires limit >= 3
    ensures ReadUnsigned(s, i, limit, reason) == Good(((a * 10 + b) * 10 + c, i + 3))
  {
    hide ReadDigits;
    ReadsOneMore(s, i + 1, limit, 1, a);
    ReadsOneMore(s, i + 2, limit, 2, a * 10 + b);
    ReadsNoMore(s, i + 3, limit, 3, (a * 10 + b) * 10 + c);
  }

  /** A printed number is read back, if no further digit follows and it fits the digit limit. */
  lemma DecimalReads(s: string, i: nat, n: nat, limit: nat, reason: Reason)
    requires At(s, i, Decimal(n)) && !Digit(s, i + |Decimal(n)|)
    requires n < 1000 && (limit < 3 ==> n < 100) && (limit < 2 ==> n < 10) && limit >= 1
    ensures ReadUnsigned(s, i, limit, reason) == Good((n, i + |Decimal(n)|))
  {
    DecimalDigits(n);
    hide *;
    var text := Decimal(n);
    if n < 10 {
      AtDigit(s, i, text, 0, n);
      OneRead(s, i, n, limit, reason);
    } else if n < 100 {
      AtDigit(s, i, text, 0, n / 10);
      AtDigit(s, i, text, 1, n % 10);
      TwoRead(s, i, n / 10, n % 10, limit, reason);
    } else {
      AtDigit(s, i, text, 0, n / 100);
      AtDigit(s, i, text, 1, n / 10 % 10);
      AtDigit(s, i, text, 2, n % 10);
      ThreeDigits(n);
      ThreeRead(s, i, n / 100, n / 10 % 10, n % 10, limit, reason);
    }
  }

  lemma ThreeDigits(n: nat)
    requires 100 <= n < 1000
    ensures n / 100 * 10 + n / 10 % 10 == n / 10
    ensures n / 10 * 10 + n % 10 == n
  {
  }

  lemma TwoDigitsReads(s: string, i: nat, n: nat, reason: Reason)
    requires n < 60 && At(s, i, TwoDigits(n)) && !Digit(s, i + |TwoDigits(n)|)
    ensures ReadUnsigned(s, i, 2, reason) == Good((n, i + |TwoDigits(n)|))
  {
    if n < 10 {
      assert TwoDigits(n) == ['0', DigitChar(n)];
      AtElement(s, i, TwoDigits(n), 0);
      AtElement(s, i, TwoDigits(n), 1);
      assert ReadDigits(s, i + 2, 2, 2, n) == (n, i + 2);
      assert ReadDigits(s, i + 1, 2, 1, 0) == (n, i + 2);
    } else {
      assert TwoDigits(n) == Decimal(n);
      DecimalReads(s, i, n, 2, reason);
    }
  }

  /** No digit and no colon stands at position `i`: a clock time has ended. */
  predicate ClockEnds(s: string, i: nat) {
    !Digit(s, i) && !Char(s, i, ':')
  }

  lemma SecondsRead(s: string, i: nat, t: nat, x: nat)
    requires x < 60 && At(s, i, SecondsText(x)) && ClockEnds(s, i + |SecondsText(x)|)
    ensures ReadSeconds(s, i, t) == Good((t + x, i + |SecondsText(x)|))
  {
    AtBound(s, i, SecondsText(x));
    if x != 0 {
      hide At, TwoDigits, ReadUnsigned, ClockEnds;
      CharThen(s, i, ':', TwoDigits(x));
      ClockEndsDigits(s, i + |SecondsText(x)|);
      TwoDigitsReads(s, i + 1, x, SecondsExpected);
    }
  }

  lemma ClockEndsDigits(s: string, i: nat)
    requires ClockEnds(s, i)
    ensures !Digit(s, i)
  {
  }

  lemma MinutesRead(s: string, i: nat, t: nat, m: nat, x: nat)
    requires m < 60 && x < 60 && At(s, i, MinutesText(m, x)) && ClockEnds(s, i + |MinutesText(m, x)|)
    ensures ReadMinutes(s, i, t) == Good((t + m * 60 + x, i + |MinutesText(m, x)|))
  {
    hide At, TwoDigits, SecondsText, ReadMinutes, ClockEnds;
    AtBound(s, i, MinutesText(m, x));
    if m != 0 || x != 0 {
      MinutesAndSecondsRead(s, i, t, m, x, MinutesText(m, x));
    } else {
      MinutesAbsent(s, i, t);
    }
  }

  lemma MinutesAbsent(s: string, i: nat, t: nat)
    requires i <= |s| && ClockEnds(s, i)
    ensures ReadMinutes(s, i, t) == Good((t, i))
  {
  }

  lemma MinutesAndSecondsRead(s: string, i: nat, t: nat, m: nat, x: nat, text: string)
    requires m < 60 && x < 60 && text == [':'] + (TwoDigits(m) + SecondsText(x))
    requires At(s, i, text) && ClockEnds(s, i + |text|)
    ensures ReadMinutes(s, i, t) == Good((t + m * 60 + x, i + |text|))
  {
    hide At, ClockEnds, TwoDigits, ReadUnsigned, SecondsText, ReadSeconds, Digit;
    CharThen(s, i, ':', TwoDigits(m) + SecondsText(x));
    AtSplit(s, i + 1, TwoDigits(m), SecondsText(x));
    var j := i + 1 + |TwoDigits(m)|;
    SecondsStart(s, j, x);
    TwoDigitsReads(s, i + 1, m, MinutesExpected);
    SecondsRead(s, j, t + m * 60, x);
  }

  lemma SecondsStart(s: string, i: nat, x: nat)
    requires At(s, i, SecondsText(x)) && ClockEnds(s, i + |SecondsText(x)|)
    ensures !Digit(s, i)
  {
    hide At, TwoDigits;
    if x != 0 {
      CharThen(s, i, ':', TwoDigits(x));
    }
  }

  lemma MinutesStart(s: string, i: nat, m: nat, x: nat)
    requires At(s, i, MinutesText(m, x)) && ClockEnds(s, i + |MinutesText(m, x)|)
    ensures !Digit(s, i)
  {
    hide At, TwoDigits, SecondsText;
    if m != 0 || x != 0 {
      CharThen(s, i, ':', TwoDigits(m) + SecondsText(x));
    }
  }

  /** A printed clock time is read back. */
  lemma ClockReads(s: string, i: nat, t: nat)
    requires t < 25 * 3600 && At(s, i, Clock(t)) && ClockEnds(s, i + |Clock(t)|)
    ensures ReadUnsignedTime(s, i) == Good((t, i + |Clock(t)|))
  {
    hide At, ClockEnds, Decimal, MinutesText, ReadUnsigned, ReadMinutes, Digit;
    var h, m, x := t / 3600, t / 60 % 60, t % 60;
    SplitTime(t);
    AtSplit(s, i, Decimal(h), MinutesText(m, x));
    var j := i + |Decimal(h)|;
    MinutesStart(s, j, m, x);
    DecimalReads(s, i, h, 2, HoursExpected);
    MinutesRead(s, j, h * 3600, m, x);
  }

  lemma SplitTime(t: nat)
    requires t < 25 * 3600
    ensures t / 3600 <= 24 && t == t / 3600 * 3600 + t / 60 % 60 * 60 + t % 60
  {
    assert t / 60 / 60 == t / 3600;
  }

  lemma ClockStart(s: string, i: nat, t: nat)
    requires At(s, i, Clock(t))
    ensures Digit(s, i)
  {
    hide Decimal, MinutesText;
    AtSplit(s, i, Decimal(t / 3600), MinutesText(t / 60 % 60, t % 60));
    hide At, Clock;
    DecimalStart(s, i, t / 3600);
  }

  lemma DecimalStart(s: string, i: nat, n: nat)
    requires At(s, i, Decimal(n))
    ensures Digit(s, i)
  {
    FirstDigit(n);
    AtElement(s, i, Decimal(n), 0);
  }

  lemma {:induction false} FirstDigit(n: nat)
    ensures IsDigit(Decimal(n)[0])
  {
    if n >= 10 {
      FirstDigit(n / 10);
    }
  }

  lemma OffsetReads(s: string, i: nat, off: int)
    requires -25 * 3600 < off < 25 * 3600 && At(s, i, PrintOffset(off)) && ClockEnds(s, i + |PrintOffset(off)|)
    ensures ReadSignedTime(s, i) == Good((-off, i + |PrintOffset(off)|))
  {
    hide At, ClockEnds, ReadUnsignedTime, Clock;
    AtBound(s, i, PrintOffset(off));
    if off > 0 {
      CharThen(s, i, '-', Clock(off));
      ClockReads(s, i + 1, off);
    } else {
      ClockStart(s, i, -off);
      ClockReads(s, i, -off);
    }
  }

  predicate Alpha(s: string, i: nat) {
    i < |s| && IsAlpha(s[i])
  }

  lemma {:induction false} LettersRead(s: string, i: nat, name: string)
    requires At(s, i, name) && (forall c :: c in name ==> IsAlpha(c)) && !Alpha(s, i + |name|)
    ensures Letters(s, i) == name
    decreases |name|
  {
    if name != "" {
      assert name == [name[0]] + name[1..];
      CharThen(s, i, name[0], name[1..]);
      LettersRead(s, i + 1, name[1..]);
    }
  }

  lemma {:induction false} BracketedRead(s: string, i: nat, name: string)
    requires At(s, i, name + ['>']) && NameOk(name)
    ensures Bracketed(s, i) == Good(name)
    decreases |name|
  {
    if name == "" {
      AtElement(s, i, name + ['>'], 0);
    } else {
      assert name + ['>'] == [name[0]] + (name[1..] + ['>']);
      CharThen(s, i, name[0], name[1..] + ['>']);
      BracketedRead(s, i + 1, name[1..]);
      assert name == [name[0]] + name[1..];
    }
  }

  lemma PlainNameReads(s: string, i: nat, name: string)
    requires AllLetters(name) && At(s, i, name) && i < |s| && !Alpha(s, i + |name|)
    requires name == "" ==> s[i] != '<'
    ensures ReadName(s, i) == Good((name, i + |name|))
  {
    hide At;
    LettersRead(s, i, name);
    if name != "" {
      AtElement(s, i, name, 0);
      assert IsAlpha(name[0]);
    }
  }

  lemma BracketedNameReads(s: string, i: nat, name: string)
    requires NameOk(name) && At(s, i, ['<'] + (name + ['>']))
    ensures ReadName(s, i) == Good((name, i + |name| + 2))
  {
    hide At, Bracketed;
    CharThen(s, i, '<', name + ['>']);
    BracketedRead(s, i + 1, name);
  }

  /** A printed abbreviation is read back, in brackets or not. */
  lemma NameReads(s: string, i: nat, name: string)
    requires NameOk(name) && At(s, i, PrintAbbrev(name)) && i < |s|
    requires !Alpha(s, i + |PrintAbbrev(name)|)
    requires name == "" ==> s[i] != '<'
    ensures ReadName(s, i) == Good((name, i + |PrintAbbrev(name)|))
  {
    hide At, AllLetters, ReadName;
    if AllLetters(name) {
      PlainNameReads(s, i, name);
    } else {
      BracketedNameReads(s, i, name);
    }
  }

  /** A rule ends at the end of the text or at a comma. */
  predicate RuleEnds(s: string, i: nat) {
    i < |s| ==> s[i] == ','
  }

  lemma MonthRuleReads(s: string, i: nat, m: nat, n: nat, wd: nat)
    requires 1 <= m <= 12 && 1 <= n <= 5 && wd <= 6
    requires At(s, i, Decimal(m) + (['.'] + (Decimal(n) + (['.'] + Decimal(wd)))))
    requires !Digit(s, i + |Decimal(m)| + 1 + |Decimal(n)| + 1 + |Decimal(wd)|)
    ensures ReadMonthRule(s, i)
      == Good((MonthWeekday(m, n, wd, 7200), i + |Decimal(m)| + 1 + |Decimal(n)| + 1 + |Decimal(wd)|))
  {
    hide At, Decimal, ReadUnsigned;
    AtSplit(s, i, Decimal(m), ['.'] + (Decimal(n) + (['.'] + Decimal(wd))));
    var j := i + |Decimal(m)|;
    CharThen(s, j, '.', Decimal(n) + (['.'] + Decimal(wd)));
    AtSplit(s, j + 1, Decimal(n), ['.'] + Decimal(wd));
    var k := j + 1 + |Decimal(n)|;
    CharThen(s, k, '.', Decimal(wd));
    DecimalReads(s, i, m, 2, MonthExpected);
    DecimalReads(s, j + 1, n, 1, WeekExpected);
    DecimalReads(s, k + 1, wd, 1, WeekdayExpected);
  }

  lemma RuleDayReads(s: string, i: nat, r: Rule)
    requires r.Valid() && !r.Off?
    requires At(s, i, RuleDayText(r)) && !Digit(s, i + |RuleDayText(r)|)
    ensures ReadRuleDay(s, i) == Good((WithTime(r, 7200), i + |RuleDayText(r)|))
  {
    hide At, Decimal, ReadMonthRule, ReadUnsigned;
    match r
    case Julian(n, _) =>
      CharThen(s, i, 'J', Decimal(n));
      DecimalReads(s, i + 1, n, 3, JulianExpected);
    case MonthWeekday(m, n, wd, _) =>
      CharThen(s, i, 'M', Decimal(m) + (['.'] + (Decimal(n) + (['.'] + Decimal(wd)))));
      MonthRuleReads(s, i + 1, m, n, wd);
    case DayOfYear(n, _) =>
      DecimalStart(s, i, n);
      DecimalReads(s, i, n, 3, NoMessage);
  }

  /** A printed rule is read back with its time of day. */
  lemma RuleReads(s: string, i: nat, r: Rule)
    requires r.Valid() && !r.Off?
    requires At(s, i, PrintRule(r)) && RuleEnds(s, i + |PrintRule(r)|)
    ensures ReadDate(s, i) == Good((r, i + |PrintRule(r)|))
  {
    hide At, RuleDayText, ReadRuleDay, Clock, ReadUnsignedTime;
    var time := if r.time != 7200 then ['/'] + Clock(r.time) else "";
    AtSplit(s, i, RuleDayText(r), time);
    var j := i + |RuleDayText(r)|;
    if r.time != 7200 {
      CharThen(s, j, '/', Clock(r.time));
      ClockReads(s, j + 1, r.time);
    }
    RuleDayReads(s, i, r);
  }

  /** A clock time stops before a name, a rule or the end of the text. */
  lemma ClockStops(s: string, i: nat)
    requires i == |s| || Char(s, i, ',') || Char(s, i, '<') || Alpha(s, i)
    ensures ClockEnds(s, i)
  {
  }

  lemma RulesRead(s: string, i: nat, z: TimeZone)
    requires z.Valid() && !z.startRule.Off?
    requires At(s, i, RulesText(z)) && i + |RulesText(z)| == |s|
    ensures Char(s, i, ',') && ReadRules(s, i) == Good((z.startRule, z.endRule))
  {
    hide At, PrintRule, ReadDate, TimeZone.SaveOk, NameOk;
    var start, end := PrintRule(z.startRule), PrintRule(z.endRule);
    CharThen(s, i, ',', start + ([','] + end));
    AtSplit(s, i + 1, start, [','] + end);
    var j := i + 1 + |start|;
    CharThen(s, j, ',', end);
    RuleReads(s, i + 1, z.startRule);
    RuleReads(s, j + 1, z.endRule);
  }

  lemma OffsetStart(s: string, i: nat, off: int)
    requires At(s, i, PrintOffset(off))
    ensures i < |s| && (s[i] == '-' || IsDigit(s[i]))
  {
    hide At, Clock;
    if off > 0 {
      CharThen(s, i, '-', Clock(off));
    } else {
      ClockStart(s, i, -off);
    }
  }

  /** The part after the daylight abbreviation: an optional offset and optional rules. */
  lemma SaveReads(s: string, i: nat, z: TimeZone)
    requires z.Valid() && z.dstAbbrev != "" && i < |s|
    requires At(s, i, SaveText(z) + RulesText(z)) && i + |SaveText(z)| + |RulesText(z)| == |s|
    ensures ReadSave(s, i, z.offset) == Good((z.save, i + |SaveText(z)|))
  {
    hide At, PrintOffset, RulesText, Rule.Valid, NameOk, ReadSignedTime;
    AtSplit(s, i, SaveText(z), RulesText(z));
    var k := i + |SaveText(z)|;
    RulesStart(s, k, z);
    if z.save != 3600 {
      OffsetStart(s, i, z.offset + z.save);
      ClockStops(s, k);
      OffsetReads(s, i, z.offset + z.save);
    }
  }

  lemma RulesStart(s: string, i: nat, z: TimeZone)
    requires z.Valid() && At(s, i, RulesText(z)) && i + |RulesText(z)| == |s|
    ensures i == |s| || (s[i] == ',' && !z.startRule.Off?)
    ensures i == |s| ==> z.startRule.Off?
  {
    hide At, PrintRule, Rule.Valid, NameOk;
    if !z.startRule.Off? {
      CharThen(s, i, ',', PrintRule(z.startRule) + ([','] + PrintRule(z.endRule)));
    }
  }

  lemma DaylightStart(s: string, i: nat, name: string)
    requires name != "" && At(s, i, PrintAbbrev(name))
    ensures i < |s| && (s[i] == '<' || IsAlpha(s[i]))
  {
    AtElement(s, i, PrintAbbrev(name), 0);
  }

  lemma AfterDaylightName(s: string, i: nat, z: TimeZone)
    requires z.Valid() && z.dstAbbrev != ""
    requires At(s, i, SaveText(z) + RulesText(z)) && i + |SaveText(z)| + |RulesText(z)| == |s|
    ensures !Alpha(s, i)
  {
    hide At, PrintOffset, RulesText, Rule.Valid, NameOk;
    AtSplit(s, i, SaveText(z), RulesText(z));
    if z.save != 3600 {
      OffsetStart(s, i, z.offset + z.save);
    } else {
      RulesStart(s, i, z);
    }
  }

  lemma SaveAndRulesRead(s: string, i: nat, z: TimeZone)
    requires z.Valid() && z.dstAbbrev != ""
    requires At(s, i, SaveText(z) + RulesText(z)) && i + |SaveText(z)| + |RulesText(z)| == |s|
    ensures ReadSaveAndRules(s, i, z.offset) == Good((z.save, z.startRule, z.endRule))
  {
    hide At, SaveText, RulesText, ReadSave, ReadRules, Rule.Valid, TimeZone.SaveOk, NameOk;
    AtSplit(s, i, SaveText(z), RulesText(z));
    var k := i + |SaveText(z)|;
    RulesStart(s, k, z);
    if i == |s| {
      EmptySave(z);
    } else {
      SaveReads(s, i, z);
      if k < |s| {
        RulesRead(s, k, z);
      }
    }
  }

  lemma DaylightParts(s: string, i: nat, z: TimeZone)
    requires z.Valid() && z.dstAbbrev != "" && At(s, i, DaylightText(z)) && i + |DaylightText(z)| == |s|
    ensures var j := i + |PrintAbbrev(z.dstAbbrev)|;
      && At(s, i, PrintAbbrev(z.dstAbbrev)) && At(s, j, SaveText(z) + RulesText(z))
      && j + |SaveText(z)| + |RulesText(z)| == |s|
  {
    hide At, PrintAbbrev, SaveText, RulesText, Rule.Valid, TimeZone.SaveOk, NameOk;
    AtSplit(s, i, PrintAbbrev(z.dstAbbrev), SaveText(z) + RulesText(z));
  }

  /** What name() prints after the standard offset is read back. */
  lemma TailReads(s: string, i: nat, nameEnd: nat, z: TimeZone)
    requires z.Valid() && z.dstAbbrev != "" && At(s, i, DaylightText(z)) && i + |DaylightText(z)| == |s|
    ensures i < |s| && (Char(s, i, '<') || Alpha(s, i))
    ensures ReadTail(s, i, nameEnd, z.offset)
      == Good(Tail(z.dstAbbrev, i + |PrintAbbrev(z.dstAbbrev)|, z.save, z.startRule, z.endRule))
  {
    hide At, PrintAbbrev, SaveText, RulesText, ReadName, ReadSaveAndRules, DaylightText, Rule.Valid, TimeZone.SaveOk;
    DaylightParts(s, i, z);
    var j := i + |PrintAbbrev(z.dstAbbrev)|;
    DaylightStart(s, i, z.dstAbbrev);
    AfterDaylightName(s, j, z);
    NameReads(s, i, z.dstAbbrev);
    SaveAndRulesRead(s, j, z);
  }

  lemma EmptySave(z: TimeZone)
    requires SaveText(z) == ""
    ensures z.save == 3600
  {
    if z.save != 3600 {
      NonEmptyOffset(z.offset + z.save);
    }
  }

  lemma NonEmptyOffset(off: int)
    ensures PrintOffset(off) != ""
  {
    hide MinutesText;
  }

  /** The name of every valid zone is accepted, and constructs a zone equal in all fields. */
  lemma NameRoundTrip(z: TimeZone)
    requires z.Valid()
    ensures ParseZone(Name(z)) == Good(z)
  {
    hide At, PrintAbbrev, PrintOffset, DaylightText, ReadName, ReadSignedTime, ReadTail, Rule.Valid, TimeZone.SaveOk;
    var s := Name(z);
    var std, off, rest := PrintAbbrev(z.stdAbbrev), PrintOffset(z.offset), DaylightText(z);
    AtWhole(s);
    AtSplit(s, 0, std, off + rest);
    AtSplit(s, |std|, off, rest);
    var i := |std|;
    var j := i + |off|;
    OffsetStart(s, i, z.offset);
    StandardNameReads(s, z);
    if z.dstAbbrev == "" {
      NoDaylight(s, j, i, z);
    } else {
      TailReads(s, j, i, z);
    }
    ClockStops(s, j);
    OffsetReads(s, i, z.offset);
  }

  lemma NoDaylight(s: string, j: nat, nameEnd: nat, z: TimeZone)
    requires z.Valid() && z.dstAbbrev == "" && j + |DaylightText(z)| == |s|
    ensures j == |s| && ReadTail(s, j, nameEnd, z.offset) == Good(Tail("", nameEnd, 3600, Off, Off))
  {
  }

  lemma StandardNameReads(s: string, z: TimeZone)
    requires NameOk(z.stdAbbrev)
    requires At(s, 0, PrintAbbrev(z.stdAbbrev)) && At(s, |PrintAbbrev(z.stdAbbrev)|, PrintOffset(z.offset))
    ensures ReadName(s, 0) == Good((z.stdAbbrev, |PrintAbbrev(z.stdAbbrev)|))
  {
    hide At, PrintAbbrev, PrintOffset, ReadName, NameOk;
    OffsetStart(s, |PrintAbbrev(z.stdAbbrev)|, z.offset);
    EmptyAbbrev(z.stdAbbrev);
    NameReads(s, 0, z.stdAbbrev);
  }

  lemma EmptyAbbrev(name: string)
    ensures name == "" ==> PrintAbbrev(name) == ""
  {
  }

  /** For every text that the constructor accepts, its name constructs the same zone again, and prints as itself. */
  lemma ConstructorRoundTrip(s: string)
    requires ParseZone(s).Good?
    ensures var z := ParseZone(s).value;
      z.Valid() && ParseZone(Name(z)) == Good(z)
  {
    hide ParseZone, TimeZone.Valid, Name;
    ParsedIsValid(s);
    NameRoundTrip(ParseZone(s).value);
  }

  /** The constructor builds exactly the valid zones. */
  lemma ConstructedZones(z: TimeZone)
    ensures z.Valid() <==> exists s :: ParseZone(s) == Good(z)
  {
    hide ParseZone, TimeZone.Valid, Name;
    if z.Valid() {
      NameRoundTrip(z);
    } else if s :| ParseZone(s) == Good(z) {
      ParsedIsValid(s);
    }
  }
}
