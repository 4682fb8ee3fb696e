/** The loops of ptz.h that move a cursor over the text, each computing its reader function. */
module PosixReader {
  import opened Decimals
  import opened Sequences
  import opened PosixZone
  import opened PosixText

  method ReadUnsignedLoop(s: string, i: nat, limit: nat, reason: Reason) returns (r: Parsed<(nat, nat)>)
    requires i <= |s|
    ensures r == ReadUnsigned(s, i, limit, reason)
  {
    if i == |s| || !IsDigit(s[i]) {
      return Bad(Error(i, reason));
    }
    var u: nat := DigitValue(s[i]);
    var count: nat := 1;
    var j := i + 1;
    while count < limit && j != |s| && IsDigit(s[j])
      invariant i < j <= |s|
      invariant ReadDigits(s, j, limit, count, u) == ReadDigits(s, i + 1, limit, 1, DigitValue(s[i]))
      decreases |s| - j
    {
      u := u * 10 + DigitValue(s[j]);
      j, count := j + 1, count + 1;
    }
    return Good((u, j));
  }

  method ReadNameLoop(s: string, i: nat) returns (r: Parsed<(string, nat)>)
    requires i <= |s|
    ensures r == ReadName(s, i)
  {
    if i == |s| {
      return Bad(Error(i, NameMissing));
    }
    var name := "";
    var j := i;
    if s[i] == '<' {
      j := j + 1;
      PrependEmpty(Bracketed(s, j));
      while true
        invariant i < j <= |s|
        invariant |name| == j - i - 1
        invariant Bracketed(s, i + 1) == Prepend(name, Bracketed(s, j))
        decreases |s| - j
      {
        if j == |s| {
          return Bad(Error(j, BracketOpen));
        }
        if s[j] == '>' {
          assert Prepend(name, Good("")) == Good(name) by { assert name + "" == name; }
          break;
        }
        PrependAppend(name, s[j], Bracketed(s, j + 1));
        name := name + [s[j]];
        j := j + 1;
      }
      j := j + 1;
    } else {
      while j != |s| && IsAlpha(s[j])
        invariant i <= j <= |s|
        invariant |name| == j - i
        invariant Letters(s, i) == name + Letters(s, j)
        decreases |s| - j
      {
        assert name + ([s[j]] + Letters(s, j + 1)) == name + [s[j]] + Letters(s, j + 1);
        name := name + [s[j]];
        j := j + 1;
      }
      assert name + "" == name;
    }
    return Good((name, j));
  }

  /** Characters read before the rest of a bracketed name. */
  function Prepend(name: string, rest: Parsed<string>): Parsed<string> {
    match rest
    case Good(text) => Good(name + text)
    case Bad(_) => rest
  }

  lemma PrependEmpty(rest: Parsed<string>)
    ensures Prepend("", rest) == rest
  {
    if rest.Good? {
      assert "" + rest.value == rest.value;
    }
  }

  lemma PrependAppend(name: string, c: char, rest: Parsed<string>)
    ensures Prepend(name + [c], rest) == Prepend(name, Prepend([c], rest))
  {
    if rest.Good? {
      assert name + [c] + rest.value == name + ([c] + rest.value);
    }
  }

  method ReadUnsignedTimeAt(s: string, i: nat) returns (r: Parsed<(nat, nat)>)
    requires i <= |s|
    ensures r == ReadUnsignedTime(s, i)
  {
    if i == |s| {
      return Bad(Error(i, TimeMissing));
    }
    var xRead :- ReadUnsignedLoop(s, i, 2, HoursExpected);
    var x, j := xRead.0, xRead.1;
    if x > 24 {
      return Bad(Error(j - 1, HoursRange));
    }
    var t := x * 3600;
    if j != |s| && s[j] == ':' {
      j := j + 1;
      var mRead :- ReadUnsignedLoop(s, j, 2, MinutesExpected);
      var m, k := mRead.0, mRead.1;
      j := k;
      if m > 59 {
        return Bad(Error(j - 1, MinutesRange));
      }
      t := t + m * 60;
      if j != |s| && s[j] == ':' {
        j := j + 1;
        var secRead :- ReadUnsignedLoop(s, j, 2, SecondsExpected);
        var sec, n := secRead.0, secRead.1;
        j := n;
        if sec > 59 {
          return Bad(Error(j - 1, SecondsRange));
        }
        t := t + sec;
      }
    }
    return Good((t, j));
  }

  method ReadSignedTimeAt(s: string, i: nat) returns (r: Parsed<(int, nat)>)
    requires i <= |s|
    ensures r == ReadSignedTime(s, i)
  {
    if i == |s| {
      return Bad(Error(i, SignedTimeMissing));
    }
    var negative := false;
    var j := i;
    if s[j] == '-' {
      negative := true;
      j := j + 1;
    } else if s[j] == '+' {
      j := j + 1;
    }
    var tRead :- ReadUnsignedTimeAt(s, j);
    var t, k := tRead.0, tRead.1;
    return Good((Signed(negative, t), k));
  }

  method ReadDateAt(s: string, i: nat) returns (r: Parsed<(Rule, nat)>)
    requires i <= |s|
    ensures r == ReadDate(s, i)
  {
    if i == |s| {
      return Bad(Error(i, RuleMissing));
    }
    hide ReadUnsignedTime, ReadDigits;
    var rule := Off;
    var j := i;
    if s[j] == 'J' {
      j := j + 1;
      var nRead :- ReadUnsignedLoop(s, j, 3, JulianExpected);
      var n, k := nRead.0, nRead.1;
      j := k;
      if !(1 <= n <= 365) {
        return Bad(Error(j - 1, JulianRange));
      }
      rule := Julian(n, 7200);
    } else if s[j] == 'M' {
      j := j + 1;
      var mRead :- ReadUnsignedLoop(s, j, 2, MonthExpected);
      var m, k := mRead.0, mRead.1;
      j := k;
      if !(1 <= m <= 12) {
        return Bad(Error(j - 1, MonthRange));
      }
      if j == |s| || s[j] != '.' {
        return Bad(Error(j, DotAfterMonth));
      }
      j := j + 1;
      var nRead :- ReadUnsignedLoop(s, j, 1, WeekExpected);
      var n, l := nRead.0, nRead.1;
      j := l;
      if !(1 <= n <= 5) {
        return Bad(Error(j - 1, WeekRange));
      }
      if j == |s| || s[j] != '.' {
        return Bad(Error(j, DotAfterWeek));
      }
      j := j + 1;
      var wdRead :- ReadUnsignedLoop(s, j, 1, WeekdayExpected);
      var wd, p := wdRead.0, wdRead.1;
      j := p;
      if wd > 6 {
        return Bad(Error(j - 1, WeekdayRange));
      }
      rule := MonthWeekday(m, n, wd, 7200);
    } else if IsDigit(s[j]) {
      var nRead := ReadUnsignedLoop(s, j, 3, NoMessage);
      var n, k := nRead.value.0, nRead.value.1;
      j := k;
      if n > 365 {
        return Bad(Error(j - 1, DayOfYearRange));
      }
      rule := DayOfYear(n, 7200);
    } else {
      return Bad(Error(j, RuleStart));
    }
    if j != |s| && s[j] == '/' {
      j := j + 1;
      var tRead :- ReadUnsignedTimeAt(s, j);
      var t, k := tRead.0, tRead.1;
      j := k;
      rule := WithTime(rule, t);
    }
    return Good((rule, j));
  }

  /** The constructor, with the fields it fills as it moves the cursor. */
  method Construct(s: string) returns (r: Parsed<TimeZone>)
    ensures r == ParseZone(s)
  {
    hide ReadName, ReadSignedTime, ReadDate, Rule.Valid;
    var save := 3600;
    var dst := "";
    var startRule, endRule := Off, Off;
    var stdRead :- ReadNameLoop(s, 0);
    var std, i := stdRead.0, stdRead.1;
    var stdNameEnd := i;
    var dstNameEnd := i;
    var tRead :- ReadSignedTimeAt(s, i);
    var t, j := tRead.0, tRead.1;
    i := j;
    var offset := -t;
    if i != |s| {
      var nameRead :- ReadNameLoop(s, i);
      var name, k := nameRead.0, nameRead.1;
      i, dst, dstNameEnd := k, name, k;
      if i != |s| {
        if s[i] != ',' {
          var uRead :- ReadSignedTimeAt(s, i);
          var u, l := uRead.0, uRead.1;
          i, save := l, -u - offset;
        }
        if i != |s| {
          if s[i] != ',' {
            return Bad(Error(i, CommaExpected));
          }
          i := i + 1;
          var startRead :- ReadDateAt(s, i);
          var start, m := startRead.0, startRead.1;
          i, startRule := m, start;
          if i == |s| || s[i] != ',' {
            return Bad(Error(i, EndRuleExpected));
          }
          i := i + 1;
          var endRead :- ReadDateAt(s, i);
          var end, n := endRead.0, endRead.1;
          i, endRule := n, end;
          if i != |s| {
            return Bad(Error(i, TrailingText));
          }
        }
      }
    }
    if !startRule.Off? {
      if |std| < 3 {
        return Bad(Error(stdNameEnd, StdNameTooShort));
      }
      if |dst| < 3 {
        return Bad(Error(dstNameEnd, DstNameTooShort));
      }
    } else if |dst| >= 3 {
      std := "";
    } else if |std| < 3 {
      return Bad(Error(stdNameEnd, NoName));
    } else {
      dst, save := "", 0;
    }
    return Good(TimeZone(std, dst, offset, save, startRule, endRule));
  }
}
