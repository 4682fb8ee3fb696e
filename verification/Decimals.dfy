/** Decimal numbers as they are printed and read. */
module Decimals {
  import opened Sequences

  function DigitValue(c: char): nat
    requires IsDigit(c)
  {
    c as int - '0' as int
  }

  function DigitChar(d: nat): (c: char)
    requires d < 10
    ensures IsDigit(c) && DigitValue(c) == d
  {
    '0' + d as char
  }

  /** std::to_string and strconv.Itoa of a number that is not negative. */
  function Decimal(n: nat): (s: string)
    ensures |s| >= 1
  {
    if n < 10 then [DigitChar(n)] else Decimal(n / 10) + [DigitChar(n % 10)]
  }

  predicate AllDigits(s: string) {
    forall k :: 0 <= k < |s| ==> IsDigit(s[k])
  }

  /** The number that some digits denote. */
  function NumberOf(s: string): nat
    requires AllDigits(s)
  {
    if s == "" then 0 else NumberOf(s[..|s| - 1]) * 10 + DigitValue(s[|s| - 1])
  }

  lemma {:induction false} DecimalReadsBack(n: nat)
    ensures AllDigits(Decimal(n)) && NumberOf(Decimal(n)) == n
  {
    if n < 10 {
      assert Decimal(n)[..0] == "";
    } else {
      DecimalReadsBack(n / 10);
      var s, t := Decimal(n), Decimal(n / 10);
      assert s[..|s| - 1] == t && s[|s| - 1] == DigitChar(n % 10);
    }
  }

  /** No number is printed with a zero in front. */
  lemma {:induction false} DecimalStart(n: nat)
    ensures Decimal(n)[0] == '0' ==> n == 0
  {
    if n >= 10 {
      DecimalStart(n / 10);
    }
  }

  const MIN_INT64 := -0x8000_0000_0000_0000
  const MAX_INT64 := 0x7fff_ffff_ffff_ffff

  /** strconv.Atoi: a sign is optional, and the number fits a 64-bit integer. */
  function Atoi(s: string): Option<int> {
    var digits := if s != "" && s[0] in "+-" then s[1..] else s;
    if digits == "" || !AllDigits(digits) then None
    else
      var magnitude: int := NumberOf(digits);
      var n := if s[0] == '-' then -magnitude else magnitude;
      if MIN_INT64 <= n <= MAX_INT64 then Some(n) else None
  }

  lemma AtoiDecimal(n: nat)
    requires n <= MAX_INT64
    ensures Atoi(Decimal(n)) == Some(n) && '-' !in Decimal(n)
  {
    DecimalReadsBack(n);
    hide Decimal, NumberOf;
  }
}
