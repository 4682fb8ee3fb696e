/**
 Strict decoding of standard Base64 (mieru.go), as Go's encoding/base64 does it: padded, the unused bits of the last
 digit are zero, and line ends are ignored. Section 3.5 of RFC 4648 calls such texts canonical.
 */
module StrictBase64 {
  import opened Sequences
  import opened LooseBase64

  const STANDARD := Encoding(false, true)

  /** The last digit, when it is not used whole, has no bits beyond those that are used. */
  predicate NoUnusedBits(s: string)
    decreases |s|
  {
    if |s| > 4 then NoUnusedBits(s[4..])
    else if |s| < 4 || s[3] != '=' then true
    else if s[2] != '=' then Value(s[2], false).Some? ==> Value(s[2], false).value % 4 == 0
    else Value(s[1], false).Some? ==> Value(s[1], false).value % 16 == 0
  }

  function DecodeStrict(s: string): Option<Bytes> {
    var clean := WithoutLineEnds(s);
    if NoUnusedBits(clean) then DecodeClean(STANDARD, clean) else None
  }

  // ---- Digits and groups, backwards ----

  lemma DigitOfValue(c: char)
    requires Value(c, false).Some?
    ensures Digit(Value(c, false).value, false) == c
  {
  }

  lemma FirstDigit(v: int, w: int)
    requires 0 <= v < 64 && 0 <= w < 64
    ensures (v * 4 + w / 16) / 4 == v && 0 <= v * 4 + w / 16 < 256
  {
  }

  lemma SecondDigit(v: int, w: int, x: int)
    requires 0 <= v < 64 && 0 <= w < 64 && 0 <= x < 64
    ensures (v * 4 + w / 16) % 4 * 16 + (w % 16 * 16 + x / 4) / 16 == w && 0 <= w % 16 * 16 + x / 4 < 256
  {
  }

  lemma ThirdDigit(w: int, x: int, y: int)
    requires 0 <= w < 64 && 0 <= x < 64 && 0 <= y < 64
    ensures (w % 16 * 16 + x / 4) % 16 * 4 + (x % 4 * 64 + y) / 64 == x
    ensures (x % 4 * 64 + y) % 64 == y && 0 <= x % 4 * 64 + y < 256
  {
  }

  /** The bytes of four digits are printed as these digits. */
  lemma GroupOfTriple(v: int, w: int, x: int, y: int)
    requires 0 <= v < 64 && 0 <= w < 64 && 0 <= x < 64 && 0 <= y < 64
    ensures var b := Triple(v, w, x, y);
      && AllBytes(b)
      && EncodeGroup(b[0], b[1], b[2], false) == [Digit(v, false), Digit(w, false), Digit(x, false), Digit(y, false)]
  {
    FirstDigit(v, w);
    SecondDigit(v, w, x);
    ThirdDigit(w, x, y);
    hide Digit;
  }

  lemma WholeGroup(s: string, rest: Bytes)
    requires Digits(s, 4, false) && AllBytes(rest) && s[4..] == Encode(STANDARD, rest)
    ensures var b := Triple(Value(s[0], false).value, Value(s[1], false).value,
        Value(s[2], false).value, Value(s[3], false).value) + rest;
      AllBytes(b) && s == Encode(STANDARD, b)
  {
    hide Value, Digit, EncodeGroup, Triple;
    var v, w := Value(s[0], false).value, Value(s[1], false).value;
    var x, y := Value(s[2], false).value, Value(s[3], false).value;
    GroupOfTriple(v, w, x, y);
    DigitOfValue(s[0]);
    DigitOfValue(s[1]);
    DigitOfValue(s[2]);
    DigitOfValue(s[3]);
    var b := Triple(v, w, x, y) + rest;
    assert b[3..] == rest;
    EncodeMore(STANDARD, b);
    assert s == s[..4] + s[4..];
    assert s[..4] == [s[0], s[1], s[2], s[3]];
  }

  lemma ThreeDigits(s: string)
    requires |s| == 4 && s[3] == '=' && Digits(s, 3, false) && NoUnusedBits(s) && s[2] != '='
    ensures var b := Triple(Value(s[0], false).value, Value(s[1], false).value, Value(s[2], false).value, 0)[..2];
      AllBytes(b) && s == Encode(STANDARD, b)
  {
    hide Value, Digit, EncodeGroup, Triple;
    var v, w, x := Value(s[0], false).value, Value(s[1], false).value, Value(s[2], false).value;
    GroupOfTriple(v, w, x, 0);
    ThirdByteIsZero(v, w, x);
    DigitOfValue(s[0]);
    DigitOfValue(s[1]);
    DigitOfValue(s[2]);
    assert s == [s[0], s[1], s[2]] + "=";
  }

  lemma ThirdByteIsZero(v: int, w: int, x: int)
    requires x % 4 == 0
    ensures |Triple(v, w, x, 0)| == 3 && Triple(v, w, x, 0)[2] == 0
  {
  }

  lemma TwoDigits(s: string)
    requires |s| == 4 && s[3] == '=' && s[2] == '=' && Digits(s, 2, false) && NoUnusedBits(s)
    ensures var b := Triple(Value(s[0], false).value, Value(s[1], false).value, 0, 0)[..1];
      AllBytes(b) && s == Encode(STANDARD, b)
  {
    hide Value, Digit, EncodeGroup, Triple;
    var v, w := Value(s[0], false).value, Value(s[1], false).value;
    GroupOfTriple(v, w, 0, 0);
    OtherBytesAreZero(v, w);
    DigitOfValue(s[0]);
    DigitOfValue(s[1]);
    assert s == [s[0], s[1]] + "==";
  }

  lemma OtherBytesAreZero(v: int, w: int)
    requires w % 16 == 0
    ensures |Triple(v, w, 0, 0)| == 3 && Triple(v, w, 0, 0)[1] == 0 && Triple(v, w, 0, 0)[2] == 0
  {
  }

  // ---- Exactness ----

  lemma {:induction false} DecodedIsCanonical(s: string)
    requires NoUnusedBits(s) && DecodeClean(STANDARD, s).Some?
    ensures AllBytes(DecodeClean(STANDARD, s).value) && s == Encode(STANDARD, DecodeClean(STANDARD, s).value)
    decreases |s|
  {
    hide Value, Triple, EncodeGroup, Encode;
    PadIsNoDigit(false);
    if s == "" {
      NoBytes();
    } else if Digits(s, 4, false) {
      if |s| == 4 {
        NoBytes();
        assert s[4..] == "";
      } else {
        DecodedIsCanonical(s[4..]);
      }
      WholeGroup(s, DecodeClean(STANDARD, s[4..]).value);
    } else if |s| == 4 && s[3] == '=' && Digits(s, 3, false) {
      ThreeDigits(s);
    } else {
      TwoDigits(s);
    }
  }

  lemma NoBytes()
    ensures AllBytes([]) && Encode(STANDARD, []) == "" && DecodeClean(STANDARD, "") == Some([])
  {
  }

  lemma {:induction false} EncodedHasNoUnusedBits(b: Bytes)
    requires AllBytes(b)
    ensures NoUnusedBits(Encode(STANDARD, b))
    decreases |b|
  {
    if |b| > 2 {
      EncodeMore(STANDARD, b);
      EncodedHasNoUnusedBits(b[3..]);
      FullHasNoUnusedBits(b[0], b[1], b[2], Encode(STANDARD, b[3..]));
    } else if b != [] {
      LastHasNoUnusedBits(b);
    }
    hide *;
  }

  lemma FullHasNoUnusedBits(a: int, b: int, c: int, rest: string)
    requires 0 <= a < 256 && 0 <= b < 256 && 0 <= c < 256 && NoUnusedBits(rest)
    ensures NoUnusedBits(EncodeGroup(a, b, c, false) + rest)
  {
    GroupDigits(a, b, c, false, false);
    var s := EncodeGroup(a, b, c, false) + rest;
    hide EncodeGroup, Value, Digits;
    assert s[4..] == rest;
  }

  lemma OneByteText(a: int)
    requires 0 <= a < 256
    ensures var s := Encode(STANDARD, [a]); |s| == 4 && s[2] == '=' && s[3] == '='
    ensures Value(Encode(STANDARD, [a])[1], false) in {None, Some(a % 4 * 16)}
  {
    GroupDigits(a, 0, 0, false, false);
    GroupIsDigits(a, 0, 0, false);
    hide EncodeGroup, Value, Digits;
    assert Encode(STANDARD, [a])[1] == EncodeGroup(a, 0, 0, false)[1];
  }

  lemma TwoBytesText(a: int, b: int)
    requires 0 <= a < 256 && 0 <= b < 256
    ensures var s := Encode(STANDARD, [a, b]); |s| == 4 && s[2] != '=' && s[3] == '='
    ensures Value(Encode(STANDARD, [a, b])[2], false) in {None, Some(b % 16 * 4)}
  {
    GroupDigits(a, b, 0, false, false);
    GroupIsDigits(a, b, 0, false);
    hide EncodeGroup, Value, Digits;
    assert Encode(STANDARD, [a, b])[2] == EncodeGroup(a, b, 0, false)[2];
  }

  lemma TwoDigitTail(s: string, n: int)
    requires |s| == 4 && s[2] == '=' && s[3] == '=' && Value(s[1], false) in {None, Some(n * 16)}
    ensures NoUnusedBits(s)
  {
    hide Value;
  }

  lemma ThreeDigitTail(s: string, n: int)
    requires |s| == 4 && s[2] != '=' && s[3] == '=' && Value(s[2], false) in {None, Some(n * 4)}
    ensures NoUnusedBits(s)
  {
    hide Value;
  }

  lemma LastHasNoUnusedBits(b: Bytes)
    requires AllBytes(b) && 1 <= |b| <= 2
    ensures NoUnusedBits(Encode(STANDARD, b))
  {
    var a := b[0];
    assert 0 <= a < 256 && (|b| == 2 ==> 0 <= b[1] < 256);
    hide *;
    if |b| == 1 {
      assert b == [a];
      OneByteText(a);
      TwoDigitTail(Encode(STANDARD, b), a % 4);
    } else {
      assert b == [a, b[1]];
      TwoBytesText(a, b[1]);
      ThreeDigitTail(Encode(STANDARD, b), b[1] % 16);
    }
  }

  /** A text is decoded to some bytes exactly if it is, but for line ends, what these bytes are printed as. */
  lemma StrictExact(s: string, b: Bytes)
    ensures DecodeStrict(s) == Some(b) <==> AllBytes(b) && WithoutLineEnds(s) == Encode(STANDARD, b)
  {
    var clean := WithoutLineEnds(s);
    if DecodeStrict(s) == Some(b) {
      DecodedIsCanonical(clean);
    } else if AllBytes(b) && clean == Encode(STANDARD, b) {
      DecodersAgree(STANDARD, STANDARD, b);
      EncodedHasNoUnusedBits(b);
    }
    hide WithoutLineEnds, DecodeClean, Encode, NoUnusedBits;
  }

  lemma FewBytesLength(b: Bytes)
    requires AllBytes(b) && |b| <= 2
    ensures |Encode(STANDARD, b)| == if b == [] then 0 else 4
  {
    hide Digit;
  }

  lemma GroupsOf(n: nat)
    requires n > 2
    ensures (n + 2) / 3 * 4 == 4 + (n - 3 + 2) / 3 * 4
  {
  }

  /** Four digits for every three bytes or less. */
  lemma {:induction false} EncodedLength(b: Bytes)
    requires AllBytes(b)
    ensures |Encode(STANDARD, b)| == (|b| + 2) / 3 * 4
    decreases |b|
  {
    if |b| > 2 {
      EncodeMore(STANDARD, b);
      GroupIsDigits(b[0], b[1], b[2], false);
      EncodedLength(b[3..]);
      GroupsOf(|b|);
    } else {
      FewBytesLength(b);
    }
    hide *;
  }
}
