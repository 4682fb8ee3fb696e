/**
 What each of the decoders of Go's encoding/base64 accepts, and what it makes of it: sections 4 and 5 of RFC 4648,
 with the bits that the last digit has left over ignored.
 */
module LooseBase64Exact {
  import opened Sequences
  import opened GoStrings
  import opened LooseBase64

  /** The text without line ends: its first `n` characters are digits, and padding fills the last group if it has to. */
  predicate Shape(e: Encoding, t: string, n: nat) {
    && n <= |t| && n % 4 != 1 && Digits(t, n, e.url)
    && (e.padded ==> |t| % 4 == 0 && |t| < n + 4 && forall k :: n <= k < |t| ==> t[k] == '=')
    && (!e.padded ==> |t| == n)
  }

  function SixBits(t: string, k: nat, url: bool): int {
    if k < |t| && Value(t[k], url).Some? then Value(t[k], url).value else 0
  }

  /** Byte `i` of the decoded text: eight of the bits of two neighbouring digits. */
  function ByteAt(t: string, i: nat, url: bool): int {
    var k := i / 3 * 4 + i % 3;
    if i % 3 == 0 then SixBits(t, k, url) * 4 + SixBits(t, k + 1, url) / 16
    else if i % 3 == 1 then SixBits(t, k, url) % 16 * 16 + SixBits(t, k + 1, url) / 4
    else SixBits(t, k, url) % 4 * 64 + SixBits(t, k + 1, url)
  }

  predicate BytesFrom(t: string, n: nat, url: bool, b: Bytes) {
    |b| == n * 3 / 4 && forall i :: 0 <= i < |b| ==> b[i] == ByteAt(t, i, url)
  }

  lemma ByteLater(t: string, i: nat, url: bool)
    requires |t| >= 4
    ensures ByteAt(t, i + 3, url) == ByteAt(t[4..], i, url)
  {
    assert (i + 3) / 3 * 4 + (i + 3) % 3 == i / 3 * 4 + i % 3 + 4;
    BitsLater(t, i / 3 * 4 + i % 3, url);
    BitsLater(t, i / 3 * 4 + i % 3 + 1, url);
    hide SixBits;
  }

  lemma BitsLater(t: string, k: nat, url: bool)
    requires |t| >= 4
    ensures SixBits(t, k + 4, url) == SixBits(t[4..], k, url)
  {
    hide Value;
  }

  /** The bytes of the first four digits. */
  function FirstGroup(t: string, url: bool): Bytes
    requires Digits(t, 4, url)
  {
    Triple(Value(t[0], url).value, Value(t[1], url).value, Value(t[2], url).value, Value(t[3], url).value)
  }

  lemma FirstThree(t: string, url: bool)
    requires Digits(t, 4, url)
    ensures var g := FirstGroup(t, url);
      forall i :: 0 <= i < 3 ==> g[i] == ByteAt(t, i, url)
  {
    hide Value;
  }

  lemma GroupBytes(t: string, n: nat, url: bool, rest: Bytes)
    requires Digits(t, 4, url) && n >= 4
    ensures var g := FirstGroup(t, url);
      BytesFrom(t, n, url, g + rest) <==> BytesFrom(t[4..], n - 4, url, rest)
  {
    FirstThree(t, url);
    forall i: nat
      ensures ByteAt(t, i + 3, url) == ByteAt(t[4..], i, url)
    {
      ByteLater(t, i, url);
    }
    hide Value, ByteAt;
    var g := FirstGroup(t, url);
    assert forall i :: 0 <= i < |rest| ==> (g + rest)[i + 3] == rest[i];
    if BytesFrom(t, n, url, g + rest) {
      assert forall i :: 0 <= i < |rest| ==> rest[i] == (g + rest)[i + 3] == ByteAt(t, i + 3, url);
    }
    if BytesFrom(t[4..], n - 4, url, rest) {
      assert forall i :: 3 <= i < |g + rest| ==>
        (g + rest)[i] == rest[i - 3] && ByteAt(t, (i - 3) + 3, url) == rest[i - 3];
    }
  }

  ghost predicate Denotes(e: Encoding, t: string, b: Bytes) {
    exists n: nat :: Shape(e, t, n) && BytesFrom(t, n, e.url, b)
  }

  lemma ShapeStep(e: Encoding, t: string, n: nat)
    requires Digits(t, 4, e.url)
    ensures Shape(e, t, n) <==> n >= 4 && Shape(e, t[4..], n - 4)
  {
    PadIsNoDigit(e.url);
    hide Value;
    assert n < 4 ==> Value(t[n], e.url).Some?;
    if n >= 4 {
      assert forall k :: 0 <= k < |t| - 4 ==> t[4..][k] == t[k + 4];
      assert forall k :: 4 <= k < |t| ==> t[k] == t[4..][k - 4];
      assert (n - 4) % 4 == n % 4 && (|t| - 4) % 4 == |t| % 4;
    }
  }

  lemma ShortShape(e: Encoding, t: string, n: nat)
    requires !Digits(t, 4, e.url)
    ensures Shape(e, t, n) <==>
      || (n == 0 && t == "")
      || (n == 2 && Digits(t, 2, e.url) && if e.padded then |t| == 4 && t[2] == t[3] == '=' else |t| == 2)
      || (n == 3 && Digits(t, 3, e.url) && if e.padded then |t| == 4 && t[3] == '=' else |t| == 3)
  {
    FewerDigits(t, n, e.url);
    hide Value;
  }

  lemma FewerDigits(t: string, n: nat, url: bool)
    ensures n >= 4 && Digits(t, n, url) ==> Digits(t, 4, url)
  {
    hide Value;
  }

  lemma ShortBytes(t: string, n: nat, url: bool, b: Bytes)
    requires (n == 0 || n == 2 || n == 3) && Digits(t, n, url)
    ensures n == 0 ==> (BytesFrom(t, n, url, b) <==> b == [])
    ensures n == 2 ==> (BytesFrom(t, n, url, b) <==> b == [Value(t[0], url).value * 4 + Value(t[1], url).value / 16])
    ensures n == 3 ==> (BytesFrom(t, n, url, b) <==>
      b == [Value(t[0], url).value * 4 + Value(t[1], url).value / 16,
            Value(t[1], url).value % 16 * 16 + Value(t[2], url).value / 4])
  {
    hide Value;
  }

  lemma FirstBytes(v: int, w: int, x: int)
    ensures Triple(v, w, x, 0)[..1] == [v * 4 + w / 16]
    ensures Triple(v, w, x, 0)[..2] == [v * 4 + w / 16, w % 16 * 16 + x / 4]
  {
  }

  lemma ShortExactly(e: Encoding, t: string, b: Bytes)
    requires !Digits(t, 4, e.url)
    ensures DecodeClean(e, t) == Some(b) <==> Denotes(e, t, b)
  {
    ShortShape(e, t, 0);
    ShortShape(e, t, 2);
    ShortShape(e, t, 3);
    PadIsNoDigit(e.url);
    hide Value, Shape, BytesFrom;
    forall n: nat
      ensures Shape(e, t, n) ==> n == 0 || n == 2 || n == 3
    {
      ShortShape(e, t, n);
    }
    if Shape(e, t, 0) {
      ShortBytes(t, 0, e.url, b);
    }
    hide Triple;
    if Shape(e, t, 2) {
      ShortBytes(t, 2, e.url, b);
      FirstBytes(Value(t[0], e.url).value, Value(t[1], e.url).value, 0);
    }
    if Shape(e, t, 3) {
      ShortBytes(t, 3, e.url, b);
      FirstBytes(Value(t[0], e.url).value, Value(t[1], e.url).value, Value(t[2], e.url).value);
    }
  }

  /** A text without line ends is decoded exactly if it has the shape, and to the bytes that its digits make up. */
  lemma {:induction false} CleanExactly(e: Encoding, t: string, b: Bytes)
    ensures DecodeClean(e, t) == Some(b) <==> Denotes(e, t, b)
    decreases |t|
  {
    if Digits(t, 4, e.url) {
      LongExactly(e, t, b);
    } else {
      ShortExactly(e, t, b);
    }
    hide *;
  }

  lemma {:induction false} LongExactly(e: Encoding, t: string, b: Bytes)
    requires Digits(t, 4, e.url)
    ensures DecodeClean(e, t) == Some(b) <==> Denotes(e, t, b)
    decreases |t|, 0
  {
    hide Value, Shape, BytesFrom, Triple;
    var g := FirstGroup(t, e.url);
    var rest := DecodeClean(e, t[4..]);
    if rest.Some? {
      CleanExactly(e, t[4..], rest.value);
      if DecodeClean(e, t) == Some(b) {
        var m: nat :| Shape(e, t[4..], m) && BytesFrom(t[4..], m, e.url, rest.value);
        ShapeStep(e, t, m + 4);
        GroupBytes(t, m + 4, e.url, rest.value);
      }
    }
    if Denotes(e, t, b) {
      var n: nat :| Shape(e, t, n) && BytesFrom(t, n, e.url, b);
      ShapeStep(e, t, n);
      SplitBytes(t, n, e.url, b);
      var tail := b[3..];
      assert b == g + tail;
      GroupBytes(t, n, e.url, tail);
      assert Denotes(e, t[4..], tail);
      CleanExactly(e, t[4..], tail);
    }
  }

  lemma SplitBytes(t: string, n: nat, url: bool, b: Bytes)
    requires Digits(t, 4, url) && n >= 4 && BytesFrom(t, n, url, b)
    ensures |b| >= 3
    ensures b[..3] == FirstGroup(t, url)
  {
    FirstThree(t, url);
    hide Value, ByteAt;
  }

  /** Carriage returns and line feeds go, wherever they stand, and nothing else does. */
  lemma {:induction false} LineEndsGo(a: string, c: char, b: string)
    ensures WithoutLineEnds(a + ([c] + b))
      == WithoutLineEnds(a) + ((if c == '\r' || c == '\n' then "" else [c]) + WithoutLineEnds(b))
    decreases |a|
  {
    if a == "" {
      assert a + ([c] + b) == [c] + b;
      FirstGoes(c, b);
      NoText();
    } else {
      var rest := a[1..] + ([c] + b);
      assert a + ([c] + b) == [a[0]] + rest && [a[0]] + a[1..] == a;
      FirstGoes(a[0], rest);
      FirstGoes(a[0], a[1..]);
      LineEndsGo(a[1..], c, b);
    }
    hide WithoutLineEnds;
  }

  lemma NoText()
    ensures WithoutLineEnds("") == ""
  {
  }

  lemma FirstGoes(c: char, rest: string)
    ensures WithoutLineEnds([c] + rest)
      == (if c == '\r' || c == '\n' then "" else [c]) + WithoutLineEnds(rest)
  {
    assert ([c] + rest)[1..] == rest;
  }

  /** What a decoder makes of any text: line ends do not count. */
  lemma DecodedExactly(e: Encoding, s: string, b: Bytes)
    ensures Decode(e, s) == Some(b) <==> Denotes(e, WithoutLineEnds(s), b)
  {
    CleanExactly(e, WithoutLineEnds(s), b);
    hide DecodeClean, Denotes;
  }

  // ---- All four decoders ----

  lemma SameValue(c: char)
    ensures Value(c, true).Some? && Value(c, false).Some? ==> Value(c, true) == Value(c, false)
  {
  }

  lemma SameDigits(e: Encoding, d: Encoding, t: string, n: nat, m: nat)
    requires Shape(e, t, n) && Shape(d, t, m)
    ensures m <= n
  {
    PadIsNoDigit(d.url);
    DigitBefore(t, n, m, d.url);
    hide Value, Digits;
  }

  lemma DigitBefore(t: string, n: nat, m: nat, url: bool)
    ensures Digits(t, m, url) && n < m ==> n < |t| && Value(t[n], url).Some?
  {
    hide Value;
  }

  lemma SameBytes(t: string, n: nat, url: bool, other: bool, a: Bytes, b: Bytes)
    requires Digits(t, n, url) && Digits(t, n, other) && BytesFrom(t, n, url, a) && BytesFrom(t, n, other, b)
    ensures a == b
  {
    forall k: nat | k < n
      ensures SixBits(t, k, url) == SixBits(t, k, other)
    {
      SameValue(t[k]);
    }
    hide Value, SixBits;
    forall i | 0 <= i < |a|
      ensures a[i] == b[i]
    {
      var k := i / 3 * 4 + i % 3;
      assert k + 1 < n by { WithinDigits(i, n); }
    }
  }

  lemma WithinDigits(i: nat, n: nat)
    requires i < n * 3 / 4
    ensures i / 3 * 4 + i % 3 + 1 < n
  {
  }

  /** No two decoders read one text as different bytes. */
  lemma OneMeaning(e: Encoding, d: Encoding, t: string, a: Bytes, b: Bytes)
    requires Denotes(e, t, a) && Denotes(d, t, b)
    ensures a == b
  {
    var n: nat :| Shape(e, t, n) && BytesFrom(t, n, e.url, a);
    var m: nat :| Shape(d, t, m) && BytesFrom(t, m, d.url, b);
    SameDigits(e, d, t, n, m);
    SameDigits(d, e, t, m, n);
    SameBytes(t, n, e.url, d.url, a, b);
  }

  lemma {:induction false} SomeDecoder(s: string, i: nat, b: Bytes)
    requires i <= |ENCODINGS|
    ensures LooseFrom(s, i) == Some(b) <==>
      exists k :: i <= k < |ENCODINGS| && Denotes(ENCODINGS[k], WithoutLineEnds(s), b)
    decreases |ENCODINGS| - i
  {
    hide Decode, Denotes;
    if i < |ENCODINGS| {
      var e, t := ENCODINGS[i], WithoutLineEnds(s);
      SomeDecoder(s, i + 1, b);
      DecodedExactly(e, s, b);
      var first := Decode(e, s);
      if first.Some? {
        DecodedExactly(e, s, first.value);
        if k :| i <= k < |ENCODINGS| && Denotes(ENCODINGS[k], t, b) {
          OneMeaning(e, ENCODINGS[k], t, first.value, b);
        }
      }
    }
  }

  /** A text is decoded loosely exactly if one of the four decoders accepts it, whichever comes first. */
  lemma LooseExactly(s: string, b: Bytes)
    ensures LooseFrom(s, 0) == Some(b) <==>
      exists url: bool, padded: bool :: Denotes(Encoding(url, padded), WithoutLineEnds(s), b)
  {
    SomeDecoder(s, 0, b);
    var t := WithoutLineEnds(s);
    hide Denotes, LooseFrom, WithoutLineEnds;
    if url, padded :| Denotes(Encoding(url, padded), t, b) {
      assert ENCODINGS[0] == Encoding(true, false) && ENCODINGS[1] == Encoding(true, true);
      assert ENCODINGS[2] == Encoding(false, false) && ENCODINGS[3] == Encoding(false, true);
    }
    if k :| 0 <= k < |ENCODINGS| && Denotes(ENCODINGS[k], t, b) {
      assert Denotes(Encoding(ENCODINGS[k].url, ENCODINGS[k].padded), t, b);
    }
  }
}
