/**
 decodeLooseBase64 (preprocess.go). The four encodings are those of sections 4 and 5 of RFC 4648, padded or not, as
 Go's encoding/base64 decodes them: line ends are ignored, and the unused bits of the last digit are not checked.
 */
module LooseBase64 {
  import opened Sequences
  import opened GoStrings

  type Bytes = seq<int>

  predicate AllBytes(b: Bytes) {
    forall i :: 0 <= i < |b| ==> 0 <= b[i] < 256
  }

  type ByteString = b: Bytes | AllBytes(b)

  datatype Encoding = Encoding(url: bool, padded: bool)

  /** The order in which the decoders are tried. */
  const ENCODINGS := [Encoding(true, false), Encoding(true, true), Encoding(false, false), Encoding(false, true)]

  // ---- Digits ----

  function Digit(v: int, url: bool): char
    requires 0 <= v < 64
  {
    if v < 26 then 'A' + v as char
    else if v < 52 then 'a' + (v - 26) as char
    else if v < 62 then '0' + (v - 52) as char
    else if v == 62 then if url then '-' else '+'
    else if url then '_' else '/'
  }

  function Value(c: char, url: bool): (r: Option<int>)
    ensures r.Some? ==> 0 <= r.value < 64
  {
    if 'A' <= c <= 'Z' then Some(c as int - 'A' as int)
    else if 'a' <= c <= 'z' then Some(c as int - 'a' as int + 26)
    else if '0' <= c <= '9' then Some(c as int - '0' as int + 52)
    else if c == (if url then '-' else '+') then Some(62)
    else if c == (if url then '_' else '/') then Some(63)
    else None
  }

  /** Another alphabet reads a digit as the same value, or not at all. */
  lemma DigitReads(v: int, url: bool, other: bool)
    requires 0 <= v < 64
    ensures Value(Digit(v, url), other) in {None, Some(v)} && Value(Digit(v, url), url) == Some(v)
    ensures Digit(v, url) !in "=\r\n?"
  {
  }

  /** The alphabets of sections 4 and 5 of RFC 4648: letters, digits and two signs, which are the difference. */
  lemma Alphabets(v: int, url: bool)
    requires 0 <= v < 64
    ensures Digit(0, url) == 'A' && Digit(26, url) == 'a' && Digit(52, url) == '0'
    ensures Digit(62, false) == '+' && Digit(63, false) == '/' && Digit(62, true) == '-' && Digit(63, true) == '_'
    ensures v < 61 && v != 25 && v != 51 ==> Digit(v + 1, url) as int == Digit(v, url) as int + 1
  {
  }

  // ---- Encoding ----

  function EncodeGroup(a: int, b: int, c: int, url: bool): string
    requires 0 <= a < 256 && 0 <= b < 256 && 0 <= c < 256
  {
    [Digit(a / 4, url), Digit(a % 4 * 16 + b / 16, url), Digit(b % 16 * 4 + c / 64, url), Digit(c % 64, url)]
  }

  function Encode(e: Encoding, b: Bytes): string
    requires AllBytes(b)
    decreases |b|
  {
    if b == [] then ""
    else if |b| == 1 then EncodeGroup(b[0], 0, 0, e.url)[..2] + (if e.padded then "==" else "")
    else if |b| == 2 then EncodeGroup(b[0], b[1], 0, e.url)[..3] + (if e.padded then "=" else "")
    else EncodeGroup(b[0], b[1], b[2], e.url) + Encode(e, b[3..])
  }

  // ---- Decoding ----

  function Triple(v: int, w: int, x: int, y: int): (r: Bytes)
    ensures |r| == 3
  {
    [v * 4 + w / 16, w % 16 * 16 + x / 4, x % 4 * 64 + y]
  }

  /** The values of the first `n` characters are known. */
  predicate Digits(s: string, n: nat, url: bool) {
    n <= |s| && forall i :: 0 <= i < n ==> Value(s[i], url).Some?
  }

  function DecodeClean(e: Encoding, s: string): Option<Bytes>
    decreases |s|
  {
    if s == "" then Some([])
    else if Digits(s, 4, e.url) then
      var rest := DecodeClean(e, s[4..]);
      if rest.None? then None
      else Some(Triple(Value(s[0], e.url).value, Value(s[1], e.url).value,
        Value(s[2], e.url).value, Value(s[3], e.url).value) + rest.value)
    else if (if e.padded then |s| == 4 && s[3] == '=' else |s| == 3) && Digits(s, 3, e.url) then
      Some(Triple(Value(s[0], e.url).value, Value(s[1], e.url).value, Value(s[2], e.url).value, 0)[..2])
    else if (if e.padded then |s| == 4 && s[2] == '=' && s[3] == '=' else |s| == 2) && Digits(s, 2, e.url) then
      Some(Triple(Value(s[0], e.url).value, Value(s[1], e.url).value, 0, 0)[..1])
    else None
  }

  function WithoutLineEnds(s: string): string {
    if s == "" then ""
    else (if s[0] in "\r\n" then "" else [s[0]]) + WithoutLineEnds(s[1..])
  }

  function Decode(e: Encoding, s: string): Option<Bytes> {
    DecodeClean(e, WithoutLineEnds(s))
  }

  /** The result of the first decoder that accepts the text, from the decoder `i` on. */
  function LooseFrom(s: string, i: nat): Option<Bytes>
    requires i <= |ENCODINGS|
    decreases |ENCODINGS| - i
  {
    if i == |ENCODINGS| then None
    else if Decode(ENCODINGS[i], s).Some? then Decode(ENCODINGS[i], s)
    else LooseFrom(s, i + 1)
  }

  method DecodeLooseBase64(value: string) returns (r: Option<Bytes>)
    ensures r == LooseFrom(value, 0)
  {
    hide Decode;
    for i := 0 to |ENCODINGS|
      invariant LooseFrom(value, 0) == LooseFrom(value, i)
    {
      var decoded := Decode(ENCODINGS[i], value);
      if decoded.Some? {
        return decoded;
      }
    }
    return None;
  }

  /** What is decoded is bytes, fewer than the characters of the text, and the text has no colon. */
  predicate Decoded(s: string, b: Bytes) {
    AllBytes(b) && (s != "" ==> |b| < |s|) && (s == "" ==> b == []) && ':' !in s
  }

  lemma ColonIsNoDigit(url: bool)
    ensures Value(':', url).None?
  {
  }

  lemma TripleBytes(v: int, w: int, x: int, y: int)
    requires 0 <= v < 64 && 0 <= w < 64 && 0 <= x < 64 && 0 <= y < 64
    ensures AllBytes(Triple(v, w, x, y)) && AllBytes(Triple(v, w, x, y)[..2]) && AllBytes(Triple(v, w, x, y)[..1])
  {
  }

  lemma DecodedGroup(url: bool, s: string, b: Bytes)
    requires Digits(s, 4, url) && Decoded(s[4..], b)
    ensures Decoded(s, Triple(Value(s[0], url).value, Value(s[1], url).value,
      Value(s[2], url).value, Value(s[3], url).value) + b)
  {
    ColonIsNoDigit(url);
    TripleBytes(Value(s[0], url).value, Value(s[1], url).value, Value(s[2], url).value, Value(s[3], url).value);
    hide Value, Triple;
    assert s == s[..4] + s[4..];
    assert s[..4] == [s[0], s[1], s[2], s[3]];
  }

  lemma {:induction false} DecodedIsDecoded(e: Encoding, s: string)
    requires DecodeClean(e, s).Some?
    ensures Decoded(s, DecodeClean(e, s).value)
    decreases |s|
  {
    if Digits(s, 4, e.url) {
      DecodedIsDecoded(e, s[4..]);
      DecodedGroup(e.url, s, DecodeClean(e, s[4..]).value);
    } else {
      DecodedTail(e, s);
    }
    hide Value, Triple, Decoded;
  }

  lemma DecodedTail(e: Encoding, s: string)
    requires !Digits(s, 4, e.url) && DecodeClean(e, s).Some?
    ensures Decoded(s, DecodeClean(e, s).value)
  {
    ColonIsNoDigit(e.url);
    if |s| >= 3 && Digits(s, 3, e.url) {
      TripleBytes(Value(s[0], e.url).value, Value(s[1], e.url).value, Value(s[2], e.url).value, 0);
    } else if s != "" {
      TripleBytes(Value(s[0], e.url).value, Value(s[1], e.url).value, 0, 0);
    }
    hide Value, Triple;
  }

  lemma {:induction false} LineEndsDropped(s: string)
    ensures |WithoutLineEnds(s)| <= |s| && (':' in s ==> ':' in WithoutLineEnds(s))
  {
    if s != "" {
      LineEndsDropped(s[1..]);
      assert s == [s[0]] + s[1..];
    }
  }

  lemma {:induction false} LooseIsDecoded(s: string, i: nat)
    requires i <= |ENCODINGS| && LooseFrom(s, i).Some?
    ensures AllBytes(LooseFrom(s, i).value) && |LooseFrom(s, i).value| <= |s| && ':' !in s
    ensures LooseFrom(s, i).value != [] ==> |LooseFrom(s, i).value| < |s|
    decreases |ENCODINGS| - i
  {
    hide DecodeClean;
    LineEndsDropped(s);
    if Decode(ENCODINGS[i], s).Some? {
      DecodedIsDecoded(ENCODINGS[i], WithoutLineEnds(s));
    } else {
      LooseIsDecoded(s, i + 1);
    }
    hide WithoutLineEnds;
  }

  // ---- Round trip ----

  lemma TripleOfGroup(a: int, b: int, c: int)
    requires 0 <= a < 256 && 0 <= b < 256 && 0 <= c < 256
    ensures Triple(a / 4, a % 4 * 16 + b / 16, b % 16 * 4 + c / 64, c % 64) == [a, b, c]
  {
    FirstByte(a, b);
    SecondByte(a, b, c);
    ThirdByte(b, c);
  }

  lemma FirstByte(a: int, b: int)
    requires 0 <= a < 256 && 0 <= b < 256
    ensures a / 4 * 4 + (a % 4 * 16 + b / 16) / 16 == a
  {
  }

  lemma SecondByte(a: int, b: int, c: int)
    requires 0 <= a < 256 && 0 <= b < 256 && 0 <= c < 256
    ensures (a % 4 * 16 + b / 16) % 16 * 16 + (b % 16 * 4 + c / 64) / 4 == b
  {
  }

  lemma ThirdByte(b: int, c: int)
    requires 0 <= b < 256 && 0 <= c < 256
    ensures (b % 16 * 4 + c / 64) % 4 * 64 + c % 64 == c
  {
  }

  /** What a decoder makes of the digits of a group: their values, or that it does not know one of them. */
  lemma GroupDigits(a: int, b: int, c: int, url: bool, other: bool)
    requires 0 <= a < 256 && 0 <= b < 256 && 0 <= c < 256
    ensures var s := EncodeGroup(a, b, c, url);
      && Value(s[0], other) in {None, Some(a / 4)} && Value(s[1], other) in {None, Some(a % 4 * 16 + b / 16)}
      && Value(s[2], other) in {None, Some(b % 16 * 4 + c / 64)} && Value(s[3], other) in {None, Some(c % 64)}
      && Digits(s, 4, url) && (forall i :: 0 <= i < 4 ==> s[i] !in "=\r\n?")
  {
    DigitReads(a / 4, url, other);
    DigitReads(a % 4 * 16 + b / 16, url, other);
    DigitReads(b % 16 * 4 + c / 64, url, other);
    DigitReads(c % 64, url, other);
    hide Digit, Value;
  }

  lemma {:induction false} EncodedChars(e: Encoding, b: Bytes)
    requires AllBytes(b)
    ensures forall i :: 0 <= i < |Encode(e, b)| ==> Encode(e, b)[i] !in "\r\n?"
    decreases |b|
  {
    if b != [] {
      GroupDigits(b[0], if |b| > 1 then b[1] else 0, if |b| > 2 then b[2] else 0, e.url, e.url);
      if |b| > 2 {
        EncodedChars(e, b[3..]);
      }
      hide EncodeGroup, Digits;
    }
  }

  lemma GroupIsDigits(a: int, b: int, c: int, url: bool)
    requires 0 <= a < 256 && 0 <= b < 256 && 0 <= c < 256
    ensures var s := EncodeGroup(a, b, c, url); |s| == 4 && forall i :: 0 <= i < 4 ==> s[i] as int < 256
  {
  }

  /** Printed bytes are digits and padding, of the first 128 characters. */
  lemma {:induction false} EncodedAreDigits(e: Encoding, b: Bytes)
    requires AllBytes(b)
    ensures forall i :: 0 <= i < |Encode(e, b)| ==> Encode(e, b)[i] as int < 256
    decreases |b|
  {
    if b != [] {
      GroupIsDigits(b[0], if |b| > 1 then b[1] else 0, if |b| > 2 then b[2] else 0, e.url);
      if |b| > 2 {
        EncodedAreDigits(e, b[3..]);
      }
      hide EncodeGroup;
    }
  }

  lemma {:induction false} NoLineEnds(s: string)
    requires forall i :: 0 <= i < |s| ==> s[i] !in "\r\n"
    ensures WithoutLineEnds(s) == s
  {
    if s != "" {
      NoLineEnds(s[1..]);
      assert [s[0]] + s[1..] == s;
    }
  }

  lemma PadIsNoDigit(url: bool)
    ensures Value('=', url).None?
  {
  }

  /** Two digits, with or without padding. */
  lemma TailOfTwo(d: Encoding, s: string, a: int)
    requires 0 <= a < 256 && (|s| == 2 || (|s| == 4 && s[2] == '=' && s[3] == '='))
    requires Value(s[0], d.url) in {None, Some(a / 4)} && Value(s[1], d.url) in {None, Some(a % 4 * 16 + 0 / 16)}
    ensures DecodeClean(d, s) in {None, Some([a])}
    ensures Digits(s, 2, d.url) && d.padded == (|s| == 4) ==> DecodeClean(d, s) == Some([a])
  {
    PadIsNoDigit(d.url);
    hide Value, Triple;
    NotAGroup(d, s, 2);
    if Digits(s, 2, d.url) {
      TripleOfGroup(a, 0, 0);
      assert Triple(Value(s[0], d.url).value, Value(s[1], d.url).value, 0, 0) == [a, 0, 0];
      assert [a, 0, 0][..1] == [a];
    }
  }

  /** Three digits, with or without padding. */
  lemma TailOfThree(d: Encoding, s: string, a: int, b: int)
    requires 0 <= a < 256 && 0 <= b < 256 && (|s| == 3 || (|s| == 4 && s[3] == '='))
    requires Value(s[0], d.url) in {None, Some(a / 4)} && Value(s[1], d.url) in {None, Some(a % 4 * 16 + b / 16)}
    requires Value(s[2], d.url) in {None, Some(b % 16 * 4 + 0 / 64)} && s[2] != '='
    ensures DecodeClean(d, s) in {None, Some([a, b])}
    ensures Digits(s, 3, d.url) && d.padded == (|s| == 4) ==> DecodeClean(d, s) == Some([a, b])
  {
    PadIsNoDigit(d.url);
    hide Value, Triple;
    NotAGroup(d, s, 3);
    if Digits(s, 3, d.url) {
      TripleOfGroup(a, b, 0);
      assert Triple(Value(s[0], d.url).value, Value(s[1], d.url).value, Value(s[2], d.url).value, 0) == [a, b, 0];
      assert [a, b, 0][..2] == [a, b];
    }
  }

  lemma NotAGroup(d: Encoding, s: string, n: nat)
    requires |s| == n < 4 || (n < |s| == 4 && s[n] == '=')
    ensures !Digits(s, 4, d.url) && (n < 3 && |s| == 4 ==> !Digits(s, 3, d.url))
  {
    PadIsNoDigit(d.url);
    hide Value;
    if |s| == 4 {
      assert Value(s[n], d.url).None?;
    }
  }

  lemma EncodeMore(e: Encoding, b: Bytes)
    requires AllBytes(b) && |b| > 2
    ensures AllBytes(b[3..]) && 0 <= b[0] < 256 && 0 <= b[1] < 256 && 0 <= b[2] < 256
    ensures Encode(e, b) == EncodeGroup(b[0], b[1], b[2], e.url) + Encode(e, b[3..])
    ensures b == [b[0], b[1], b[2]] + b[3..]
  {
    hide EncodeGroup;
  }

  lemma FewBytes(e: Encoding, d: Encoding, b: Bytes)
    requires AllBytes(b) && |b| <= 2
    ensures DecodeClean(d, Encode(e, b)) in {None, Some(b)} && DecodeClean(e, Encode(e, b)) == Some(b)
  {
    if |b| == 1 {
      LastByte(e, d, b[0]);
      assert b == [b[0]];
      hide *;
    } else if |b| == 2 {
      LastTwo(e, d, b[0], b[1]);
      assert b == [b[0], b[1]];
      hide *;
    }
  }

  /** A decoder reads a text of another encoding as the same bytes, or does not accept it. */
  lemma {:induction false} DecodersAgree(e: Encoding, d: Encoding, b: Bytes)
    requires AllBytes(b)
    ensures DecodeClean(d, Encode(e, b)) in {None, Some(b)} && DecodeClean(e, Encode(e, b)) == Some(b)
    decreases |b|
  {
    hide *;
    if |b| <= 2 {
      FewBytes(e, d, b);
    } else {
      EncodeMore(e, b);
      DecodersAgree(e, d, b[3..]);
      FullGroup(e, d, b[0], b[1], b[2], Encode(e, b[3..]), b[3..]);
    }
  }

  lemma LastByte(e: Encoding, d: Encoding, a: int)
    requires 0 <= a < 256
    ensures DecodeClean(d, Encode(e, [a])) in {None, Some([a])} && DecodeClean(e, Encode(e, [a])) == Some([a])
  {
    GroupDigits(a, 0, 0, e.url, d.url);
    GroupDigits(a, 0, 0, e.url, e.url);
    hide EncodeGroup, DecodeClean, Value;
    var s := Encode(e, [a]);
    assert s[0] == EncodeGroup(a, 0, 0, e.url)[0] && s[1] == EncodeGroup(a, 0, 0, e.url)[1];
    TailOfTwo(d, s, a);
    TailOfTwo(e, s, a);
  }

  lemma LastTwo(e: Encoding, d: Encoding, a: int, b: int)
    requires 0 <= a < 256 && 0 <= b < 256
    ensures DecodeClean(d, Encode(e, [a, b])) in {None, Some([a, b])}
    ensures DecodeClean(e, Encode(e, [a, b])) == Some([a, b])
  {
    GroupDigits(a, b, 0, e.url, d.url);
    GroupDigits(a, b, 0, e.url, e.url);
    hide EncodeGroup, DecodeClean, Value;
    var s, g := Encode(e, [a, b]), EncodeGroup(a, b, 0, e.url);
    assert s[0] == g[0] && s[1] == g[1] && s[2] == g[2];
    assert g[2] !in "=\r\n?";
    TailOfThree(d, s, a, b);
    TailOfThree(e, s, a, b);
  }

  lemma FullGroup(e: Encoding, d: Encoding, a: int, b: int, c: int, rest: string, bytes: Bytes)
    requires 0 <= a < 256 && 0 <= b < 256 && 0 <= c < 256
    requires DecodeClean(d, rest) in {None, Some(bytes)} && DecodeClean(e, rest) == Some(bytes)
    ensures var s := EncodeGroup(a, b, c, e.url) + rest;
      DecodeClean(d, s) in {None, Some([a, b, c] + bytes)} && DecodeClean(e, s) == Some([a, b, c] + bytes)
  {
    GroupDigits(a, b, c, e.url, d.url);
    GroupDigits(a, b, c, e.url, e.url);
    TripleOfGroup(a, b, c);
    var s := EncodeGroup(a, b, c, e.url) + rest;
    assert s[4..] == rest;
    hide EncodeGroup;
  }

  lemma EncodedIsClean(e: Encoding, b: Bytes)
    requires AllBytes(b)
    ensures WithoutLineEnds(Encode(e, b)) == Encode(e, b)
  {
    EncodedChars(e, b);
    NoLineEnds(Encode(e, b));
    hide Encode, WithoutLineEnds;
  }

  /** Bytes in any of the four encodings come back as they are, whichever decoder accepts the text first. */
  lemma LooseRoundTrip(e: Encoding, b: Bytes)
    requires AllBytes(b)
    ensures LooseFrom(Encode(e, b), 0) == Some(b)
  {
    EncodedIsClean(e, b);
    var at: nat := if e.url then if e.padded then 1 else 0 else if e.padded then 3 else 2;
    assert ENCODINGS[at] == e;
    LooseFinds(e, b, 0, at);
  }

  lemma {:induction false} LooseFinds(e: Encoding, b: Bytes, i: nat, at: nat)
    requires AllBytes(b) && i <= at < |ENCODINGS| && ENCODINGS[at] == e && WithoutLineEnds(Encode(e, b)) == Encode(e, b)
    ensures LooseFrom(Encode(e, b), i) == Some(b)
    decreases at - i
  {
    DecodersAgree(e, ENCODINGS[i], b);
    if i < at {
      LooseFinds(e, b, i + 1, at);
    }
  }

  // ---- Texts ----

  function TextOf(b: Bytes): (r: string)
    requires AllBytes(b)
    ensures |r| == |b| && forall i :: 0 <= i < |b| ==> r[i] as int == b[i]
  {
    seq(|b|, i requires 0 <= i < |b| => b[i] as char)
  }

  function BytesOf(s: string): (r: Bytes)
    ensures |r| == |s| && forall i :: 0 <= i < |s| ==> r[i] == s[i] as int
  {
    seq(|s|, i requires 0 <= i < |s| => s[i] as int)
  }

  /** decodeLooseBase64 on texts. */
  function Loose(s: string): Option<string> {
    var decoded := LooseFrom(s, 0);
    if decoded.None? then None
    else
      LooseIsDecoded(s, 0);
      Some(TextOf(decoded.value))
  }

  lemma LooseOfEncoded(e: Encoding, s: string)
    requires IsBytes(s)
    ensures var text := Encode(e, BytesOf(s)); Loose(text) == Some(s) && '\n' !in text && (s != "" ==> text != "")
  {
    LooseRoundTrip(e, BytesOf(s));
    EncodedChars(e, BytesOf(s));
    LooseIsDecoded(Encode(e, BytesOf(s)), 0);
    hide LooseFrom, Encode;
    assert TextOf(BytesOf(s)) == s;
  }
}
