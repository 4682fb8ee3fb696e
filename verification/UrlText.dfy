/**
 The escaping of Go's net/url, which is the percent-encoding of section 2.1 of RFC 3986, with a plus sign for a blank
 in a query. Strings are sequences of bytes.
 */
module UrlText {
  import opened Sequences
  import opened GoStrings

  /** The parts of a URL, which differ in the bytes that they keep. */
  datatype Part = Credential | Host | Query | Fragment

  predicate Keeps(part: Part, c: char) {
    || IsAlpha(c) || IsDigit(c) || c in "-_.~"
    || match part
       case Credential => c in "$&+,;="
       case Host => c in "!$&'()*+,;=:[]<>\""
       case Query => false
       case Fragment => c in "$&+,/:;=?@!()*"
  }

  function HexDigit(n: int): char
    requires 0 <= n < 16
  {
    if n < 10 then '0' + n as char else 'A' + (n - 10) as char
  }

  function HexValue(c: char): Option<int> {
    if IsDigit(c) then Some(c as int - '0' as int)
    else if 'A' <= c <= 'F' then Some(c as int - 'A' as int + 10)
    else if 'a' <= c <= 'f' then Some(c as int - 'a' as int + 10)
    else None
  }

  function EscapeByte(part: Part, c: char): string {
    if Keeps(part, c) then [c]
    else if part == Query && c == ' ' then "+"
    else ['%', HexDigit(c as int / 16 % 16), HexDigit(c as int % 16)]
  }

  function Escape(part: Part, s: string): string {
    if s == "" then "" else EscapeByte(part, s[0]) + Escape(part, s[1..])
  }

  /** What a reader of URLs makes of an escaped part; url.QueryUnescape for a query. */
  function Unescape(part: Part, s: string): Option<string>
    decreases |s|
  {
    if s == "" then Some("")
    else if s[0] == '%' then
      if |s| < 3 || HexValue(s[1]).None? || HexValue(s[2]).None? then None
      else
        var rest := Unescape(part, s[3..]);
        if rest.None? then None
        else Some([(HexValue(s[1]).value * 16 + HexValue(s[2]).value) as char] + rest.value)
    else
      var rest := Unescape(part, s[1..]);
      if rest.None? then None else Some([if part == Query && s[0] == '+' then ' ' else s[0]] + rest.value)
  }

  lemma HexReadsBack(n: int)
    requires 0 <= n < 16
    ensures HexValue(HexDigit(n)) == Some(n)
  {
  }

  lemma KeptReadsBack(part: Part, c: char, rest: string, value: string)
    requires Unescape(part, rest) == Some(value) && c != '%' && !(part == Query && c == '+')
    ensures Unescape(part, [c] + rest) == Some([c] + value)
  {
    hide HexValue;
    assert ([c] + rest)[1..] == rest;
  }

  lemma PlusReadsBack(rest: string, value: string)
    requires Unescape(Query, rest) == Some(value)
    ensures Unescape(Query, "+" + rest) == Some([' '] + value)
  {
    hide HexValue;
    assert ("+" + rest)[1..] == rest;
  }

  lemma HexPairReadsBack(part: Part, n: int, rest: string, value: string)
    requires 0 <= n < 256 && Unescape(part, rest) == Some(value)
    ensures Unescape(part, ['%', HexDigit(n / 16), HexDigit(n % 16)] + rest) == Some([n as char] + value)
  {
    HexReadsBack(n / 16);
    HexReadsBack(n % 16);
    hide HexDigit, HexValue;
    assert (['%', HexDigit(n / 16), HexDigit(n % 16)] + rest)[3..] == rest;
  }

  lemma KeptChars(part: Part, c: char)
    requires Keeps(part, c)
    ensures c != '%' && !(part == Query && c == '+')
  {
  }

  lemma ByteReadsBack(part: Part, c: char, rest: string, value: string)
    requires c as int < 256 && Unescape(part, rest) == Some(value)
    ensures Unescape(part, EscapeByte(part, c) + rest) == Some([c] + value)
  {
    hide Keeps, HexDigit, HexValue, Unescape;
    if Keeps(part, c) {
      KeptChars(part, c);
      KeptReadsBack(part, c, rest, value);
    } else if part == Query && c == ' ' {
      PlusReadsBack(rest, value);
    } else {
      HexPairReadsBack(part, c as int, rest, value);
    }
  }

  /** Whatever is escaped is read back, byte by byte. */
  lemma {:induction false} EscapeReadsBack(part: Part, s: string)
    requires IsBytes(s)
    ensures Unescape(part, Escape(part, s)) == Some(s)
  {
    if s != "" {
      EscapeReadsBack(part, s[1..]);
      ByteReadsBack(part, s[0], Escape(part, s[1..]), s[1..]);
      assert [s[0]] + s[1..] == s;
      hide EscapeByte, Unescape;
    }
  }

  /** The bytes that are kept: letters, digits and four signs everywhere, and the signs that a part has use for. */
  function KeptSigns(part: Part): string {
    match part
    case Credential => "-_.~$&+,;="
    case Host => "-_.~!$&'()*+,;=:[]<>\""
    case Query => "-_.~"
    case Fragment => "-_.~$&+,/:;=?@!()*"
  }

  predicate UpperHex(e: string, n: int) {
    && |e| == 3 && e[0] == '%' && (IsDigit(e[1]) || 'A' <= e[1] <= 'F') && (IsDigit(e[2]) || 'A' <= e[2] <= 'F')
    && HexValue(e[1]).Some? && HexValue(e[2]).Some? && n == HexValue(e[1]).value * 16 + HexValue(e[2]).value
  }

  /** A kept byte stands for itself, a blank in a query is a plus, and any other is two digits, 0 to 9 or A to F. */
  lemma EscapesByte(part: Part, c: char)
    requires c as int < 256
    ensures var plain := IsAlpha(c) || IsDigit(c) || c in KeptSigns(part); var e := Escape(part, [c]);
      && (plain ==> e == [c])
      && (!plain && part == Query && c == ' ' ==> e == "+")
      && (!plain && !(part == Query && c == ' ') ==> UpperHex(e, c as int))
  {
    KeepsSigns(part, c);
    EscapeOne(part, c);
    HexPair(c as int);
    hide Keeps, KeptSigns, HexDigit, UpperHex, Escape;
  }

  lemma HexPair(n: int)
    requires 0 <= n < 256
    ensures UpperHex(['%', HexDigit(n / 16 % 16), HexDigit(n % 16)], n)
  {
    HexReadsBack(n / 16);
    HexReadsBack(n % 16);
    HexIsUpper(n / 16);
    HexIsUpper(n % 16);
    hide HexDigit, HexValue;
  }

  lemma KeepsSigns(part: Part, c: char)
    ensures Keeps(part, c) <==> IsAlpha(c) || IsDigit(c) || c in KeptSigns(part)
  {
  }

  lemma EscapeOne(part: Part, c: char)
    ensures Escape(part, [c]) == EscapeByte(part, c)
  {
    hide EscapeByte;
    assert [c][1..] == "";
    assert Escape(part, "") == "";
  }

  lemma HexIsUpper(n: int)
    requires 0 <= n < 16
    ensures IsDigit(HexDigit(n)) || 'A' <= HexDigit(n) <= 'F'
  {
  }

  /** An escaped part holds only bytes that the part keeps, and the signs of the escapes. */
  predicate EscapedChar(part: Part, c: char) {
    Keeps(part, c) || c == '%' || (part == Query && c == '+')
  }

  lemma {:induction false} EscapedChars(part: Part, s: string)
    ensures forall k :: 0 <= k < |Escape(part, s)| ==> EscapedChar(part, Escape(part, s)[k])
  {
    if s != "" {
      EscapedChars(part, s[1..]);
      ByteChars(part, s[0]);
      hide EscapeByte, EscapedChar;
    }
  }

  lemma ByteChars(part: Part, c: char)
    ensures forall k :: 0 <= k < |EscapeByte(part, c)| ==> EscapedChar(part, EscapeByte(part, c)[k])
  {
  }

  lemma NotEscaped(part: Part, s: string, c: char)
    requires !EscapedChar(part, c)
    ensures c !in Escape(part, s)
  {
    EscapedChars(part, s);
    hide EscapedChar, Escape;
  }

  // ---- Queries ----

  /** The keys and values of a query, in the order in which they are printed. */
  type Pairs = seq<(string, string)>

  function PairText(pair: (string, string)): string {
    Escape(Query, pair.0) + (['='] + Escape(Query, pair.1))
  }

  function PairTexts(pairs: Pairs): (r: seq<string>)
    ensures |r| == |pairs| && forall k :: 0 <= k < |r| ==> r[k] == PairText(pairs[k])
  {
    if pairs == [] then [] else [PairText(pairs[0])] + PairTexts(pairs[1..])
  }

  function QueryText(pairs: Pairs): string {
    Join(PairTexts(pairs), '&')
  }

  /** One piece of a query, which need not have a value. */
  function PairOf(piece: string): Option<(string, string)> {
    var parts := Cut(piece, '=');
    var key := Unescape(Query, if parts.Some? then parts.value.0 else piece);
    var value := Unescape(Query, if parts.Some? then parts.value.1 else "");
    if ';' in piece || key.None? || value.None? then None else Some((key.value, value.value))
  }

  /** Hexadecimal digits are read in upper and in lower case. */
  lemma HexDigitsRead(k: int)
    requires 0 <= k < 16
    ensures k < 10 ==> HexValue('0' + k as char) == Some(k)
    ensures k >= 10 ==> HexValue('A' + (k - 10) as char) == HexValue('a' + (k - 10) as char) == Some(k)
  {
  }

  /** A piece is a key and a value around its first equals sign, or a key alone; a semicolon spoils it. */
  lemma PieceReads(key: string, value: string)
    requires '=' !in key
    ensures var k, v := Unescape(Query, key), Unescape(Query, value);
      && (';' in key || k.None? ==> PairOf(key).None?)
      && (';' !in key && k.Some? ==> PairOf(key) == Some((k.value, "")))
      && (';' in key || ';' in value || k.None? || v.None? ==> PairOf(key + (['='] + value)).None?)
      && (';' !in key && ';' !in value && k.Some? && v.Some? ==>
            PairOf(key + (['='] + value)) == Some((k.value, v.value)))
  {
    IndexOfNone(key, '=');
    CutAtPart(key, value, '=');
    NothingEscaped();
    hide Unescape, IndexOf;
  }

  lemma NothingEscaped()
    ensures Unescape(Query, "") == Some("")
  {
  }

  function PairsOf(pieces: seq<string>): Option<Pairs> {
    if pieces == [] then Some([])
    else if pieces[0] == "" then PairsOf(pieces[1..])
    else
      var first, rest := PairOf(pieces[0]), PairsOf(pieces[1..]);
      if first.None? || rest.None? then None else Some([first.value] + rest.value)
  }

  /** url.ParseQuery */
  function ParseQuery(s: string): Option<Pairs> {
    PairsOf(Split(s, '&'))
  }

  /** No pair contains a sign that ends it, nor one that ends the query, nor an end of line. */
  lemma PairChars(pair: (string, string))
    ensures '&' !in PairText(pair) && '#' !in PairText(pair) && '\n' !in PairText(pair)
  {
    NotEscaped(Query, pair.0, '&');
    NotEscaped(Query, pair.1, '&');
    NotEscaped(Query, pair.0, '#');
    NotEscaped(Query, pair.1, '#');
    NotEscaped(Query, pair.0, '\n');
    NotEscaped(Query, pair.1, '\n');
    hide Escape;
  }

  predicate PairsOfBytes(pairs: Pairs) {
    forall k :: 0 <= k < |pairs| ==> IsBytes(pairs[k].0) && IsBytes(pairs[k].1)
  }

  lemma PairReadsBack(pair: (string, string))
    requires IsBytes(pair.0) && IsBytes(pair.1)
    ensures PairOf(PairText(pair)) == Some(pair) && PairText(pair) != ""
  {
    NotEscaped(Query, pair.0, '=');
    NotEscaped(Query, pair.0, ';');
    NotEscaped(Query, pair.1, ';');
    EscapeReadsBack(Query, pair.0);
    EscapeReadsBack(Query, pair.1);
    CutAtPart(Escape(Query, pair.0), Escape(Query, pair.1), '=');
    hide Cut, Escape, Unescape, IsBytes;
  }

  lemma {:induction false} PairsReadBack(pairs: Pairs)
    requires PairsOfBytes(pairs)
    ensures PairsOf(PairTexts(pairs)) == Some(pairs)
  {
    if pairs != [] {
      PairReadsBack(pairs[0]);
      PairsReadBack(pairs[1..]);
      assert PairTexts(pairs)[1..] == PairTexts(pairs[1..]);
      assert [pairs[0]] + pairs[1..] == pairs;
      hide PairOf, PairText, IsBytes;
    }
  }

  /** A query is read back as it was printed, pair by pair. */
  lemma QueryReadsBack(pairs: Pairs)
    requires PairsOfBytes(pairs)
    ensures ParseQuery(QueryText(pairs)) == Some(pairs) && (pairs != [] ==> QueryText(pairs) != "")
  {
    var texts := PairTexts(pairs);
    PairsReadBack(pairs);
    if pairs == [] {
      assert Split("", '&') == [""];
    } else {
      forall k | 0 <= k < |texts|
        ensures '&' !in texts[k]
      {
        PairChars(pairs[k]);
      }
      SplitJoin(texts, '&');
      PairReadsBack(pairs[0]);
      FirstIsNotEmpty(texts, '&');
    }
    hide PairTexts, PairsOf, Join, Split, PairText;
  }

  lemma FirstIsNotEmpty(texts: seq<string>, c: char)
    requires texts != [] && texts[0] != ""
    ensures Join(texts, c) != ""
  {
  }

  lemma QueryChars(pairs: Pairs)
    ensures '#' !in QueryText(pairs) && '\n' !in QueryText(pairs)
  {
    var texts := PairTexts(pairs);
    forall k | 0 <= k < |texts|
      ensures '#' !in texts[k] && '\n' !in texts[k]
    {
      PairChars(pairs[k]);
    }
    JoinedChars(texts, '&', '#');
    JoinedChars(texts, '&', '\n');
    hide PairTexts, Join;
  }
}
