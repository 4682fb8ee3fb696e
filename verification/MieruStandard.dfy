/**
 expandMieruStandardURL (mieru.go), and what the expansion of subscriptions is with it: standard links are decoded
 strictly, subscriptions loosely. Reading a protocol buffer is a function of which nothing is assumed.
 */
module MieruStandard {
  import opened Sequences
  import opened GoStrings
  import opened LooseBase64
  import opened StrictBase64
  import MieruLink
  import opened MieruProjection
  import opened MieruExpansion

  /** 1 << 20 and 768 << 10 */
  const MAX_ENCODED := 1048576
  const MAX_DECODED := 786432

  /** The configuration that some bytes encode, if they do and no field of it is unknown. */
  type Unmarshal = Bytes -> Option<Config>

  /** The bytes that a standard link carries. */
  function Payload(link: string): Option<Bytes> {
    if !HasPrefix(link, PREFIX) then None
    else
      var encoded := link[|PREFIX|..];
      if encoded == "" || |encoded| > MAX_ENCODED then None
      else
        var decoded := DecodeStrict(encoded);
        if decoded.None? || decoded.value == [] || |decoded.value| > MAX_DECODED then None else decoded
  }

  /** All links of the configuration that a standard link carries, or none. */
  function StandardLinks(w: World, unmarshal: Unmarshal, link: string): Option<seq<string>> {
    var decoded := Payload(link);
    if decoded.None? then None
    else
      var config := unmarshal(decoded.value);
      if config.None? || !Accepts(w, config.value) then None else Some(AllLinks(w, config.value.profiles))
  }

  method ExpandStandardUrl(w: World, unmarshal: Unmarshal, link: string) returns (r: Option<seq<string>>)
    ensures r == StandardLinks(w, unmarshal, link)
  {
    hide Accepts, AllLinks;
    var decoded := Payload(link);
    if decoded.None? {
      return None;
    }
    var config := unmarshal(decoded.value);
    if config.None? {
      return None;
    }
    r := ProjectClientConfig(w, config.value);
  }

  /**
   A link carries some bytes exactly if these are not empty and not too many, and its text is, but for line ends,
   what they are printed as.
   */
  lemma PayloadExact(text: string, b: Bytes)
    ensures Payload(PREFIX + text) == Some(b) <==>
      (&& AllBytes(b) && 1 <= |b| <= 768 * 1024 && |text| <= 1024 * 1024
       && WithoutLineEnds(text) == Encode(STANDARD, b))
  {
    var link := PREFIX + text;
    assert link[..|PREFIX|] == PREFIX && link[|PREFIX|..] == text;
    StrictExact(text, b);
    if AllBytes(b) {
      EncodedLength(b);
    }
    hide DecodeStrict, WithoutLineEnds, Encode;
  }

  lemma WithinLimit(n: nat)
    requires n <= 768 * 1024
    ensures (n + 2) / 3 * 4 <= 1024 * 1024
  {
  }

  lemma PayloadOfEncoded(b: Bytes)
    requires AllBytes(b) && 1 <= |b| <= 768 * 1024
    ensures Payload(PREFIX + Encode(STANDARD, b)) == Some(b)
  {
    hide *;
    EncodedIsClean(STANDARD, b);
    EncodedLength(b);
    WithinLimit(|b|);
    PayloadExact(Encode(STANDARD, b), b);
  }

  /** The two limits agree: whatever configuration can be encoded in bytes within the one is within the other. */
  lemma StandardRoundTrip(w: World, unmarshal: Unmarshal, b: Bytes)
    requires AllBytes(b) && 1 <= |b| <= 768 * 1024 && unmarshal(b).Some? && Accepts(w, unmarshal(b).value)
    ensures StandardLinks(w, unmarshal, PREFIX + Encode(STANDARD, b)) == Some(AllLinks(w, unmarshal(b).value.profiles))
  {
    PayloadOfEncoded(b);
    hide Payload, Accepts, AllLinks, Encode;
  }

  // ---- Links are plain lines ----

  lemma {:induction false} LinksArePlain(w: World, p: Profile, n: nat)
    requires n <= |p.servers|
    ensures PlainLinks(Links(w, p, n))
  {
    hide LinkOf, MieruLink.LinkText;
    if n > 0 {
      LinksArePlain(w, p, n - 1);
      LinkIsPlain(w, p, n - 1);
    }
  }

  /** Every text is a single line that is no standard link, and has a colon. */
  predicate PlainLinks(links: seq<string>) {
    forall k :: 0 <= k < |links| ==> '\n' !in links[k] && !IsLink(links[k]) && ':' in links[k]
  }

  lemma LinkIsPlain(w: World, p: Profile, i: nat)
    requires i < |p.servers|
    ensures var text := MieruLink.LinkText(LinkOf(w, p, i)); '\n' !in text && !IsLink(text) && ':' in text
  {
    MieruLink.LinkIsOneLine(LinkOf(w, p, i));
    hide LinkOf, MieruLink.LinkText;
  }

  lemma {:induction false} AllLinksArePlain(w: World, profiles: seq<Option<Profile>>)
    ensures PlainLinks(AllLinks(w, profiles))
  {
    hide Links, IsLink;
    if profiles != [] {
      AllLinksArePlain(w, profiles[..|profiles| - 1]);
      var p := profiles[|profiles| - 1];
      if p.Some? {
        LinksArePlain(w, p.value, |p.value.servers|);
      }
    }
  }

  /** expandMieruStandardURL as the expansion of subscriptions calls it. */
  function Standard(w: World, unmarshal: Unmarshal): Expander {
    link => StandardLinks(w, unmarshal, link)
  }

  lemma StandardLinksArePlain(w: World, unmarshal: Unmarshal, link: string)
    requires StandardLinks(w, unmarshal, link).Some?
    ensures PlainLinks(StandardLinks(w, unmarshal, link).value)
  {
    AllLinksArePlain(w, unmarshal(Payload(link).value).value.profiles);
    hide Payload, Accepts, AllLinks, PlainLinks;
  }

  /** The links that the projection makes are what the expansion of subscriptions needs them to be. */
  lemma StandardIsGood(w: World, unmarshal: Unmarshal)
    ensures GoodLinks(Standard(w, unmarshal))
  {
    hide StandardLinks, IsLink;
    forall s: string | Standard(w, unmarshal)(s).Some?
      ensures PlainLinks(Standard(w, unmarshal)(s).value)
    {
      StandardLinksArePlain(w, unmarshal, s);
    }
  }

  // ---- Subscriptions ----

  function ExpandSubscription(w: World, unmarshal: Unmarshal, subscription: string): string {
    Expand(Standard(w, unmarshal), Loose, subscription)
  }

  method ExpandSubscriptionLoop(w: World, unmarshal: Unmarshal, subscription: string) returns (r: string)
    ensures r == ExpandSubscription(w, unmarshal, subscription)
  {
    r := ExpandLoop(Standard(w, unmarshal), Loose, subscription);
  }

  /**
   Every subscription: its lines stay, in order, but that each standard link gives way to all links of the
   configuration that it carries, or to nothing; no standard link is left.
   */
  lemma SubscriptionLines(w: World, unmarshal: Unmarshal, subscription: string)
    ensures var r := ExpandSubscription(w, unmarshal, subscription);
      var source := Source(Loose, subscription);
      && !ContainsLink(r)
      && (source.None? ==> r == subscription)
      && (source.Some? ==>
           var rs := Replacements(Standard(w, unmarshal), Split(source.value, '\n'));
           if rs == [] then r == "" else Split(r, '\n') == rs)
  {
    StandardIsGood(w, unmarshal);
    NoLinkIsLeft(Standard(w, unmarshal), Loose, subscription);
    if Source(Loose, subscription).Some? {
      ExpandedLines(Standard(w, unmarshal), Loose, subscription);
    }
    hide Source, Replacements, Standard, GoodLinks, ContainsLink, Split;
  }

  // ---- Expanding twice ----

  /** The length of some lines, each with the end of its line. */
  function Total(lines: seq<string>): nat {
    if lines == [] then 0 else |lines[0]| + 1 + Total(lines[1..])
  }

  lemma {:induction false} JoinLength(lines: seq<string>, c: char)
    ensures |Join(lines, c)| == if lines == [] then 0 else Total(lines) - 1
  {
    if |lines| > 1 {
      JoinLength(lines[1..], c);
    }
  }

  lemma {:induction false} TotalAppend(a: seq<string>, b: seq<string>)
    ensures Total(a + b) == Total(a) + Total(b)
  {
    if a == [] {
      assert a + b == b;
    } else {
      TotalAppend(a[1..], b);
      assert (a + b)[1..] == a[1..] + b;
    }
  }

  lemma {:induction false} JoinHas(lines: seq<string>, k: nat, c: char, x: char)
    requires k < |lines| && x in lines[k]
    ensures x in Join(lines, c)
  {
    if |lines| > 1 && k > 0 {
      JoinHas(lines[1..], k - 1, c, x);
    }
  }

  predicate SomeColon(lines: seq<string>) {
    exists k :: 0 <= k < |lines| && ':' in lines[k]
  }

  lemma SomeColonAppend(a: seq<string>, b: seq<string>)
    requires SomeColon(a) || SomeColon(b)
    ensures SomeColon(a + b)
  {
    if SomeColon(a) {
      var k :| 0 <= k < |a| && ':' in a[k];
      assert (a + b)[k] == a[k];
    } else {
      var k :| 0 <= k < |b| && ':' in b[k];
      assert (a + b)[|a| + k] == b[k];
    }
  }

  lemma ReplacementShrinks(w: World, unmarshal: Unmarshal, line: string)
    ensures var r := Replacement(Standard(w, unmarshal), line); SomeColon(r) || Total(r) <= Total([line])
  {
    var r := Replacement(Standard(w, unmarshal), line);
    var links := StandardLinks(w, unmarshal, TrimRight(line));
    if IsLink(line) && links.Some? && links.value != [] {
      AllLinksArePlain(w, unmarshal(Payload(TrimRight(line)).value).value.profiles);
      assert r == links.value && ':' in r[0];
    }
    hide AllLinks, Accepts, Payload, IsLink, TrimRight;
  }

  /** Unless a link is expanded, and then there is a colon, the lines only become fewer. */
  lemma {:induction false} ReplacementsShrink(w: World, unmarshal: Unmarshal, lines: seq<string>)
    ensures var rs := Replacements(Standard(w, unmarshal), lines); SomeColon(rs) || Total(rs) <= Total(lines)
  {
    hide Replacement, Standard;
    if lines != [] {
      var first := Replacement(Standard(w, unmarshal), lines[0]);
      var rest := Replacements(Standard(w, unmarshal), lines[1..]);
      ReplacementShrinks(w, unmarshal, lines[0]);
      ReplacementsShrink(w, unmarshal, lines[1..]);
      TotalAppend(first, rest);
      if SomeColon(first) || SomeColon(rest) {
        SomeColonAppend(first, rest);
      }
      hide SomeColon;
    }
  }

  /** What is left of a text that was decoded is shorter than the encoded text, or has a colon as that has not. */
  lemma DecodedChanges(w: World, unmarshal: Unmarshal, text: string)
    requires Loose(text).Some? && Loose(text).value != ""
    ensures Join(Replacements(Standard(w, unmarshal), Split(Loose(text).value, '\n')), '\n') != text
  {
    LooseIsDecoded(text, 0);
    var lines := Split(Loose(text).value, '\n');
    var rs := Replacements(Standard(w, unmarshal), lines);
    JoinSplit(Loose(text).value, '\n');
    JoinLength(lines, '\n');
    JoinLength(rs, '\n');
    ReplacementsShrink(w, unmarshal, lines);
    hide LooseFrom, Split, Replacements, Standard, Join;
    if SomeColon(rs) {
      var k :| 0 <= k < |rs| && ':' in rs[k];
      JoinHas(rs, k, '\n', ':');
    }
  }

  /**
   Expanding a second time changes nothing exactly if what the first time leaves does not decode to a text with
   standard links.
   */
  lemma SubscriptionTwice(w: World, unmarshal: Unmarshal, subscription: string)
    ensures var r := ExpandSubscription(w, unmarshal, subscription);
      ExpandSubscription(w, unmarshal, r) == r <==> Loose(r).None? || !ContainsLink(Loose(r).value)
  {
    var r := ExpandSubscription(w, unmarshal, subscription);
    SubscriptionLines(w, unmarshal, subscription);
    StandardIsGood(w, unmarshal);
    if Loose(r).None? || !ContainsLink(Loose(r).value) {
      ExpandTwice(Standard(w, unmarshal), Loose, subscription);
    } else {
      EmptyHasNoLink();
      DecodedChanges(w, unmarshal, r);
    }
    hide Loose, ContainsLink, Replacements, Standard, Split, GoodLinks;
  }

  lemma LinkHasColon(text: string)
    requires IsLink(text)
    ensures ':' in text
  {
    assert text[..8][5] == text[5];
  }

  lemma LooseIsNoLink(text: string)
    requires Loose(text).Some? && '\n' !in text
    ensures !IsLink(text) && Split(text, '\n') == [text] && !ContainsLink(text)
  {
    LooseIsDecoded(text, 0);
    hide LooseFrom;
    SplitJoin([text], '\n');
    if IsLink(text) {
      LinkHasColon(text);
    }
    hide IsLink;
  }

  lemma EmptyLink(w: World, unmarshal: Unmarshal)
    ensures Replacement(Standard(w, unmarshal), PREFIX) == [] && IsLink(PREFIX) && '\n' !in PREFIX
  {
    hide Accepts, AllLinks, DecodeStrict;
    assert PREFIX[|PREFIX| - 1] == '/';
    assert TrimRight(PREFIX) == PREFIX;
    assert PREFIX[|PREFIX|..] == "";
  }

  lemma TwoLines(w: World, unmarshal: Unmarshal, text: string)
    requires '\n' !in text && !IsLink(text)
    ensures ExpandSubscription(w, unmarshal, PREFIX + (['\n'] + text)) == text
  {
    EmptyLink(w, unmarshal);
    hide IsLink, Standard;
    var lines := [PREFIX, text];
    assert Join([text], '\n') == text;
    assert Join(lines, '\n') == PREFIX + (['\n'] + text) by { assert lines[1..] == [text]; }
    SplitJoin(lines, '\n');
    assert IsLink(lines[0]);
    assert Replacements(Standard(w, unmarshal), [text]) == [text];
    assert Replacements(Standard(w, unmarshal), lines) == [text] by { assert lines[1..] == [text]; }
    hide Split, Join, Replacements;
  }

  /** It can change: a link that is not accepted may stand before a line that hides a whole subscription. */
  lemma HiddenSubscription(w: World, unmarshal: Unmarshal, hidden: string)
    requires ContainsLink(hidden) && IsBytes(hidden)
    ensures var text := Encode(Encoding(true, false), BytesOf(hidden));
      && ExpandSubscription(w, unmarshal, PREFIX + (['\n'] + text)) == text
      && ExpandSubscription(w, unmarshal, text) == ExpandSubscription(w, unmarshal, hidden) != text
  {
    var text := Encode(Encoding(true, false), BytesOf(hidden));
    LooseOfEncoded(Encoding(true, false), hidden);
    LooseIsNoLink(text);
    TwoLines(w, unmarshal, text);
    EmptyHasNoLink();
    DecodedChanges(w, unmarshal, text);
    hide Loose, Encode, ContainsLink, Split, Join, Replacements, Standard, IsLink;
  }
}
