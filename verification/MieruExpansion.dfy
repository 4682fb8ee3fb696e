/**
 expandMieruStandardSubscription (mieru.go): every line with a binary mieru:// link is replaced by all of its
 simple links or by nothing. Decoding a link and loose Base64 are parameters here; MieruStandard fills them in.
 */
module MieruExpansion {
  import opened Sequences
  import opened GoStrings

  const PREFIX := "mieru://"

  predicate Trimmed(c: char) {
    c == ' ' || c == '\r'
  }

  function TrimRight(s: string): (r: string)
    ensures r <= s && (r != [] ==> !Trimmed(r[|r| - 1]))
    ensures forall k :: |r| <= k < |s| ==> Trimmed(s[k])
  {
    if s != [] && Trimmed(s[|s| - 1]) then TrimRight(s[..|s| - 1]) else s
  }

  predicate IsLink(line: string) {
    HasPrefix(line, PREFIX)
  }

  /** Trimming the end of a line does not change whether it is a link. */
  lemma TrimKeepsLink(line: string)
    ensures IsLink(TrimRight(line)) == IsLink(line)
  {
    var r := TrimRight(line);
    if HasPrefix(line, PREFIX) {
      assert line[7] == line[..8][7] == '/';
      assert 8 <= |r|;
    }
  }

  /** The links of a standard URI, or none when it is not accepted. */
  type Expander = string -> Option<seq<string>>

  type Decoder = string -> Option<string>

  function ContainsLink(s: string): bool {
    exists k :: 0 <= k < |Split(s, '\n')| && IsLink(Split(s, '\n')[k])
  }

  /** What a line becomes. */
  function Replacement(expand: Expander, line: string): seq<string> {
    if !IsLink(line) then [line]
    else
      var links := expand(TrimRight(line));
      if links.None? then [] else links.value
  }

  lemma {:induction false} TrimmedOff(s: string, blanks: string)
    requires forall k :: 0 <= k < |blanks| ==> blanks[k] == ' ' || blanks[k] == '\r'
    requires s != "" ==> s[|s| - 1] != ' ' && s[|s| - 1] != '\r'
    ensures TrimRight(s + blanks) == s
    decreases |blanks|
  {
    if blanks != "" {
      var last := |blanks| - 1;
      assert (s + blanks)[..|s| + last] == s + blanks[..last];
      TrimmedOff(s, blanks[..last]);
    } else {
      assert s + blanks == s;
    }
  }

  /** A line with a link, and blanks and carriage returns after it, gives way to the links that it expands to. */
  lemma LinkLine(expand: Expander, rest: string, blanks: string)
    requires forall k :: 0 <= k < |blanks| ==> blanks[k] == ' ' || blanks[k] == '\r'
    requires rest != "" ==> rest[|rest| - 1] != ' ' && rest[|rest| - 1] != '\r'
    ensures var link := "mieru://" + rest;
      Replacement(expand, link + blanks) == if expand(link).Some? then expand(link).value else []
  {
    var link := "mieru://" + rest;
    assert rest != "" ==> link[|link| - 1] == rest[|rest| - 1];
    TrimmedOff(link, blanks);
    assert (link + blanks)[..8] == PREFIX;
    hide TrimRight;
  }

  /** Any other line stays. */
  lemma OtherLine(expand: Expander, line: string)
    requires |line| < 8 || line[..8] != "mieru://"
    ensures Replacement(expand, line) == [line]
  {
  }

  function Replacements(expand: Expander, lines: seq<string>): seq<string> {
    if lines == [] then [] else Replacement(expand, lines[0]) + Replacements(expand, lines[1..])
  }

  /** The text whose lines are replaced: the subscription, or what it decodes to. */
  function Source(decode: Decoder, subscription: string): Option<string> {
    if ContainsLink(subscription) then Some(subscription)
    else
      var decoded := decode(subscription);
      if decoded.Some? && ContainsLink(decoded.value) then decoded else None
  }

  function Expand(expand: Expander, decode: Decoder, subscription: string): string {
    var source := Source(decode, subscription);
    if source.None? then subscription else Join(Replacements(expand, Split(source.value, '\n')), '\n')
  }

  // ---- The loops ----

  method ContainsLinkLoop(s: string) returns (r: bool)
    ensures r == ContainsLink(s)
  {
    var lines := Split(s, '\n');
    for i := 0 to |lines|
      invariant forall k :: 0 <= k < i ==> !IsLink(lines[k])
    {
      if IsLink(lines[i]) {
        return true;
      }
    }
    return false;
  }

  lemma {:induction false} ReplacementsAppend(expand: Expander, lines: seq<string>, i: nat)
    requires i < |lines|
    ensures Replacements(expand, lines[..i + 1]) == Replacements(expand, lines[..i]) + Replacement(expand, lines[i])
    decreases i
  {
    hide Replacement;
    if i == 0 {
      assert lines[..1] == [lines[0]];
    } else {
      ReplacementsAppend(expand, lines[1..], i - 1);
      assert lines[..i + 1][1..] == lines[1..][..i] && lines[..i][1..] == lines[1..][..i - 1];
    }
  }

  method ExpandLoop(expand: Expander, decode: Decoder, subscription: string) returns (r: string)
    ensures r == Expand(expand, decode, subscription)
  {
    hide ContainsLink, IsLink;
    var source := subscription;
    var found := ContainsLinkLoop(subscription);
    if !found {
      var decoded := decode(subscription);
      if decoded.None? {
        return subscription;
      }
      found := ContainsLinkLoop(decoded.value);
      if !found {
        return subscription;
      }
      source := decoded.value;
    }
    var lines := Split(source, '\n');
    var expanded := [];
    for i := 0 to |lines|
      invariant expanded == Replacements(expand, lines[..i])
    {
      ReplacementsAppend(expand, lines, i);
      var candidate := TrimRight(lines[i]);
      TrimKeepsLink(lines[i]);
      if !IsLink(candidate) {
        expanded := expanded + [lines[i]];
        continue;
      }
      var links := expand(candidate);
      if links.None? {
        continue;
      }
      expanded := expanded + links.value;
    }
    assert lines[..|lines|] == lines;
    return Join(expanded, '\n');
  }

  // ---- Properties ----

  /** Links are single lines, and no standard links themselves. */
  ghost predicate GoodLinks(expand: Expander) {
    forall s: string :: expand(s).Some? ==>
      forall k :: 0 <= k < |expand(s).value| ==> '\n' !in expand(s).value[k] && !IsLink(expand(s).value[k])
  }

  predicate PlainLines(lines: seq<string>) {
    forall k :: 0 <= k < |lines| ==> '\n' !in lines[k] && !IsLink(lines[k])
  }

  lemma {:induction false} ReplacementsArePlain(expand: Expander, lines: seq<string>)
    requires GoodLinks(expand) && forall k :: 0 <= k < |lines| ==> '\n' !in lines[k]
    ensures PlainLines(Replacements(expand, lines))
  {
    if lines != [] {
      ReplacementsArePlain(expand, lines[1..]);
      ReplacementIsPlain(expand, lines[0]);
      hide IsLink, GoodLinks, Replacement;
    }
  }

  lemma ReplacementIsPlain(expand: Expander, line: string)
    requires GoodLinks(expand) && '\n' !in line
    ensures PlainLines(Replacement(expand, line))
  {
    hide IsLink;
  }

  /**
   The lines of the result are the replacements of the lines of the source, one after the other; when nothing
   is left, the result is empty. So other lines stay in order, and each link gives all of its links or none.
   */
  lemma ExpandedLines(expand: Expander, decode: Decoder, subscription: string)
    requires GoodLinks(expand) && Source(decode, subscription).Some?
    ensures var rs := Replacements(expand, Split(Source(decode, subscription).value, '\n'));
      var r := Expand(expand, decode, subscription);
      if rs == [] then r == "" else Split(r, '\n') == rs
  {
    var source := Source(decode, subscription).value;
    SplitParts(source, '\n');
    ReplacementsArePlain(expand, Split(source, '\n'));
    var rs := Replacements(expand, Split(source, '\n'));
    hide Replacements, Source, GoodLinks, IsLink, Split;
    if rs != [] {
      SplitJoin(rs, '\n');
    }
  }

  /** No standard link is left. */
  lemma NoLinkIsLeft(expand: Expander, decode: Decoder, subscription: string)
    requires GoodLinks(expand)
    ensures !ContainsLink(Expand(expand, decode, subscription))
  {
    if Source(decode, subscription).Some? {
      var source := Source(decode, subscription).value;
      SplitParts(source, '\n');
      ReplacementsArePlain(expand, Split(source, '\n'));
      ExpandedLines(expand, decode, subscription);
      EmptyHasNoLink();
      hide Replacements, Source, GoodLinks, IsLink, Split, Expand;
    }
  }

  lemma EmptyHasNoLink()
    ensures !ContainsLink("")
  {
    assert Split("", '\n') == [""];
  }

  /** Text with such a line is always changed; text without one, as it stands and as it decodes, never is. */
  lemma UnchangedWithoutLinks(expand: Expander, decode: Decoder, subscription: string)
    requires GoodLinks(expand)
    ensures ContainsLink(subscription) ==> Expand(expand, decode, subscription) != subscription
    ensures !ContainsLink(subscription) && (decode(subscription).None? || !ContainsLink(decode(subscription).value))
      ==> Expand(expand, decode, subscription) == subscription
  {
    NoLinkIsLeft(expand, decode, subscription);
    hide ContainsLink, Replacements;
  }

  /** Expanding twice is expanding once, if what the first time gives does not decode to more links. */
  lemma ExpandTwice(expand: Expander, decode: Decoder, subscription: string)
    requires GoodLinks(expand)
    ensures var r := Expand(expand, decode, subscription);
      Expand(expand, decode, r) == r <== decode(r).None? || !ContainsLink(decode(r).value)
  {
    NoLinkIsLeft(expand, decode, subscription);
    hide ContainsLink, Replacements;
  }
}
