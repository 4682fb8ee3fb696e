/**
 projectMieruServer and projectMieruPortBinding (mieru.go): the simple link of a server. Strings are sequences of
 bytes; the link is printed as Go's net/url prints it, with its escaping spelled out.
 */
module MieruLink {
  import opened Sequences
  import opened Decimals
  import opened GoStrings
  import opened UrlText

  // ---- Links ----

  /** What a link carries; its query is a list of keys and values in the order in which they are printed. */
  datatype Link = Link(user: string, password: string, host: string, pairs: Pairs, fragment: string)
  {
    predicate OfBytes() {
      IsBytes(user) && IsBytes(password) && IsBytes(host) && IsBytes(fragment) && PairsOfBytes(pairs)
    }
  }

  const SCHEME := "mierus://"

  /** User information, host, query and fragment, as they follow the scheme. */
  function LinkBody(l: Link): string {
    Escape(Credential, l.user) + ([':'] + (Escape(Credential, l.password) + (['@']
      + (Escape(Host, l.host) + (['?'] + (QueryText(l.pairs) + (['#'] + Escape(Fragment, l.fragment))))))))
  }

  function LinkText(l: Link): string {
    SCHEME + LinkBody(l)
  }

  /** The link that a text carries. */
  function ReadLink(s: string): Option<Link> {
    if !HasPrefix(s, SCHEME) then None
    else
      var user := Cut(s[|SCHEME|..], ':');
      if user.None? then None else
      var password := Cut(user.value.1, '@');
      if password.None? then None else
      var host := Cut(password.value.1, '?');
      if host.None? then None else
      var query := Cut(host.value.1, '#');
      if query.None? then None else
      ReadParts(user.value.0, password.value.0, host.value.0, query.value.0, query.value.1)
  }

  function ReadParts(user: string, password: string, host: string, query: string, fragment: string): Option<Link> {
    var u, p, h := Unescape(Credential, user), Unescape(Credential, password), Unescape(Host, host);
    var q, f := ParseQuery(query), Unescape(Fragment, fragment);
    if u.None? || p.None? || h.None? || q.None? || f.None? then None
    else Some(Link(u.value, p.value, h.value, q.value, f.value))
  }

  /** A link says exactly what it was made of, whatever bytes the names and passwords hold. */
  lemma LinkReadsBack(l: Link)
    requires l.OfBytes()
    ensures ReadLink(LinkText(l)) == Some(l)
  {
    hide Escape, Unescape, QueryText, ParseQuery, Cut, IsBytes;
    var u, p, h := Escape(Credential, l.user), Escape(Credential, l.password), Escape(Host, l.host);
    var q, f := QueryText(l.pairs), Escape(Fragment, l.fragment);
    NotEscaped(Credential, l.user, ':');
    NotEscaped(Credential, l.password, '@');
    NotEscaped(Host, l.host, '?');
    QueryChars(l.pairs);
    CutAtPart(q, f, '#');
    CutAtPart(h, q + (['#'] + f), '?');
    CutAtPart(p, h + (['?'] + (q + (['#'] + f))), '@');
    CutAtPart(u, p + (['@'] + (h + (['?'] + (q + (['#'] + f))))), ':');
    assert LinkText(l)[..9] == SCHEME && LinkText(l)[9..] == LinkBody(l);
    EscapeReadsBack(Credential, l.user);
    EscapeReadsBack(Credential, l.password);
    EscapeReadsBack(Host, l.host);
    EscapeReadsBack(Fragment, l.fragment);
    QueryReadsBack(l.pairs);
  }

  lemma AfterSign(sign: char, s: string)
    requires sign != '\n' && '\n' !in s
    ensures '\n' !in [sign] + s
  {
  }

  lemma AfterPart(part: Part, s: string, rest: string)
    requires '\n' !in rest
    ensures '\n' !in Escape(part, s) + rest
  {
    NotEscaped(part, s, '\n');
    hide Escape;
  }

  lemma AfterQuery(pairs: Pairs, rest: string)
    requires '\n' !in rest
    ensures '\n' !in QueryText(pairs) + rest
  {
    QueryChars(pairs);
    hide QueryText;
  }

  lemma BodyIsOneLine(l: Link)
    ensures '\n' !in LinkBody(l)
  {
    var fragment := Escape(Fragment, l.fragment);
    var query := QueryText(l.pairs) + (['#'] + fragment);
    var host := Escape(Host, l.host) + (['?'] + query);
    var password := Escape(Credential, l.password) + (['@'] + host);
    NotEscaped(Fragment, l.fragment, '\n');
    hide Escape, QueryText;
    AfterSign('#', fragment);
    AfterQuery(l.pairs, ['#'] + fragment);
    AfterSign('?', query);
    AfterPart(Host, l.host, ['?'] + query);
    AfterSign('@', host);
    AfterPart(Credential, l.password, ['@'] + host);
    AfterSign(':', password);
    AfterPart(Credential, l.user, [':'] + password);
  }

  /** A link is a single line with a colon, and no standard link. */
  lemma LinkIsOneLine(l: Link)
    ensures '\n' !in LinkText(l) && !HasPrefix(LinkText(l), "mieru://") && ':' in LinkText(l)
  {
    BodyIsOneLine(l);
    hide LinkBody;
    assert LinkText(l)[5] == 's' && LinkText(l)[6] == ':';
    if HasPrefix(LinkText(l), "mieru://") {
      PrefixChar(LinkText(l), "mieru://", 5);
    }
  }

  lemma PrefixChar(s: string, prefix: string, k: nat)
    requires HasPrefix(s, prefix) && k < |prefix|
    ensures s[k] == prefix[k]
  {
    assert s[..|prefix|][k] == s[k];
  }

  // ---- Ports ----

  datatype Protocol = Tcp | Udp | UnknownProtocol

  /** A port binding, whose fields are optional as in the protocol buffer. */
  datatype Binding = Binding(protocol: Option<Protocol>, port: Option<int>, portRange: Option<string>)

  const MAX_PORT := 65535

  function RangeText(first: nat, last: nat): string {
    Decimal(first) + (['-'] + Decimal(last))
  }

  /** The ports that a range names, if they are ports and in order. */
  function RangeOf(text: string): Option<(nat, nat)> {
    var parts := Split(text, '-');
    if |parts| != 2 then None
    else
      var first, last := Atoi(parts[0]), Atoi(parts[1]);
      if first.None? || last.None? || first.value < 1 || last.value > MAX_PORT || first.value > last.value then None
      else Some((first.value, last.value))
  }

  /** The port or the range of ports of a binding, and its protocol. */
  function PortOf(binding: Option<Binding>): Option<(string, string)> {
    if binding.None? || binding.value.protocol.None? || binding.value.protocol.value.UnknownProtocol? then None
    else
      var b := binding.value;
      var protocol := if b.protocol.value.Tcp? then "TCP" else "UDP";
      if b.port.None? == b.portRange.None? then None
      else if b.port.Some? then
        if b.port.value < 1 || b.port.value > MAX_PORT then None else Some((Decimal(b.port.value), protocol))
      else
        var range := RangeOf(b.portRange.value);
        if range.None? then None else Some((RangeText(range.value.0, range.value.1), protocol))
  }

  lemma RangeReadsBack(first: nat, last: nat)
    requires 1 <= first <= last <= MAX_PORT
    ensures RangeOf(RangeText(first, last)) == Some((first, last))
  {
    AtoiDecimal(first);
    AtoiDecimal(last);
    SplitJoin([Decimal(first), Decimal(last)], '-');
    assert Join([Decimal(last)], '-') == Decimal(last);
    hide Decimal, Split, Atoi;
  }

  /** What is printed for a binding denotes the same port or the same range of ports, and only ports. */
  lemma PortDenotes(b: Binding)
    requires PortOf(Some(b)).Some?
    ensures var text := PortOf(Some(b)).value.0;
      && (b.port.Some? ==> Atoi(text) == Some(b.port.value) && 1 <= b.port.value <= MAX_PORT)
      && (b.port.None? ==> RangeOf(text).Some? && RangeOf(text) == RangeOf(b.portRange.value))
  {
    if b.port.Some? {
      AtoiDecimal(b.port.value);
    } else {
      var range := RangeOf(b.portRange.value).value;
      RangeReadsBack(range.0, range.1);
    }
    hide Atoi, Decimal, RangeText;
  }
}
