/**
 What a projected link tells its reader, in the terms of the profile and the server alone: which bindings are
 acceptable, and what stands under each key of the query and in each part of the link.
 */
module MieruContent {
  import opened Sequences
  import opened Decimals
  import opened GoStrings
  import opened LooseBase64
  import opened MieruLink
  import opened MieruProjection
  import opened UrlText

  // ---- Port bindings ----

  predicate IsPort(n: int) {
    1 <= n <= 65535
  }

  /** The text names the ports from `first` to `last`, by two numbers with a dash between them. */
  ghost predicate NamesRange(text: string, first: int, last: int) {
    && IsPort(first) && IsPort(last) && first <= last
    && exists a: string, b: string ::
      text == a + (['-'] + b) && '-' !in a && '-' !in b && Atoi(a) == Some(first) && Atoi(b) == Some(last)
  }

  ghost predicate SomeRange(text: string) {
    exists first, last :: NamesRange(text, first, last)
  }

  /** A known protocol, and either a port or a range of ports, but not both. */
  ghost predicate BindingOk(b: Binding) {
    && (b.protocol == Some(Tcp) || b.protocol == Some(Udp))
    && (b.port.Some? != b.portRange.Some?)
    && (b.port.Some? ==> IsPort(b.port.value))
    && (b.portRange.Some? ==> SomeRange(b.portRange.value))
  }

  function ProtocolName(p: Protocol): string {
    match p
    case Tcp => "TCP"
    case Udp => "UDP"
    case UnknownProtocol => ""
  }

  /** The text gives the port of the binding, or the first and the last port of its range, as plain numbers. */
  ghost predicate GivesPorts(b: Binding, text: string) {
    && (b.port.Some? ==> AllDigits(text) && Atoi(text) == b.port)
    && (b.port.None? ==> b.portRange.Some? && forall first, last ::
          NamesRange(b.portRange.value, first, last) ==> NamesRange(text, first, last))
  }

  lemma TwoParts(text: string, a: string, b: string)
    requires text == a + (['-'] + b) && '-' !in a && '-' !in b
    ensures Split(text, '-') == [a, b]
  {
    SplitJoin([a, b], '-');
    assert Join([b], '-') == b;
    hide Split;
  }

  lemma RangeOfParts(text: string, a: string, b: string)
    requires Split(text, '-') == [a, b]
    ensures RangeOf(text) ==
      if Atoi(a).Some? && Atoi(b).Some? && 1 <= Atoi(a).value <= Atoi(b).value <= MAX_PORT
      then Some((Atoi(a).value, Atoi(b).value)) else None
  {
    hide Split, Atoi;
  }

  lemma RangeRead(text: string, first: int, last: int)
    requires NamesRange(text, first, last)
    ensures RangeOf(text).Some? && RangeOf(text).value == (first, last)
  {
    hide RangeOf, Split, Atoi;
    var a, b :| text == a + (['-'] + b) && '-' !in a && '-' !in b && Atoi(a) == Some(first) && Atoi(b) == Some(last);
    TwoParts(text, a, b);
    RangeOfParts(text, a, b);
  }

  lemma PartsOfRange(text: string)
    requires RangeOf(text).Some?
    ensures |Split(text, '-')| == 2
  {
    hide Split, Atoi;
  }

  lemma RangeNamed(text: string)
    requires RangeOf(text).Some?
    ensures NamesRange(text, RangeOf(text).value.0, RangeOf(text).value.1)
  {
    PartsOfRange(text);
    hide RangeOf, Atoi, Split;
    var parts := Split(text, '-');
    SplitParts(text, '-');
    JoinSplit(text, '-');
    assert parts == [parts[0], parts[1]];
    RangeOfParts(text, parts[0], parts[1]);
    JoinTwo(parts);
    hide Join;
  }

  lemma JoinTwo(parts: seq<string>)
    requires |parts| == 2
    ensures Join(parts, '-') == parts[0] + (['-'] + parts[1])
  {
    assert Join(parts[1..], '-') == parts[1];
  }

  lemma RangeIs(text: string, first: int, last: int)
    ensures NamesRange(text, first, last) <==> RangeOf(text).Some? && RangeOf(text).value == (first, last)
  {
    hide RangeOf, NamesRange;
    if NamesRange(text, first, last) {
      RangeRead(text, first, last);
    }
    if RangeOf(text).Some? {
      RangeNamed(text);
    }
  }

  /** A binding is accepted exactly if it names ports and a known protocol, and both are told as they are. */
  lemma PortExact(b: Option<Binding>)
    ensures PortOf(b).Some? <==> b.Some? && BindingOk(b.value)
    ensures PortOf(b).Some? ==> GivesPorts(b.value, PortOf(b).value.0)
    ensures PortOf(b).Some? && b.value.protocol == Some(Tcp) ==> PortOf(b).value.1 == "TCP"
    ensures PortOf(b).Some? && b.value.protocol == Some(Udp) ==> PortOf(b).value.1 == "UDP"
  {
    if b.Some? && b.value.port.Some? && IsPort(b.value.port.value) {
      AtoiDecimal(b.value.port.value);
      DecimalReadsBack(b.value.port.value);
    }
    if b.Some? && b.value.portRange.Some? {
      RangeTold(b.value.portRange.value);
    }
    hide RangeOf, Atoi, Decimal, NamesRange, RangeText, AllDigits;
  }

  lemma RangeTold(text: string)
    ensures RangeOf(text).Some? <==> SomeRange(text)
    ensures RangeOf(text).Some? ==> forall first, last ::
      NamesRange(text, first, last) ==> NamesRange(RangeText(RangeOf(text).value.0, RangeOf(text).value.1), first, last)
  {
    forall first, last
      ensures NamesRange(text, first, last) <==> RangeOf(text).Some? && RangeOf(text).value == (first, last)
    {
      RangeIs(text, first, last);
    }
    if RangeOf(text).Some? {
      var first, last := RangeOf(text).value.0, RangeOf(text).value.1;
      assert NamesRange(text, first, last);
      RangeReadsBack(first, last);
      RangeIs(RangeText(first, last), first, last);
    }
    hide RangeOf, NamesRange, RangeText;
  }

  // ---- Queries ----

  /** The values of a key, in the order in which they are printed. */
  function ValuesUnder(q: Pairs, key: string): seq<string> {
    if q == [] then []
    else ValuesUnder(q[..|q| - 1], key) + (if q[|q| - 1].0 == key then [q[|q| - 1].1] else [])
  }

  lemma {:induction false} UnderJoined(a: Pairs, b: Pairs, key: string)
    ensures ValuesUnder(a + b, key) == ValuesUnder(a, key) + ValuesUnder(b, key)
  {
    if b == [] {
      assert a + b == a;
    } else {
      var last := |b| - 1;
      UnderJoined(a, b[..last], key);
      assert (a + b)[..|a + b| - 1] == a + b[..last];
    }
  }

  /** The order in which the keys are printed. */
  function Rank(key: string): int {
    if key == "handshake-mode" then 0
    else if key == "multiplexing" then 1
    else if key == "port" then 2
    else if key == "profile" then 3
    else if key == "protocol" then 4
    else if key == "traffic-pattern" then 5
    else -1
  }

  /** Known keys only, in alphabetical order. */
  predicate KeysInOrder(q: Pairs, from: int, to: int) {
    && (forall k :: 0 <= k < |q| ==> 0 <= from <= Rank(q[k].0) <= to)
    && forall k, l :: 0 <= k < l < |q| ==> Rank(q[k].0) <= Rank(q[l].0)
  }

  lemma OrderJoined(a: Pairs, b: Pairs, from: int, middle: int, to: int)
    requires 0 <= from <= middle < to && KeysInOrder(a, from, middle) && KeysInOrder(b, middle + 1, to)
    ensures KeysInOrder(a + b, from, to)
  {
    hide Rank;
  }

  predicate OneKey(q: Pairs, key: string) {
    forall k :: 0 <= k < |q| ==> q[k].0 == key
  }

  /** All values stand under the one key that there is. */
  lemma {:induction false} UnderOneKey(q: Pairs, key: string, other: string)
    requires OneKey(q, key)
    ensures other != key ==> ValuesUnder(q, other) == []
    ensures other == key ==> |ValuesUnder(q, other)| == |q|
    ensures other == key ==> forall k :: 0 <= k < |q| ==> ValuesUnder(q, other)[k] == q[k].1
  {
    if q != [] {
      UnderOneKey(q[..|q| - 1], key, other);
    }
  }

  lemma OrderOneKey(q: Pairs, key: string)
    requires OneKey(q, key) && Rank(key) >= 0
    ensures KeysInOrder(q, Rank(key), Rank(key))
  {
    hide Rank;
  }

  lemma {:induction false} PortsUnder(bindings: seq<Option<Binding>>)
    ensures OneKey(Ports(bindings), "port") && |Ports(bindings)| == |bindings|
    ensures OneKey(Protocols(bindings), "protocol") && |Protocols(bindings)| == |bindings|
    ensures forall k :: 0 <= k < |bindings| && PortOf(bindings[k]).Some? ==>
      Ports(bindings)[k].1 == PortOf(bindings[k]).value.0 && Protocols(bindings)[k].1 == PortOf(bindings[k]).value.1
  {
    hide PortOf;
    if bindings != [] {
      PortsUnder(bindings[..|bindings| - 1]);
    }
  }

  // ---- Links ----

  /** An option stands under its key with its name, and is not there if it is not set. */
  predicate TellsOption(values: seq<string>, option: Option<EnumValue>) {
    match option
    case None => values == []
    case Some(Named(name)) => values == if name == "" then [] else [name]
    case Some(Unnamed) => true
  }

  /** A traffic pattern stands there in standard Base64, unless it is not set or encoded as nothing. */
  predicate TellsPattern(values: seq<string>, pattern: Option<Pattern>) {
    match pattern
    case None => values == []
    case Some(Pattern(_, bytes)) => values == if bytes == [] then [] else [Encode(Encoding(false, true), bytes)]
  }

  /** The ports and the protocols of the bindings, in their order. */
  ghost predicate TellsBindings(q: Pairs, bindings: seq<Option<Binding>>) {
    && |ValuesUnder(q, "port")| == |ValuesUnder(q, "protocol")| == |bindings|
    && forall k :: 0 <= k < |bindings| ==>
         && bindings[k].Some? && GivesPorts(bindings[k].value, ValuesUnder(q, "port")[k])
         && bindings[k].value.protocol.Some?
         && ValuesUnder(q, "protocol")[k] == ProtocolName(bindings[k].value.protocol.value)
  }

  /** The domain of a server if it has one, and else its address, in brackets if it is one of version 6. */
  predicate TellsHost(host: string, s: Server) {
    host == if s.domain != "" then s.domain else if ':' in s.ip then ['['] + s.ip + [']'] else s.ip
  }

  ghost predicate TellsQuery(q: Pairs, p: Profile, bindings: seq<Option<Binding>>) {
    && KeysInOrder(q, 0, 5)
    && ValuesUnder(q, "profile") == [p.name]
    && TellsOption(ValuesUnder(q, "multiplexing"), p.multiplexing)
    && TellsOption(ValuesUnder(q, "handshake-mode"), p.handshake)
    && TellsPattern(ValuesUnder(q, "traffic-pattern"), p.pattern)
    && TellsBindings(q, bindings)
  }

  lemma OptionalUnder(key: string, value: string)
    ensures OneKey(Optional(key, value), key)
    ensures ValuesUnder(Optional(key, value), key) == if value == "" then [] else [value]
  {
  }

  lemma SixParts(a: Pairs, b: Pairs, c: Pairs, d: Pairs, e: Pairs, f: Pairs, key: string)
    ensures ValuesUnder(a + b + c + d + e + f, key)
      == ValuesUnder(a, key) + ValuesUnder(b, key) + ValuesUnder(c, key)
         + ValuesUnder(d, key) + ValuesUnder(e, key) + ValuesUnder(f, key)
  {
    UnderJoined(a, b, key);
    UnderJoined(a + b, c, key);
    UnderJoined(a + b + c, d, key);
    UnderJoined(a + b + c + d, e, key);
    UnderJoined(a + b + c + d + e, f, key);
    hide ValuesUnder;
  }

  lemma SixInOrder(a: Pairs, b: Pairs, c: Pairs, d: Pairs, e: Pairs, f: Pairs)
    requires OneKey(a, "handshake-mode") && OneKey(b, "multiplexing") && OneKey(c, "port")
    requires OneKey(d, "profile") && OneKey(e, "protocol") && OneKey(f, "traffic-pattern")
    ensures KeysInOrder(a + b + c + d + e + f, 0, 5)
  {
    OrderOneKey(a, "handshake-mode");
    OrderOneKey(b, "multiplexing");
    OrderOneKey(c, "port");
    OrderOneKey(d, "profile");
    OrderOneKey(e, "protocol");
    OrderOneKey(f, "traffic-pattern");
    hide KeysInOrder, OneKey;
    OrderJoined(a, b, 0, 0, 1);
    OrderJoined(a + b, c, 0, 1, 2);
    OrderJoined(a + b + c, d, 0, 2, 3);
    OrderJoined(a + b + c + d, e, 0, 3, 4);
    OrderJoined(a + b + c + d + e, f, 0, 4, 5);
  }

  /** Under a key stand the values of the one part of the query that has it. */
  lemma SixUnder(a: Pairs, b: Pairs, c: Pairs, d: Pairs, e: Pairs, f: Pairs, key: string)
    requires OneKey(a, "handshake-mode") && OneKey(b, "multiplexing") && OneKey(c, "port")
    requires OneKey(d, "profile") && OneKey(e, "protocol") && OneKey(f, "traffic-pattern")
    ensures ValuesUnder(a + b + c + d + e + f, key) ==
      if key == "handshake-mode" then ValuesUnder(a, key)
      else if key == "multiplexing" then ValuesUnder(b, key)
      else if key == "port" then ValuesUnder(c, key)
      else if key == "profile" then ValuesUnder(d, key)
      else if key == "protocol" then ValuesUnder(e, key)
      else if key == "traffic-pattern" then ValuesUnder(f, key)
      else []
  {
    SixParts(a, b, c, d, e, f, key);
    UnderOneKey(a, "handshake-mode", key);
    UnderOneKey(b, "multiplexing", key);
    UnderOneKey(c, "port", key);
    UnderOneKey(d, "profile", key);
    UnderOneKey(e, "protocol", key);
    UnderOneKey(f, "traffic-pattern", key);
    hide OneKey, ValuesUnder;
  }

  lemma PatternTold(pattern: Option<Pattern>, values: seq<string>)
    requires values == if PatternText(pattern) == "" then [] else [PatternText(pattern)]
    ensures TellsPattern(values, pattern)
  {
    if pattern.Some? && pattern.value.encoded != [] {
      SomeDigits(pattern.value.encoded);
    }
  }

  lemma SomeDigits(b: Bytes)
    requires AllBytes(b) && b != []
    ensures Encode(Encoding(false, true), b) != ""
  {
    hide Digit;
  }

  lemma OptionTold(option: Option<EnumValue>, values: seq<string>)
    requires values == if EnumText(option) == "" then [] else [EnumText(option)]
    ensures TellsOption(values, option)
  {
  }

  lemma BindingsTold(q: Pairs, bindings: seq<Option<Binding>>)
    requires forall k :: 0 <= k < |bindings| ==> PortOf(bindings[k]).Some?
    requires ValuesUnder(q, "port") == ValuesUnder(Ports(bindings), "port")
    requires ValuesUnder(q, "protocol") == ValuesUnder(Protocols(bindings), "protocol")
    ensures TellsBindings(q, bindings)
  {
    PortsUnder(bindings);
    UnderOneKey(Ports(bindings), "port", "port");
    UnderOneKey(Protocols(bindings), "protocol", "protocol");
    hide PortOf, GivesPorts, ValuesUnder, Ports, Protocols, BindingOk;
    forall k | 0 <= k < |bindings|
      ensures bindings[k].Some? && BindingOk(bindings[k].value)
      ensures GivesPorts(bindings[k].value, PortOf(bindings[k]).value.0)
      ensures PortOf(bindings[k]).value.1 == ProtocolName(bindings[k].value.protocol.value)
    {
      PortExact(bindings[k]);
      KnownProtocol(bindings[k].value);
    }
    forall k | 0 <= k < |bindings|
      ensures bindings[k].value.protocol.Some?
    {
      KnownProtocol(bindings[k].value);
    }
  }

  lemma KnownProtocol(b: Binding)
    requires BindingOk(b)
    ensures b.protocol == Some(Tcp) || b.protocol == Some(Udp)
    ensures b.protocol == Some(Tcp) ==> ProtocolName(b.protocol.value) == "TCP"
    ensures b.protocol == Some(Udp) ==> ProtocolName(b.protocol.value) == "UDP"
  {
  }

  lemma ProfilePart(name: string)
    ensures OneKey([("profile", name)], "profile") && ValuesUnder([("profile", name)], "profile") == [name]
  {
    UnderOneKey([("profile", name)], "profile", "profile");
    hide ValuesUnder;
  }

  lemma QueryKeys(p: Profile, bindings: seq<Option<Binding>>)
    ensures var q := QueryOf(p, Ports(bindings), Protocols(bindings));
      && KeysInOrder(q, 0, 5)
      && ValuesUnder(q, "handshake-mode") == (if EnumText(p.handshake) == "" then [] else [EnumText(p.handshake)])
      && ValuesUnder(q, "multiplexing") == (if EnumText(p.multiplexing) == "" then [] else [EnumText(p.multiplexing)])
      && ValuesUnder(q, "port") == ValuesUnder(Ports(bindings), "port")
      && ValuesUnder(q, "profile") == [p.name]
      && ValuesUnder(q, "protocol") == ValuesUnder(Protocols(bindings), "protocol")
      && ValuesUnder(q, "traffic-pattern") == (if PatternText(p.pattern) == "" then [] else [PatternText(p.pattern)])
  {
    OptionalUnder("handshake-mode", EnumText(p.handshake));
    OptionalUnder("multiplexing", EnumText(p.multiplexing));
    OptionalUnder("traffic-pattern", PatternText(p.pattern));
    ProfilePart(p.name);
    PortsUnder(bindings);
    hide ValuesUnder, OneKey, KeysInOrder, Optional, Ports, Protocols, EnumText, PatternText;
    var a, b := Optional("handshake-mode", EnumText(p.handshake)), Optional("multiplexing", EnumText(p.multiplexing));
    var c, d, e := Ports(bindings), [("profile", p.name)], Protocols(bindings);
    var f := Optional("traffic-pattern", PatternText(p.pattern));
    SixInOrder(a, b, c, d, e, f);
    SixUnder(a, b, c, d, e, f, "handshake-mode");
    SixUnder(a, b, c, d, e, f, "multiplexing");
    SixUnder(a, b, c, d, e, f, "port");
    SixUnder(a, b, c, d, e, f, "profile");
    SixUnder(a, b, c, d, e, f, "protocol");
    SixUnder(a, b, c, d, e, f, "traffic-pattern");
  }

  lemma QueryTold(p: Profile, bindings: seq<Option<Binding>>)
    requires forall k :: 0 <= k < |bindings| ==> PortOf(bindings[k]).Some?
    ensures TellsQuery(QueryOf(p, Ports(bindings), Protocols(bindings)), p, bindings)
  {
    hide *;
    QueryKeys(p, bindings);
    var q := QueryOf(p, Ports(bindings), Protocols(bindings));
    BindingsTold(q, bindings);
    OptionTold(p.handshake, ValuesUnder(q, "handshake-mode"));
    OptionTold(p.multiplexing, ValuesUnder(q, "multiplexing"));
    PatternTold(p.pattern, ValuesUnder(q, "traffic-pattern"));
    AllTold(q, p, bindings);
  }

  lemma AllTold(q: Pairs, p: Profile, bindings: seq<Option<Binding>>)
    requires KeysInOrder(q, 0, 5) && TellsBindings(q, bindings)
    requires |ValuesUnder(q, "profile")| == 1 && ValuesUnder(q, "profile")[0] == p.name
    requires TellsOption(ValuesUnder(q, "multiplexing"), p.multiplexing)
    requires TellsOption(ValuesUnder(q, "handshake-mode"), p.handshake)
    requires TellsPattern(ValuesUnder(q, "traffic-pattern"), p.pattern)
    ensures TellsQuery(q, p, bindings)
  {
    hide ValuesUnder, KeysInOrder, TellsOption, TellsPattern, TellsBindings;
  }

  lemma HostTold(w: World, s: Server)
    requires ServerOk(w, Some(s))
    ensures TellsHost(HostText(w, HostOf(Some(s))), s)
  {
    if s.domain != "" {
      NoColon(w, s.domain);
    }
    hide DomainOk, PortOf;
  }

  lemma NoColon(w: World, domain: string)
    requires DomainOk(w, domain)
    ensures ':' !in domain
  {
  }

  /**
   Every link of an acceptable profile, read back, tells the credentials, the host, the options, the ports and the
   protocols that the profile and the server have, and is labelled with the name and the number of the server.
   */
  lemma LinkTells(w: World, p: Profile, i: nat)
    requires ProfileOk(w, Some(p)) && i < |p.servers|
    ensures |ProfileLinks(w, Some(p))| == |p.servers| && p.servers[i].Some? && p.user.Some?
    ensures var link := ReadLink(ProfileLinks(w, Some(p))[i]); var s := p.servers[i].value;
      && link.Some?
      && link.value.user == p.user.value.name && link.value.password == p.user.value.password
      && TellsHost(link.value.host, s) && TellsQuery(link.value.pairs, p, s.bindings)
      && link.value.fragment == p.name + (['-'] + Decimal(i + 1))
  {
    AcceptedParts(w, p, i);
    ProfileLinksAt(w, Some(p));
    LinkSays(w, p, i);
    HostTold(w, p.servers[i].value);
    QueryTold(p, p.servers[i].value.bindings);
    hide ProfileOk, ServerOk, ReadLink, LinkText, QueryOf, HostText, HostOf, Ports, Protocols, Decimal,
      TellsQuery, TellsHost, ProfileLinks;
  }

  lemma AcceptedParts(w: World, p: Profile, i: nat)
    requires ProfileOk(w, Some(p)) && i < |p.servers|
    ensures p.user.Some? && p.servers[i].Some? && ServerOk(w, p.servers[i])
    ensures forall k :: 0 <= k < |p.servers[i].value.bindings| ==> PortOf(p.servers[i].value.bindings[k]).Some?
  {
    hide NameOk, DomainOk, PortOf, OptionsOk;
  }

  // ---- What is accepted, in full ----

  /** Not empty, not too long, UTF-8, and without control characters. */
  predicate PlainText(w: World, s: string, limit: nat) {
    s != "" && |s| <= limit && w.utf8(s) && forall k :: 0 <= k < |s| ==> ' ' <= s[k] && s[k] != '\U{7f}'
  }

  /** A host name: no blank, no control character and no sign that ends the host of a URL. */
  predicate PlainHost(w: World, s: string) {
    && s != "" && |s| <= 253 && w.utf8(s) && !w.isIP(s)
    && forall k :: 0 <= k < |s| ==>
         ' ' < s[k] && s[k] !in {'\U{7f}', '/', '?', '#', '@', '[', ']', ':'}
  }

  ghost predicate GoodServer(w: World, s: Server) {
    && (s.domain != "" ==> PlainHost(w, s.domain))
    && (s.domain == "" ==> w.isIP(s.ip))
    && (s.ip == "" || w.isIP(s.ip))
    && 1 <= |s.bindings| <= 256
    && forall k :: 0 <= k < |s.bindings| ==> s.bindings[k].Some? && BindingOk(s.bindings[k].value)
  }

  predicate GoodUser(w: World, u: User) {
    && PlainText(w, u.name, 64) && PlainText(w, u.password, 64) && u.quotas == 0
    && (u.hash == "" || w.hashMatches(u.hash, u.password, u.name))
  }

  predicate GoodOptions(p: Profile) {
    && !p.dialer && (p.mtu.Some? ==> p.mtu.value == 0 || p.mtu.value == 1400)
    && (p.multiplexing.Some? ==> p.multiplexing.value.Named?) && (p.handshake.Some? ==> p.handshake.value.Named?)
    && (p.pattern.Some? ==> p.pattern.value.valid)
  }

  lemma NameExact(w: World, s: string, limit: nat)
    ensures NameOk(w, s, limit) <==> PlainText(w, s, limit)
  {
  }

  lemma DomainExact(w: World, s: string)
    ensures DomainOk(w, s) <==> PlainHost(w, s)
  {
  }

  /** A server is accepted exactly if it has a host name or an address, no false address, and good bindings. */
  lemma ServerExact(w: World, s: Server)
    ensures ServerOk(w, Some(s)) <==> GoodServer(w, s)
  {
    DomainExact(w, s.domain);
    forall k | 0 <= k < |s.bindings|
      ensures PortOf(s.bindings[k]).Some? <==> s.bindings[k].Some? && BindingOk(s.bindings[k].value)
    {
      PortExact(s.bindings[k]);
    }
    hide DomainOk, PlainHost, PortOf, BindingOk;
  }

  /** A profile is accepted exactly if its name, its user, its options and all of its servers are good. */
  lemma ProfileExact(w: World, p: Profile)
    ensures ProfileOk(w, Some(p)) <==>
      && PlainText(w, p.name, 256) && p.user.Some? && GoodUser(w, p.user.value) && GoodOptions(p)
      && 1 <= |p.servers| <= 256
      && forall k :: 0 <= k < |p.servers| ==> p.servers[k].Some? && GoodServer(w, p.servers[k].value)
  {
    NameExact(w, p.name, 256);
    UserExact(w, p.user);
    forall k | 0 <= k < |p.servers|
      ensures ServerOk(w, p.servers[k]) <==> p.servers[k].Some? && GoodServer(w, p.servers[k].value)
    {
      if p.servers[k].Some? {
        ServerExact(w, p.servers[k].value);
      }
      NoServer(w);
    }
    OptionsExact(p);
    hide NameOk, PlainText, UserOk, GoodUser, ServerOk, GoodServer, OptionsOk, GoodOptions;
  }

  lemma NoServer(w: World)
    ensures !ServerOk(w, None)
  {
  }

  lemma UserExact(w: World, u: Option<User>)
    ensures UserOk(w, u) <==> u.Some? && GoodUser(w, u.value)
  {
    if u.Some? {
      NameExact(w, u.value.name, 64);
      NameExact(w, u.value.password, 64);
    }
    hide NameOk, PlainText;
  }

  lemma OptionsExact(p: Profile)
    ensures OptionsOk(p) <==> GoodOptions(p)
  {
    NotUnnamed(p.multiplexing);
    NotUnnamed(p.handshake);
    UsualMtu(p.mtu);
  }

  lemma UsualMtu(mtu: Option<int>)
    ensures mtu in {None, Some(0), Some(1400)} <==> (mtu.Some? ==> mtu.value == 0 || mtu.value == 1400)
  {
    match mtu
    case None =>
    case Some(n) =>
      assert mtu == Some(0) <==> n == 0;
      assert mtu == Some(1400) <==> n == 1400;
  }

  lemma NotUnnamed(option: Option<EnumValue>)
    ensures option != Some(Unnamed) <==> (option.Some? ==> option.value.Named?)
  {
    match option
    case None =>
    case Some(Named(_)) =>
    case Some(Unnamed) =>
  }

  /** The port bindings of the first `n` servers. */
  function BindingCount(servers: seq<Option<Server>>, n: nat): nat
    requires n <= |servers|
  {
    if n == 0 then 0
    else BindingCount(servers, n - 1) + (if servers[n - 1].Some? then |servers[n - 1].value.bindings| else 0)
  }

  /** The port bindings of the first `n` profiles. */
  function TotalCount(profiles: seq<Option<Profile>>, n: nat): nat
    requires n <= |profiles|
  {
    if n == 0 then 0
    else
      var p := profiles[n - 1];
      TotalCount(profiles, n - 1) + (if p.Some? then BindingCount(p.value.servers, |p.value.servers|) else 0)
  }

  lemma {:induction false} EndpointsCount(servers: seq<Option<Server>>, n: nat)
    requires n <= |servers|
    ensures Endpoints(servers[..n]) == BindingCount(servers, n)
  {
    if n > 0 {
      EndpointsCount(servers, n - 1);
      assert servers[..n][..n - 1] == servers[..n - 1];
    }
  }

  lemma {:induction false} AllEndpointsCount(profiles: seq<Option<Profile>>, n: nat)
    requires n <= |profiles|
    ensures AllEndpoints(profiles[..n]) == TotalCount(profiles, n)
  {
    if n > 0 {
      AllEndpointsCount(profiles, n - 1);
      var p := profiles[n - 1];
      if p.Some? {
        EndpointsCount(p.value.servers, |p.value.servers|);
        assert p.value.servers[..|p.value.servers|] == p.value.servers;
      }
      assert profiles[..n][..n - 1] == profiles[..n - 1];
    }
  }

  /**
   A configuration is accepted exactly if it has profiles, all of them good and with different names, a known logging
   level, an active profile among them if it names one, and no more port bindings than the budget allows.
   */
  lemma ConfigExact(w: World, c: Config)
    ensures Accepts(w, c) <==>
      && 1 <= |c.profiles| <= 256 && c.logging.Named?
      && (forall k :: 0 <= k < |c.profiles| ==> c.profiles[k].Some? && ProfileOk(w, c.profiles[k]))
      && (forall k, l :: 0 <= k < l < |c.profiles| ==> c.profiles[k].value.name != c.profiles[l].value.name)
      && TotalCount(c.profiles, |c.profiles|) <= 16384
      && (c.active == "" || exists k :: 0 <= k < |c.profiles| && c.profiles[k].value.name == c.active)
  {
    AllEndpointsCount(c.profiles, |c.profiles|);
    assert c.profiles[..|c.profiles|] == c.profiles;
    SomeProfiles(w, c.profiles);
    if forall k :: 0 <= k < |c.profiles| ==> c.profiles[k].Some? {
      NamesExact(c.profiles, c.active);
    }
    hide AllEndpoints, TotalCount, ProfileOk, DistinctNames, Names;
  }

  lemma NamesExact(profiles: seq<Option<Profile>>, active: string)
    requires forall k :: 0 <= k < |profiles| ==> profiles[k].Some?
    ensures DistinctNames(profiles)
      <==> forall k, l :: 0 <= k < l < |profiles| ==> profiles[k].value.name != profiles[l].value.name
    ensures active in Names(profiles) <==> exists k :: 0 <= k < |profiles| && profiles[k].value.name == active
  {
  }

  lemma SomeProfiles(w: World, profiles: seq<Option<Profile>>)
    ensures forall k :: 0 <= k < |profiles| && ProfileOk(w, profiles[k]) ==> profiles[k].Some?
  {
  }
}
