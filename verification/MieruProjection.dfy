/**
 projectMieruClientConfig (mieru.go): all profiles of a configuration are turned into links, one for each server,
 within budgets, or none is.
 */
module MieruProjection {
  import opened Sequences
  import opened Decimals
  import opened GoStrings
  import opened LooseBase64
  import opened MieruLink
  import opened UrlText

  const MAX_PROFILES := 256
  const MAX_SERVERS := 256
  const MAX_BINDINGS := 256
  const MAX_ENDPOINTS := 16384

  /** A string of bytes. */
  type Text = s: string | IsBytes(s)

  /** The value of an enumeration, which may be one that the enumeration does not name. */
  datatype EnumValue = Named(name: Text) | Unnamed

  /** A traffic pattern: whether it is valid, and the bytes that it is encoded as. */
  datatype Pattern = Pattern(valid: bool, encoded: ByteString)

  datatype Server = Server(ip: Text, domain: Text, bindings: seq<Option<Binding>>)

  datatype User = User(name: Text, password: Text, hash: Text, quotas: nat)

  datatype Profile = Profile(name: Text, user: Option<User>, dialer: bool, mtu: Option<int>,
                             multiplexing: Option<EnumValue>, handshake: Option<EnumValue>,
                             pattern: Option<Pattern>, servers: seq<Option<Server>>)

  datatype Config = Config(profiles: seq<Option<Profile>>, logging: EnumValue, active: Text)

  /** net.ParseIP, utf8.ValidString, and whether a hash in hexadecimal is that of a password and a name. */
  datatype World = World(isIP: string -> bool, utf8: string -> bool, hashMatches: (string, string, string) -> bool)

  // ---- What is accepted ----

  predicate HasControl(s: string) {
    exists k :: 0 <= k < |s| && (s[k] as int < 0x20 || s[k] as int == 0x7f)
  }

  predicate NameOk(w: World, s: string, limit: nat) {
    1 <= |s| <= limit && w.utf8(s) && !HasControl(s)
  }

  predicate DomainOk(w: World, s: string) {
    && 1 <= |s| <= 253 && w.utf8(s) && !w.isIP(s)
    && forall k :: 0 <= k < |s| ==> s[k] as int > 0x20 && s[k] as int != 0x7f && s[k] !in "/?#@[]:"
  }

  predicate ServerOk(w: World, server: Option<Server>) {
    server.Some? &&
    var s := server.value;
    && (s.ip != "" ==> w.isIP(s.ip))
    && (if s.domain != "" then DomainOk(w, s.domain) else w.isIP(s.ip))
    && 1 <= |s.bindings| <= MAX_BINDINGS
    && forall j :: 0 <= j < |s.bindings| ==> PortOf(s.bindings[j]).Some?
  }

  predicate UserOk(w: World, user: Option<User>) {
    user.Some? &&
    var u := user.value;
    && NameOk(w, u.name, 64) && NameOk(w, u.password, 64)
    && (u.hash != "" ==> w.hashMatches(u.hash, u.password, u.name)) && u.quotas == 0
  }

  predicate OptionsOk(p: Profile) {
    && !p.dialer && p.mtu in {None, Some(0), Some(1400)}
    && p.multiplexing != Some(Unnamed) && p.handshake != Some(Unnamed)
    && (p.pattern.Some? ==> p.pattern.value.valid)
  }

  predicate ProfileOk(w: World, profile: Option<Profile>) {
    profile.Some? &&
    var p := profile.value;
    && NameOk(w, p.name, 256) && UserOk(w, p.user) && OptionsOk(p)
    && 1 <= |p.servers| <= MAX_SERVERS
    && forall i :: 0 <= i < |p.servers| ==> ServerOk(w, p.servers[i])
  }

  // A message that is not there has empty fields.

  function NameOf(p: Option<Profile>): Text {
    if p.Some? then p.value.name else ""
  }

  function ServersOf(p: Option<Profile>): seq<Option<Server>> {
    if p.Some? then p.value.servers else []
  }

  function BindingsOf(s: Option<Server>): seq<Option<Binding>> {
    if s.Some? then s.value.bindings else []
  }

  function HostOf(s: Option<Server>): Text {
    if s.None? then "" else if s.value.domain != "" then s.value.domain else s.value.ip
  }

  function UserName(u: Option<User>): Text {
    if u.Some? then u.value.name else ""
  }

  function Password(u: Option<User>): Text {
    if u.Some? then u.value.password else ""
  }

  function Endpoints(servers: seq<Option<Server>>): nat {
    if servers == [] then 0 else Endpoints(servers[..|servers| - 1]) + |BindingsOf(servers[|servers| - 1])|
  }

  function AllEndpoints(profiles: seq<Option<Profile>>): nat {
    if profiles == [] then 0
    else AllEndpoints(profiles[..|profiles| - 1]) + Endpoints(ServersOf(profiles[|profiles| - 1]))
  }

  predicate DistinctNames(profiles: seq<Option<Profile>>) {
    forall i, j :: 0 <= i < j < |profiles| ==> NameOf(profiles[i]) != NameOf(profiles[j])
  }

  function Names(profiles: seq<Option<Profile>>): set<string> {
    set k | 0 <= k < |profiles| :: NameOf(profiles[k])
  }

  /** Every one of the profiles can be projected. */
  predicate EachOk(w: World, profiles: seq<Option<Profile>>) {
    forall i :: 0 <= i < |profiles| ==> ProfileOk(w, profiles[i])
  }

  /** The profiles can be projected together. */
  predicate ProfilesOk(w: World, profiles: seq<Option<Profile>>) {
    EachOk(w, profiles) && DistinctNames(profiles) && AllEndpoints(profiles) <= MAX_ENDPOINTS
  }

  predicate Accepts(w: World, c: Config) {
    && 1 <= |c.profiles| <= MAX_PROFILES && c.logging.Named? && ProfilesOk(w, c.profiles)
    && (c.active != "" ==> c.active in Names(c.profiles))
  }

  // ---- What is projected ----

  function EnumText(e: Option<EnumValue>): Text {
    if e.Some? && e.value.Named? then e.value.name else ""
  }

  function PatternText(p: Option<Pattern>): string {
    if p.None? then "" else Encode(Encoding(false, true), p.value.encoded)
  }

  function Optional(key: string, value: string): Pairs {
    if value == "" then [] else [(key, value)]
  }

  function PortPair(binding: Option<Binding>): (string, string) {
    ("port", if PortOf(binding).Some? then PortOf(binding).value.0 else "")
  }

  function ProtocolPair(binding: Option<Binding>): (string, string) {
    ("protocol", if PortOf(binding).Some? then PortOf(binding).value.1 else "")
  }

  function Ports(bindings: seq<Option<Binding>>): Pairs {
    if bindings == [] then [] else Ports(bindings[..|bindings| - 1]) + [PortPair(bindings[|bindings| - 1])]
  }

  function Protocols(bindings: seq<Option<Binding>>): Pairs {
    if bindings == [] then [] else Protocols(bindings[..|bindings| - 1]) + [ProtocolPair(bindings[|bindings| - 1])]
  }

  /** The query, with its keys in alphabetical order, as url.Values prints them. */
  function QueryOf(p: Profile, ports: Pairs, protocols: Pairs): Pairs {
    Optional("handshake-mode", EnumText(p.handshake)) + Optional("multiplexing", EnumText(p.multiplexing))
    + ports + [("profile", p.name)] + protocols + Optional("traffic-pattern", PatternText(p.pattern))
  }

  /** An IPv6 address stands in brackets. */
  function HostText(w: World, host: string): string {
    if w.isIP(host) && ':' in host then "[" + host + "]" else host
  }

  function Label(name: string, i: nat): string {
    name + (['-'] + Decimal(i + 1))
  }

  /** What the link of server `i` of a profile says. */
  function LinkOf(w: World, p: Profile, i: nat): Link
    requires i < |p.servers|
  {
    var bindings := BindingsOf(p.servers[i]);
    Link(UserName(p.user), Password(p.user), HostText(w, HostOf(p.servers[i])),
         QueryOf(p, Ports(bindings), Protocols(bindings)), Label(p.name, i))
  }

  /** The links of the first `n` servers of a profile. */
  function Links(w: World, p: Profile, n: nat): seq<string>
    requires n <= |p.servers|
  {
    if n == 0 then [] else Links(w, p, n - 1) + [LinkText(LinkOf(w, p, n - 1))]
  }

  function ProfileLinks(w: World, p: Option<Profile>): seq<string> {
    if p.Some? then Links(w, p.value, |p.value.servers|) else []
  }

  function AllLinks(w: World, profiles: seq<Option<Profile>>): seq<string> {
    if profiles == [] then []
    else AllLinks(w, profiles[..|profiles| - 1]) + ProfileLinks(w, profiles[|profiles| - 1])
  }

  function Servers(profiles: seq<Option<Profile>>): nat {
    if profiles == [] then 0 else Servers(profiles[..|profiles| - 1]) + |ServersOf(profiles[|profiles| - 1])|
  }

  lemma {:induction false} LinksAt(w: World, p: Profile, n: nat)
    requires n <= |p.servers|
    ensures |Links(w, p, n)| == n && forall i :: 0 <= i < n ==> Links(w, p, n)[i] == LinkText(LinkOf(w, p, i))
  {
    hide LinkOf, LinkText;
    if n > 0 {
      LinksAt(w, p, n - 1);
    }
  }

  lemma ProfileLinksAt(w: World, p: Option<Profile>)
    ensures |ProfileLinks(w, p)| == |ServersOf(p)|
    ensures forall i :: 0 <= i < |ServersOf(p)| ==> ProfileLinks(w, p)[i] == LinkText(LinkOf(w, p.value, i))
  {
    hide Links, LinkOf, LinkText;
    if p.Some? {
      LinksAt(w, p.value, |p.value.servers|);
    }
  }

  lemma {:induction false} CountLinks(w: World, profiles: seq<Option<Profile>>)
    ensures |AllLinks(w, profiles)| == Servers(profiles)
  {
    hide LinkOf, LinkText;
    if profiles != [] {
      CountLinks(w, profiles[..|profiles| - 1]);
      ProfileLinksAt(w, profiles[|profiles| - 1]);
    }
  }

  /** One link for each server, in order: that of server `i` of profile `k` comes after those of earlier profiles. */
  lemma {:induction false} LinkOfServer(w: World, profiles: seq<Option<Profile>>, k: nat, i: nat)
    requires k < |profiles| && i < |ServersOf(profiles[k])|
    ensures |AllLinks(w, profiles)| == Servers(profiles) && Servers(profiles[..k]) + i < Servers(profiles)
    ensures AllLinks(w, profiles)[Servers(profiles[..k]) + i] == LinkText(LinkOf(w, profiles[k].value, i))
    decreases |profiles|
  {
    hide LinkOf, LinkText, ProfileLinks;
    var before := profiles[..|profiles| - 1];
    CountLinks(w, before);
    CountLinks(w, profiles);
    ProfileLinksAt(w, profiles[|profiles| - 1]);
    if k < |before| {
      LinkOfServer(w, before, k, i);
      assert before[..k] == profiles[..k];
    }
  }

  // ---- What the links say ----

  lemma PortIsText(b: Option<Binding>)
    ensures PortOf(b).Some? ==> IsBytes(PortOf(b).value.0) && IsBytes(PortOf(b).value.1)
  {
    hide RangeOf, Decimal;
    forall n: nat
      ensures IsBytes(Decimal(n))
    {
      DecimalReadsBack(n);
    }
  }

  lemma KeysAreText()
    ensures IsBytes("port") && IsBytes("protocol") && IsBytes("profile") && IsBytes("multiplexing")
    ensures IsBytes("handshake-mode") && IsBytes("traffic-pattern")
  {
  }

  lemma PortPairsAreText(b: Option<Binding>)
    ensures IsBytes(PortPair(b).0) && IsBytes(PortPair(b).1)
    ensures IsBytes(ProtocolPair(b).0) && IsBytes(ProtocolPair(b).1)
  {
    KeysAreText();
    PortIsText(b);
    hide PortOf;
  }

  lemma {:induction false} PortsAreText(bindings: seq<Option<Binding>>)
    ensures PairsOfBytes(Ports(bindings)) && PairsOfBytes(Protocols(bindings))
  {
    if bindings != [] {
      PortsAreText(bindings[..|bindings| - 1]);
      PortPairsAreText(bindings[|bindings| - 1]);
    }
    hide PortPair, ProtocolPair, IsBytes;
  }

  lemma PatternIsText(p: Option<Pattern>)
    ensures IsBytes(PatternText(p))
  {
    if p.Some? {
      EncodedAreDigits(Encoding(false, true), p.value.encoded);
    }
    hide Encode;
  }

  lemma OptionalIsText(key: string, value: string)
    requires IsBytes(key) && IsBytes(value)
    ensures PairsOfBytes(Optional(key, value))
  {
  }

  lemma JoinText(a: Pairs, b: Pairs)
    requires PairsOfBytes(a) && PairsOfBytes(b)
    ensures PairsOfBytes(a + b)
  {
    hide IsBytes;
  }

  lemma QueryIsText(p: Profile, ports: Pairs, protocols: Pairs)
    requires PairsOfBytes(ports) && PairsOfBytes(protocols)
    ensures PairsOfBytes(QueryOf(p, ports, protocols))
  {
    KeysAreText();
    PatternIsText(p.pattern);
    var a := Optional("handshake-mode", EnumText(p.handshake));
    var b := Optional("multiplexing", EnumText(p.multiplexing));
    var c := Optional("traffic-pattern", PatternText(p.pattern));
    OptionalIsText("handshake-mode", EnumText(p.handshake));
    OptionalIsText("multiplexing", EnumText(p.multiplexing));
    OptionalIsText("traffic-pattern", PatternText(p.pattern));
    OptionalIsText("profile", p.name);
    ProfilePair(p.name);
    hide IsBytes, PairsOfBytes, PatternText, EnumText, Optional;
    JoinText(a, b);
    JoinText(a + b, ports);
    JoinText(a + b + ports, [("profile", p.name)]);
    JoinText(a + b + ports + [("profile", p.name)], protocols);
    JoinText(a + b + ports + [("profile", p.name)] + protocols, c);
  }

  lemma ProfilePair(name: Text)
    ensures PairsOfBytes([("profile", name)])
  {
    KeysAreText();
  }

  lemma LabelIsText(name: Text, i: nat)
    ensures IsBytes(Label(name, i))
  {
    DecimalReadsBack(i + 1);
    hide Decimal, NumberOf;
  }

  lemma HostIsText(w: World, host: Text)
    ensures IsBytes(HostText(w, host))
  {
  }

  lemma LinkIsText(w: World, p: Profile, i: nat)
    requires i < |p.servers|
    ensures LinkOf(w, p, i).OfBytes()
  {
    var bindings := BindingsOf(p.servers[i]);
    PortsAreText(bindings);
    LabelIsText(p.name, i);
    HostIsText(w, HostOf(p.servers[i]));
    QueryIsText(p, Ports(bindings), Protocols(bindings));
    hide QueryOf, Ports, Protocols, IsBytes, BindingsOf, HostText, HostOf, Label;
  }

  /** A link says exactly what the profile and the server say: credentials, host, options, ports and protocols. */
  lemma LinkSays(w: World, p: Profile, i: nat)
    requires i < |p.servers|
    ensures ReadLink(LinkText(LinkOf(w, p, i))) == Some(LinkOf(w, p, i))
  {
    LinkIsText(w, p, i);
    LinkReadsBack(LinkOf(w, p, i));
    hide LinkOf, ReadLink, LinkText;
  }

  lemma DashInside(a: string, b: string, c: string, d: string)
    requires a + (['-'] + b) == c + (['-'] + d) && |a| < |c|
    ensures '-' in b
  {
    assert (a + (['-'] + b))[|c|] == b[|c| - |a| - 1];
  }

  lemma LastDash(a: string, b: string, c: string, d: string)
    requires a + (['-'] + b) == c + (['-'] + d) && '-' !in b && '-' !in d
    ensures a == c && b == d
  {
    if |a| < |c| {
      DashInside(a, b, c, d);
    } else if |c| < |a| {
      DashInside(c, d, a, b);
    }
    var s := a + (['-'] + b);
    assert s[..|a|] == a && s[..|c|] == c;
    assert s[|a| + 1..] == b && s[|c| + 1..] == d;
  }

  lemma LabelsDiffer(name: string, i: nat, other: string, j: nat)
    requires Label(name, i) == Label(other, j)
    ensures name == other && i == j
  {
    DecimalReadsBack(i + 1);
    DecimalReadsBack(j + 1);
    hide Decimal, NumberOf;
    LastDash(name, Decimal(i + 1), other, Decimal(j + 1));
  }

  /** No two servers of an acceptable configuration get the same link. */
  lemma LinksDiffer(w: World, profiles: seq<Option<Profile>>, k: nat, i: nat, l: nat, j: nat)
    requires DistinctNames(profiles) && k < |profiles| && l < |profiles|
    requires i < |ServersOf(profiles[k])| && j < |ServersOf(profiles[l])|
    requires LinkText(LinkOf(w, profiles[k].value, i)) == LinkText(LinkOf(w, profiles[l].value, j))
    ensures k == l && i == j
  {
    var p, q := profiles[k].value, profiles[l].value;
    LinkSays(w, p, i);
    LinkSays(w, q, j);
    hide ReadLink, LinkText, Label, QueryOf;
    LabelsDiffer(p.name, i, q.name, j);
  }

  /** The budget: there are never more links than port bindings. */
  lemma {:induction false} LinksWithinBudget(w: World, profiles: seq<Option<Profile>>)
    requires EachOk(w, profiles)
    ensures |AllLinks(w, profiles)| <= AllEndpoints(profiles)
  {
    hide UserOk, OptionsOk, NameOk, LinkOf, LinkText, ServerOk;
    if profiles != [] {
      LinksWithinBudget(w, profiles[..|profiles| - 1]);
      var p := profiles[|profiles| - 1];
      assert ProfileOk(w, p);
      ProfileLinksAt(w, p);
      ServersWithinEndpoints(w, p.value, |p.value.servers|);
      assert p.value.servers[..|p.value.servers|] == p.value.servers;
    }
  }

  lemma SomeBinding(w: World, s: Option<Server>)
    requires ServerOk(w, s)
    ensures |BindingsOf(s)| >= 1
  {
    hide PortOf, DomainOk;
  }

  lemma {:induction false} ServersWithinEndpoints(w: World, p: Profile, n: nat)
    requires n <= |p.servers| && forall i :: 0 <= i < n ==> ServerOk(w, p.servers[i])
    ensures n <= Endpoints(p.servers[..n])
  {
    hide ServerOk, BindingsOf;
    if n > 0 {
      ServersWithinEndpoints(w, p, n - 1);
      SomeBinding(w, p.servers[n - 1]);
      assert p.servers[..n][..n - 1] == p.servers[..n - 1];
    }
  }

  // ---- The loops ----

  method ProjectServer(w: World, p: Profile, i: nat, server: Option<Server>) returns (r: Option<string>)
    requires UserOk(w, p.user) && i < |p.servers| && server == p.servers[i]
    ensures r.Some? <==> ServerOk(w, server)
    ensures r.Some? ==> r.value == LinkText(LinkOf(w, p, i))
  {
    hide PortOf, LinkText, NameOk;
    if server.None? {
      return None;
    }
    var s := server.value;
    if s.ip != "" && !w.isIP(s.ip) {
      return None;
    }
    var host := s.domain;
    if host != "" {
      if !DomainOk(w, host) {
        return None;
      }
    } else {
      host := s.ip;
      if !w.isIP(host) {
        return None;
      }
    }
    if |s.bindings| == 0 || |s.bindings| > MAX_BINDINGS {
      return None;
    }
    var ports, protocols := [], [];
    for j := 0 to |s.bindings|
      invariant forall l :: 0 <= l < j ==> PortOf(s.bindings[l]).Some?
      invariant ports == Ports(s.bindings[..j]) && protocols == Protocols(s.bindings[..j])
    {
      var binding := PortOf(s.bindings[j]);
      if binding.None? {
        return None;
      }
      ports := ports + [("port", binding.value.0)];
      protocols := protocols + [("protocol", binding.value.1)];
      assert s.bindings[..j + 1][..j] == s.bindings[..j];
    }
    assert s.bindings[..|s.bindings|] == s.bindings;
    var uriHost := host;
    if w.isIP(host) && ':' in host {
      uriHost := "[" + host + "]";
    }
    return Some(LinkText(Link(p.user.value.name, p.user.value.password, uriHost, QueryOf(p, ports, protocols),
                              Label(p.name, i))));
  }

  /** The links of a profile and the number of its endpoints; its name joins those that are taken. */
  method ProjectProfile(w: World, profile: Option<Profile>, profileNames: set<string>)
    returns (r: Option<(seq<string>, nat)>, names: set<string>)
    ensures r.Some? <==> ProfileOk(w, profile) && NameOf(profile) !in profileNames
    ensures r.Some? ==> r.value == (ProfileLinks(w, profile), Endpoints(ServersOf(profile)))
    ensures r.Some? ==> names == profileNames + {NameOf(profile)}
  {
    hide NameOk, ServerOk, LinkOf, LinkText;
    names := profileNames;
    if profile.None? || !NameOk(w, profile.value.name, 256) {
      return None, names;
    }
    var p := profile.value;
    if p.name in names {
      return None, names;
    }
    names := names + {p.name};
    if !UserOk(w, p.user) || !OptionsOk(p) || |p.servers| == 0 || |p.servers| > MAX_SERVERS {
      return None, names;
    }
    hide UserOk, OptionsOk;
    var links, endpoints := [], 0;
    for i := 0 to |p.servers|
      invariant forall j :: 0 <= j < i ==> ServerOk(w, p.servers[j])
      invariant links == Links(w, p, i) && endpoints == Endpoints(p.servers[..i])
    {
      var link := ProjectServer(w, p, i, p.servers[i]);
      if link.None? {
        return None, names;
      }
      endpoints := endpoints + |BindingsOf(p.servers[i])|;
      links := links + [link.value];
      assert p.servers[..i + 1][..i] == p.servers[..i];
    }
    assert p.servers[..|p.servers|] == p.servers;
    return Some((links, endpoints)), names;
  }

  /** All links of an acceptable configuration, and nothing of any other. */
  method ProjectClientConfig(w: World, c: Config) returns (r: Option<seq<string>>)
    ensures r.Some? <==> Accepts(w, c)
    ensures r.Some? ==> r.value == AllLinks(w, c.profiles)
  {
    hide ProfileOk, EachOk, DistinctNames, ProfileLinks, Endpoints, AllEndpoints, Names, AllLinks;
    if |c.profiles| == 0 || |c.profiles| > MAX_PROFILES || c.logging.Unnamed? {
      return None;
    }
    var names: set<string>, projected: seq<string>, expandedEndpoints: nat := {}, [], 0;
    NoProfiles(w, c.profiles);
    for i := 0 to |c.profiles|
      invariant ProfilesOk(w, c.profiles[..i]) && names == Names(c.profiles[..i])
      invariant projected == AllLinks(w, c.profiles[..i]) && expandedEndpoints == AllEndpoints(c.profiles[..i])
    {
      var p := c.profiles[i];
      var result, taken := ProjectProfile(w, p, names);
      NextProfile(w, c.profiles, i);
      if result.None? || expandedEndpoints as int > MAX_ENDPOINTS - result.value.1 {
        NotAll(w, c.profiles, i + 1);
        return None;
      }
      NextLinks(w, c.profiles, i);
      names := taken;
      expandedEndpoints := expandedEndpoints + result.value.1;
      projected := projected + result.value.0;
    }
    assert c.profiles[..|c.profiles|] == c.profiles;
    if c.active != "" && c.active !in names {
      return None;
    }
    SomeLink(w, c.profiles);
    if |projected| == 0 {
      return None;
    }
    return Some(projected);
  }

  lemma NoProfiles(w: World, profiles: seq<Option<Profile>>)
    ensures ProfilesOk(w, profiles[..0]) && Names(profiles[..0]) == {}
    ensures AllLinks(w, profiles[..0]) == [] && AllEndpoints(profiles[..0]) == 0
  {
  }

  lemma SomeLink(w: World, profiles: seq<Option<Profile>>)
    requires ProfilesOk(w, profiles) && profiles != []
    ensures AllLinks(w, profiles) != []
  {
    hide ServerOk, UserOk, OptionsOk, NameOk, LinkOf, LinkText;
    assert ProfileOk(w, profiles[0]);
    LinkOfServer(w, profiles, 0, 0);
  }

  /** One more profile is acceptable if it is, its name is new, and the budget allows its endpoints. */
  lemma NextProfile(w: World, profiles: seq<Option<Profile>>, i: nat)
    requires i < |profiles| && ProfilesOk(w, profiles[..i])
    ensures var p := profiles[i]; var before := profiles[..i]; var now := profiles[..i + 1];
      && Names(now) == Names(before) + {NameOf(p)}
      && AllEndpoints(now) == AllEndpoints(before) + Endpoints(ServersOf(p))
      && (ProfilesOk(w, now) <==> ProfileOk(w, p) && NameOf(p) !in Names(before)
                                  && AllEndpoints(before) + Endpoints(ServersOf(p)) <= MAX_ENDPOINTS)
  {
    hide ProfileOk, Endpoints;
    var before, now := profiles[..i], profiles[..i + 1];
    assert now[..i] == before && now[i] == profiles[i];
    assert now == before + [profiles[i]];
  }

  lemma NextLinks(w: World, profiles: seq<Option<Profile>>, i: nat)
    requires i < |profiles|
    ensures AllLinks(w, profiles[..i + 1]) == AllLinks(w, profiles[..i]) + ProfileLinks(w, profiles[i])
  {
    hide ProfileLinks;
    var now := profiles[..i + 1];
    assert now[..i] == profiles[..i] && now[i] == profiles[i];
  }

  /** If the first profiles are too much, all of them are. */
  lemma {:induction false} NotAll(w: World, profiles: seq<Option<Profile>>, n: nat)
    requires n <= |profiles| && !ProfilesOk(w, profiles[..n])
    ensures !ProfilesOk(w, profiles)
    decreases |profiles| - n
  {
    if n == |profiles| {
      assert profiles[..n] == profiles;
    } else {
      if ProfilesOk(w, profiles[..n + 1]) {
        FewerProfiles(w, profiles, n);
      }
      NotAll(w, profiles, n + 1);
    }
    hide ProfilesOk;
  }

  lemma FewerProfiles(w: World, profiles: seq<Option<Profile>>, n: nat)
    requires n < |profiles| && ProfilesOk(w, profiles[..n + 1])
    ensures ProfilesOk(w, profiles[..n])
  {
    hide ProfileOk;
    var now := profiles[..n + 1];
    assert now[..n] == profiles[..n];
    assert forall i :: 0 <= i < n ==> profiles[..n][i] == now[i];
  }
}
