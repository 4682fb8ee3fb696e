/**
 normalizeLegacyShadowrocketVMess (preprocess.go): a legacy link, whose Base64 part holds cipher, id, host and port and
 whose query holds the rest, is rewritten to a link with a JSON object in standard Base64.
 */
module LegacyVmess {
  import opened Sequences
  import opened Decimals
  import opened GoStrings
  import opened LooseBase64
  import opened UrlText

  /** The fields of the JSON object. */
  type Values = map<string, string>

  /** strings.ToLower and json.Marshal */
  datatype World = World(lower: string -> string, marshal: Values -> Option<ByteString>)

  const VMESS := "vmess://"

  // ---- The parts of a legacy link ----

  /** The last place of `c`, or -1. */
  function LastIndexOf(s: string, c: char): (r: int)
    ensures -1 <= r < |s|
  {
    if s == "" then -1 else if s[|s| - 1] == c then |s| - 1 else LastIndexOf(s[..|s| - 1], c)
  }

  function TrimBrackets(s: string): string
    decreases |s|
  {
    if s != "" && s[0] in "[]" then TrimBrackets(s[1..])
    else if s != "" && s[|s| - 1] in "[]" then TrimBrackets(s[..|s| - 1])
    else s
  }

  function SplitHostPort(s: string): Option<(string, string)> {
    var colon := LastIndexOf(s, ':');
    if colon <= 0 || colon == |s| - 1 then None else Some((TrimBrackets(s[..colon]), s[colon + 1..]))
  }

  /** Cipher, id, host and port. */
  datatype Server = Server(cipher: string, id: string, host: string, port: string)

  function ServerOf(s: string): Option<Server> {
    var cipher := Cut(s, ':');
    if cipher.None? then None
    else
      var id := Cut(cipher.value.1, '@');
      if id.None? then None
      else
        var hostPort := SplitHostPort(id.value.1);
        if hostPort.None? then None
        else
          var r := Server(cipher.value.0, id.value.0, hostPort.value.0, hostPort.value.1);
          if r.id == "" || r.host == "" || r.port == "" || Atoi(r.port).None? then None else Some(r)
  }

  /** url.Values.Get: the first value of a key. */
  function Get(q: Pairs, key: string): string {
    if q == [] then "" else if q[0].0 == key then q[0].1 else Get(q[1..], key)
  }

  function FirstValue(q: Pairs, keys: seq<string>): string {
    if keys == [] then "" else if Get(q, keys[0]) != "" then Get(q, keys[0]) else FirstValue(q, keys[1..])
  }

  // ---- The object ----

  datatype Transport = Transport(network: string, headerType: string, host: string, path: string)

  function TransportOf(w: World, q: Pairs): Transport {
    var obfs := w.lower(FirstValue(q, ["obfs"]));
    if obfs == "websocket" || obfs == "ws" then
      Transport("ws", "none", FirstValue(q, ["obfsParam", "host", "wsHost"]), FirstValue(q, ["path", "wspath"]))
    else if obfs == "" then
      var network, headerType := FirstValue(q, ["network", "net", "type"]), FirstValue(q, ["headerType"]);
      Transport(if network != "" then w.lower(network) else "tcp", if headerType != "" then headerType else "none",
                FirstValue(q, ["wsHost", "host"]), FirstValue(q, ["wspath", "path"]))
    else if obfs == "none" then Transport("tcp", "none", "", "")
    else Transport("tcp", obfs, "", "")
  }

  function OrElse(s: string, default: string): string {
    if s != "" then s else default
  }

  function ValuesOf(w: World, s: Server, q: Pairs): Values {
    var t := TransportOf(w, q);
    var tls := w.lower(FirstValue(q, ["tls", "security"]));
    var values := map[
      "v" := "2",
      "ps" := OrElse(FirstValue(q, ["remarks", "remark", "name"]), s.host + ":" + s.port),
      "add" := s.host,
      "port" := s.port,
      "id" := s.id,
      "aid" := OrElse(FirstValue(q, ["aid", "alterId"]), "0"),
      "scy" := s.cipher,
      "net" := t.network,
      "type" := t.headerType,
      "host" := t.host,
      "path" := t.path,
      "tls" := if tls == "1" || tls == "true" || tls == "tls" then "tls" else ""
    ];
    var sni, alpn := FirstValue(q, ["sni", "peer"]), FirstValue(q, ["alpn"]);
    var withSni := if sni != "" then values["sni" := sni] else values;
    if alpn != "" then withSni["alpn" := alpn] else withSni
  }

  /** What a legacy link's decoded part and its query are rewritten to, if they can be. */
  function Rewritten(w: World, decoded: string, query: string): Option<ByteString> {
    var server, q := ServerOf(decoded), ParseQuery(query);
    if server.None? || q.None? then None else w.marshal(ValuesOf(w, server.value, q.value))
  }

  function Normalize(w: World, line: string): string {
    if !HasPrefix(line, VMESS) then line
    else
      var body := line[|VMESS|..];
      var q := IndexOf(body, '?');
      if q == |body| || q == 0 || q + 1 == |body| then line
      else
        var decoded := Loose(body[..q]);
        if decoded.None? then line
        else
          var json := Rewritten(w, decoded.value, body[q + 1..]);
          if json.None? then line else VMESS + Encode(Encoding(false, true), json.value)
  }

  // ---- Properties ----

  lemma NoMark(e: Encoding, b: Bytes)
    requires AllBytes(b)
    ensures '?' !in Encode(e, b)
  {
    EncodedChars(e, b);
    hide Encode;
  }

  /** A link without a query is left alone. */
  lemma WithoutQuery(w: World, text: string)
    requires '?' !in text
    ensures Normalize(w, VMESS + text) == VMESS + text
  {
    IndexOfNone(text, '?');
    assert (VMESS + text)[|VMESS|..] == text;
    hide Loose, Rewritten;
  }

  /** A link that has been rewritten is left alone, and so is one that could not be. */
  lemma NormalizeTwice(w: World, line: string)
    ensures Normalize(w, Normalize(w, line)) == Normalize(w, line)
  {
    if Normalize(w, line) != line {
      var body := line[|VMESS|..];
      var q := IndexOf(body, '?');
      var json := Rewritten(w, Loose(body[..q]).value, body[q + 1..]).value;
      NoMark(Encoding(false, true), json);
      WithoutQuery(w, Encode(Encoding(false, true), json));
      hide Loose, Encode, Rewritten;
    }
  }

  /** The decoded part of a legacy link. */
  function ServerText(s: Server): string {
    s.cipher + ([':'] + (s.id + (['@'] + (s.host + ([':'] + s.port)))))
  }

  /** Servers that can be written in a legacy link: the separators stand in no part that they end. */
  predicate Plain(s: Server) {
    && ':' !in s.cipher && '@' !in s.id && s.id != "" && s.host != "" && TrimBrackets(s.host) == s.host
    && ':' !in s.port && Atoi(s.port).Some?
  }

  lemma {:induction false} LastIndexOfPart(a: string, b: string, c: char)
    requires c !in b
    ensures LastIndexOf(a + ([c] + b), c) == |a|
    decreases |b|
  {
    var s := a + ([c] + b);
    if b != "" {
      assert s[|s| - 1] == b[|b| - 1];
      assert s[..|s| - 1] == a + ([c] + b[..|b| - 1]);
      LastIndexOfPart(a, b[..|b| - 1], c);
    }
  }

  lemma HostPortReadsBack(host: string, port: string)
    requires host != "" && TrimBrackets(host) == host && port != "" && ':' !in port
    ensures SplitHostPort(host + ([':'] + port)) == Some((host, port))
  {
    LastIndexOfPart(host, port, ':');
    var s := host + ([':'] + port);
    assert s[..|host|] == host && s[|host| + 1..] == port;
    hide LastIndexOf, TrimBrackets;
  }

  lemma ServerReadsBack(s: Server)
    requires Plain(s)
    ensures ServerOf(ServerText(s)) == Some(s)
  {
    hide Cut, SplitHostPort, Atoi, TrimBrackets;
    NoPort();
    var hostPort := s.host + ([':'] + s.port);
    CutAtPart(s.cipher, s.id + (['@'] + hostPort), ':');
    CutAtPart(s.id, hostPort, '@');
    HostPortReadsBack(s.host, s.port);
  }

  lemma NoPort()
    ensures Atoi("").None?
  {
  }

  lemma NormalizedBody(w: World, text: string, query: string, decoded: string)
    requires '?' !in text && text != "" && query != "" && Loose(text) == Some(decoded)
    ensures var json := Rewritten(w, decoded, query); var line := VMESS + (text + (['?'] + query));
      Normalize(w, line) == if json.None? then line else VMESS + Encode(Encoding(false, true), json.value)
  {
    hide Loose, Encode, Rewritten;
    IndexOfPart(text, query, '?');
    var body := text + (['?'] + query);
    assert (VMESS + body)[|VMESS|..] == body;
    assert body[..|text|] == text && body[|text| + 1..] == query;
  }

  /**
   A legacy link, in any of the four encodings, becomes the link that carries the object of exactly its server and
   its query, whatever bytes these hold.
   */
  lemma LegacyRoundTrip(w: World, e: Encoding, s: Server, q: Pairs)
    requires Plain(s) && IsBytes(ServerText(s)) && q != [] && PairsOfBytes(q)
    requires w.marshal(ValuesOf(w, s, q)).Some?
    ensures var line := VMESS + (Encode(e, BytesOf(ServerText(s))) + (['?'] + QueryText(q)));
      Normalize(w, line) == VMESS + Encode(Encoding(false, true), w.marshal(ValuesOf(w, s, q)).value)
  {
    LooseOfEncoded(e, ServerText(s));
    NoMark(e, BytesOf(ServerText(s)));
    ServerReadsBack(s);
    QueryReadsBack(q);
    hide ServerOf, Loose, Encode, ValuesOf, Plain, ParseQuery, QueryText, IsBytes;
    NormalizedBody(w, Encode(e, BytesOf(ServerText(s))), QueryText(q), ServerText(s));
  }
}
