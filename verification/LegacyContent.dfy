/**
 What the object of a rewritten link holds under each key, for the values that the query of the legacy link shows,
 and which host and port are found in a link.
 */
module LegacyContent {
  import opened Sequences
  import opened Decimals
  import opened GoStrings
  import opened LegacyVmess
  import opened LooseBase64
  import opened UrlText

  // ---- Queries ----

  /** The first pair with the key holds the value, and without one the value is empty. */
  predicate Shows(q: Pairs, key: string, value: string) {
    || (exists k :: 0 <= k < |q| && q[k] == (key, value) && forall j :: 0 <= j < k ==> q[j].0 != key)
    || (value == "" && forall k :: 0 <= k < |q| ==> q[k].0 != key)
  }

  /** The first key that shows anything shows the value; it is empty if none does. */
  predicate ShowsOneOf(q: Pairs, keys: seq<string>, value: string) {
    || (value == "" && forall k :: 0 <= k < |keys| ==> Shows(q, keys[k], ""))
    || (value != "" && exists k :: 0 <= k < |keys| && Shows(q, keys[k], value)
                                   && forall j :: 0 <= j < k ==> Shows(q, keys[j], ""))
  }

  lemma {:induction false} GetShows(q: Pairs, key: string, value: string)
    ensures Shows(q, key, value) <==> Get(q, key) == value
  {
    if q != [] {
      GetShows(q[1..], key, value);
      if q[0].0 == key {
        assert Shows(q, key, value) ==> q[0].1 == value;
        assert q[0].1 == value ==> Shows(q, key, value) by { assert q[0] == (key, q[0].1); }
      } else {
        ShowsLater(q, key, value);
      }
    }
  }

  lemma ShowsLater(q: Pairs, key: string, value: string)
    requires q != [] && q[0].0 != key
    ensures Shows(q, key, value) <==> Shows(q[1..], key, value)
  {
    var rest := q[1..];
    if k :| 0 <= k < |q| && q[k] == (key, value) && forall j :: 0 <= j < k ==> q[j].0 != key {
      assert rest[k - 1] == q[k];
      assert forall j :: 0 <= j < k - 1 ==> rest[j] == q[j + 1];
    }
    if k :| 0 <= k < |rest| && rest[k] == (key, value) && forall j :: 0 <= j < k ==> rest[j].0 != key {
      assert q[k + 1] == rest[k];
      assert forall j :: 0 < j < k + 1 ==> q[j] == rest[j - 1];
    }
    assert forall j :: 0 < j < |q| ==> q[j] == rest[j - 1];
    assert forall j :: 0 <= j < |rest| ==> rest[j] == q[j + 1];
  }

  lemma {:induction false} FirstValueShows(q: Pairs, keys: seq<string>, value: string)
    requires ShowsOneOf(q, keys, value)
    ensures FirstValue(q, keys) == value
  {
    if keys != [] {
      GetShows(q, keys[0], value);
      GetShows(q, keys[0], "");
      var rest := keys[1..];
      assert forall j :: 0 <= j < |rest| ==> rest[j] == keys[j + 1];
      if Shows(q, keys[0], "") {
        ShowsRest(q, keys, value);
        FirstValueShows(q, rest, value);
      }
    }
    hide Shows, Get;
  }

  lemma ShowsRest(q: Pairs, keys: seq<string>, value: string)
    requires keys != [] && ShowsOneOf(q, keys, value) && Shows(q, keys[0], "")
    ensures ShowsOneOf(q, keys[1..], value)
  {
    GetShows(q, keys[0], value);
    GetShows(q, keys[0], "");
    hide Shows, Get;
    var rest := keys[1..];
    assert forall j :: 0 <= j < |rest| ==> rest[j] == keys[j + 1];
    if value != "" {
      var k :| 0 <= k < |keys| && Shows(q, keys[k], value) && forall j :: 0 <= j < k ==> Shows(q, keys[j], "");
      assert k > 0 && rest[k - 1] == keys[k];
    }
  }

  // ---- The object ----

  /** The server stands under four keys, and the version of the object is 2. */
  lemma ServerKeys(w: World, s: Server, q: Pairs)
    ensures var v := ValuesOf(w, s, q);
      && {"v", "add", "port", "id", "scy"} <= v.Keys
      && v["v"] == "2" && v["add"] == s.host && v["port"] == s.port && v["id"] == s.id && v["scy"] == s.cipher
  {
    hide FirstValue, TransportOf, OrElse;
  }

  lemma NameKey(w: World, s: Server, q: Pairs)
    ensures var v := ValuesOf(w, s, q); var name := FirstValue(q, ["remarks", "remark", "name"]);
      "ps" in v && v["ps"] == if name != "" then name else s.host + ":" + s.port
  {
    hide FirstValue, TransportOf;
  }

  lemma AlterIdKey(w: World, s: Server, q: Pairs)
    ensures var v := ValuesOf(w, s, q); var alterId := FirstValue(q, ["aid", "alterId"]);
      "aid" in v && v["aid"] == if alterId != "" then alterId else "0"
  {
    hide FirstValue, TransportOf;
  }

  /** The name is the host and the port, and the alter id 0, if the query gives no others. */
  lemma NameKeys(w: World, s: Server, q: Pairs, name: string, alterId: string)
    requires ShowsOneOf(q, ["remarks", "remark", "name"], name) && ShowsOneOf(q, ["aid", "alterId"], alterId)
    ensures var v := ValuesOf(w, s, q);
      && {"ps", "aid"} <= v.Keys
      && v["ps"] == (if name != "" then name else s.host + ":" + s.port)
      && v["aid"] == (if alterId != "" then alterId else "0")
  {
    FirstValueShows(q, ["remarks", "remark", "name"], name);
    FirstValueShows(q, ["aid", "alterId"], alterId);
    NameKey(w, s, q);
    AlterIdKey(w, s, q);
    hide FirstValue, ValuesOf, ShowsOneOf;
  }

  /** TLS is on for three words, in any case; SNI and ALPN are there exactly if the query gives them. */
  lemma SecurityKeys(w: World, s: Server, q: Pairs, tls: string, sni: string, alpn: string)
    requires ShowsOneOf(q, ["tls", "security"], tls)
    requires ShowsOneOf(q, ["sni", "peer"], sni) && ShowsOneOf(q, ["alpn"], alpn)
    ensures var v := ValuesOf(w, s, q);
      && {"tls"} <= v.Keys <= {"v", "ps", "add", "port", "id", "aid", "scy", "net", "type", "host", "path", "tls",
                               "sni", "alpn"}
      && (w.lower(tls) in {"1", "true", "tls"} ==> v["tls"] == "tls")
      && (w.lower(tls) !in {"1", "true", "tls"} ==> v["tls"] == "")
      && (sni == "" ==> "sni" !in v) && (sni != "" ==> "sni" in v && v["sni"] == sni)
      && (alpn == "" ==> "alpn" !in v) && (alpn != "" ==> "alpn" in v && v["alpn"] == alpn)
  {
    FirstValueShows(q, ["tls", "security"], tls);
    FirstValueShows(q, ["sni", "peer"], sni);
    FirstValueShows(q, ["alpn"], alpn);
    hide FirstValue, TransportOf, ShowsOneOf;
  }

  predicate Transports(v: Values, network: string, header: string, host: string, path: string) {
    && {"net", "type", "host", "path"} <= v.Keys
    && v["net"] == network && v["type"] == header && v["host"] == host && v["path"] == path
  }

  lemma TransportKeys(w: World, s: Server, q: Pairs)
    ensures var t := TransportOf(w, q); Transports(ValuesOf(w, s, q), t.network, t.headerType, t.host, t.path)
  {
    hide FirstValue, TransportOf, OrElse;
  }

  /** A WebSocket obfuscation gives its own host and path, and no header. */
  lemma WebSocketKeys(w: World, s: Server, q: Pairs, obfs: string, host: string, path: string)
    requires ShowsOneOf(q, ["obfs"], obfs) && w.lower(obfs) in {"websocket", "ws"}
    requires ShowsOneOf(q, ["obfsParam", "host", "wsHost"], host) && ShowsOneOf(q, ["path", "wspath"], path)
    ensures Transports(ValuesOf(w, s, q), "ws", "none", host, path)
  {
    FirstValueShows(q, ["obfs"], obfs);
    FirstValueShows(q, ["obfsParam", "host", "wsHost"], host);
    FirstValueShows(q, ["path", "wspath"], path);
    TransportKeys(w, s, q);
    hide FirstValue, ShowsOneOf, ValuesOf, Transports;
  }

  /** Without an obfuscation the query names the network, TCP by default, and the header, none by default. */
  lemma NetworkKeys(w: World, s: Server, q: Pairs, obfs: string, network: string, header: string,
      host: string, path: string)
    requires ShowsOneOf(q, ["obfs"], obfs) && w.lower(obfs) == ""
    requires ShowsOneOf(q, ["network", "net", "type"], network) && ShowsOneOf(q, ["headerType"], header)
    requires ShowsOneOf(q, ["wsHost", "host"], host) && ShowsOneOf(q, ["wspath", "path"], path)
    ensures Transports(ValuesOf(w, s, q), if network != "" then w.lower(network) else "tcp",
      if header != "" then header else "none", host, path)
  {
    FirstValueShows(q, ["obfs"], obfs);
    FirstValueShows(q, ["network", "net", "type"], network);
    FirstValueShows(q, ["headerType"], header);
    FirstValueShows(q, ["wsHost", "host"], host);
    FirstValueShows(q, ["wspath", "path"], path);
    TransportKeys(w, s, q);
    hide FirstValue, ShowsOneOf, ValuesOf, Transports;
  }

  /** Any other obfuscation, and `none`, is the header of plain TCP. */
  lemma HeaderKeys(w: World, s: Server, q: Pairs, obfs: string)
    requires ShowsOneOf(q, ["obfs"], obfs) && w.lower(obfs) !in {"", "websocket", "ws"}
    ensures Transports(ValuesOf(w, s, q), "tcp", w.lower(obfs), "", "")
  {
    FirstValueShows(q, ["obfs"], obfs);
    TransportKeys(w, s, q);
    hide FirstValue, ShowsOneOf, ValuesOf, Transports;
  }

  // ---- Hosts and ports ----

  predicate Brackets(s: string) {
    forall k :: 0 <= k < |s| ==> s[k] == '[' || s[k] == ']'
  }

  /** No bracket at either end. */
  predicate Bare(s: string) {
    s != "" ==> s[0] !in "[]" && s[|s| - 1] !in "[]"
  }

  lemma FrontGoes(c: char, s: string)
    requires c == '[' || c == ']'
    ensures TrimBrackets([c] + s) == TrimBrackets(s)
  {
    assert ([c] + s)[1..] == s;
  }

  lemma BackGoes(s: string, c: char)
    requires (c == '[' || c == ']') && s != "" && s[0] !in "[]"
    ensures TrimBrackets(s + [c]) == TrimBrackets(s)
  {
    assert (s + [c])[..|s|] == s;
  }

  lemma {:induction false} FrontBracketsGo(before: string, s: string)
    requires Brackets(before)
    ensures TrimBrackets(before + s) == TrimBrackets(s)
  {
    if before == "" {
      assert before + s == s;
    } else {
      assert before + s == [before[0]] + (before[1..] + s);
      FrontGoes(before[0], before[1..] + s);
      FrontBracketsGo(before[1..], s);
    }
  }

  lemma {:induction false} BackBracketsGo(s: string, after: string)
    requires Brackets(after) && s != "" && s[0] !in "[]"
    ensures TrimBrackets(s + after) == TrimBrackets(s)
  {
    if after == "" {
      assert s + after == s;
    } else {
      var last := |after| - 1;
      assert s + after == (s + after[..last]) + [after[last]];
      BackGoes(s + after[..last], after[last]);
      BackBracketsGo(s, after[..last]);
    }
  }

  lemma BareStays(host: string)
    requires Bare(host)
    ensures TrimBrackets(host) == host
  {
  }

  /** All brackets at the ends of a host go, and nothing else. */
  lemma BracketsGo(before: string, host: string, after: string)
    requires Brackets(before) && Brackets(after) && Bare(host)
    ensures TrimBrackets(before + (host + after)) == host
  {
    FrontBracketsGo(before, host + after);
    BareStays(host);
    if host == "" {
      assert host + after == after + "";
      FrontBracketsGo(after, "");
    } else {
      BackBracketsGo(host, after);
    }
    hide TrimBrackets;
  }

  /**
   The host stands before the last colon without the brackets around it, and the port after it: an address of
   version 6 is found whole. Nothing is found if the colon comes first or last.
   */
  lemma HostAndPort(before: string, host: string, after: string, port: string)
    requires Brackets(before) && Brackets(after) && Bare(host) && ':' !in port
    ensures var s := before + (host + after);
      SplitHostPort(s + ([':'] + port)) == if s == "" || port == "" then None else Some((host, port))
  {
    var s := before + (host + after);
    LastIndexOfPart(s, port, ':');
    BracketsGo(before, host, after);
    assert (s + ([':'] + port))[..|s|] == s && (s + ([':'] + port))[|s| + 1..] == port;
    hide LastIndexOf, TrimBrackets;
  }

  /** An address of version 6 stands in brackets, which are not part of it. */
  lemma AddressInBrackets(address: string, port: string)
    requires address != "" && Bare(address) && port != "" && ':' !in port
    ensures SplitHostPort(['['] + (address + [']']) + ([':'] + port)) == Some((address, port))
  {
    HostAndPort("[", address, "]", port);
    assert "[" + (address + "]") == ['['] + (address + [']']);
    hide *;
  }

  lemma {:induction false} NoColon(s: string)
    ensures LastIndexOf(s, ':') == -1 <==> ':' !in s
  {
    if s != "" {
      NoColon(s[..|s| - 1]);
      assert s == s[..|s| - 1] + [s[|s| - 1]];
    }
  }

  lemma ServerCut(s: string, cipher: string, rest: string, id: string, hostPort: string)
    requires Cut(s, ':') == Some((cipher, rest)) && Cut(rest, '@') == Some((id, hostPort))
    ensures var r := ServerOf(s); var found := SplitHostPort(hostPort);
      && (r.Some? ==> id != "" && found.Some? && found.value.0 != "" && Atoi(found.value.1).Some?)
      && (r.Some? ==> r.value == Server(cipher, id, found.value.0, found.value.1))
      && (id != "" && found.Some? && found.value.0 != "" && Atoi(found.value.1).Some? ==> r.Some?)
  {
    NoPort();
    hide Cut, SplitHostPort, Atoi;
  }

  /** A link names a server exactly if it has an id, a host and a port that is a number. */
  lemma ServerFound(cipher: string, id: string, hostPort: string)
    requires ':' !in cipher && '@' !in id
    ensures var r := ServerOf(cipher + ([':'] + (id + (['@'] + hostPort)))); var found := SplitHostPort(hostPort);
      && (r.Some? <==> id != "" && found.Some? && found.value.0 != "" && Atoi(found.value.1).Some?)
      && (r.Some? ==> r.value == Server(cipher, id, found.value.0, found.value.1))
  {
    hide *;
    var rest := id + (['@'] + hostPort);
    CutAtPart(cipher, rest, ':');
    CutAtPart(id, hostPort, '@');
    ServerCut(cipher + ([':'] + rest), cipher, rest, id, hostPort);
  }

  /** Without a colon, or without an at sign after it, there is no server. */
  lemma NoServerFound(cipher: string, rest: string)
    requires ':' !in cipher && '@' !in rest
    ensures ServerOf(cipher).None? && ServerOf(cipher + ([':'] + rest)).None?
  {
    IndexOfNone(cipher, ':');
    IndexOfNone(rest, '@');
    CutAtPart(cipher, rest, ':');
    hide IndexOf, SplitHostPort, Atoi;
  }

  lemma NoPortFound(s: string)
    requires ':' !in s
    ensures SplitHostPort(s).None?
  {
    NoColon(s);
    hide LastIndexOf, TrimBrackets;
  }

  // ---- Which links are rewritten ----

  /** Only links of the scheme with a query are looked at. */
  lemma OtherLines(w: World, line: string)
    requires !HasPrefix(line, "vmess://") || '?' !in line
    ensures Normalize(w, line) == line
  {
    if HasPrefix(line, "vmess://") {
      var text := line[8..];
      assert line == VMESS + text;
      WithoutQuery(w, text);
    }
  }

  /**
   A link is rewritten exactly if what stands before its first question mark is the Base64 of a server and what
   stands after it is a query; the object then takes the place of both, in standard Base64.
   */
  lemma RewrittenExactly(w: World, text: string, query: string)
    requires '?' !in text
    ensures var line := "vmess://" + (text + (['?'] + query)); var decoded := Loose(text); var q := ParseQuery(query);
      if text != "" && query != "" && decoded.Some? && ServerOf(decoded.value).Some? && q.Some?
      then
        var json := w.marshal(ValuesOf(w, ServerOf(decoded.value).value, q.value));
        Normalize(w, line) == if json.Some? then "vmess://" + Encode(Encoding(false, true), json.value) else line
      else Normalize(w, line) == line
  {
    var line := VMESS + (text + (['?'] + query));
    hide Loose, Encode, ServerOf, ParseQuery, ValuesOf, Normalize;
    if text != "" && query != "" && Loose(text).Some? {
      NormalizedBody(w, text, query, Loose(text).value);
    } else {
      NothingToDecode(w, text, query);
    }
  }

  lemma NothingToDecode(w: World, text: string, query: string)
    requires '?' !in text && (text == "" || query == "" || Loose(text).None?)
    ensures var line := VMESS + (text + (['?'] + query)); Normalize(w, line) == line
  {
    hide Loose, Rewritten;
    IndexOfPart(text, query, '?');
    var body := text + (['?'] + query);
    assert (VMESS + body)[|VMESS|..] == body;
    assert body[..|text|] == text && body[|text| + 1..] == query;
  }
}
