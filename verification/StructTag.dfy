/** proxyField and nextStructTag (generate_proxy_validation.go): the proxy name in the tag of a Go struct field. */
module StructTag {
  import opened Sequences
  import opened GoStrings

  /** strconv.Unquote, of which only its use is part of the model. */
  type Unquote = string -> Option<string>

  datatype Pair = Pair(key: string, value: string, rest: string)

  function TrimLeftSpaces(s: string): (r: string)
    ensures |r| <= |s| && (r != [] ==> r[0] != ' ')
  {
    if s != [] && s[0] == ' ' then TrimLeftSpaces(s[1..]) else s
  }

  /** The first quote from `end` on that no backslash stands before, or the length of the string. */
  function QuoteEnd(q: string, end: nat): (r: nat)
    requires 0 < end <= |q|
    ensures end <= r <= |q| && (r < |q| ==> q[r] == '"' && q[r - 1] != '\\')
    ensures forall k :: end <= k < r ==> !(q[k] == '"' && q[k - 1] != '\\')
    decreases |q| - end
  {
    if end < |q| && !(q[end] == '"' && q[end - 1] != '\\') then QuoteEnd(q, end + 1) else end
  }

  /** The first key and value of a tag, and what comes after them. */
  function NextStructTag(unquote: Unquote, tag: string): (r: Option<Pair>)
    ensures r.Some? ==> |r.value.rest| < |tag|
  {
    var t := TrimLeftSpaces(tag);
    var index := IndexOf(t, ':');
    if index == 0 || index + 1 >= |t| || t[index + 1] != '"' then None
    else
      var quoted := t[index + 1..];
      var end := QuoteEnd(quoted, 1);
      if end == |quoted| || unquote(quoted[..end + 1]).None? then None
      else Some(Pair(t[..index], unquote(quoted[..end + 1]).value, quoted[end + 1..]))
  }

  /** The name before the first comma, and whether `omitempty` is one of the options after it. */
  function NameAndOption(value: string): (string, bool) {
    var parts := Split(value, ',');
    (parts[0], "omitempty" in parts[1..])
  }

  function FirstProxy(unquote: Unquote, tag: string): (string, bool)
    decreases |tag|
  {
    var pair := NextStructTag(unquote, tag);
    if tag == "" || pair.None? then ("", false)
    else if pair.value.key == "proxy" then NameAndOption(pair.value.value)
    else FirstProxy(unquote, pair.value.rest)
  }

  function ProxyField(unquote: Unquote, rawTag: string): (string, bool) {
    var tag := unquote(rawTag);
    if tag.None? then ("", false) else FirstProxy(unquote, tag.value)
  }

  // ---- The loops ----

  method NextStructTagLoop(unquote: Unquote, tag: string) returns (r: Option<Pair>)
    ensures r == NextStructTag(unquote, tag)
  {
    var t := tag;
    while t != [] && t[0] == ' '
      invariant TrimLeftSpaces(t) == TrimLeftSpaces(tag)
    {
      t := t[1..];
    }
    var index := IndexOf(t, ':');
    if index == 0 || index + 1 >= |t| || t[index + 1] != '"' {
      return None;
    }
    var quoted := t[index + 1..];
    var end := 1;
    while end < |quoted| && !(quoted[end] == '"' && quoted[end - 1] != '\\')
      invariant 1 <= end <= |quoted| && QuoteEnd(quoted, end) == QuoteEnd(quoted, 1)
    {
      end := end + 1;
    }
    if end >= |quoted| {
      return None;
    }
    var value := unquote(quoted[..end + 1]);
    if value.None? {
      return None;
    }
    return Some(Pair(t[..index], value.value, quoted[end + 1..]));
  }

  method ProxyFieldLoop(unquote: Unquote, rawTag: string) returns (name: string, omitEmpty: bool)
    ensures (name, omitEmpty) == ProxyField(unquote, rawTag)
  {
    hide NextStructTag, NameAndOption;
    var raw := unquote(rawTag);
    if raw.None? {
      return "", false;
    }
    var tag := raw.value;
    while tag != ""
      invariant FirstProxy(unquote, tag) == ProxyField(unquote, rawTag)
      decreases |tag|
    {
      var pair := NextStructTagLoop(unquote, tag);
      if pair.None? {
        break;
      }
      tag := pair.value.rest;
      if pair.value.key != "proxy" {
        continue;
      }
      name, omitEmpty := SplitOptions(pair.value.value);
      return;
    }
    return "", false;
  }

  method SplitOptions(value: string) returns (name: string, omitEmpty: bool)
    ensures (name, omitEmpty) == NameAndOption(value)
  {
    var parts, wanted := Split(value, ','), "omitempty";
    omitEmpty := false;
    for i := 1 to |parts|
      invariant omitEmpty == (wanted in parts[1..i])
    {
      omitEmpty := omitEmpty || parts[i] == wanted;
    }
    assert parts[1..|parts|] == parts[1..];
    name := parts[0];
  }

  // ---- Tags as they are written ----

  /** A key and the text between the quotes of its value. */
  datatype Entry = Entry(key: string, body: string)

  /** A key as Go allows it, and a body with no quote in it but behind a backslash. */
  predicate Conventional(e: Entry) {
    && e.key != "" && e.key[0] != ' ' && ':' !in e.key
    && (e.body != "" ==> e.body[0] != '"' && e.body[|e.body| - 1] != '\\')
    && forall k :: 0 < k < |e.body| && e.body[k] == '"' ==> e.body[k - 1] == '\\'
  }

  function Quoted(body: string): string {
    ['"'] + (body + ['"'])
  }

  function Written(e: Entry): string {
    e.key + ([':'] + Quoted(e.body))
  }

  /** The entries of a tag with a space before each. */
  function WriteTag(es: seq<Entry>): string {
    if es == [] then "" else [' '] + (Written(es[0]) + WriteTag(es[1..]))
  }

  lemma {:induction false} QuoteEndOfBody(q: string, end: nat, at: nat)
    requires 0 < end <= at < |q| && q[at] == '"' && q[at - 1] != '\\'
    requires forall k :: end <= k < at ==> !(q[k] == '"' && q[k - 1] != '\\')
    ensures QuoteEnd(q, end) == at
    decreases at - end
  {
    if end < at {
      QuoteEndOfBody(q, end + 1, at);
    }
  }

  /** The quote that closes a body is found, and no quote inside it. */
  lemma QuoteEndOfEntry(e: Entry, rest: string)
    requires Conventional(e)
    ensures var q := Quoted(e.body) + rest; var at := |e.body| + 1;
      at < |q| && QuoteEnd(q, 1) == at && q[..at + 1] == Quoted(e.body) && q[at + 1..] == rest
  {
    var q, at := Quoted(e.body) + rest, |e.body| + 1;
    assert forall k :: 0 < k < at ==> q[k] == e.body[k - 1];
    QuoteEndOfBody(q, 1, at);
  }

  lemma WrittenParts(e: Entry, rest: string)
    requires Conventional(e)
    ensures var t := Written(e) + rest; var n := |e.key|;
      && n + 1 < |t| && TrimLeftSpaces([' '] + t) == t && IndexOf(t, ':') == n
      && t[..n] == e.key && t[n + 1..] == Quoted(e.body) + rest && t[n + 1] == '"'
  {
    var q := Quoted(e.body) + rest;
    var t := e.key + ([':'] + q);
    assert t == Written(e) + rest;
    assert ([' '] + t)[1..] == t;
    IndexOfPart(e.key, q, ':');
  }

  /** The next entry of a tag is read as it was written, and nothing after it is touched. */
  lemma ReadsEntry(unquote: Unquote, e: Entry, rest: string)
    requires Conventional(e) && unquote(Quoted(e.body)).Some?
    ensures NextStructTag(unquote, [' '] + (Written(e) + rest))
      == Some(Pair(e.key, unquote(Quoted(e.body)).value, rest))
  {
    WrittenParts(e, rest);
    QuoteEndOfEntry(e, rest);
    hide TrimLeftSpaces, IndexOf, QuoteEnd, Conventional, Written, Quoted;
  }

  // ---- Which tags begin with an entry ----

  predicate Spaces(s: string) {
    forall k :: 0 <= k < |s| ==> s[k] == ' '
  }

  /** The tag begins with the entry after any number of spaces, and `rest` follows it. */
  ghost predicate BeginsWith(tag: string, e: Entry, rest: string) {
    Conventional(e) && exists n: nat :: n <= |tag| && Spaces(tag[..n]) && tag[n..] == Written(e) + rest
  }

  lemma {:induction false} TrimIs(s: string)
    ensures var t := TrimLeftSpaces(s); var n := |s| - |t|; n >= 0 && Spaces(s[..n]) && s[n..] == t
    decreases |s|
  {
    if s != [] && s[0] == ' ' {
      TrimIs(s[1..]);
      var n := |s| - |TrimLeftSpaces(s)|;
      assert s[..n] == [s[0]] + s[1..][..n - 1];
    }
  }

  lemma {:induction false} TrimBlanks(s: string, n: nat)
    requires n < |s| && Spaces(s[..n]) && s[n] != ' '
    ensures TrimLeftSpaces(s) == s[n..]
  {
    if n > 0 {
      assert s[..n][0] == ' ';
      assert s[1..][..n - 1] == s[..n][1..];
      TrimBlanks(s[1..], n - 1);
    }
  }

  /** What stands in front of the closing quote is the body of an entry. */
  lemma BodyIs(quoted: string, end: nat)
    requires |quoted| > 0 && quoted[0] == '"' && end == QuoteEnd(quoted, 1) < |quoted|
    ensures var e := Entry("k", quoted[1..end]); Conventional(e) && quoted[..end + 1] == Quoted(quoted[1..end])
  {
    var body := quoted[1..end];
    assert forall k :: 0 <= k < |body| ==> body[k] == quoted[k + 1];
    hide QuoteEnd;
  }

  lemma KeyIs(t: string, index: nat)
    requires index == IndexOf(t, ':') && 0 < index && index + 1 < |t| && t[0] != ' '
    ensures var key := t[..index]; key != "" && key[0] != ' ' && ':' !in key && t == key + ([':'] + t[index + 1..])
  {
    assert t == t[..index] + ([t[index]] + t[index + 1..]);
  }

  /** The parts that are found in a tag after its spaces. */
  ghost predicate Parts(unquote: Unquote, t: string, e: Entry, p: Pair) {
    && Conventional(e) && t == Written(e) + p.rest
    && p.key == e.key && unquote(Quoted(e.body)) == Some(p.value)
  }

  lemma PartsRead(unquote: Unquote, t: string, index: nat, end: nat)
    requires index == IndexOf(t, ':') && 0 < index && index + 1 < |t| && t[0] != ' ' && t[index + 1] == '"'
    requires var quoted := t[index + 1..];
      end == QuoteEnd(quoted, 1) < |quoted| && unquote(quoted[..end + 1]).Some?
    ensures var quoted := t[index + 1..];
      Parts(unquote, t, Entry(t[..index], quoted[1..end]),
            Pair(t[..index], unquote(quoted[..end + 1]).value, quoted[end + 1..]))
  {
    var quoted := t[index + 1..];
    KeyIs(t, index);
    BodyIs(quoted, end);
    hide IndexOf, QuoteEnd;
    SameConvention(Entry("k", quoted[1..end]), t[..index]);
    hide Conventional;
    Regrouped(t[..index], quoted[1..end], quoted[end + 1..]);
    assert quoted == quoted[..end + 1] + quoted[end + 1..];
    hide Written, Quoted;
  }

  lemma SameConvention(e: Entry, key: string)
    requires Conventional(e) && key != "" && key[0] != ' ' && ':' !in key
    ensures Conventional(Entry(key, e.body))
  {
  }

  lemma Regrouped(key: string, body: string, rest: string)
    ensures Written(Entry(key, body)) + rest == key + ([':'] + (Quoted(body) + rest))
  {
    hide Quoted;
  }

  lemma EntryFound(unquote: Unquote, tag: string) returns (e: Entry)
    requires NextStructTag(unquote, tag).Some?
    ensures Parts(unquote, TrimLeftSpaces(tag), e, NextStructTag(unquote, tag).value)
  {
    hide TrimLeftSpaces, IndexOf, QuoteEnd, Parts;
    var t := TrimLeftSpaces(tag);
    var index := IndexOf(t, ':');
    var quoted := t[index + 1..];
    var end := QuoteEnd(quoted, 1);
    PartsRead(unquote, t, index, end);
    e := Entry(t[..index], quoted[1..end]);
  }

  lemma EntryRead(unquote: Unquote, tag: string) returns (e: Entry)
    requires NextStructTag(unquote, tag).Some?
    ensures var p := NextStructTag(unquote, tag).value;
      BeginsWith(tag, e, p.rest) && p.key == e.key && unquote(Quoted(e.body)) == Some(p.value)
  {
    TrimIs(tag);
    e := EntryFound(unquote, tag);
    hide TrimLeftSpaces, NextStructTag, Conventional, Written, Quoted;
    assert tag[|tag| - |TrimLeftSpaces(tag)|..] == TrimLeftSpaces(tag);
  }

  /** A tag has a next entry exactly if it begins with one that is quoted rightly, and it is read as it stands there. */
  lemma NextExactly(unquote: Unquote, tag: string, key: string, value: string, rest: string)
    ensures NextStructTag(unquote, tag) == Some(Pair(key, value, rest)) <==>
      exists body :: BeginsWith(tag, Entry(key, body), rest) && unquote(Quoted(body)) == Some(value)
  {
    if NextStructTag(unquote, tag) == Some(Pair(key, value, rest)) {
      var e := EntryRead(unquote, tag);
      assert BeginsWith(tag, Entry(key, e.body), rest);
    }
    if body :| BeginsWith(tag, Entry(key, body), rest) && unquote(Quoted(body)) == Some(value) {
      EntryIsRead(unquote, tag, Entry(key, body), rest);
    }
    hide NextStructTag, BeginsWith;
  }

  lemma EntryIsRead(unquote: Unquote, tag: string, e: Entry, rest: string)
    requires BeginsWith(tag, e, rest) && unquote(Quoted(e.body)).Some?
    ensures NextStructTag(unquote, tag) == Some(Pair(e.key, unquote(Quoted(e.body)).value, rest))
  {
    var n: nat :| n <= |tag| && Spaces(tag[..n]) && tag[n..] == Written(e) + rest;
    hide Conventional, Written, Quoted, NextStructTag, TrimLeftSpaces;
    FirstOfEntry(e, rest);
    assert n < |tag| && tag[n] == tag[n..][0];
    TrimBlanks(tag, n);
    var one := [' '] + (Written(e) + rest);
    assert one[..1] == " " && one[1..] == Written(e) + rest && one[1] == one[1..][0];
    TrimBlanks(one, 1);
    ReadsEntry(unquote, e, rest);
    SameTrimmed(unquote, tag, one);
  }

  lemma SameTrimmed(unquote: Unquote, a: string, b: string)
    requires TrimLeftSpaces(a) == TrimLeftSpaces(b)
    ensures NextStructTag(unquote, a) == NextStructTag(unquote, b)
  {
    hide TrimLeftSpaces, IndexOf, QuoteEnd;
  }

  lemma FirstOfEntry(e: Entry, rest: string)
    requires Conventional(e)
    ensures var t := Written(e) + rest; t != "" && t[0] != ' '
  {
    assert (Written(e) + rest)[0] == e.key[0];
  }

  /** The place of the first entry with the key `proxy`, or the number of entries. */
  function ProxyEntry(es: seq<Entry>): (r: nat)
    ensures r <= |es| && (r < |es| ==> es[r].key == "proxy")
    ensures forall k :: 0 <= k < r ==> es[k].key != "proxy"
  {
    if es == [] || es[0].key == "proxy" then 0 else ProxyEntry(es[1..]) + 1
  }

  /** In a well-written tag the first proxy entry decides, wherever it stands and whatever stands around it. */
  lemma {:induction false} FirstProxyDecides(unquote: Unquote, es: seq<Entry>)
    requires forall k :: 0 <= k < |es| ==> Conventional(es[k]) && unquote(Quoted(es[k].body)).Some?
    ensures FirstProxy(unquote, WriteTag(es)) ==
      var i := ProxyEntry(es);
      if i < |es| then NameAndOption(unquote(Quoted(es[i].body)).value) else ("", false)
    decreases |es|
  {
    if es != [] {
      ReadsEntry(unquote, es[0], WriteTag(es[1..]));
      hide NextStructTag, NameAndOption, Conventional;
      if es[0].key != "proxy" {
        FirstProxyDecides(unquote, es[1..]);
      }
    }
  }

  /** Options do not change the name, and `omitempty` is found among them wherever it stands. */
  lemma NameAndOptionOf(name: string, options: seq<string>)
    requires ',' !in name && forall k :: 0 <= k < |options| ==> ',' !in options[k]
    ensures NameAndOption(Join([name] + options, ',')) == (name, "omitempty" in options)
  {
    var parts := [name] + options;
    SplitJoin(parts, ',');
    OmitAmong(Join(parts, ','), parts);
    assert parts[1..] == options;
    hide *;
  }

  lemma OmitAmong(value: string, parts: seq<string>)
    requires Split(value, ',') == parts && parts != []
    ensures NameAndOption(value) == (parts[0], "omitempty" in parts[1..])
  {
    hide Split;
  }
}
