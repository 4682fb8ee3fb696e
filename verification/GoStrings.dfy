/** The parts of Go's strings package that the bridge and its generator use, on sequences of bytes or characters. */
module GoStrings {
  import opened Sequences

  predicate HasPrefix(s: string, prefix: string) {
    |prefix| <= |s| && s[..|prefix|] == prefix
  }

  /** The first place of `c`, or the length of the string. */
  function IndexOf(s: string, c: char): (r: nat)
    ensures r <= |s| && (r < |s| ==> s[r] == c) && c !in s[..r]
  {
    if s == [] || s[0] == c then 0
    else
      var r := IndexOf(s[1..], c) + 1;
      assert s[..r] == [s[0]] + s[1..][..r - 1];
      r
  }

  function Split(s: string, c: char): (r: seq<string>)
    ensures r != []
    decreases |s|
  {
    var i := IndexOf(s, c);
    if i == |s| then [s] else [s[..i]] + Split(s[i + 1..], c)
  }

  function Join(parts: seq<string>, c: char): string {
    if parts == [] then ""
    else if |parts| == 1 then parts[0]
    else parts[0] + ([c] + Join(parts[1..], c))
  }

  lemma JoinCons(a: string, parts: seq<string>, c: char)
    requires parts != []
    ensures Join([a] + parts, c) == a + ([c] + Join(parts, c))
  {
    assert ([a] + parts)[1..] == parts;
  }

  lemma CutAt(s: string, i: nat, c: char)
    requires i < |s| && s[i] == c
    ensures s[..i] + ([c] + s[i + 1..]) == s
  {
  }

  lemma {:induction false} JoinSplit(s: string, c: char)
    ensures Join(Split(s, c), c) == s
    decreases |s|
  {
    var i := IndexOf(s, c);
    if i < |s| {
      JoinSplit(s[i + 1..], c);
      JoinCons(s[..i], Split(s[i + 1..], c), c);
      CutAt(s, i, c);
      hide Join;
    }
  }

  lemma {:induction false} SplitParts(s: string, c: char)
    ensures forall k :: 0 <= k < |Split(s, c)| ==> c !in Split(s, c)[k]
    decreases |s|
  {
    var i := IndexOf(s, c);
    if i < |s| {
      SplitParts(s[i + 1..], c);
    }
  }

  lemma {:induction false} IndexOfPart(a: string, b: string, c: char)
    requires c !in a
    ensures IndexOf(a + ([c] + b), c) == |a|
    decreases |a|
  {
    var s := a + ([c] + b);
    if a != [] {
      IndexOfPart(a[1..], b, c);
      assert s[1..] == a[1..] + ([c] + b);
    }
  }

  lemma {:induction false} IndexOfNone(s: string, c: char)
    requires c !in s
    ensures IndexOf(s, c) == |s|
  {
    if s != [] {
      IndexOfNone(s[1..], c);
    }
  }

  /** Joining undoes splitting, and splitting undoes joining of parts that do not contain the separator. */
  lemma {:induction false} SplitJoin(parts: seq<string>, c: char)
    requires parts != [] && forall k :: 0 <= k < |parts| ==> c !in parts[k]
    ensures Split(Join(parts, c), c) == parts
    decreases |parts|
  {
    if |parts| == 1 {
      IndexOfNone(parts[0], c);
    } else {
      var rest := Join(parts[1..], c);
      var s := parts[0] + ([c] + rest);
      SplitJoin(parts[1..], c);
      IndexOfPart(parts[0], rest, c);
      assert s[..|parts[0]|] == parts[0] && s[|parts[0]| + 1..] == rest;
    }
  }

  predicate IsBytes(s: string) {
    forall k :: 0 <= k < |s| ==> s[k] as int < 256
  }

  /** strings.Cut */
  function Cut(s: string, c: char): Option<(string, string)> {
    var i := IndexOf(s, c);
    if i == |s| then None else Some((s[..i], s[i + 1..]))
  }

  lemma CutAtPart(a: string, b: string, c: char)
    requires c !in a
    ensures Cut(a + ([c] + b), c) == Some((a, b))
  {
    IndexOfPart(a, b, c);
    var s := a + ([c] + b);
    assert s[..|a|] == a && s[|a| + 1..] == b;
  }

  lemma {:induction false} JoinedChars(parts: seq<string>, separator: char, c: char)
    requires c != separator && forall k :: 0 <= k < |parts| ==> c !in parts[k]
    ensures c !in Join(parts, separator)
  {
    if |parts| > 1 {
      JoinedChars(parts[1..], separator, c);
    }
  }
}
