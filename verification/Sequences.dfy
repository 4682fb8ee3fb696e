/** What the readers of strings and of tokens share: optional results, characters, texts that stand inside others. */
module Sequences {

  datatype Option<+T> = None | Some(value: T)

  /** Letters and digits of the C locale. */
  predicate IsAlpha(c: char) {
    'a' <= c <= 'z' || 'A' <= c <= 'Z'
  }

  predicate IsDigit(c: char) {
    '0' <= c <= '9'
  }

  /** `part` stands in `s` at position `i`. */
  predicate At<T(==)>(s: seq<T>, i: nat, part: seq<T>) {
    i + |part| <= |s| && s[i..i + |part|] == part
  }

  lemma AtSplit<T>(s: seq<T>, i: nat, a: seq<T>, b: seq<T>)
    requires At(s, i, a + b)
    ensures At(s, i, a) && At(s, i + |a|, b) && i + |a| + |b| <= |s|
  {
    assert s[i..i + |a|] == s[i..i + |a + b|][..|a|];
    assert s[i + |a|..i + |a| + |b|] == s[i..i + |a + b|][|a|..];
  }

  lemma AtElement<T>(s: seq<T>, i: nat, part: seq<T>, k: nat)
    requires At(s, i, part) && k < |part|
    ensures i + k < |s| && s[i + k] == part[k]
  {
    assert s[i..i + |part|][k] == s[i + k];
  }

  lemma AtCons<T>(s: seq<T>, i: nat, t: T, rest: seq<T>)
    requires At(s, i, [t] + rest)
    ensures i < |s| && s[i] == t && At(s, i + 1, rest) && i + 1 + |rest| <= |s|
  {
    AtElement(s, i, [t] + rest, 0);
    AtSplit(s, i, [t], rest);
  }

  /** What stands in a part stands in the whole. */
  lemma AtInside<T>(s: seq<T>, i: nat, rest: seq<T>, j: nat, part: seq<T>)
    requires At(s, i, rest) && At(rest, j, part)
    ensures At(s, i + j, part)
  {
    forall k | 0 <= k < |part|
      ensures s[i + j + k] == part[k]
    {
      AtElement(rest, j, part, k);
      AtElement(s, i, rest, j + k);
    }
    assert s[i + j..i + j + |part|] == part;
  }

  lemma AtBound<T>(s: seq<T>, i: nat, part: seq<T>)
    requires At(s, i, part)
    ensures i + |part| <= |s|
  {
  }

  lemma AtWhole<T>(s: seq<T>)
    ensures At(s, 0, s)
  {
    assert s[0..0 + |s|] == s;
  }
}
