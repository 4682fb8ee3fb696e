/** The table holds exactly the named fields of the types that can be reached through embeddings. */
module FieldCollectorProof {
  import opened Sequences
  import opened FieldCollector

  // ---- Reachability ----

  /** `t` has an untagged embedded field of type `u`. */
  predicate EmbedsType(structs: Structs, t: string, u: string) {
    t in structs &&
    exists i :: 0 <= i < |structs[t]| && Embeds(structs[t][i]) && EmbeddedTypeName(structs[t][i].fieldType) == u
  }

  /** A way along embeddings through struct types outside `avoid`. */
  ghost predicate Way(structs: Structs, p: seq<string>, avoid: set<string>) {
    && p != []
    && (forall i :: 0 <= i < |p| ==> p[i] in structs && p[i] !in avoid)
    && (forall i, j :: 0 <= i < |p| - 1 && j == i + 1 ==> EmbedsType(structs, p[i], p[j]))
  }

  ghost predicate WayFromTo(structs: Structs, p: seq<string>, avoid: set<string>, t: string, u: string) {
    Way(structs, p, avoid) && p[0] == t && p[|p| - 1] == u
  }

  ghost predicate Reaches(structs: Structs, avoid: set<string>, t: string, u: string) {
    exists p :: WayFromTo(structs, p, avoid, t, u)
  }

  predicate IsRule(f: Field, structs: Structs, key: string, rule: Rule) {
    Named(f) && f.tag.value.0 == key && RuleOf(f, structs) == rule
  }

  /** The type `u` has a field that is called `key` in the table and has this rule. */
  predicate HasRule(structs: Structs, u: string, key: string, rule: Rule) {
    u in structs && exists i :: 0 <= i < |structs[u]| && IsRule(structs[u][i], structs, key, rule)
  }

  predicate HasKey(structs: Structs, u: string, key: string) {
    u in structs && exists i :: 0 <= i < |structs[u]| && Named(structs[u][i]) && structs[u][i].tag.value.0 == key
  }

  // ---- Every entry comes from a reachable field ----

  /** An entry that is new or that has changed comes from a type that `t` reaches. */
  ghost predicate Sound(structs: Structs, avoid: set<string>, t: string, before: Table, after: Table) {
    forall key :: key in after && !(key in before && before[key] == after[key]) ==>
      exists u :: Reaches(structs, avoid, t, u) && HasRule(structs, u, key, after[key])
  }

  lemma {:induction false} CollectSound(structs: Structs, t: string, visiting: set<string>, table: Table)
    ensures Sound(structs, visiting, t, table, Collect(structs, t, visiting, table))
    decreases structs.Keys - visiting, 1
  {
    if t !in visiting && t in structs {
      assert structs.Keys - (visiting + {t}) < structs.Keys - visiting by {
        assert t in structs.Keys - visiting;
      }
      CollectFromSound(structs, t, 0, visiting, table);
    }
  }

  lemma {:induction false} CollectFromSound(structs: Structs, t: string, i: nat, visiting: set<string>, table: Table)
    requires t in structs && t !in visiting && i <= |structs[t]|
    ensures Sound(structs, visiting, t, table, CollectFrom(structs, structs[t], i, visiting + {t}, table))
    decreases structs.Keys - (visiting + {t}), 2, |structs[t]| - i
  {
    if i < |structs[t]| {
      var next := CollectField(structs, structs[t][i], visiting + {t}, table);
      CollectFieldSound(structs, t, i, visiting, table);
      CollectFromSound(structs, t, i + 1, visiting, next);
      SoundTransitive(structs, visiting, t, table, next, CollectFrom(structs, structs[t], i + 1, visiting + {t}, next));
    }
  }

  lemma SoundTransitive(structs: Structs, avoid: set<string>, t: string, a: Table, b: Table, c: Table)
    requires Sound(structs, avoid, t, a, b) && Sound(structs, avoid, t, b, c)
    ensures Sound(structs, avoid, t, a, c)
  {
    hide Reaches, HasRule;
  }

  lemma {:induction false} CollectFieldSound(structs: Structs, t: string, i: nat, visiting: set<string>, table: Table)
    requires t in structs && t !in visiting && i < |structs[t]|
    ensures Sound(structs, visiting, t, table, CollectField(structs, structs[t][i], visiting + {t}, table))
    decreases structs.Keys - (visiting + {t}), 2, 0
  {
    var f := structs[t][i];
    if Embeds(f) {
      var u := EmbeddedTypeName(f.fieldType);
      CollectSound(structs, u, visiting + {t}, table);
      SoundThrough(structs, visiting, t, u, table, Collect(structs, u, visiting + {t}, table));
    } else if Named(f) {
      assert WayFromTo(structs, [t], visiting, t, t);
      var name, rule := f.tag.value.0, RuleOf(f, structs);
      assert IsRule(f, structs, name, rule);
      assert HasRule(structs, t, name, rule) && Reaches(structs, visiting, t, t);
    }
  }

  /** What an embedded type reaches without the type itself, the type reaches. */
  lemma SoundThrough(structs: Structs, avoid: set<string>, t: string, u: string, a: Table, b: Table)
    requires t in structs && t !in avoid && EmbedsType(structs, t, u) && Sound(structs, avoid + {t}, u, a, b)
    ensures Sound(structs, avoid, t, a, b)
  {
    forall key | key in b && !(key in a && a[key] == b[key])
      ensures exists w :: Reaches(structs, avoid, t, w) && HasRule(structs, w, key, b[key])
    {
      var w :| Reaches(structs, avoid + {t}, u, w) && HasRule(structs, w, key, b[key]);
      ReachesThrough(structs, avoid, t, u, w);
    }
  }

  lemma ReachesThrough(structs: Structs, avoid: set<string>, t: string, u: string, w: string)
    requires t in structs && t !in avoid && EmbedsType(structs, t, u) && Reaches(structs, avoid + {t}, u, w)
    ensures Reaches(structs, avoid, t, w)
  {
    var p :| WayFromTo(structs, p, avoid + {t}, u, w);
    hide EmbedsType;
    WayCons(structs, p, avoid, t);
    assert WayFromTo(structs, [t] + p, avoid, t, w);
  }

  lemma WayCons(structs: Structs, p: seq<string>, avoid: set<string>, t: string)
    requires t in structs && t !in avoid && Way(structs, p, avoid + {t}) && EmbedsType(structs, t, p[0])
    ensures Way(structs, [t] + p, avoid)
  {
    hide EmbedsType;
    var q := [t] + p;
    assert forall i :: 0 < i < |q| ==> q[i] == p[i - 1];
    forall i, j | 0 <= i < |q| - 1 && j == i + 1
      ensures EmbedsType(structs, q[i], q[j])
    {
      if i > 0 {
        assert EmbedsType(structs, p[i - 1], p[j - 1]);
      }
    }
  }

  lemma WaySuffix(structs: Structs, p: seq<string>, avoid: set<string>, n: nat)
    requires Way(structs, p, avoid) && n < |p|
    ensures Way(structs, p[n..], avoid)
  {
    hide EmbedsType;
    var q := p[n..];
    assert forall i :: 0 <= i < |q| ==> q[i] == p[n + i];
    forall i, j | 0 <= i < |q| - 1 && j == i + 1
      ensures EmbedsType(structs, q[i], q[j])
    {
      assert EmbedsType(structs, p[n + i], p[n + j]);
    }
  }

  // ---- Every reachable field has an entry ----

  lemma {:induction false} CollectGrows(structs: Structs, t: string, visiting: set<string>, table: Table)
    ensures table.Keys <= Collect(structs, t, visiting, table).Keys
    decreases structs.Keys - visiting, 1, 0
  {
    if t !in visiting && t in structs {
      assert structs.Keys - (visiting + {t}) < structs.Keys - visiting by {
        assert t in structs.Keys - visiting;
      }
      CollectFromGrows(structs, structs[t], 0, visiting + {t}, table);
    }
  }

  lemma {:induction false} CollectFromGrows(structs: Structs, fields: seq<Field>, i: nat,
                                            visiting: set<string>, table: Table)
    requires i <= |fields|
    ensures table.Keys <= CollectFrom(structs, fields, i, visiting, table).Keys
    decreases structs.Keys - visiting, 2, |fields| - i
  {
    if i < |fields| {
      if Embeds(fields[i]) {
        CollectGrows(structs, EmbeddedTypeName(fields[i].fieldType), visiting, table);
      }
      CollectFromGrows(structs, fields, i + 1, visiting, CollectField(structs, fields[i], visiting, table));
    }
  }

  /** What the walk of one field puts into the table is still there at the end. */
  lemma {:induction false} FieldStays(structs: Structs, fields: seq<Field>, i: nat, k: nat,
                                      visiting: set<string>, table: Table)
    returns (at: Table)
    requires i <= k < |fields|
    ensures CollectField(structs, fields[k], visiting, at).Keys <= CollectFrom(structs, fields, i, visiting, table).Keys
    decreases k - i
  {
    var next := CollectField(structs, fields[i], visiting, table);
    if i == k {
      at := table;
      CollectFromGrows(structs, fields, i + 1, visiting, next);
    } else {
      at := FieldStays(structs, fields, i + 1, k, visiting, next);
    }
  }

  /** The part of a way from the last place where it passes through `t`. */
  lemma {:induction false} LastPass(structs: Structs, p: seq<string>, avoid: set<string>, t: string, u: string)
    returns (q: seq<string>)
    requires WayFromTo(structs, p, avoid, t, u)
    ensures WayFromTo(structs, q, avoid, t, u) && t !in q[1..]
    decreases |p|
  {
    if t in p[1..] {
      var i :| 0 <= i < |p| - 1 && p[1..][i] == t;
      WaySuffix(structs, p, avoid, i + 1);
      q := LastPass(structs, p[i + 1..], avoid, t, u);
    } else {
      q := p;
    }
  }

  /** A reachable type other than `t` is reached through a type that `t` embeds, without `t`. */
  lemma ReachesByEmbedding(structs: Structs, avoid: set<string>, t: string, u: string) returns (c: string)
    requires Reaches(structs, avoid, t, u) && t != u
    ensures EmbedsType(structs, t, c) && Reaches(structs, avoid + {t}, c, u)
  {
    var p :| WayFromTo(structs, p, avoid, t, u);
    var q := LastPass(structs, p, avoid, t, u);
    assert |q| > 1;
    c := q[1];
    assert EmbedsType(structs, q[0], q[1]);
    WaySuffix(structs, q, avoid, 1);
    assert WayFromTo(structs, q[1..], avoid + {t}, c, u);
  }

  /**
   A type on the way of the walk is skipped, and still nothing is missed: every type that can be reached is
   reached by a way that does not come back to where the walk stands.
   */
  lemma {:induction false} CollectComplete(structs: Structs, t: string, visiting: set<string>, table: Table,
                                           u: string, key: string)
    requires Reaches(structs, visiting, t, u) && HasKey(structs, u, key)
    ensures key in Collect(structs, t, visiting, table)
    decreases structs.Keys - visiting
  {
    var p :| WayFromTo(structs, p, visiting, t, u);
    assert t == p[0] && t in structs && t !in visiting;
    assert structs.Keys - (visiting + {t}) < structs.Keys - visiting by {
      assert t in structs.Keys - visiting;
    }
    if t == u {
      var k :| 0 <= k < |structs[u]| && Named(structs[u][k]) && structs[u][k].tag.value.0 == key;
      var at := FieldStays(structs, structs[t], 0, k, visiting + {t}, table);
      assert key in CollectField(structs, structs[t][k], visiting + {t}, at);
    } else {
      var c := ReachesByEmbedding(structs, visiting, t, u);
      var k :| 0 <= k < |structs[t]| && Embeds(structs[t][k]) && EmbeddedTypeName(structs[t][k].fieldType) == c;
      var at := FieldStays(structs, structs[t], 0, k, visiting + {t}, table);
      CollectComplete(structs, c, visiting + {t}, at, u, key);
    }
  }

  /** The result of a walk from the start: its keys and where its rules come from. */
  lemma CollectedKeys(structs: Structs, t: string)
    ensures var table := Collect(structs, t, {}, map[]);
      && (forall key :: key in table <==> exists u :: Reaches(structs, {}, t, u) && HasKey(structs, u, key))
      && (forall key :: key in table ==> exists u :: Reaches(structs, {}, t, u) && HasRule(structs, u, key, table[key]))
  {
    CollectSound(structs, t, {}, map[]);
    var table := Collect(structs, t, {}, map[]);
    forall key | key in table
      ensures exists u :: Reaches(structs, {}, t, u) && HasRule(structs, u, key, table[key])
      ensures exists u :: Reaches(structs, {}, t, u) && HasKey(structs, u, key)
    {
      var u :| Reaches(structs, {}, t, u) && HasRule(structs, u, key, table[key]);
      assert HasKey(structs, u, key);
    }
    forall key, u | Reaches(structs, {}, t, u) && HasKey(structs, u, key)
      ensures key in table
    {
      CollectComplete(structs, t, {}, map[], u, key);
    }
    hide Reaches, HasKey, HasRule;
  }

  // ---- Which occurrence of a key wins ----

  /** The fields that the walk writes into the table, in its order: depth first, as they are declared. */
  function Walk(structs: Structs, t: string, visiting: set<string>): seq<Field>
    decreases structs.Keys - visiting, 1, 0
  {
    if t in visiting || t !in structs then []
    else
      assert structs.Keys - (visiting + {t}) < structs.Keys - visiting by {
        assert t in structs.Keys - visiting;
      }
      WalkFrom(structs, structs[t], 0, visiting + {t})
  }

  function WalkFrom(structs: Structs, fields: seq<Field>, i: nat, visiting: set<string>): seq<Field>
    requires i <= |fields|
    decreases structs.Keys - visiting, 2, |fields| - i
  {
    if i == |fields| then []
    else
      (if Embeds(fields[i]) then Walk(structs, EmbeddedTypeName(fields[i].fieldType), visiting)
       else if Named(fields[i]) then [fields[i]] else [])
      + WalkFrom(structs, fields, i + 1, visiting)
  }

  /** The last field of this name. */
  function LastNamed(fs: seq<Field>, key: string): (r: Option<Field>)
    ensures r.Some? ==> r.value in fs && Named(r.value) && r.value.tag.value.0 == key
    ensures r.None? ==> forall f :: f in fs && Named(f) ==> f.tag.value.0 != key
  {
    if fs == [] then None
    else
      var f, rest := fs[|fs| - 1], fs[..|fs| - 1];
      if Named(f) && f.tag.value.0 == key then Some(f) else LastNamed(rest, key)
  }

  lemma {:induction false} LastOfBoth(a: seq<Field>, b: seq<Field>, key: string)
    ensures LastNamed(a + b, key) == if LastNamed(b, key).Some? then LastNamed(b, key) else LastNamed(a, key)
    decreases |b|
  {
    if b == [] {
      assert a + b == a;
    } else {
      var less := b[..|b| - 1];
      LastOfBoth(a, less, key);
      assert (a + b)[..|a + b| - 1] == a + less;
    }
  }

  /** The table after some fields have been written over another table, at one key. */
  ghost predicate Written(structs: Structs, before: Table, fs: seq<Field>, after: Table, key: string) {
    if LastNamed(fs, key).Some? then key in after && after[key] == RuleOf(LastNamed(fs, key).value, structs)
    else (key in after <==> key in before) && (key in after ==> after[key] == before[key])
  }

  lemma WrittenBoth(structs: Structs, a: Table, fs: seq<Field>, b: Table, gs: seq<Field>, c: Table, key: string)
    requires Written(structs, a, fs, b, key) && Written(structs, b, gs, c, key)
    ensures Written(structs, a, fs + gs, c, key)
  {
    LastOfBoth(fs, gs, key);
    hide LastNamed;
  }

  lemma {:induction false} CollectWrites(structs: Structs, t: string, visiting: set<string>, table: Table, key: string)
    ensures Written(structs, table, Walk(structs, t, visiting), Collect(structs, t, visiting, table), key)
    decreases structs.Keys - visiting, 1, 0
  {
    if t !in visiting && t in structs {
      assert structs.Keys - (visiting + {t}) < structs.Keys - visiting by {
        assert t in structs.Keys - visiting;
      }
      CollectFromWrites(structs, structs[t], 0, visiting + {t}, table, key);
    }
  }

  lemma {:induction false} CollectFromWrites(
      structs: Structs, fields: seq<Field>, i: nat, visiting: set<string>, table: Table, key: string)
    requires i <= |fields|
    ensures Written(structs, table, WalkFrom(structs, fields, i, visiting),
      CollectFrom(structs, fields, i, visiting, table), key)
    decreases structs.Keys - visiting, 2, |fields| - i
  {
    if i < |fields| {
      var f, next := fields[i], CollectField(structs, fields[i], visiting, table);
      var fs := if Embeds(f) then Walk(structs, EmbeddedTypeName(f.fieldType), visiting)
        else if Named(f) then [f] else [];
      if Embeds(f) {
        CollectWrites(structs, EmbeddedTypeName(f.fieldType), visiting, table, key);
      }
      assert Written(structs, table, fs, next, key);
      CollectFromWrites(structs, fields, i + 1, visiting, next, key);
      WrittenBoth(structs, table, fs, next, WalkFrom(structs, fields, i + 1, visiting),
        CollectFrom(structs, fields, i + 1, visiting, next), key);
    }
  }

  /**
   When a key occurs more than once, the occurrence that the walk comes to last wins: a field of the outer type
   that is declared after an embedded one overrides it, and one declared before is overridden.
   */
  lemma LastOccurrenceWins(structs: Structs, t: string, key: string)
    ensures var table := Collect(structs, t, {}, map[]); var last := LastNamed(Walk(structs, t, {}), key);
      (key in table <==> last.Some?) && (last.Some? ==> table[key] == RuleOf(last.value, structs))
  {
    CollectWrites(structs, t, {}, map[], key);
  }
}
