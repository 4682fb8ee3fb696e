/** What one field adds to the table: the type that it embeds through any number of pointers, or its kind and flag. */
module FieldRules {
  import opened Sequences
  import opened FieldCollector

  function Stars(n: nat, t: TypeExpr): TypeExpr {
    if n == 0 then t else Star(Stars(n - 1, t))
  }

  /** The walk enters `t`, which has only the field `f`. */
  predicate OnlyField(structs: Structs, t: string, f: Field, visiting: set<string>) {
    t in structs && t !in visiting && structs[t] == [f]
  }

  lemma {:induction false} StarsName(n: nat, t: TypeExpr)
    requires !t.Star?
    ensures EmbeddedTypeName(Stars(n, t)) == if t.Ident? then t.name else ""
  {
    if n > 0 {
      StarsName(n - 1, t);
    }
  }

  lemma {:induction false} StarsKind(n: nat, t: TypeExpr, structs: Structs)
    ensures FieldKind(Stars(n, t), structs) == FieldKind(t, structs)
  {
    if n > 0 {
      StarsKind(n - 1, t, structs);
    }
  }

  lemma OneStep(structs: Structs, t: string, f: Field, visiting: set<string>, table: Table)
    requires OnlyField(structs, t, f, visiting)
    ensures Collect(structs, t, visiting, table) == CollectField(structs, f, visiting + {t}, table)
  {
    hide CollectField;
    var next := CollectField(structs, f, visiting + {t}, table);
    assert CollectFrom(structs, structs[t], 1, visiting + {t}, next) == next;
  }

  /** An untagged field without names embeds the named type behind any number of stars, and no other type. */
  lemma EmbeddingField(structs: Structs, t: string, n: nat, base: TypeExpr, visiting: set<string>, table: Table)
    requires !base.Star? && OnlyField(structs, t, Field([], Stars(n, base), None), visiting)
    ensures Collect(structs, t, visiting, table) ==
      if base.Ident? && base.name != "" then Collect(structs, base.name, visiting + {t}, table) else table
  {
    var f := Field([], Stars(n, base), None);
    OneStep(structs, t, f, visiting, table);
    StarsName(n, base);
    hide Collect, Stars, EmbeddedTypeName;
  }

  /** An untagged field with names adds nothing. */
  lemma UntaggedField(structs: Structs, t: string, f: Field, visiting: set<string>, table: Table)
    requires OnlyField(structs, t, f, visiting) && f.tag.None? && f.names != []
    ensures Collect(structs, t, visiting, table) == table
  {
    OneStep(structs, t, f, visiting, table);
    hide Collect;
  }

  /** The kind of a type: by name for the built-in types and the struct types, and otherwise by its form. */
  predicate IsKind(kind: string, t: TypeExpr, structs: Structs) {
    && (t == Ident("bool") ==> kind == "bool")
    && (t in {Ident("int"), Ident("int8"), Ident("int16"), Ident("int32"), Ident("int64")} ==> kind == "int")
    && (t in {Ident("uint"), Ident("uint8"), Ident("uint16"), Ident("uint32"), Ident("uint64")} ==> kind == "int")
    && (t in {Ident("float32"), Ident("float64")} ==> kind == "int")
    && (t == Ident("string") ==> kind == "string")
    && (t.Ident? && kind != "bool" && kind != "int" && t.name != "string" ==>
          kind == if t.name in structs then "object" else "string")
    && (t.Ident? && kind == "bool" ==> t.name == "bool")
    && (t.Ident? && kind == "int" ==>
          t.name in {"int", "int8", "int16", "int32", "int64", "uint", "uint8", "uint16", "uint32", "uint64",
                     "float32", "float64"})
    && (t == ArrayType ==> kind == "array")
    && (t == MapType || t == StructType ==> kind == "object")
    && (t == InterfaceType ==> kind == "any")
    && (t == OtherType ==> kind == "string")
  }

  lemma KindExact(t: TypeExpr, structs: Structs)
    requires !t.Star?
    ensures IsKind(FieldKind(t, structs), t, structs)
  {
  }

  /**
   A tagged field stands in the table under its name with the kind of its type behind any number of stars. It is
   required exactly if it is called server or port and is not omitted when empty. No name and a dash are left out.
   */
  lemma TaggedField(structs: Structs, t: string, n: nat, base: TypeExpr, names: seq<string>, name: string,
      omitEmpty: bool, visiting: set<string>, table: Table)
    requires !base.Star? && OnlyField(structs, t, Field(names, Stars(n, base), Some((name, omitEmpty))), visiting)
    ensures var after := Collect(structs, t, visiting, table);
      && (name == "" || name == "-" ==> after == table)
      && (name != "" && name != "-" ==>
           && name in after && after == table[name := after[name]] && IsKind(after[name].kind, base, structs)
           && (after[name].required <==> (name == "server" || name == "port") && !omitEmpty))
  {
    var f := Field(names, Stars(n, base), Some((name, omitEmpty)));
    OneStep(structs, t, f, visiting, table);
    StarsKind(n, base, structs);
    KindExact(base, structs);
    hide Collect, Stars, FieldKind, IsKind;
  }
}
