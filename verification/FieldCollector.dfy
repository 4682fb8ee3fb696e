/**
 collectFields (generate_proxy_validation.go): a depth-first walk over struct types that embed one another,
 possibly in cycles. The walk keeps the types on its way in `visiting` and fills a table of proxy fields.
 */
module FieldCollector {
  import opened Sequences

  datatype TypeExpr =
    | Ident(name: string) | Star(x: TypeExpr)
    | ArrayType | MapType | StructType | InterfaceType | OtherType

  /** A field declares some names, or none when it embeds a type. `tag` is what `proxyField` makes of its tag. */
  datatype Field = Field(names: seq<string>, fieldType: TypeExpr, tag: Option<(string, bool)>)

  datatype Rule = Rule(kind: string, required: bool)

  type Structs = map<string, seq<Field>>

  type Table = map<string, Rule>

  function EmbeddedTypeName(t: TypeExpr): string {
    match t
    case Ident(name) => name
    case Star(x) => EmbeddedTypeName(x)
    case _ => ""
  }

  const INTEGERS := {"int", "int8", "int16", "int32", "int64", "uint", "uint8", "uint16", "uint32", "uint64",
                     "float32", "float64"}

  function FieldKind(t: TypeExpr, structs: Structs): string {
    match t
    case Ident(name) =>
      if name == "bool" then "bool"
      else if name in INTEGERS then "int"
      else if name == "string" then "string"
      else if name in structs then "object"
      else "string"
    case ArrayType => "array"
    case MapType | StructType => "object"
    case Star(x) => FieldKind(x, structs)
    case InterfaceType => "any"
    case OtherType => "string"
  }

  /** The field embeds a type that the walk enters. */
  predicate Embeds(f: Field) {
    f.tag.None? && f.names == [] && EmbeddedTypeName(f.fieldType) != ""
  }

  /** The field has a name in the table. */
  predicate Named(f: Field) {
    f.tag.Some? && f.tag.value.0 != "" && f.tag.value.0 != "-"
  }

  function RuleOf(f: Field, structs: Structs): Rule
    requires Named(f)
  {
    var name := f.tag.value.0;
    Rule(FieldKind(f.fieldType, structs), (name == "server" || name == "port") && !f.tag.value.1)
  }

  // ---- The walk ----

  /** The table after a type has been walked. */
  function Collect(structs: Structs, t: string, visiting: set<string>, table: Table): Table
    decreases structs.Keys - visiting, 1, 0
  {
    if t in visiting || t !in structs then table
    else
      assert structs.Keys - (visiting + {t}) < structs.Keys - visiting by {
        assert t in structs.Keys - visiting;
      }
      CollectFrom(structs, structs[t], 0, visiting + {t}, table)
  }

  /** The table after the fields from `i` on have been walked. */
  function CollectFrom(structs: Structs, fields: seq<Field>, i: nat, visiting: set<string>, table: Table): Table
    requires i <= |fields|
    decreases structs.Keys - visiting, 2, |fields| - i
  {
    if i == |fields| then table
    else CollectFrom(structs, fields, i + 1, visiting, CollectField(structs, fields[i], visiting, table))
  }

  function CollectField(structs: Structs, f: Field, visiting: set<string>, table: Table): Table
    decreases structs.Keys - visiting, 1, 1
  {
    if Embeds(f) then Collect(structs, EmbeddedTypeName(f.fieldType), visiting, table)
    else if Named(f) then table[f.tag.value.0 := RuleOf(f, structs)]
    else table
  }

  /** The walk as the generator does it, on a table and a set that all calls share. */
  class Collector {
    const structs: Structs
    var table: Table
    var visiting: set<string>

    constructor (structs: Structs)
      ensures this.structs == structs && table == map[] && visiting == {}
    {
      this.structs, table, visiting := structs, map[], {};
    }

    method CollectFields(typeName: string)
      modifies this
      ensures visiting == old(visiting)
      ensures table == Collect(structs, typeName, old(visiting), old(table))
      decreases structs.Keys - visiting
    {
      if typeName in visiting {
        return;
      }
      if typeName !in structs {
        return;
      }
      visiting := visiting + {typeName};
      assert structs.Keys - visiting < structs.Keys - old(visiting) by {
        assert typeName in structs.Keys - old(visiting);
      }
      var fields := structs[typeName];
      for i := 0 to |fields|
        invariant visiting == old(visiting) + {typeName}
        invariant CollectFrom(structs, fields, i, visiting, table)
          == Collect(structs, typeName, old(visiting), old(table))
      {
        var field := fields[i];
        if field.tag.None? {
          if |field.names| == 0 {
            var embedded := EmbeddedTypeName(field.fieldType);
            if embedded != "" {
              CollectFields(embedded);
            }
          }
          continue;
        }
        var name := field.tag.value.0;
        if name == "" || name == "-" {
          continue;
        }
        table := table[name := Rule(FieldKind(field.fieldType, structs),
          (name == "server" || name == "port") && !field.tag.value.1)];
      }
      visiting := visiting - {typeName};
    }
  }
}
