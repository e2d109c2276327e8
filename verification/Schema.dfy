/** The macro protocol schema and the rules for accepting one. */
module Schema {
  import opened Wrappers

  datatype Field = Field(name: string, tag: int, typeName: string, optional: bool, repeated: bool)

  datatype Enum = Enum(name: string, values: seq<string>)

  datatype Struct = Struct(name: string, fields: seq<Field>)

  datatype Schema = Schema(identity: string, version: int, enums: seq<Enum>, structs: seq<Struct>)

  const PRIMITIVES: set<string> := {"bool", "u32", "u64", "i64", "f64", "string", "bytes"}

  function TypeNames(s: Schema): seq<string> {
    seq(|s.enums| + |s.structs|, i requires 0 <= i < |s.enums| + |s.structs| =>
      if i < |s.enums| then s.enums[i].name else s.structs[i - |s.enums|].name)
  }

  predicate KnownType(s: Schema, name: string) {
    name in PRIMITIVES || name in TypeNames(s)
  }

  /** Names and tags of the fields before each field are others. */
  predicate FieldValid(s: Schema, fields: seq<Field>, k: nat)
    requires k < |fields|
  {
    var f := fields[k];
    && KnownType(s, f.typeName)
    && f.tag > 0
    && !(f.optional && f.repeated)
    && forall i :: 0 <= i < k ==> fields[i].name != f.name && fields[i].tag != f.tag
  }

  predicate FieldsValid(s: Schema, fields: seq<Field>) {
    forall k :: 0 <= k < |fields| ==> FieldValid(s, fields, k)
  }

  /** Each type name is new when it is declared. */
  predicate NameValid(names: seq<string>, k: nat)
    requires k < |names|
  {
    names[k] !in PRIMITIVES && names[k] !in names[..k]
  }

  predicate WellFormed(s: Schema) {
    && s.identity == "dudu.macro.ast"
    && s.version >= 1
    && (forall k :: 0 <= k < |TypeNames(s)| ==> NameValid(TypeNames(s), k))
    && (forall k :: 0 <= k < |s.structs| ==> FieldsValid(s, s.structs[k].fields))
  }

  /** The checks of `load_schema`, with the sets it grows. */
  method LoadSchema(s: Schema) returns (accepted: bool)
    ensures accepted == WellFormed(s)
  {
    if s.identity != "dudu.macro.ast" || s.version < 1 {
      return false;
    }
    var declared := TypeNames(s);
    var names := PRIMITIVES;
    for k := 0 to |declared|
      invariant forall name :: name in names <==> name in PRIMITIVES || name in declared[..k]
      invariant forall j :: 0 <= j < k ==> NameValid(declared, j)
    {
      if declared[k] in names {
        assert !NameValid(declared, k);
        return false;
      }
      names := names + {declared[k]};
      assert declared[..k + 1] == declared[..k] + [declared[k]];
    }
    assert declared[..|declared|] == declared;
    for k := 0 to |s.structs|
      invariant forall j :: 0 <= j < k ==> FieldsValid(s, s.structs[j].fields)
    {
      var valid := CheckFields(s, s.structs[k].fields, names);
      if !valid {
        return false;
      }
    }
    return true;
  }

  method CheckFields(s: Schema, fields: seq<Field>, names: set<string>) returns (valid: bool)
    requires forall name :: name in names <==> KnownType(s, name)
    ensures valid == FieldsValid(s, fields)
  {
    var tags: set<int> := {};
    var fieldNames: set<string> := {};
    for k := 0 to |fields|
      invariant forall tag :: tag in tags <==> exists i :: 0 <= i < k && fields[i].tag == tag
      invariant forall name :: name in fieldNames <==> exists i :: 0 <= i < k && fields[i].name == name
      invariant forall j :: 0 <= j < k ==> FieldValid(s, fields, j)
    {
      var field := fields[k];
      if field.typeName !in names || field.name in fieldNames || field.tag in tags || field.tag <= 0
         || (field.optional && field.repeated) {
        assert !FieldValid(s, fields, k);
        return false;
      }
      fieldNames := fieldNames + {field.name};
      tags := tags + {field.tag};
    }
    return true;
  }

  datatype Type = BoolType | U32Type | U64Type | I64Type | F64Type | StringType | BytesType | EnumType
    | StructType(index: nat)

  function StructAt(structs: seq<Struct>, name: string, k: nat): nat
    requires k <= |structs|
    decreases |structs| - k
  {
    if k == |structs| || structs[k].name == name then k else StructAt(structs, name, k + 1)
  }

  predicate IsEnum(s: Schema, name: string) {
    exists i :: 0 <= i < |s.enums| && s.enums[i].name == name
  }

  datatype Primitive = Primitive(name: string, ty: Type)

  const PRIMITIVE_TYPES := [
    Primitive("bool", BoolType), Primitive("u32", U32Type), Primitive("u64", U64Type), Primitive("i64", I64Type),
    Primitive("f64", F64Type), Primitive("string", StringType), Primitive("bytes", BytesType)
  ]

  /** The type of the first primitive with the name, or else the message of the name. */
  function TypeAmong(primitives: seq<Primitive>, s: Schema, name: string): Type {
    if primitives == [] then StructType(StructAt(s.structs, name, 0))
    else if primitives[0].name == name then primitives[0].ty
    else TypeAmong(primitives[1..], s, name)
  }

  /** The type a field's codec is made for, looked up as the generator does. */
  function TypeOf(s: Schema, name: string): Type {
    if IsEnum(s, name) then EnumType else TypeAmong(PRIMITIVE_TYPES, s, name)
  }

  lemma {:induction false} PrimitiveFound(primitives: seq<Primitive>, s: Schema, name: string, at: nat)
    requires at < |primitives| && primitives[at].name == name
    requires forall i :: 0 <= i < |primitives| ==> !primitives[i].ty.StructType?
    ensures !TypeAmong(primitives, s, name).StructType?
    decreases |primitives|
  {
    if primitives[0].name != name {
      PrimitiveFound(primitives[1..], s, name, at - 1);
    }
  }

  lemma {:induction false} MessageOf(primitives: seq<Primitive>, s: Schema, name: string)
    requires forall i :: 0 <= i < |primitives| ==> !primitives[i].ty.StructType?
    ensures var ty := TypeAmong(primitives, s, name); ty.StructType? ==> ty.index == StructAt(s.structs, name, 0)
  {
    if primitives != [] && primitives[0].name != name {
      MessageOf(primitives[1..], s, name);
    }
  }

  lemma {:induction false} StructFound(structs: seq<Struct>, name: string, k: nat)
    requires k <= |structs|
    ensures var at := StructAt(structs, name, k); k <= at <= |structs| && (at < |structs| ==> structs[at].name == name)
    ensures StructAt(structs, name, k) == |structs| ==> forall i :: k <= i < |structs| ==> structs[i].name != name
    decreases |structs| - k
  {
    if k < |structs| && structs[k].name != name {
      StructFound(structs, name, k + 1);
    }
  }

  predicate TypeExists(s: Schema, ty: Type) {
    ty.StructType? ==> ty.index < |s.structs|
  }

  /** In an accepted schema every field has a type, and a message type is the one of its name. */
  lemma FieldTypesExist(s: Schema, k: nat, f: nat)
    requires WellFormed(s) && k < |s.structs| && f < |s.structs[k].fields|
    ensures var name := s.structs[k].fields[f].typeName; var ty := TypeOf(s, name);
      TypeExists(s, ty) && (ty.StructType? ==> s.structs[ty.index].name == name)
  {
    var name := s.structs[k].fields[f].typeName;
    assert FieldValid(s, s.structs[k].fields, f);
    StructFound(s.structs, name, 0);
    MessageOf(PRIMITIVE_TYPES, s, name);
    if TypeOf(s, name).StructType? {
      if name in PRIMITIVES {
        var at := if name == "bool" then 0 else if name == "u32" then 1 else if name == "u64" then 2
                  else if name == "i64" then 3 else if name == "f64" then 4 else if name == "string" then 5 else 6;
        PrimitiveFound(PRIMITIVE_TYPES, s, name, at);
      }
      var i :| 0 <= i < |TypeNames(s)| && TypeNames(s)[i] == name;
      assert s.structs[i - |s.enums|].name == name;
    }
  }
}
