/** Which payload field a name in a constructor pattern stands for, in the program and in the emitted code. */
module PatternFields {
  import opened Wrappers
  import opened Statements
  import opened CppTarget
  import opened MatchLowering

  /** The first variant of a name is at a position. */
  predicate VariantAt(variants: seq<Variant>, tag: string, k: nat) {
    k < |variants| && variants[k].name == tag && forall j :: 0 <= j < k ==> variants[j].name != tag
  }

  lemma {:induction false} FieldsAtVariant(variants: seq<Variant>, tag: string, k: nat)
    requires VariantAt(variants, tag, k)
    ensures FieldsOf(variants, tag) == variants[k].fields
    decreases k
  {
    if k > 0 {
      assert variants[0].name != tag;
      FieldsAtVariant(variants[1..], tag, k - 1);
    }
  }

  /** The argument names a field: by its position, or by a label. */
  predicate Stands(arg: PatternArg, position: nat, fields: seq<string>, field: string) {
    match arg
    case Positional(_) => position < |fields| && field == fields[position]
    case Labelled(key, _) => field == key && key in fields
  }

  /** The argument binds a name that no later argument binds. */
  predicate BindsLast(args: seq<PatternArg>, i: nat) {
    && i < |args| && args[i].name != "_"
    && forall j :: i < j < |args| ==> args[j].name != args[i].name
  }

  /** A later argument does not bind the name again. */
  lemma {:induction false} BoundOnce(args: seq<PatternArg>, position: nat, fields: seq<string>,
                                     payload: map<string, int>, env: Env, name: string)
    requires position <= |args| && forall i :: position <= i < |args| ==> args[i].name != name
    ensures SameAt(env, BindArgs(args, position, fields, payload, env), name)
    decreases |args| - position
  {
    if position < |args| {
      var field := ArgField(args[position], position, fields);
      var bound :=
        if field.Some? && field.value in payload then BindName(args[position].name, payload[field.value], env) else env;
      BoundOnce(args, position + 1, fields, payload, bound, name);
    }
  }

  /** The name of each argument that names a field stands for that field of the payload. */
  lemma {:induction false} ArgumentBinds(args: seq<PatternArg>, position: nat, fields: seq<string>,
                                         payload: map<string, int>, env: Env, i: nat, field: string)
    requires position <= i && BindsLast(args, i) && Stands(args[i], i, fields, field) && field in payload
    ensures
      var bound := BindArgs(args, position, fields, payload, env);
      args[i].name in bound && bound[args[i].name] == payload[field]
    decreases |args| - position
  {
    var here := ArgField(args[position], position, fields);
    var next :=
      if here.Some? && here.value in payload then BindName(args[position].name, payload[here.value], env) else env;
    if position == i {
      BoundOnce(args, position + 1, fields, payload, next, args[i].name);
    } else {
      ArgumentBinds(args, position + 1, fields, payload, next, i, field);
    }
  }

  /** In a case of an enumeration, a name in position i stands for the i-th field of the constructor, and a
      name with a label for the field of that label. */
  lemma NameStandsForField(ty: SubjectType, k: nat, p: Pattern, v: Value, env: Env, i: nat, field: string)
    requires ty.EnumType? && p.Constructor? && v.Tagged? && v.tag == p.tag && VariantAt(ty.declared, p.tag, k)
    requires BindsLast(p.args, i) && Stands(p.args[i], i, ty.declared[k].fields, field) && field in v.payload
    ensures p.args[i].name in Bound(p, ty, v, env) && Bound(p, ty, v, env)[p.args[i].name] == v.payload[field]
  {
    FieldsAtVariant(ty.declared, p.tag, k);
    ArgumentBinds(p.args, 0, ty.declared[k].fields, v.payload, env, i, field);
  }

  /** Names that no argument of the pattern has keep their meaning. */
  lemma OtherNamesStay(ty: SubjectType, p: Pattern, v: Value, env: Env, name: string)
    requires p.Constructor? && forall i :: 0 <= i < |p.args| ==> p.args[i].name != name
    ensures SameAt(env, Bound(p, ty, v, env), name)
  {
    if v.Tagged? {
      BoundOnce(p.args, 0, FieldsOf(VariantsOf(ty), p.tag), v.payload, env, name);
    }
  }

  /** `Some(name)` and `Ok(name)` name the value, and `Err(name)` the error. */
  lemma WrapperNames(tag: string, name: string, v: Value, env: Env)
    requires v.Tagged? && v.tag == tag && name != "_"
    ensures tag == "Some" && "value" in v.payload ==>
      Bound(Constructor(tag, [Positional(name)]), OptionType, v, env) == env[name := v.payload["value"]]
    ensures tag == "Ok" && "value" in v.payload ==>
      Bound(Constructor(tag, [Positional(name)]), ResultType, v, env) == env[name := v.payload["value"]]
    ensures tag == "Err" && "error" in v.payload ==>
      Bound(Constructor(tag, [Positional(name)]), ResultType, v, env) == env[name := v.payload["error"]]
  {
    if tag == "Some" {
      OneArgument(name, "value", VariantsOf(OptionType), 0, v.payload, env);
    } else if tag == "Ok" {
      OneArgument(name, "value", VariantsOf(ResultType), 0, v.payload, env);
    } else if tag == "Err" {
      OneArgument(name, "error", VariantsOf(ResultType), 1, v.payload, env);
    }
  }

  lemma OneArgument(name: string, field: string, variants: seq<Variant>, k: nat, payload: map<string, int>, env: Env)
    requires k < |variants| && VariantAt(variants, variants[k].name, k) && variants[k].fields == [field] && name != "_"
    ensures field in payload ==>
      BindArgs([Positional(name)], 0, FieldsOf(variants, variants[k].name), payload, env) == env[name := payload[field]]
  {
    FieldsAtVariant(variants, variants[k].name, k);
    if field in payload {
      var args, bound := [Positional(name)], env[name := payload[field]];
      assert BindArgs(args, 1, [field], payload, bound) == bound;
    }
  }

  /** `_` stands for nothing, also when it is repeated. */
  lemma DiscardStays(ty: SubjectType, p: Pattern, v: Value, env: Env)
    requires p.Constructor?
    ensures SameAt(env, Bound(p, ty, v, env), "_")
  {
    if v.Tagged? {
      DiscardsStay(p.args, 0, FieldsOf(VariantsOf(ty), p.tag), v.payload, env);
    }
  }

  lemma {:induction false} DiscardsStay(args: seq<PatternArg>, position: nat, fields: seq<string>,
                                        payload: map<string, int>, env: Env)
    requires position <= |args|
    ensures SameAt(env, BindArgs(args, position, fields, payload, env), "_")
    decreases |args| - position
  {
    if position < |args| {
      var field := ArgField(args[position], position, fields);
      var bound :=
        if field.Some? && field.value in payload then BindName(args[position].name, payload[field.value], env) else env;
      DiscardsStay(args, position + 1, fields, payload, bound);
    }
  }

  // The emitted code.

  /** Every argument names a field. */
  predicate AllStand(args: seq<PatternArg>, fields: seq<string>) {
    forall i :: 0 <= i < |args| ==> if args[i].Positional? then i < |fields| else args[i].field in fields
  }

  lemma {:induction false} EmittedArguments(args: seq<PatternArg>, position: nat, fields: seq<string>, i: nat)
    requires position <= i < |args| && AllStand(args, fields)
    ensures
      var bindings := EnumCaseBindings(args, position, fields);
      && |bindings| == |args| - position
      && bindings[i - position].name == args[i].name && Stands(args[i], i, fields, bindings[i - position].field)
    decreases |args| - position
  {
    var rest := EnumCaseBindings(args, position + 1, fields);
    assert ArgField(args[position], position, fields).Some?;
    if position < i {
      EmittedArguments(args, position + 1, fields, i);
    } else if position + 1 < |args| {
      EmittedArguments(args, position + 1, fields, position + 1);
    }
  }

  lemma {:induction false} DeclarationAt(from: string, bindings: seq<Binding>, i: nat)
    requires i < |bindings|
    ensures |Declarations(from, bindings)| == |bindings|
    ensures Declarations(from, bindings)[i] == Bind(bindings[i].name, from, bindings[i].field)
    decreases |bindings|
  {
    if i > 0 {
      DeclarationAt(from, bindings[1..], i - 1);
    } else if |bindings| > 1 {
      DeclarationAt(from, bindings[1..], 0);
    }
  }

  /** The i-th declaration that is emitted for a pattern of an enumeration reads the field that its i-th
      argument names. */
  lemma EmittedFieldStands(from: string, ty: SubjectType, k: nat, p: Pattern, i: nat)
    requires ty.EnumType? && p.Constructor? && VariantAt(ty.declared, p.tag, k)
    requires i < |p.args| && AllStand(p.args, ty.declared[k].fields)
    ensures
      var code := Declarations(from, PatternBindings(ty, p));
      && |code| == |p.args| && code[i].Bind? && code[i].name == p.args[i].name && code[i].from == from
      && Stands(p.args[i], i, ty.declared[k].fields, code[i].field)
  {
    FieldsAtVariant(ty.declared, p.tag, k);
    EmittedArguments(p.args, 0, ty.declared[k].fields, i);
    DeclarationAt(from, PatternBindings(ty, p), i);
  }
}
