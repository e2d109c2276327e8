/** The names of patterns in emitted code: a pattern name is declared as it is written, while its uses
    are emitted like those of other locals. */
module PatternNames {
  import opened Wrappers
  import opened Statements
  import opened ReturnSoundness
  import opened LocalNames
  import opened MatchNames
  import opened CppTarget
  import opened MatchLowering
  import opened LoweringShape
  import opened DeclaredNames

  /** The variables after the declarations. */
  function Declared(bindings: seq<Binding>, payload: map<string, int>, variables: Variables): Variables
    requires HasFields(bindings, payload)
  {
    if bindings == [] then variables
    else
      var b := bindings[0];
      FieldsOfRest(bindings, payload);
      Declared(bindings[1..], payload, variables[b.name := Plain(payload[b.field])])
  }

  /** The bindings of the source. */
  function BoundBy(bindings: seq<Binding>, payload: map<string, int>, env: Env): Env {
    if bindings == [] then env
    else
      var b := bindings[0];
      BoundBy(bindings[1..], payload, if b.field in payload then BindName(b.name, payload[b.field], env) else env)
  }

  predicate HasFields(bindings: seq<Binding>, payload: map<string, int>) {
    forall i :: 0 <= i < |bindings| ==> bindings[i].field in payload
  }

  lemma FieldsOfRest(bindings: seq<Binding>, payload: map<string, int>)
    requires bindings != [] && HasFields(bindings, payload)
    ensures HasFields(bindings[1..], payload)
  {
    forall i | 0 <= i < |bindings[1..]| ensures bindings[1..][i].field in payload {
      assert bindings[1..][i] == bindings[i + 1];
    }
  }

  /** No name hides the variable the fields are read from. */
  predicate Apart(bindings: seq<Binding>, from: string) {
    forall i :: 0 <= i < |bindings| ==> bindings[i].name != from
  }

  lemma {:induction false} DeclarationsRun(m: Meaning, from: string, bindings: seq<Binding>, payload: map<string, int>,
                                           rest: seq<Code>, variables: Variables, st: State, flags: Flags, fuel: nat)
    requires from in variables && FieldsIn(variables[from]) == payload
    requires HasFields(bindings, payload) && Apart(bindings, from)
    ensures Exec(m, Declarations(from, bindings) + rest, variables, st, flags, fuel)
         == Exec(m, rest, Declared(bindings, payload, variables), st, flags, fuel)
    decreases |bindings|
  {
    var code := Declarations(from, bindings) + rest;
    if bindings == [] {
      assert code == rest;
    } else {
      var b := bindings[0];
      var more := Declarations(from, bindings[1..]) + rest;
      assert code == [Bind(b.name, from, b.field)] + more;
      ExecFirst(m, Bind(b.name, from, b.field), more, variables, st, flags, fuel);
      FieldsOfRest(bindings, payload);
      forall i | 0 <= i < |bindings[1..]| ensures bindings[1..][i].name != from {
        assert bindings[1..][i] == bindings[i + 1];
      }
      DeclarationsRun(m, from, bindings[1..], payload, rest, variables[b.name := Plain(payload[b.field])], st, flags,
                      fuel);
    }
  }

  lemma FirstBinding(one: Binding, rest: seq<Binding>, payload: map<string, int>, env: Env)
    requires one.field in payload
    ensures HasFields([one] + rest, payload) <==> HasFields(rest, payload)
    ensures BoundBy([one] + rest, payload, env) == BoundBy(rest, payload, BindName(one.name, payload[one.field], env))
  {
    var all := [one] + rest;
    assert all[1..] == rest;
    if HasFields(all, payload) {
      forall i | 0 <= i < |rest| ensures rest[i].field in payload {
        assert rest[i] == all[i + 1];
      }
    }
  }

  lemma {:induction false} EnumBindings(args: seq<PatternArg>, position: nat, fields: seq<string>,
                                        payload: map<string, int>, env: Env)
    requires position <= |args| && forall f :: f in fields ==> f in payload
    ensures var bindings := EnumCaseBindings(args, position, fields);
      HasFields(bindings, payload) && BindArgs(args, position, fields, payload, env) == BoundBy(bindings, payload, env)
    decreases |args| - position
  {
    if position < |args| {
      var field := ArgField(args[position], position, fields);
      var rest := EnumCaseBindings(args, position + 1, fields);
      if field.Some? {
        var one := Binding(args[position].name, field.value);
        var next := BindName(one.name, payload[one.field], env);
        EnumBindings(args, position + 1, fields, payload, next);
        FirstBinding(one, rest, payload, env);
        assert EnumCaseBindings(args, position, fields) == [one] + rest;
        assert BindArgs(args, position, fields, payload, env) == BindArgs(args, position + 1, fields, payload, next);
      } else {
        assert EnumCaseBindings(args, position, fields) == rest;
        EnumBindings(args, position + 1, fields, payload, env);
      }
    }
  }

  lemma WrapperFields()
    ensures FieldsOf(VariantsOf(OptionType), "Some") == ["value"] && FieldsOf(VariantsOf(OptionType), "None") == []
    ensures FieldsOf(VariantsOf(ResultType), "Ok") == ["value"] && FieldsOf(VariantsOf(ResultType), "Err") == ["error"]
  {
    assert VariantsOf(OptionType)[1..] == [Variant("None", [])];
    assert VariantsOf(ResultType)[1..] == [Variant("Err", ["error"])];
  }

  /** The bindings found for a matching pattern are the ones the source makes, and their fields are
      there. */
  lemma PatternBindingsCorrect(ty: SubjectType, p: Pattern, v: Value, env: Env)
    requires Conforms(v, ty) && UsesFlag(ty) && Fits(ty, p) && p.Constructor? && v.Tagged? && v.tag == p.tag
    ensures var bindings := PatternBindings(ty, p);
      HasFields(bindings, v.payload) && Bound(p, ty, v, env) == BoundBy(bindings, v.payload, env)
  {
    var fields := FieldsOf(VariantsOf(ty), p.tag);
    if ty.EnumType? {
      EnumBindings(p.args, 0, fields, v.payload, env);
    } else {
      WrapperFields();
      if p.tag == "None" {
        NothingToBind(p.args, 0, v.payload, env);
      } else {
        var bindings := PatternBindings(ty, p);
        assert fields[0] in v.payload && bindings == [Binding(p.args[0].name, fields[0])] && bindings[1..] == [];
        WrapperBinding(p.args, fields, v.payload, env);
      }
    }
  }

  lemma WrapperBinding(args: seq<PatternArg>, fields: seq<string>, payload: map<string, int>, env: Env)
    requires |args| == 1 && args[0].Positional? && |fields| == 1 && fields[0] in payload
    ensures BindArgs(args, 0, fields, payload, env) == BindName(args[0].name, payload[fields[0]], env)
  {
    var bound := BindName(args[0].name, payload[fields[0]], env);
    assert BindArgs(args, 1, fields, payload, bound) == bound;
  }

  // What emitted code reads.

  /** `View`, for any way of emitting names. */
  function ViewThrough(emit: string -> string, names: set<string>, variables: Variables): Env {
    map n | n in names && n != "_" && emit(n) in variables && variables[emit(n)].Plain? :: variables[emit(n)].value
  }

  lemma OneMoreVariable(emit: string -> string, names: set<string>, variables: Variables, name: string, value: int)
    requires name != "_" && forall k :: emit(k) == emit(name) ==> k == name
    ensures ViewThrough(emit, names + {name}, variables[emit(name) := Plain(value)])
         == ViewThrough(emit, names, variables)[name := value]
  {
  }

  lemma ViewIsThrough(emit: string -> string, names: set<string>, variables: Variables)
    requires forall n :: emit(n) == EmittedLocalName(n)
    ensures View(names, variables) == ViewThrough(emit, names, variables)
  {
  }

  /** A variable with the emitted form of a name is what that name reads. */
  lemma VariableRead(names: set<string>, variables: Variables, name: string, value: int)
    requires name != "_"
    ensures View(names + {name}, variables[EmittedLocalName(name) := Plain(value)])
         == BindName(name, value, View(names, variables))
  {
    var emit := n => EmittedLocalName(n);
    forall k ensures emit(k) == emit(name) ==> k == name {
      EmittedNames(k, name);
    }
    OneMoreVariable(emit, names, variables, name, value);
    ViewIsThrough(emit, names + {name}, variables[EmittedLocalName(name) := Plain(value)]);
    ViewIsThrough(emit, names, variables);
  }

  predicate SameReads(emit: string -> string, names: set<string>, a: Variables, b: Variables) {
    forall n :: n in names && n != "_" ==> SameAt(a, b, emit(n))
  }

  lemma SameThrough(emit: string -> string, names: set<string>, a: Variables, b: Variables)
    requires SameReads(emit, names, a, b)
    ensures ViewThrough(emit, names, a) == ViewThrough(emit, names, b)
  {
  }

  /** Variables that no bound name is emitted as are not read. */
  lemma ViewKept(names: set<string>, a: Variables, b: Variables)
    requires forall n :: n in names && n != "_" ==> SameAt(a, b, EmittedLocalName(n))
    ensures View(names, a) == View(names, b)
  {
    var emit := n => EmittedLocalName(n);
    SameThrough(emit, names, a, b);
    ViewIsThrough(emit, names, a);
    ViewIsThrough(emit, names, b);
  }

  lemma VariableNotRead(names: set<string>, variables: Variables, name: string, e: Entity)
    requires forall n :: n in names && n != "_" ==> EmittedLocalName(n) != name
    ensures View(names, variables[name := e]) == View(names, variables)
  {
    ViewKept(names, variables[name := e], variables);
  }

  lemma UnderscoreNotRead(names: set<string>, variables: Variables)
    ensures View(names + {"_"}, variables) == View(names, variables)
  {
  }

  /** Names that fit then read as the source binds them, and leave the match variables alone. */
  lemma {:induction false} FittingNamesBind(bindings: seq<Binding>, payload: map<string, int>, names: set<string>,
                                            variables: Variables)
    requires HasFields(bindings, payload)
    requires forall i :: 0 <= i < |bindings| ==> EmittedLocalName(bindings[i].name) == bindings[i].name
    ensures View(names + NamesOf(bindings), Declared(bindings, payload, variables))
         == BoundBy(bindings, payload, View(names, variables))
    decreases |bindings|
  {
    if bindings == [] {
      assert names + NamesOf(bindings) == names;
    } else {
      var b, rest := bindings[0], bindings[1..];
      var value := payload[b.field];
      FieldsOfRest(bindings, payload);
      forall i | 0 <= i < |rest| ensures EmittedLocalName(rest[i].name) == rest[i].name {
        assert rest[i] == bindings[i + 1];
      }
      PatternNameRead(names, variables, b.name, value);
      FittingNamesBind(rest, payload, names + {b.name}, variables[b.name := Plain(value)]);
      NamesStep(bindings);
      assert names + {b.name} + NamesOf(rest) == names + NamesOf(bindings);
    }
  }

  lemma PatternNameRead(names: set<string>, variables: Variables, name: string, value: int)
    requires EmittedLocalName(name) == name
    ensures View(names + {name}, variables[name := Plain(value)]) == BindName(name, value, View(names, variables))
  {
    if name == "_" {
      UnderscoreNotRead(names, variables[name := Plain(value)]);
      forall n | n in names && n != "_" ensures EmittedLocalName(n) != name {
        EmittedNames(n, name);
      }
      VariableNotRead(names, variables, name, Plain(value));
    } else {
      VariableRead(names, variables, name, value);
    }
  }

  lemma {:induction false} OthersKept(bindings: seq<Binding>, payload: map<string, int>, variables: Variables,
                                      name: string)
    requires HasFields(bindings, payload) && name !in NamesOf(bindings)
    ensures SameAt(variables, Declared(bindings, payload, variables), name)
    decreases |bindings|
  {
    if bindings != [] {
      var b := bindings[0];
      FieldsOfRest(bindings, payload);
      NamesStep(bindings);
      OthersKept(bindings[1..], payload, variables[b.name := Plain(payload[b.field])], name);
    }
  }

  lemma {:induction false} DeclaredVariables(bindings: seq<Binding>, payload: map<string, int>, variables: Variables)
    requires HasFields(bindings, payload)
    ensures Declared(bindings, payload, variables).Keys == variables.Keys + NamesOf(bindings)
    ensures forall name :: name in NamesOf(bindings) ==> Declared(bindings, payload, variables)[name].Plain?
    decreases |bindings|
  {
    if bindings != [] {
      var b := bindings[0];
      var more := variables[b.name := Plain(payload[b.field])];
      FieldsOfRest(bindings, payload);
      NamesStep(bindings);
      DeclaredVariables(bindings[1..], payload, more);
      if b.name !in NamesOf(bindings[1..]) {
        OthersKept(bindings[1..], payload, more, b.name);
      }
    }
  }

  // Which names are right.

  /** Where a case begins: the payload and the clear flag are in scope under names of match variables. */
  predicate CaseBegins(from: string, flag: string, payload: map<string, int>, variables: Variables) {
    && from in variables && FieldsIn(variables[from]) == payload
    && flag in variables && variables[flag].Flag?
  }

  /** The declarations of a pattern and the setting of the flag are well-formed, leave the flag set, and
      let the names read what the pattern binds. */
  predicate RightAt(m: Meaning, from: string, flag: string, bindings: seq<Binding>, payload: map<string, int>,
                    names: set<string>, variables: Variables, st: State, flags: Flags)
    requires HasFields(bindings, payload)
  {
    var run := Exec(m, Declarations(from, bindings) + [SetFlag(flag)], variables, st, flags, 0);
    && WellFormed(Declarations(from, bindings), {})
    && run.outcome == Normal(st) && run.flags == flags[flag := true]
    && View(names + NamesOf(bindings), run.variables) == BoundBy(bindings, payload, View(names, variables))
  }

  ghost predicate DeclaredRight(from: string, flag: string, bindings: seq<Binding>) {
    forall m: Meaning, payload, names, variables, st, flags ::
      HasFields(bindings, payload) && CaseBegins(from, flag, payload, variables)
      ==> RightAt(m, from, flag, bindings, payload, names, variables, st, flags)
  }

  /** They do so exactly when the names fit: each is emitted as it is written, no two are equal, and none
      is the variable the fields are read from or the flag. */
  lemma DeclaredRightIffNamesFit(from: string, flag: string, bindings: seq<Binding>)
    requires IsInternal(from) && IsInternal(flag) && from != flag
    ensures DeclaredRight(from, flag, bindings) <==> NamesFit(bindings, from, flag)
  {
    if NamesFit(bindings, from, flag) {
      forall m: Meaning, payload, names, variables, st, flags
        | HasFields(bindings, payload) && CaseBegins(from, flag, payload, variables)
        ensures RightAt(m, from, flag, bindings, payload, names, variables, st, flags)
      {
        FittingNamesAreRight(m, from, flag, bindings, payload, names, variables, st, flags);
      }
    } else {
      MisnamedIsNotRight(from, flag, bindings);
    }
  }

  lemma FlagSet(m: Meaning, flag: string, variables: Variables, st: State, flags: Flags)
    ensures Exec(m, [SetFlag(flag)], variables, st, flags, 0) == Assign(flag, variables, st, flags)
  {
    ExecSingle(m, SetFlag(flag), variables, st, flags, 0);
  }

  lemma FittingNamesAreRight(m: Meaning, from: string, flag: string, bindings: seq<Binding>, payload: map<string, int>,
                             names: set<string>, variables: Variables, st: State, flags: Flags)
    requires NamesFit(bindings, from, flag) && HasFields(bindings, payload)
    requires CaseBegins(from, flag, payload, variables)
    ensures RightAt(m, from, flag, bindings, payload, names, variables, st, flags)
  {
    var end := Declared(bindings, payload, variables);
    DeclarationsRun(m, from, bindings, payload, [SetFlag(flag)], variables, st, flags, 0);
    FlagSet(m, flag, end, st, flags);
    OthersKept(bindings, payload, variables, flag);
    FittingNamesBind(bindings, payload, names, variables);
    DeclarationsCompile(from, bindings);
    FittingNamesCompile(bindings, from, flag);
  }

  lemma MisnamedIsNotRight(from: string, flag: string, bindings: seq<Binding>)
    requires IsInternal(from) && IsInternal(flag) && from != flag && !NamesFit(bindings, from, flag)
    ensures !DeclaredRight(from, flag, bindings)
  {
    var payload := map i | 0 <= i < |bindings| :: bindings[i].field := 0;
    var variables := map[from := Parts(payload), flag := Flag];
    var m, st: State, flags: Flags := Refusing(Number(0)), State(map[], []), map[];
    CaseBeginsSo(from, flag, payload);
    MisnamedPattern(m, from, flag, bindings, payload, variables, {}, st, flags);
  }

  lemma CaseBeginsSo(from: string, flag: string, payload: map<string, int>)
    requires from != flag
    ensures CaseBegins(from, flag, payload, map[from := Parts(payload), flag := Flag])
  {
  }

  /** Names that do not fit are ill-formed, or take the flag, or one of them is not read back although it
      is bound. */
  lemma MisnamedPattern(m: Meaning, from: string, flag: string, bindings: seq<Binding>, payload: map<string, int>,
                        variables: Variables, names: set<string>, st: State, flags: Flags)
    requires IsInternal(from) && IsInternal(flag) && !NamesFit(bindings, from, flag) && HasFields(bindings, payload)
    requires CaseBegins(from, flag, payload, variables) && flag !in flags
    requires forall name :: name in variables ==> IsInternal(name)
    ensures !RightAt(m, from, flag, bindings, payload, names, variables, st, flags)
  {
    DeclarationsCompile(from, bindings);
    if WellFormed(Declarations(from, bindings), {}) {
      var end := Declared(bindings, payload, variables);
      DeclarationsRun(m, from, bindings, payload, [SetFlag(flag)], variables, st, flags, 0);
      FlagSet(m, flag, end, st, flags);
      DeclaredVariables(bindings, payload, variables);
      if flag !in NamesOf(bindings) {
        OthersKept(bindings, payload, variables, flag);
        EscapedIsUnread(bindings, payload, variables, names);
      }
    }
  }

  /** Of escaped names, the longest is bound but not read. */
  lemma EscapedIsUnread(bindings: seq<Binding>, payload: map<string, int>, variables: Variables, names: set<string>)
    requires HasFields(bindings, payload) && forall name :: name in variables ==> IsInternal(name)
    requires exists i :: 0 <= i < |bindings| && EmittedLocalName(bindings[i].name) != bindings[i].name
    ensures View(names + NamesOf(bindings), Declared(bindings, payload, variables))
         != BoundBy(bindings, payload, View(names, variables))
  {
    var k := LongestEscaped(bindings);
    var name := bindings[k].name;
    var emitted := EmittedLocalName(name);
    EscapedOnce(name);
    BoundNames(bindings, payload, View(names, variables), k);
    DeclaredVariables(bindings, payload, variables);
    if IsInternal(emitted) {
      EmittedInternal(name, emitted);
    }
  }

  /** A name that was escaped is longer, and would be escaped again. */
  lemma EscapedOnce(name: string)
    requires EmittedLocalName(name) != name
    ensures var emitted := EmittedLocalName(name); |emitted| > |name| && EmittedLocalName(emitted) != emitted
    ensures name != "_"
  {
    var emitted := EmittedLocalName(name);
    assert emitted == ESCAPE_PREFIX + name;
    assert |EmittedLocalName(emitted)| == |ESCAPE_PREFIX| + |emitted|;
  }

  lemma LongestEscaped(bindings: seq<Binding>) returns (k: nat)
    requires exists i :: 0 <= i < |bindings| && EmittedLocalName(bindings[i].name) != bindings[i].name
    ensures k < |bindings| && EmittedLocalName(bindings[k].name) != bindings[k].name
    ensures forall j :: 0 <= j < |bindings| && EmittedLocalName(bindings[j].name) != bindings[j].name ==>
      |bindings[j].name| <= |bindings[k].name|
  {
    var lengths := seq(|bindings|, i requires 0 <= i < |bindings| => |bindings[i].name|);
    var marks := seq(|bindings|,
                     i requires 0 <= i < |bindings| => EmittedLocalName(bindings[i].name) != bindings[i].name);
    var i :| 0 <= i < |bindings| && EmittedLocalName(bindings[i].name) != bindings[i].name;
    assert marks[i];
    k := LargestMarked(lengths, marks);
    forall j | 0 <= j < |bindings| && EmittedLocalName(bindings[j].name) != bindings[j].name
      ensures |bindings[j].name| <= |bindings[k].name|
    {
      assert marks[j] && lengths[j] <= lengths[k];
    }
  }

  lemma {:induction false} LargestMarked(lengths: seq<nat>, marks: seq<bool>) returns (k: nat)
    requires |lengths| == |marks| && true in marks
    ensures k < |marks| && marks[k] && forall j :: 0 <= j < |marks| && marks[j] ==> lengths[j] <= lengths[k]
    decreases |marks|
  {
    var last := |marks| - 1;
    if true in marks[..last] {
      k := LargestMarked(lengths[..last], marks[..last]);
      if marks[last] && lengths[last] > lengths[k] {
        k := last;
      }
    } else {
      k := last;
      forall j | 0 <= j < last ensures !marks[j] {
        assert marks[..last][j] == marks[j];
      }
    }
  }

  lemma {:induction false} BoundNames(bindings: seq<Binding>, payload: map<string, int>, env: Env, k: nat)
    requires HasFields(bindings, payload) && k < |bindings| && bindings[k].name != "_"
    ensures bindings[k].name in BoundBy(bindings, payload, env)
    decreases |bindings|
  {
    var b := bindings[0];
    var next := BindName(b.name, payload[b.field], env);
    if k == 0 {
      BoundStays(bindings[1..], payload, next, b.name);
    } else {
      BoundNames(bindings[1..], payload, next, k - 1);
    }
  }

  /** Every bound name has the value of a field. */
  lemma {:induction false} BoundValues(bindings: seq<Binding>, payload: map<string, int>, env: Env, value: int)
    requires HasFields(bindings, payload) && forall f :: f in payload ==> payload[f] == value
    requires forall n :: n in env ==> env[n] == value
    ensures forall n :: n in BoundBy(bindings, payload, env) ==> BoundBy(bindings, payload, env)[n] == value
  {
    if bindings != [] {
      var b := bindings[0];
      FieldsOfRest(bindings, payload);
      BoundValues(bindings[1..], payload, BindName(b.name, payload[b.field], env), value);
    }
  }

  lemma {:induction false} BoundStays(bindings: seq<Binding>, payload: map<string, int>, env: Env, name: string)
    requires name in env
    ensures name in BoundBy(bindings, payload, env)
  {
    if bindings != [] {
      var b := bindings[0];
      var next := if b.field in payload then BindName(b.name, payload[b.field], env) else env;
      BoundStays(bindings[1..], payload, next, name);
    }
  }

  // Failing inputs.

  lemma OneDeclared(name: string, field: string, value: int, variables: Variables)
    ensures Declared([Binding(name, field)], map[field := value], variables) == variables[name := Plain(value)]
  {
    var bindings := [Binding(name, field)];
    FieldsOfRest(bindings, map[field := value]);
    assert bindings[1..] == [];
  }

  /** A name with the escape prefix reads the outer local of that name, not the payload. */
  lemma EscapedNameReadsOuter(name: string, field: string, outer: int, inner: int)
    requires ESCAPE_PREFIX <= name
    ensures
      var variables := map[EmittedLocalName(name) := Plain(outer)];
      var bindings, payload := [Binding(name, field)], map[field := inner];
      && View({name}, variables) == map[name := outer]
      && BoundBy(bindings, payload, View({name}, variables)) == map[name := inner]
      && View({name} + NamesOf(bindings), Declared(bindings, payload, variables)) == map[name := outer]
  {
    var variables := map[EmittedLocalName(name) := Plain(outer)];
    var bindings, payload := [Binding(name, field)], map[field := inner];
    assert bindings[1..] == [];
    NamesStep(bindings);
    assert NamesOf([]) == {} && {name} + NamesOf(bindings) == {name};
    assert EmittedLocalName(name) == ESCAPE_PREFIX + name != name && name != "_";
    OneDeclared(name, field, inner, variables);
    var end := variables[name := Plain(inner)];
    assert View({name}, variables).Keys == {name} && View({name}, end).Keys == {name};
  }

  /** A pattern name that is the flag of its match hides it: the payload is overwritten, and the flag
      stays clear for the cases that follow. */
  lemma FlagNameIsOverwritten(m: Meaning, at: Location, from: string, field: string, inner: int, variables: Variables,
                              st: State, flags: Flags)
    requires CaseBegins(from, FlagName(at), map[field := inner], variables) && from != FlagName(at)
    ensures
      var flag, bindings := FlagName(at), [Binding(FlagName(at), field)];
      var run := Exec(m, Declarations(from, bindings) + [SetFlag(flag)], variables, st, flags, 0);
      run.flags == flags && View({flag}, run.variables) == map[flag := 1]
  {
    var flag, bindings, payload := FlagName(at), [Binding(FlagName(at), field)], map[field := inner];
    MatchNamesAreInternal(at);
    InternalIsNotLocal(flag);
    DeclarationsRun(m, from, bindings, payload, [SetFlag(flag)], variables, st, flags, 0);
    OneDeclared(flag, field, inner, variables);
    FlagSet(m, flag, variables[flag := Plain(inner)], st, flags);
  }
}
