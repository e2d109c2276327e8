/** Which blocks can be lowered, and what their lowered code looks like: the names it binds, the
    variables it touches, and what its conditions test. */
module LoweringShape {
  import opened Wrappers
  import opened Statements
  import opened ReturnAnalysis
  import opened ReturnSoundness
  import opened CppTarget
  import opened MatchLowering
  import opened LocalNames
  import opened MatchNames

  /** The locations of the matches in a block. */
  function Locations(block: seq<Stmt>): set<Location>
    decreases block, 1
  {
    if block == [] then {} else LocationsIn(block[0]) + Locations(block[1..])
  }

  function LocationsIn(s: Stmt): set<Location>
    decreases s, 0
  {
    match s
    case If(_, body) => Locations(body)
    case Elif(_, body) => Locations(body)
    case Else(body) => Locations(body)
    case While(_, body) => Locations(body)
    case Case(_, _, _, body) => Locations(body)
    case Match(location, _, _, cases) => {location} + Locations(cases)
    case _ => {}
  }

  predicate IsBranch(s: Stmt) {
    s.Elif? || s.Else?
  }

  /** What a pattern may be for a subject type: wrappers have two constructors with one name each,
      and only plain values are compared with constants. */
  predicate Fits(ty: SubjectType, p: Pattern) {
    match p
    case Wildcard => true
    case Equals(_) => ty.PlainType?
    case Constructor(tag, args) =>
      match ty
      case OptionType => tag == "None" || (tag == "Some" && |args| == 1 && args[0].Positional?)
      case ResultType => (tag == "Ok" || tag == "Err") && |args| == 1 && args[0].Positional?
      case _ => true
  }

  /** The variables that a match declares next to its code. */
  function OwnVariables(location: Location, ty: SubjectType): set<string> {
    {SubjectName(location)} + if UsesFlag(ty) then {FlagName(location)} else {}
  }

  /** The names of all variables that the matches in a block declare, at any depth. */
  function MatchVariables(block: seq<Stmt>): set<string>
    decreases block, 1
  {
    if block == [] then {} else VariablesIn(block[0]) + MatchVariables(block[1..])
  }

  function VariablesIn(s: Stmt): set<string>
    decreases s, 0
  {
    match s
    case If(_, body) => MatchVariables(body)
    case Elif(_, body) => MatchVariables(body)
    case Else(body) => MatchVariables(body)
    case While(_, body) => MatchVariables(body)
    case Match(location, _, ty, cases) => OwnVariables(location, ty) + CaseVariables(ty, cases)
    case _ => {}
  }

  function CaseVariables(ty: SubjectType, cases: seq<Stmt>): set<string>
    decreases cases, 1
  {
    if cases == [] then {}
    else (if cases[0].Case? then PartsVariable(ty, cases[0]) + MatchVariables(cases[0].body) else {})
         + CaseVariables(ty, cases[1..])
  }

  /** The variable of the payload, in the block of a case. */
  function PartsVariable(ty: SubjectType, c: Stmt): set<string>
    requires c.Case?
  {
    if UsesFlag(ty) && DeclaresParts(ty, c.pattern) then {CaseName(c.location)} else {}
  }

  /** The emitted declarations mean what the pattern binds: each name is emitted as it is written, none
      is declared twice, and none is the variable they are read from or the flag that is set next. */
  predicate NamesFit(bindings: seq<Binding>, from: string, flag: string) {
    && (forall i :: 0 <= i < |bindings| ==>
          var name := bindings[i].name; EmittedLocalName(name) == name && name != from && name != flag)
    && (forall i, j :: 0 <= i < j < |bindings| ==> bindings[i].name != bindings[j].name)
  }

  /** Nor does a match in the body declare a variable of such a name. */
  predicate PatternNamesFit(location: Location, ty: SubjectType, c: Stmt)
    requires c.Case?
  {
    var bindings := PatternBindings(ty, c.pattern);
    && NamesFit(bindings, SourceName(location, c.location, ty), FlagName(location))
    && NamesOf(bindings) !! MatchVariables(c.body)
  }

  /** Branches follow an `if` or `elif`, cases are inside matches, and a match is not at the location
      of a match around it. Names are ones that may be declared, and names of patterns fit. */
  predicate Placed(s: Stmt)
    decreases s, 0
  {
    match s
    case Declare(name, _, _) => IsLocalName(name)
    case If(_, body) => BlockPlaced(body)
    case Elif(_, body) => BlockPlaced(body)
    case Else(body) => BlockPlaced(body)
    case While(_, body) => BlockPlaced(body)
    case Match(location, _, ty, cases) => location !in Locations(cases) && CasesPlaced(location, ty, cases)
    case Case(_, _, _, _) => false
    case _ => true
  }

  predicate CasesPlaced(location: Location, ty: SubjectType, cases: seq<Stmt>)
    decreases cases, 1
  {
    cases == [] ||
    (&& cases[0].Case? && Fits(ty, cases[0].pattern)
     && (UsesFlag(ty) ==> PatternNamesFit(location, ty, cases[0]))
     && BlockPlaced(cases[0].body) && CasesPlaced(location, ty, cases[1..]))
  }

  predicate Linked(block: seq<Stmt>)
    decreases block, 1
  {
    block == [] ||
    (Placed(block[0]) && (|block| > 1 && IsBranch(block[1]) ==> block[0].If? || block[0].Elif?) && Linked(block[1..]))
  }

  predicate BlockPlaced(block: seq<Stmt>)
    decreases block, 2
  {
    Linked(block) && (block != [] ==> !IsBranch(block[0]))
  }

  // The shape of the emitted code.

  lemma {:induction false} StartOfLowered(block: seq<Stmt>, locals: Locals)
    requires Linked(block)
    ensures block == [] || !IsBranch(block[0]) ==> !StartsWithElse(Lower(block, locals))
  {
    if block != [] {
      assert LowerOne(block[0], locals) != [];
      assert Lower(block, locals)[0] == LowerOne(block[0], locals)[0];
    }
  }

  lemma {:induction false} StartOfFlagCases(location: Location, ty: SubjectType, cases: seq<Stmt>, locals: Locals)
    ensures !StartsWithElse(FlagCases(location, ty, cases, locals))
    decreases cases
  {
    if cases != [] {
      StartOfFlagCases(location, ty, cases[1..], locals);
    }
  }

  // The flags of the emitted code.

  lemma {:induction false} AssignedJoined(p: seq<Code>, r: seq<Code>)
    ensures Assigned(p + r) == Assigned(p) + Assigned(r)
    decreases p
  {
    if p == [] {
      assert p + r == r;
    } else {
      assert (p + r)[1..] == p[1..] + r && (p + r)[0] == p[0];
      AssignedJoined(p[1..], r);
    }
  }

  lemma {:induction false} DeclarationsAssignNothing(from: string, bindings: seq<Binding>)
    ensures Assigned(Declarations(from, bindings)) == {}
  {
    if bindings != [] {
      var code := Declarations(from, bindings);
      DeclarationsAssignNothing(from, bindings[1..]);
      assert code[1..] == Declarations(from, bindings[1..]);
    }
  }

  /** Lowered code only sets the flags of its own matches. */
  lemma {:induction false} AssignedByLowered(block: seq<Stmt>, locals: Locals)
    ensures Assigned(Lower(block, locals)) <= MatchVariables(block)
    decreases block, 3
  {
    if block != [] {
      var s := block[0];
      AssignedJoined(LowerOne(s, locals), Lower(block[1..], After(s, locals)));
      AssignedByLowered(block[1..], After(s, locals));
      AssignedByStatement(s, locals);
    }
  }

  lemma {:induction false} AssignedByStatement(s: Stmt, locals: Locals)
    ensures Assigned(LowerOne(s, locals)) <= VariablesIn(s)
    decreases s, 2
  {
    if s.If? || s.Elif? || s.Else? || s.While? {
      AssignedByLowered(s.body, locals);
      var code := LowerOne(s, locals);
      assert code == [code[0]] && code[1..] == [];
    } else if s.Match? {
      var first := DeclareSubject(SubjectName(s.location), Lowered(s.subject, locals.names), s.subjectType);
      AssignedJoined([first], MatchBody(s.location, s.subjectType, s.cases, locals));
      AssignedByMatch(s.location, s.subjectType, s.cases, locals);
      assert Assigned([first]) == {};
    }
  }

  lemma {:induction false} AssignedByMatch(location: Location, ty: SubjectType, cases: seq<Stmt>, locals: Locals)
    ensures Assigned(MatchBody(location, ty, cases, locals)) <= OwnVariables(location, ty) + CaseVariables(ty, cases)
    decreases cases, 2
  {
    var ending, flag := Ending(cases), [DeclareFlag(FlagName(location))];
    assert Assigned(ending) == {} && Assigned(flag) == {FlagName(location)};
    if UsesFlag(ty) {
      AssignedByFlagCases(location, ty, cases, locals);
      AssignedJoined(flag + FlagCases(location, ty, cases, locals), ending);
      AssignedJoined(flag, FlagCases(location, ty, cases, locals));
    } else if ty.EnumType? && HasGuards(cases) {
      AssignedByOrderedCases(location, true, ty, cases, false, locals);
      AssignedJoined(OrderedCases(location, true, ty, cases, false, locals), ending);
    } else {
      AssignedByOrderedCases(location, false, ty, cases, false, locals);
      AssignedByReturningCases(location, ty, cases, locals);
    }
  }

  lemma {:induction false} AssignedByFlagCases(location: Location, ty: SubjectType, cases: seq<Stmt>, locals: Locals)
    ensures Assigned(FlagCases(location, ty, cases, locals)) <= {FlagName(location)} + CaseVariables(ty, cases)
    decreases cases, 1
  {
    if cases != [] {
      AssignedByFlagCases(location, ty, cases[1..], locals);
      if cases[0].Case? {
        AssignedByFlagCase(location, ty, cases[0], locals);
        var code := FlagCases(location, ty, cases, locals);
        assert code[1..] == FlagCases(location, ty, cases[1..], locals);
      }
    }
  }

  lemma {:induction false} AssignedByFlagCase(location: Location, ty: SubjectType, c: Stmt, locals: Locals)
    requires c.Case?
    ensures AssignedIn(FlagCase(location, ty, c, locals)) <= {FlagName(location)} + MatchVariables(c.body)
    decreases c, 0
  {
    var flag, nested := FlagName(location), CaseLocals(ty, c.pattern, locals);
    var start, body := CaseStart(location, c.location, ty, c.pattern), Lower(c.body, nested);
    AssignedByLowered(c.body, nested);
    AssignedByStart(location, c.location, ty, c.pattern);
    AssignedByFlagBody(flag, c.guard, body, nested.names);
    AssignedJoined(start, FlagBody(flag, c.guard, body, nested.names));
  }

  lemma AssignedByStart(location: Location, at: Location, ty: SubjectType, pattern: Pattern)
    ensures Assigned(CaseStart(location, at, ty, pattern)) == {}
  {
    var from, bindings := SourceName(location, at, ty), PatternBindings(ty, pattern);
    DeclarationsAssignNothing(from, bindings);
    if DeclaresParts(ty, pattern) {
      var first := [DeclareParts(CaseName(at), SubjectName(location), pattern.tag)];
      AssignedJoined(first, Declarations(from, bindings));
      assert Assigned(first) == {};
    } else {
      assert [] + Declarations(from, bindings) == Declarations(from, bindings);
    }
  }

  lemma AssignedByFlagBody(flag: string, guard: Option<nat>, body: seq<Code>, names: set<string>)
    ensures Assigned(FlagBody(flag, guard, body, names)) == {flag} + Assigned(body)
  {
    var inside := [SetFlag(flag)] + body;
    AssignedJoined([SetFlag(flag)], body);
    assert Assigned([SetFlag(flag)]) == {flag};
    if guard.Some? {
      var code := FlagBody(flag, guard, body, names);
      assert code[1..] == [] && AssignedIn(code[0]) == Assigned(inside);
    }
  }

  lemma {:induction false} AssignedByOrderedCases(location: Location, onEnum: bool, ty: SubjectType, cases: seq<Stmt>,
                                                  emitted: bool, locals: Locals)
    ensures Assigned(OrderedCases(location, onEnum, ty, cases, emitted, locals)) <= CaseVariables(ty, cases)
    decreases cases, 1
  {
    if cases != [] {
      var code := OrderedCases(location, onEnum, ty, cases, emitted, locals);
      if !cases[0].Case? {
        AssignedByOrderedCases(location, onEnum, ty, cases[1..], emitted, locals);
      } else {
        AssignedByLowered(cases[0].body, locals);
        if IsCatchAll(cases[0]) {
          assert emitted ==> code[1..] == [];
        } else {
          AssignedByOrderedCases(location, onEnum, ty, cases[1..], true, locals);
          assert code[1..] == OrderedCases(location, onEnum, ty, cases[1..], true, locals);
        }
      }
    }
  }

  lemma {:induction false} AssignedByReturningCases(location: Location, ty: SubjectType, cases: seq<Stmt>,
                                                    locals: Locals)
    ensures Assigned(ReturningCases(location, ty, cases, locals)) <= CaseVariables(ty, cases)
    decreases cases, 1
  {
    if cases != [] {
      AssignedByReturningCases(location, ty, cases[1..], locals);
      if cases[0].Case? {
        AssignedByLowered(cases[0].body, locals);
        var code := ReturningCases(location, ty, cases, locals);
        if !IsCatchAll(cases[0]) {
          assert code[1..] == ReturningCases(location, ty, cases[1..], locals);
        }
      }
    }
  }

  /** The match variables of a block are of its own matches. */
  lemma {:induction false} VariablesOfMatches(block: seq<Stmt>, location: Location)
    requires location !in Locations(block)
    ensures SubjectName(location) !in MatchVariables(block) && FlagName(location) !in MatchVariables(block)
    decreases block, 2
  {
    if block != [] {
      VariablesOfStatement(block[0], location);
      VariablesOfMatches(block[1..], location);
    }
  }

  lemma {:induction false} VariablesOfStatement(s: Stmt, location: Location)
    requires location !in LocationsIn(s)
    ensures SubjectName(location) !in VariablesIn(s) && FlagName(location) !in VariablesIn(s)
    decreases s, 1
  {
    if s.If? || s.Elif? || s.Else? || s.While? {
      VariablesOfMatches(s.body, location);
    } else if s.Match? {
      MatchNamesDiffer(location, s.location);
      MatchNamesDiffer(s.location, location);
      VariablesOfCases(s.subjectType, s.cases, location);
    }
  }

  lemma {:induction false} VariablesOfCases(ty: SubjectType, cases: seq<Stmt>, location: Location)
    requires location !in Locations(cases)
    ensures SubjectName(location) !in CaseVariables(ty, cases) && FlagName(location) !in CaseVariables(ty, cases)
    decreases cases, 1
  {
    if cases != [] {
      VariablesOfCases(ty, cases[1..], location);
      if cases[0].Case? {
        MatchNamesDiffer(cases[0].location, location);
        VariablesOfMatches(cases[0].body, location);
      }
    }
  }

  // Conditions and bindings.

  /** The subject of a match is stored, and is of its type. */
  predicate Stored(variables: Variables, subject: string, v: Value, ty: SubjectType) {
    subject in variables && variables[subject] == Held(v) && Conforms(v, ty)
  }

  /** The flag of a match is there and not set. */
  predicate IsClear(variables: Variables, flags: Flags, flag: string) {
    flag in variables && variables[flag].Flag? && flag in flags && !flags[flag]
  }

  lemma FlagConditionCorrect(m: Meaning, subject: string, flag: string, ty: SubjectType, p: Pattern, v: Value, env: Env,
                             variables: Variables, st: State, flags: Flags)
    requires Stored(variables, subject, v, ty) && UsesFlag(ty) && Fits(ty, p) && IsClear(variables, flags, flag)
    ensures EvalCondition(m, And(FlagClear(flag), FlagCondition(subject, ty, p)), variables, st, flags)
         == Some(Answer(Matches(m, p, ty, v, env, st), st))
  {
    var c := FlagCondition(subject, ty, p);
    assert EvalCondition(m, FlagClear(flag), variables, st, flags) == Some(Answer(true, st));
    assert c.Not? ==> EvalCondition(m, c.inner, variables, st, flags) == Some(Answer(v.tag == c.inner.tag, st));
    assert ty.OptionType? ==> v.tag == "Some" || v.tag == "None";
    assert ty.ResultType? ==> v.tag == "Ok" || v.tag == "Err";
    assert EvalCondition(m, c, variables, st, flags) == Some(Answer(Matches(m, p, ty, v, env, st), st));
  }

  lemma CaseConditionCorrect(m: Meaning, subject: string, onEnum: bool, ty: SubjectType, p: Pattern, guard: Option<nat>,
                             v: Value, names: set<string>, variables: Variables, st: State, flags: Flags)
    requires Stored(variables, subject, v, ty) && Fits(ty, p) && (onEnum ==> ty.EnumType?)
    ensures
      var env := View(names, variables);
      EvalCondition(m, CaseCondition(subject, onEnum, ty, p, guard, names), variables, st, flags)
      == Some(if !Matches(m, p, ty, v, env, st) then Answer(false, st)
              else if guard == None then Answer(true, st)
              else m.test(guard.value, env, st))
  {
  }

  lemma {:induction false} NoFields(variants: seq<Variant>, tag: string)
    requires !HasPayloads(variants)
    ensures FieldsOf(variants, tag) == []
  {
    if variants != [] {
      NoFields(variants[1..], tag);
    }
  }

  lemma {:induction false} NothingToBind(args: seq<PatternArg>, position: nat, payload: map<string, int>, env: Env)
    requires position <= |args|
    ensures BindArgs(args, position, [], payload, env) == env
    decreases |args| - position
  {
    if position < |args| {
      NothingToBind(args, position + 1, payload, env);
    }
  }

  /** In the shapes without a flag no pattern binds a name. */
  lemma ChainsBindNothing(ty: SubjectType, p: Pattern, v: Value, env: Env)
    requires !UsesFlag(ty) && Conforms(v, ty)
    ensures Bound(p, ty, v, env) == env
  {
    if p.Constructor? && v.Tagged? {
      NoFields(ty.declared, p.tag);
      NothingToBind(p.args, 0, v.payload, env);
    }
  }
}
