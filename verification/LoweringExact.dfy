/** When exactly the emitted code is right: it is well-formed in the block it is emitted to, and runs as
    the source does under every meaning and in every scope. */
module LoweringExact {
  import opened Wrappers
  import opened Statements
  import opened ReturnAnalysis
  import opened ReturnSoundness
  import opened LocalNames
  import opened MatchNames
  import opened CppTarget
  import opened MatchLowering
  import opened LoweringShape
  import opened DeclaredNames
  import opened PatternNames
  import opened LoweringCorrect

  predicate RunsAlike(m: Meaning, block: seq<Stmt>, locals: Locals, variables: Variables, st: State, flags: Flags,
                      fuel: nat) {
    Exec(m, Lower(block, locals), variables, st, flags, fuel).outcome
    == ExecBlock(m, block, View(locals.names, variables), st, fuel)
  }

  ghost predicate AlwaysAlike(block: seq<Stmt>, locals: Locals) {
    forall m: Meaning, variables, st, flags, fuel ::
      Typed(m) ==> RunsAlike(m, block, locals, variables, st, flags, fuel)
  }

  /** `declared` are the names that the C++ block around the code declared before. */
  ghost predicate Right(block: seq<Stmt>, locals: Locals, declared: set<string>) {
    WellFormed(Lower(block, locals), declared) && AlwaysAlike(block, locals)
  }

  lemma OneStatement(s: Stmt, locals: Locals)
    ensures Lower([s], locals) == LowerOne(s, locals)
  {
    assert [s][1..] == [] && Lower([], After(s, locals)) == [];
  }

  lemma OneStatementRuns(m: Meaning, s: Stmt, env: Env, st: State, fuel: nat)
    requires !s.If? && !s.Declare?
    ensures ExecBlock(m, [s], env, st, fuel) == ExecStmt(m, s, env, st, fuel)
  {
    assert [s][1..] == [];
  }

  lemma StatementWellFormed(s: Stmt, locals: Locals, declared: set<string>)
    requires Placed(s)
    ensures WellFormed(Lower([s], locals), declared)
       <==> OnceInside(s, locals) && DeclaresOne(s, locals) !! declared
  {
    OneStatement(s, locals);
    StatementCompiles(s, locals);
    WellFormedApart(LowerOne(s, locals), {}, declared);
    assert {} + declared == declared;
  }

  // Matches whose cases all return.

  /** The code of a match whose cases all return is right exactly when the match is exhaustive, no block
      in it declares a name twice, and neither its own variables nor the names that an inlined catch-all
      declares are declared in the block around it. If it is not exhaustive, some value falls through in
      the source and reaches `Unreachable` in the code. */
  lemma ReturningMatchRightIff(s: Stmt, locals: Locals, declared: set<string>)
    requires s.Match? && Placed(s) && Exhaustive(s.cases) && MatchReturns(s.cases)
    requires NothingHiddenInside(s, locals) && locals.names !! VariablesIn(s)
    ensures Right([s], locals, declared)
       <==> Covers(s.subjectType, s.cases) && OnceInside(s, locals) && DeclaresOne(s, locals) !! declared
    ensures s.subjectType == PlainType(Unbounded) ==> (Covers(s.subjectType, s.cases) <==> HasCatchAll(s.cases))
  {
    StatementWellFormed(s, locals, declared);
    if Covers(s.subjectType, s.cases) {
      CoveredRunsAlike(s, locals);
    } else {
      var v := UntakenValue(s.subjectType, s.cases);
      var variables: Variables, st, flags: Flags := map[], State(map[], []), map[];
      RefusingIsTyped(v);
      UncoveredIsStuck(s, v, locals, variables, st, flags, 0);
      OneStatement(s, locals);
      OneStatementRuns(Refusing(v), s, View(locals.names, variables), st, 0);
      assert !RunsAlike(Refusing(v), [s], locals, variables, st, flags, 0);
    }
    if s.subjectType == PlainType(Unbounded) {
      NeverFallsThroughIffCovers(s.subjectType, s.cases);
    }
  }

  lemma CoveredRunsAlike(s: Stmt, locals: Locals)
    requires s.Match? && SoundOne(s, locals)
    ensures AlwaysAlike([s], locals)
  {
    OneStatement(s, locals);
    forall m: Meaning, variables, st, flags, fuel | Typed(m)
      ensures RunsAlike(m, [s], locals, variables, st, flags, fuel)
    {
      MatchCorrect(m, s, locals, variables, st, flags, fuel);
      OneStatementRuns(m, s, View(locals.names, variables), st, fuel);
    }
  }

  /** A value that no unguarded case takes: some run with the literals of the program falls through in
      the source, and there the code is stuck. */
  lemma UncoveredIsStuck(s: Stmt, v: Value, locals: Locals, variables: Variables, st: State, flags: Flags, fuel: nat)
    requires s.Match? && Placed(s) && Exhaustive(s.cases) && MatchReturns(s.cases)
    requires NothingHiddenInside(s, locals) && locals.names !! VariablesIn(s)
    requires Conforms(v, s.subjectType) && !Takes(s.cases, s.subjectType, v)
    ensures ExecStmt(Refusing(v), s, View(locals.names, variables), st, fuel) == Normal(st)
    ensures Exec(Refusing(v), LowerOne(s, locals), variables, st, flags, fuel).outcome == Stuck
  {
    var m, env := Refusing(v), View(locals.names, variables);
    assert m.subject(s.subject, s.subjectType, env, st) == Got(v, st);
    RefusedCases(s.cases, s.subjectType, v, env, st, fuel);
    MatchStart(m, s, locals, variables, st, flags, fuel);
    RefusingIsTyped(v);
    var more := variables[SubjectName(s.location) := Held(v)];
    MatchBodyCorrect(m, s.location, s.subjectType, s.cases, v, locals, more, st, flags, fuel);
  }

  // Names of patterns.

  /** A meaning whose subjects are `v` and whose results tell the bindings in `expected` from others. */
  ghost function Telling(v: Value, expected: Env): Meaning {
    Refusing(v).(result := (id, env, st) => (if env == expected then 1 else 0, st))
  }

  lemma TellingIsTyped(v: Value, expected: Env)
    ensures Typed(Telling(v, expected))
  {
    RefusingIsTyped(v);
  }

  /** `case Tag(...): return ...` */
  predicate ReturnsBindings(ty: SubjectType, c: Stmt) {
    && c.Case? && Fits(ty, c.pattern) && c.pattern.Constructor? && HasTag(VariantsOf(ty), c.pattern.tag)
    && c.guard == None && |c.body| == 1 && c.body[0].Return?
  }

  lemma ReturnIsPlaced(s: Stmt, locals: Locals)
    requires s.Return?
    ensures BlockPlaced([s]) && MatchVariables([s]) == {} && NothingHidden([s], locals) && Exhaustive([s])
    ensures DeclaresOnce([s], locals) && Declares([s], locals) == {} && Locations([s]) == {}
  {
    assert [s][1..] == [];
    assert !IsBranch([s][0]) && Placed([s][0]);
    assert NothingHiddenInside(s, locals) && OnceInside(s, locals) && ExhaustiveInside(s);
    assert DeclaresOne(s, locals) == {} && Declares([], After(s, locals)) == {};
  }

  /** A case that returns something of what its pattern binds is compiled right exactly when the names
      of the pattern fit. */
  lemma CorrectIffNamesFit(s: Stmt, locals: Locals, declared: set<string>)
    requires s.Match? && UsesFlag(s.subjectType) && ExhaustiveInside(s) && s.cases != []
    requires ReturnsBindings(s.subjectType, s.cases[0]) && s.location !in Locations(s.cases)
    requires AreSound(s.location, s.subjectType, s.cases[1..], locals) && locals.names !! VariablesIn(s)
    requires FlagBodiesOnce(s.subjectType, s.cases[1..], locals) && OwnVariables(s.location, s.subjectType) !! declared
    ensures
      var ty, c := s.subjectType, s.cases[0];
      Right([s], locals, declared)
      <==> NamesFit(PatternBindings(ty, c.pattern), SourceName(s.location, c.location, ty), FlagName(s.location))
  {
    var ty, c := s.subjectType, s.cases[0];
    var bindings, from := PatternBindings(ty, c.pattern), SourceName(s.location, c.location, ty);
    if NamesFit(bindings, from, FlagName(s.location)) {
      FittingCase(s, locals);
      StatementWellFormed(s, locals, declared);
      CoveredRunsAlike(s, locals);
    } else if WellFormed(Lower([s], locals), declared) {
      DeclarationsWellFormed(s, locals, declared);
      DeclarationsCompile(from, bindings);
      var m, st := MisnamedMatch(s, locals);
      assert !RunsAlike(m, [s], locals, map[], st, map[], 0);
    }
  }

  lemma FittingCase(s: Stmt, locals: Locals)
    requires s.Match? && UsesFlag(s.subjectType) && ExhaustiveInside(s) && s.cases != []
    requires ReturnsBindings(s.subjectType, s.cases[0]) && s.location !in Locations(s.cases)
    requires AreSound(s.location, s.subjectType, s.cases[1..], locals) && locals.names !! VariablesIn(s)
    requires FlagBodiesOnce(s.subjectType, s.cases[1..], locals)
    requires
      var ty, c := s.subjectType, s.cases[0];
      NamesFit(PatternBindings(ty, c.pattern), SourceName(s.location, c.location, ty), FlagName(s.location))
    ensures SoundOne(s, locals) && OnceInside(s, locals) && Inlined(s.subjectType, s.cases, locals) == {}
  {
    var ty, c := s.subjectType, s.cases[0];
    var nested := CaseLocals(ty, c.pattern, locals);
    ReturnIsPlaced(c.body[0], nested);
    assert c.body == [c.body[0]];
    assert PatternNamesFit(s.location, ty, c) && CasesPlaced(s.location, ty, s.cases);
    assert NothingHiddenInCases(ty, s.cases, locals);
    assert FlagBodyOnce(ty, c, locals);
  }

  lemma WellFormedParts(p: seq<Code>, r: seq<Code>, declared: set<string>)
    requires WellFormed(p + r, declared)
    ensures WellFormed(p, {}) && WellFormed(r, {})
  {
    WellFormedJoined(p, r, declared);
    WellFormedApart(p, {}, declared);
    WellFormedApart(r, {}, declared + Introduced(p));
    assert {} + declared == declared && {} + (declared + Introduced(p)) == declared + Introduced(p);
  }

  /** The declarations of the first case are a part of the code. */
  lemma DeclarationsWellFormed(s: Stmt, locals: Locals, declared: set<string>)
    requires s.Match? && UsesFlag(s.subjectType) && s.cases != [] && s.cases[0].Case?
    requires WellFormed(Lower([s], locals), declared)
    ensures
      var ty, c := s.subjectType, s.cases[0];
      WellFormed(Declarations(SourceName(s.location, c.location, ty), PatternBindings(ty, c.pattern)), {})
  {
    var ty, c, at := s.subjectType, s.cases[0], s.location;
    var first, flag := DeclareSubject(SubjectName(at), Lowered(s.subject, locals.names), ty), DeclareFlag(FlagName(at));
    var code, one := FlagCases(at, ty, s.cases, locals), FlagCase(at, ty, c, locals);
    OneStatement(s, locals);
    WellFormedParts([first], MatchBody(at, ty, s.cases, locals), declared);
    WellFormedParts([flag] + code, Ending(s.cases), {});
    WellFormedParts([flag], code, {});
    WellFormedParts([one], FlagCases(at, ty, s.cases[1..], locals), {});
    WellFormedSingle(one);
    var nested := CaseLocals(ty, c.pattern, locals);
    WellFormedParts(CaseStart(at, c.location, ty, c.pattern),
                    FlagBody(FlagName(at), c.guard, Lower(c.body, nested), nested.names), {});
    WellFormedParts(PartsStart(at, c.location, ty, c.pattern),
                    Declarations(SourceName(at, c.location, ty), PatternBindings(ty, c.pattern)), {});
  }

  /** A value of the pattern's constructor whose fields are all 0. */
  lemma ZeroPayload(ty: SubjectType, p: Pattern) returns (v: Value)
    requires UsesFlag(ty) && Fits(ty, p) && p.Constructor? && HasTag(VariantsOf(ty), p.tag)
    ensures v.Tagged? && v.tag == p.tag && Conforms(v, ty) && HasFields(PatternBindings(ty, p), v.payload)
    ensures forall f :: f in v.payload ==> v.payload[f] == 0
    ensures Bound(p, ty, v, map[]) == BoundBy(PatternBindings(ty, p), v.payload, map[])
  {
    v := Tagged(p.tag, map f | f in FieldsOf(VariantsOf(ty), p.tag) :: 0);
    PatternBindingsCorrect(ty, p, v, map[]);
  }

  /** Declarations that are well-formed, of names that do not fit: a run in which the code returns
      something else than the source. */
  lemma MisnamedMatch(s: Stmt, locals: Locals) returns (m: Meaning, st: State)
    requires s.Match? && UsesFlag(s.subjectType) && s.cases != [] && ReturnsBindings(s.subjectType, s.cases[0])
    requires locals.names !! VariablesIn(s)
    requires
      var ty, c := s.subjectType, s.cases[0];
      Misnamed(PatternBindings(ty, c.pattern), SourceName(s.location, c.location, ty), FlagName(s.location))
    ensures Typed(m) && !RunsAlike(m, [s], locals, map[], st, map[], 0)
  {
    var ty, c, at := s.subjectType, s.cases[0], s.location;
    var v := ZeroPayload(ty, c.pattern);
    var expected := BoundBy(PatternBindings(ty, c.pattern), v.payload, map[]);
    m, st := Telling(v, expected), State(map[], []);
    TellingIsTyped(v, expected);
    OwnInside(s);
    var started := FlagMatchStarts(m, s, v, locals, st);
    MisnamedCase(m, at, ty, s.cases, v, locals, started, st, map[FlagName(at) := false]);
    DifferentRuns(m, s, v, locals, st);
  }

  lemma DifferentRuns(m: Meaning, s: Stmt, v: Value, locals: Locals, st: State)
    requires s.Match? && m.subject(s.subject, s.subjectType, map[], st) == Got(v, st)
    requires ExecCases(m, s.cases, s.subjectType, v, map[], st, 0) == Returned(1, st)
    requires Exec(m, LowerOne(s, locals), map[], st, map[], 0).outcome == Returned(0, st)
    ensures !RunsAlike(m, [s], locals, map[], st, map[], 0)
  {
    OneStatement(s, locals);
    OneStatementRuns(m, s, map[], st, 0);
    NothingInView(locals.names, map[]);
  }

  /** Where the cases of the flag shape start, when nothing was declared before. */
  lemma FlagMatchStarts(m: Meaning, s: Stmt, v: Value, locals: Locals, st: State) returns (started: Variables)
    requires s.Match? && UsesFlag(s.subjectType) && locals.names !! VariablesIn(s)
    requires m.subject(s.subject, s.subjectType, map[], st) == Got(v, st)
    ensures started == map[SubjectName(s.location) := Held(v), FlagName(s.location) := Flag]
    ensures View(locals.names, started) == map[] && SubjectName(s.location) != FlagName(s.location)
    ensures
      var flags := map[FlagName(s.location) := false];
      var run := Exec(m, FlagCases(s.location, s.subjectType, s.cases, locals), started, st, flags, 0).outcome;
      Exec(m, LowerOne(s, locals), map[], st, map[], 0).outcome == if MatchReturns(s.cases) then Trapped(run) else run
  {
    var variables: Variables, at, ty := map[], s.location, s.subjectType;
    OwnInside(s);
    NothingInView(locals.names, variables);
    MatchStart(m, s, locals, variables, st, map[], 0);
    var more := variables[SubjectName(at) := Held(v)];
    FlagMatchRuns(m, at, ty, s.cases, locals, more, st, map[], 0);
    MatchNamesDiffer(at, at);
    OwnNotRead(at, ty, FlagName(at), Flag, locals.names, more);
    started := more[FlagName(at) := Flag];
  }

  lemma OwnInside(s: Stmt)
    requires s.Match?
    ensures OwnVariables(s.location, s.subjectType) <= VariablesIn(s)
    ensures s.cases != [] && s.cases[0].Case? ==> PartsVariable(s.subjectType, s.cases[0]) <= VariablesIn(s)
  {
  }

  lemma NothingInView(names: set<string>, variables: Variables)
    requires variables == map[]
    ensures View(names, variables) == map[]
  {
  }

  lemma ReturnRuns(m: Meaning, body: seq<Stmt>, env: Env, st: State)
    requires |body| == 1 && body[0].Return?
    ensures ExecBlock(m, body, env, st, 0) == var r := m.result(body[0].id, env, st); Returned(r.0, r.1)
  {
    assert body[1..] == [];
  }

  lemma LoweredReturn(body: seq<Stmt>, locals: Locals)
    requires |body| == 1 && body[0].Return?
    ensures Lower(body, locals) == [Leave(Lowered(body[0].id, locals.names))]
  {
    assert body == [body[0]];
    OneStatement(body[0], locals);
  }

  /** Some case matches and the flag is clear: its block runs. */
  lemma MatchingCase(m: Meaning, at: Location, ty: SubjectType, c: Stmt, v: Value, rest: seq<Code>, locals: Locals,
                     variables: Variables, st: State, flags: Flags)
    requires c.Case? && UsesFlag(ty) && Fits(ty, c.pattern) && !StartsWithElse(rest)
    requires Stored(variables, SubjectName(at), v, ty) && IsClear(variables, flags, FlagName(at))
    requires c.pattern.Constructor? && v.Tagged? && v.tag == c.pattern.tag
    ensures
      var code := FlagCase(at, ty, c, locals);
      Exec(m, [code] + rest, variables, st, flags, 0) == Then(m, Inside(m, code.body, variables, st, flags, 0), rest, 0)
  {
    var code := FlagCase(at, ty, c, locals);
    FlagConditionCorrect(m, SubjectName(at), FlagName(at), ty, c.pattern, v, map[], variables, st, flags);
    ExecIf(m, code.cond, code.body, rest, variables, st, flags, 0);
  }

  lemma MisnamedCase(m: Meaning, at: Location, ty: SubjectType, cases: seq<Stmt>, v: Value, locals: Locals,
                     variables: Variables, st: State, flags: Flags)
    requires cases != [] && UsesFlag(ty) && ReturnsBindings(ty, cases[0]) && locals.names !! PartsVariable(ty, cases[0])
    requires Stored(variables, SubjectName(at), v, ty) && IsClear(variables, flags, FlagName(at))
    requires v.Tagged? && v.tag == cases[0].pattern.tag && forall f :: f in v.payload ==> v.payload[f] == 0
    requires variables.Keys == {SubjectName(at), FlagName(at)} && View(locals.names, variables) == map[]
    requires Misnamed(PatternBindings(ty, cases[0].pattern), SourceName(at, cases[0].location, ty), FlagName(at))
    requires m == Telling(v, BoundBy(PatternBindings(ty, cases[0].pattern), v.payload, map[]))
    ensures ExecCases(m, cases, ty, v, map[], st, 0) == Returned(1, st)
    ensures Exec(m, FlagCases(at, ty, cases, locals), variables, st, flags, 0).outcome == Returned(0, st)
  {
    var c, bindings := cases[0], PatternBindings(ty, cases[0].pattern);
    PatternBindingsCorrect(ty, c.pattern, v, map[]);
    ReturnRuns(m, c.body, BoundBy(bindings, v.payload, map[]), st);
    StartOfFlagCases(at, ty, cases[1..], locals);
    MatchingCase(m, at, ty, c, v, FlagCases(at, ty, cases[1..], locals), locals, variables, st, flags);
    MisnamedBody(m, at, ty, c, v, locals, variables, st, flags);
  }

  /** Names that do not fit, though their declarations are well-formed. */
  predicate Misnamed(bindings: seq<Binding>, from: string, flag: string) {
    !NamesFit(bindings, from, flag) && MayDeclare(bindings, from) && DistinctNames(bindings)
  }

  lemma MisnamedBody(m: Meaning, at: Location, ty: SubjectType, c: Stmt, v: Value, locals: Locals,
                     variables: Variables, st: State, flags: Flags)
    requires UsesFlag(ty) && ReturnsBindings(ty, c) && locals.names !! PartsVariable(ty, c)
    requires Stored(variables, SubjectName(at), v, ty) && IsClear(variables, flags, FlagName(at))
    requires v.Tagged? && v.tag == c.pattern.tag && forall f :: f in v.payload ==> v.payload[f] == 0
    requires variables.Keys == {SubjectName(at), FlagName(at)} && View(locals.names, variables) == map[]
    requires Misnamed(PatternBindings(ty, c.pattern), SourceName(at, c.location, ty), FlagName(at))
    requires HasFields(PatternBindings(ty, c.pattern), v.payload)
    requires m == Telling(v, BoundBy(PatternBindings(ty, c.pattern), v.payload, map[]))
    ensures Exec(m, FlagCase(at, ty, c, locals).body, variables, st, flags, 0).outcome == Returned(0, st)
  {
    var bindings, from := PatternBindings(ty, c.pattern), SourceName(at, c.location, ty);
    var nested := CaseLocals(ty, c.pattern, locals);
    var e := Lowered(c.body[0].id, nested.names);
    var inside := [SetFlag(FlagName(at))] + [Leave(e)];
    BodyOfReturn(at, ty, c, locals);
    var ready := PartsDeclared(m, at, ty, c, v, Declarations(from, bindings) + inside, locals, variables, st, flags, 0);
    ReadyIsInternal(at, c.location, variables, ready);
    MisreadRun(m, from, FlagName(at), bindings, v, e, locals.names, ready, st, flags);
  }

  lemma ReadyIsInternal(at: Location, of: Location, variables: Variables, ready: Variables)
    requires variables.Keys == {SubjectName(at), FlagName(at)} && ready.Keys <= variables.Keys + {CaseName(of)}
    ensures IsInternal(FlagName(at)) && forall name :: name in ready ==> IsInternal(name)
  {
    MatchNamesAreInternal(at);
    MatchNamesAreInternal(of);
  }

  lemma BodyOfReturn(at: Location, ty: SubjectType, c: Stmt, locals: Locals)
    requires ReturnsBindings(ty, c)
    ensures
      var e := Lowered(c.body[0].id, CaseLocals(ty, c.pattern, locals).names);
      var inside := [SetFlag(FlagName(at))] + [Leave(e)];
      FlagCase(at, ty, c, locals).body == PartsStart(at, c.location, ty, c.pattern)
        + (Declarations(SourceName(at, c.location, ty), PatternBindings(ty, c.pattern)) + inside)
  {
    var nested := CaseLocals(ty, c.pattern, locals);
    LoweredReturn(c.body, nested);
    Regrouped(PartsStart(at, c.location, ty, c.pattern),
              Declarations(SourceName(at, c.location, ty), PatternBindings(ty, c.pattern)),
              [SetFlag(FlagName(at))] + [Leave(Lowered(c.body[0].id, nested.names))]);
  }

  /** The code returns what tells that the bindings are not the expected ones. */
  lemma MisreadRun(m: Meaning, from: string, flag: string, bindings: seq<Binding>, v: Value, e: Lowered,
                   names: set<string>, ready: Variables, st: State, flags: Flags)
    requires IsInternal(flag) && Misnamed(bindings, from, flag)
    requires v.Tagged? && HasFields(bindings, v.payload) && forall f :: f in v.payload ==> v.payload[f] == 0
    requires CaseBegins(from, flag, v.payload, ready) && forall name :: name in ready ==> IsInternal(name)
    requires View(names, ready) == map[] && e.names == names + NamesOf(bindings)
    requires m == Telling(v, BoundBy(bindings, v.payload, map[]))
    ensures Exec(m, Declarations(from, bindings) + ([SetFlag(flag)] + [Leave(e)]), ready, st, flags, 0).outcome
         == Returned(0, st)
  {
    var end := Declared(bindings, v.payload, ready);
    DeclarationsRun(m, from, bindings, v.payload, [SetFlag(flag)] + [Leave(e)], ready, st, flags, 0);
    MisreadNames(from, flag, bindings, v.payload, names, ready, st, flags);
    SetThenLeave(m, flag, e, end, st, flags);
  }

  lemma SetThenLeave(m: Meaning, flag: string, e: Lowered, variables: Variables, st: State, flags: Flags)
    requires Assign(flag, variables, st, flags).outcome == Normal(st)
    ensures
      var result := m.result(e.id, View(e.names, Assign(flag, variables, st, flags).variables), st);
      Exec(m, [SetFlag(flag)] + [Leave(e)], variables, st, flags, 0).outcome == Returned(result.0, result.1)
  {
    var after := Assign(flag, variables, st, flags);
    ExecFirst(m, SetFlag(flag), [Leave(e)], variables, st, flags, 0);
    ExecSingle(m, Leave(e), after.variables, st, after.flags, 0);
  }

  lemma MisreadNames(from: string, flag: string, bindings: seq<Binding>, payload: map<string, int>, names: set<string>,
                     ready: Variables, st: State, flags: Flags)
    requires IsInternal(flag) && Misnamed(bindings, from, flag)
    requires HasFields(bindings, payload) && forall f :: f in payload ==> payload[f] == 0
    requires CaseBegins(from, flag, payload, ready) && forall name :: name in ready ==> IsInternal(name)
    requires View(names, ready) == map[]
    ensures
      var after := Assign(flag, Declared(bindings, payload, ready), st, flags);
      && after.outcome == Normal(st)
      && View(names + NamesOf(bindings), after.variables) != BoundBy(bindings, payload, map[])
  {
    var end := Declared(bindings, payload, ready);
    DeclaredVariables(bindings, payload, ready);
    if flag in NamesOf(bindings) {
      BoundValues(bindings, payload, map[], 0);
      OverwrittenRead(flag, names + NamesOf(bindings), end);
    } else {
      OthersKept(bindings, payload, ready, flag);
      EscapedIsUnread(bindings, payload, ready, names);
    }
  }

  lemma OverwrittenRead(flag: string, names: set<string>, variables: Variables)
    requires IsInternal(flag) && flag in names
    ensures flag in View(names, variables[flag := Plain(1)]) && View(names, variables[flag := Plain(1)])[flag] == 1
  {
    InternalIsNotLocal(flag);
  }

  // Declarations.

  /** A declaration whose value is returned is compiled right exactly when its initializer does not
      mention an outer variable of the same name. */
  lemma DeclarationRightIff(name: string, value: nat, mentionsItself: bool, result: nat, locals: Locals)
    requires IsLocalName(name) && name != "_"
    ensures Right([Declare(name, value, mentionsItself), Return(result)], locals, {})
       <==> !(mentionsItself && name in locals.names)
  {
    var declare, block := Declare(name, value, mentionsItself), [Declare(name, value, mentionsItself), Return(result)];
    DeclareThenReturn(declare, result, locals);
    if mentionsItself && name in locals.names {
      SelfReadingIsWrong(declare, result, locals);
    } else {
      BlockCorrect(block, locals, {});
    }
  }

  lemma SelfReadingIsWrong(declare: Stmt, result: nat, locals: Locals)
    requires declare.Declare? && declare.mentionsItself && declare.name in locals.names && declare.name != "_"
    requires Lower([declare, Return(result)], locals)
          == LowerOne(declare, locals) + [Leave(Lowered(result, After(declare, locals).names))]
    ensures !AlwaysAlike([declare, Return(result)], locals)
  {
    var name, st := declare.name, State(map[], []);
    var m, variables: Variables := Mentioning(name), map[EmittedLocalName(name) := Plain(1)];
    MentioningIsTyped(name);
    assert View(locals.names, variables)[name] == 1;
    SelfReadingRun(m, declare, result, locals, variables, st);
    assert !RunsAlike(m, [declare, Return(result)], locals, variables, st, map[], 0);
  }

  lemma MentioningIsTyped(name: string)
    ensures Typed(Mentioning(name))
  {
    RefusingIsTyped(Number(0));
  }

  /** Values tell whether a name is bound, and results are its value. */
  ghost function Mentioning(name: string): Meaning {
    Refusing(Number(0)).(
      initial := (id, env: Env, st) => Initial(if name in env then 1 else 0, st),
      result := (id, env: Env, st) => (if name in env then env[name] else 0, st))
  }

  lemma DeclareThenReturn(declare: Stmt, result: nat, locals: Locals)
    requires declare.Declare? && IsLocalName(declare.name)
    ensures
      var block := [declare, Return(result)];
      && Lower(block, locals) == LowerOne(declare, locals) + [Leave(Lowered(result, After(declare, locals).names))]
      && BlockPlaced(block) && Exhaustive(block) && Clean(locals.names, block)
      && DeclaresOnce(block, locals) && Declares(block, locals) == {DeclaredAs(locals, declare.name)}
      && (NothingHidden(block, locals) <==> NothingHiddenInside(declare, locals))
  {
    var block, next := [declare, Return(result)], After(declare, locals);
    assert block[1..] == [Return(result)];
    ReturnIsPlaced(Return(result), next);
    LoweredReturn([Return(result)], next);
    assert Placed(declare) && ExhaustiveInside(declare) && OnceInside(declare, locals) && VariablesIn(declare) == {};
    assert Linked(block[1..]);
  }

  lemma SelfReadingRun(m: Meaning, declare: Stmt, result: nat, locals: Locals, variables: Variables, st: State)
    requires declare.Declare? && declare.mentionsItself && declare.name in locals.names && declare.name != "_"
    requires m == Mentioning(declare.name) && declare.name in View(locals.names, variables)
    requires Lower([declare, Return(result)], locals)
          == LowerOne(declare, locals) + [Leave(Lowered(result, After(declare, locals).names))]
    ensures ExecBlock(m, [declare, Return(result)], View(locals.names, variables), st, 0) == Returned(1, st)
    ensures Exec(m, Lower([declare, Return(result)], locals), variables, st, map[], 0).outcome == Returned(0, st)
  {
    var block, name := [declare, Return(result)], DeclaredAs(locals, declare.name);
    var e := Lowered(declare.value, WithLocal(locals, declare.name).names);
    var leave := Leave(Lowered(result, After(declare, locals).names));
    assert block[1..] == [Return(result)];
    ReturnRuns(m, block[1..], View(locals.names, variables)[declare.name := 1], st);
    InitializerReads(declare, locals, variables);
    ExecFirst(m, Variable(name, e), [leave], variables, st, map[], 0);
    VariableRead(locals.names, variables, declare.name, 0);
    ExecSingle(m, leave, variables[name := Plain(0)], st, map[], 0);
  }

  // Names that an inlined catch-all declares.

  /** A match with a literal case and a catch-all that declares a name, where both return. */
  function Shadowing(at: Location, subject: nat, carrier: Carrier, first: Location, last: Location, name: string,
                     inner: nat, result: nat): Stmt {
    Match(at, subject, PlainType(carrier),
          [Case(first, Equals(Literal(0)), None, [Return(result)]),
           Case(last, Wildcard, None, [Declare(name, inner, false), Return(result)])])
  }

  /** A case in front of others, on a subject that is a plain value. */
  lemma CaseInFront(at: Location, carrier: Carrier, c: Stmt, rest: seq<Stmt>, separate: bool, locals: Locals)
    requires c.Case? && !c.pattern.Constructor?
    ensures
      var ty, cases := PlainType(carrier), [c] + rest;
      && (CasesPlaced(at, ty, cases) <==> BlockPlaced(c.body) && CasesPlaced(at, ty, rest))
      && (Exhaustive(cases) <==> Exhaustive(c.body) && Exhaustive(rest))
      && (NothingHiddenInCases(ty, cases, locals) <==>
          NothingHidden(c.body, locals) && NothingHiddenInCases(ty, rest, locals))
      && CaseVariables(ty, cases) == MatchVariables(c.body) + CaseVariables(ty, rest)
      && Locations(cases) == Locations(c.body) + Locations(rest)
      && (CasesReturn(cases) <==> BlockReturns(c.body) && CasesReturn(rest))
      && (BodiesOnce(cases, locals) <==> DeclaresOnce(c.body, locals) && (IsCatchAll(c) || BodiesOnce(rest, locals)))
      && InlinedFrom(cases, separate, locals)
         == if IsCatchAll(c) then Declares(c.body, locals)
            else if separate then InlinedFrom(rest, separate, locals) else {}
  {
    var cases := [c] + rest;
    assert cases[0] == c && cases[1..] == rest;
    assert ExhaustiveInside(c) == Exhaustive(c.body) && LocationsIn(c) == Locations(c.body);
  }

  lemma NoCases(at: Location, carrier: Carrier, separate: bool, locals: Locals)
    ensures
      var ty := PlainType(carrier);
      && CasesPlaced(at, ty, []) && Exhaustive([]) && NothingHiddenInCases(ty, [], locals) && BodiesOnce([], locals)
      && CaseVariables(ty, []) == {} && Locations([]) == {} && CasesReturn([])
        && InlinedFrom([], separate, locals) == {}
  {
  }

  lemma ShadowingFits(at: Location, subject: nat, carrier: Carrier, first: Location, last: Location, name: string,
                      inner: nat, result: nat, locals: Locals)
    requires IsLocalName(name) && SubjectName(at) !in locals.names
    ensures
      var s := Shadowing(at, subject, carrier, first, last, name, inner, result);
      && SoundOne(s, locals) && OnceInside(s, locals) && MatchReturns(s.cases) && VariablesIn(s) == {SubjectName(at)}
      && DeclaresOne(s, locals) == {SubjectName(at), DeclaredAs(locals, name)}
  {
    var s := Shadowing(at, subject, carrier, first, last, name, inner, result);
    var a, b := s.cases[0], s.cases[1];
    assert s.cases == [a] + [b] && [b] == [b] + [];
    ReturnIsPlaced(Return(result), locals);
    DeclareThenReturn(Declare(name, inner, false), result, locals);
    BodyReturns(Declare(name, inner, false), result);
    BodyNames(Declare(name, inner, false), result);
    NoCases(at, carrier, true, locals);
    CaseInFront(at, carrier, b, [], true, locals);
    CaseInFront(at, carrier, a, [b], true, locals);
    assert HasCatchAll(s.cases) by {
      assert Unguarded(s.cases[1]) && s.cases[1].pattern == Wildcard;
    }
    PlainMatch(s, locals);
  }

  lemma BodyReturns(declare: Stmt, result: nat)
    requires declare.Declare?
    ensures BlockReturns([Return(result)]) && BlockReturns([declare, Return(result)])
  {
    assert [declare, Return(result)][1..] == [Return(result)];
  }

  lemma BodyNames(declare: Stmt, result: nat)
    requires declare.Declare?
    ensures MatchVariables([declare, Return(result)]) == {} && Locations([declare, Return(result)]) == {}
  {
    ReturnIsPlaced(Return(result), Locals({}, {}, 0));
    assert [declare, Return(result)][1..] == [Return(result)];
    assert VariablesIn(declare) == {} && LocationsIn(declare) == {};
  }

  /** What is asked of a match on a plain value whose cases all return. */
  lemma PlainMatch(s: Stmt, locals: Locals)
    requires s.Match? && s.subjectType.PlainType? && MatchReturns(s.cases) && HasCatchAll(s.cases)
    requires s.location !in Locations(s.cases) && CasesPlaced(s.location, s.subjectType, s.cases)
    requires Exhaustive(s.cases) && NothingHiddenInCases(s.subjectType, s.cases, locals)
    requires SubjectName(s.location) !in locals.names && CaseVariables(s.subjectType, s.cases) == {}
    ensures SoundOne(s, locals) && VariablesIn(s) == {SubjectName(s.location)}
    ensures OnceInside(s, locals) <==> BodiesOnce(s.cases, locals)
    ensures DeclaresOne(s, locals) == {SubjectName(s.location)} + InlinedFrom(s.cases, true, locals)
  {
    assert OwnVariables(s.location, s.subjectType) == {SubjectName(s.location)};
    assert AreSeparate(s.subjectType, s.cases);
  }

  /** The failing input: a catch-all after another case, both returning, declares a name that the block
      around the match declares too. The match is exhaustive, the block returns, each body is right in a
      block of its own, and a C++ block declares the name twice. */
  lemma InlinedNameIsRedeclared(at: Location, subject: nat, carrier: Carrier, first: Location, last: Location,
                                name: string, outer: nat, inner: nat, result: nat, locals: Locals)
    requires IsLocalName(name) && name != "_" && name !in locals.names && SubjectName(at) !in locals.names
    ensures
      var block := [Declare(name, outer, false), Shadowing(at, subject, carrier, first, last, name, inner, result)];
      && BlockPlaced(block) && IsSound(block, locals) && BlockReturns(block)
      && OnceInside(block[1], WithLocal(locals, name)) && !WellFormed(Lower(block, locals), {})
  {
    var declare, s := Declare(name, outer, false), Shadowing(at, subject, carrier, first, last, name, inner, result);
    var block, next := [declare, s], WithLocal(locals, name);
    MatchNamesAreInternal(at);
    InternalIsNotLocal(SubjectName(at));
    ShadowingFits(at, subject, carrier, first, last, name, inner, result, next);
    TwoStatements(declare, s, locals);
    BlockCompiles(block, locals);
  }

  lemma TwoStatements(declare: Stmt, s: Stmt, locals: Locals)
    requires declare.Declare? && !declare.mentionsItself && IsLocalName(declare.name) && s.Match?
    requires SoundOne(s, WithLocal(locals, declare.name)) && MatchReturns(s.cases)
    requires locals.names !! VariablesIn(s)
    ensures
      var block, next := [declare, s], WithLocal(locals, declare.name);
      && BlockPlaced(block) && IsSound(block, locals) && BlockReturns(block)
      && (DeclaresOnce(block, locals) <==>
          OnceInside(s, next) && DeclaredAs(locals, declare.name) !in DeclaresOne(s, next))
  {
    var block, next := [declare, s], WithLocal(locals, declare.name);
    assert block[0] == declare && block[1..] == [s] && [s][1..] == [];
    assert Placed(declare) && Linked([s]) && Linked(block);
    assert Exhaustive([s]) && NothingHidden([s], next);
    assert MatchVariables([]) == {} && MatchVariables([s]) == VariablesIn(s);
    assert Declares([s], next) == DeclaresOne(s, next) && DeclaresOnce([s], next) == OnceInside(s, next);
    assert BlockReturns([s]);
  }

  /** A match whose only case is a catch-all that declares a name and goes on, and a statement after it
      that returns: right exactly when the name is not bound around the match, as what follows reads the
      name that the inlined body declared. */
  lemma HiddenNameRightIff(at: Location, subject: nat, last: Location, name: string, inner: nat, result: nat,
                           locals: Locals)
    requires IsLocalName(name) && name != "_" && SubjectName(at) !in locals.names
    ensures
      var s := Match(at, subject, PlainType(Unbounded), [Case(last, Wildcard, None, [Declare(name, inner, false)])]);
      Right([s, Return(result)], locals, {}) <==> name !in locals.names
  {
    var declare, cases := Declare(name, inner, false), [Case(last, Wildcard, None, [Declare(name, inner, false)])];
    var s := Match(at, subject, PlainType(Unbounded), cases);
    HidingFits(s, last, declare, result, locals);
    if name in locals.names {
      HidingIsWrong(s, last, declare, result, locals);
    } else {
      forall n | n in locals.names && n != "_" ensures EmittedLocalName(n) != EmittedLocalName(name) {
        EmittedNames(n, name);
      }
      BlockCorrect([s, Return(result)], locals, {});
    }
  }

  lemma HidingFits(s: Stmt, last: Location, declare: Stmt, result: nat, locals: Locals)
    requires declare.Declare? && !declare.mentionsItself && IsLocalName(declare.name)
    requires s.Match? && s.subjectType == PlainType(Unbounded) && s.cases == [Case(last, Wildcard, None, [declare])]
    requires SubjectName(s.location) !in locals.names
    ensures
      var block := [s, Return(result)];
      && BlockPlaced(block) && DeclaresOnce(block, locals) && Exhaustive(block) && Clean(locals.names, block)
      && (NothingHidden(block, locals) <==> Spares(locals.names, {DeclaredAs(locals, declare.name)}))
  {
    var block, body, c := [s, Return(result)], [declare], s.cases[0];
    assert block[1..] == [Return(result)] && s.cases == [c] + [];
    DeclarationAlone(declare, locals);
    ReturnIsPlaced(Return(result), locals);
    NoCases(s.location, Unbounded, false, locals);
    CaseInFront(s.location, Unbounded, c, [], false, locals);
    assert !MatchReturns(s.cases);
    assert Inlined(s.subjectType, s.cases, locals) == {DeclaredAs(locals, declare.name)};
    assert Placed(s) && Linked(block) && OnceInside(s, locals) && ExhaustiveInside(s) && NothingHiddenInside(s, locals);
    assert VariablesIn(s) == {SubjectName(s.location)};
  }

  lemma DeclarationAlone(declare: Stmt, locals: Locals)
    requires declare.Declare? && !declare.mentionsItself && IsLocalName(declare.name)
    ensures
      var body := [declare];
      && BlockPlaced(body) && Exhaustive(body) && NothingHidden(body, locals) && !BlockReturns(body)
      && MatchVariables(body) == {} && Locations(body) == {}
      && DeclaresOnce(body, locals) && Declares(body, locals) == {DeclaredAs(locals, declare.name)}
  {
    var body, next := [declare], After(declare, locals);
    assert body[1..] == [] && !IsBranch(body[0]);
    assert Placed(declare) && ExhaustiveInside(declare) && NothingHiddenInside(declare, locals);
    assert OnceInside(declare, locals) && DeclaresOnce([], next) && Declares([], next) == {};
    assert VariablesIn(declare) == {} && LocationsIn(declare) == {};
  }

  lemma HidingIsWrong(s: Stmt, last: Location, declare: Stmt, result: nat, locals: Locals)
    requires declare.Declare? && !declare.mentionsItself && declare.name != "_" && declare.name in locals.names
    requires s.Match? && s.subjectType == PlainType(Unbounded) && s.cases == [Case(last, Wildcard, None, [declare])]
    requires SubjectName(s.location) !in locals.names
    ensures !AlwaysAlike([s, Return(result)], locals)
  {
    var block, st := [s, Return(result)], State(map[], []);
    var variables: Variables := map[EmittedLocalName(declare.name) := Plain(1)];
    var expected := View(locals.names, variables);
    assert expected[declare.name] == 1;
    var m := Telling(Number(0), expected);
    TellingIsTyped(Number(0), expected);
    HidingSource(m, s, last, declare, result, expected, st);
    HidingCode(m, s, last, declare, result, locals, variables, st);
    assert !RunsAlike(m, block, locals, variables, st, map[], 0);
  }

  lemma HidingSource(m: Meaning, s: Stmt, last: Location, declare: Stmt, result: nat, env: Env, st: State)
    requires declare.Declare? && m == Telling(Number(0), env)
    requires s.Match? && s.subjectType == PlainType(Unbounded) && s.cases == [Case(last, Wildcard, None, [declare])]
    ensures ExecBlock(m, [s, Return(result)], env, st, 0) == Returned(1, st)
  {
    var block := [s, Return(result)];
    assert block[1..] == [Return(result)] && [declare][1..] == [];
    ReturnRuns(m, [Return(result)], env, st);
    assert ExecBlock(m, [declare], env, st, 0) == Normal(st);
    assert ExecCases(m, s.cases, s.subjectType, Number(0), env, st, 0) == Normal(st);
  }

  lemma HidingCode(m: Meaning, s: Stmt, last: Location, declare: Stmt, result: nat, locals: Locals,
                   variables: Variables, st: State)
    requires declare.Declare? && declare.name != "_" && declare.name in locals.names
    requires s.Match? && s.subjectType == PlainType(Unbounded) && s.cases == [Case(last, Wildcard, None, [declare])]
    requires SubjectName(s.location) !in locals.names && m == Telling(Number(0), View(locals.names, variables))
    requires declare.name in View(locals.names, variables) && View(locals.names, variables)[declare.name] == 1
    ensures Exec(m, Lower([s, Return(result)], locals), variables, st, map[], 0).outcome == Returned(0, st)
  {
    var names, subject, name := locals.names, SubjectName(s.location), EmittedLocalName(declare.name);
    var e, leave := Lowered(declare.value, WithLocal(locals, declare.name).names), Leave(Lowered(result, names));
    var first, variable := DeclareSubject(subject, Lowered(s.subject, names), s.subjectType), Variable(name, e);
    HidingLowered(s, last, declare, result, locals);
    var more := variables[subject := Held(Number(0))];
    OwnNotRead(s.location, s.subjectType, subject, Held(Number(0)), names, variables);
    TwoDeclarations(m, first, Number(0), variable, 0, [leave], variables, st);
    VariableRead(names, more, declare.name, 0);
    assert names + {declare.name} == names;
    ExecSingle(m, leave, more[name := Plain(0)], st, map[], 0);
  }

  lemma TwoDeclarations(m: Meaning, first: Code, v: Value, second: Code, value: int, rest: seq<Code>,
                        variables: Variables, st: State)
    requires first.DeclareSubject? && second.Variable?
    requires forall env :: m.subject(first.e.id, first.subjectType, env, st) == Got(v, st)
    requires forall env :: m.initial(second.e.id, env, st) == Initial(value, st)
    ensures Exec(m, [first] + ([second] + rest), variables, st, map[], 0)
         == Exec(m, rest, variables[first.name := Held(v)][second.name := Plain(value)], st, map[], 0)
  {
    SubjectFirst(m, first, v, [second] + rest, variables, st);
    VariableFirst(m, second, value, rest, variables[first.name := Held(v)], st);
  }

  lemma SubjectFirst(m: Meaning, first: Code, v: Value, rest: seq<Code>, variables: Variables, st: State)
    requires first.DeclareSubject? && forall env :: m.subject(first.e.id, first.subjectType, env, st) == Got(v, st)
    ensures Exec(m, [first] + rest, variables, st, map[], 0)
         == Exec(m, rest, variables[first.name := Held(v)], st, map[], 0)
  {
    ExecFirst(m, first, rest, variables, st, map[], 0);
  }

  lemma VariableFirst(m: Meaning, first: Code, value: int, rest: seq<Code>, variables: Variables, st: State)
    requires first.Variable? && forall env :: m.initial(first.e.id, env, st) == Initial(value, st)
    ensures Exec(m, [first] + rest, variables, st, map[], 0)
         == Exec(m, rest, variables[first.name := Plain(value)], st, map[], 0)
  {
    ExecFirst(m, first, rest, variables, st, map[], 0);
  }

  lemma HidingLowered(s: Stmt, last: Location, declare: Stmt, result: nat, locals: Locals)
    requires declare.Declare? && declare.name != "_"
    requires s.Match? && s.subjectType == PlainType(Unbounded) && s.cases == [Case(last, Wildcard, None, [declare])]
    ensures Lower([s, Return(result)], locals)
         == [DeclareSubject(SubjectName(s.location), Lowered(s.subject, locals.names), s.subjectType)]
            + ([Variable(EmittedLocalName(declare.name),
                         Lowered(declare.value, WithLocal(locals, declare.name).names))]
               + [Leave(Lowered(result, locals.names))])
  {
    var block := [s, Return(result)];
    assert block[1..] == [Return(result)];
    LoweredReturn([Return(result)], locals);
    InlinedOnly(s, last, declare, locals);
  }

  /** What an inlined catch-all declares stays in scope: where the name is not bound, a use of it after
      the match, of a global, is emitted as the name of the local. */
  lemma InlinedNameTakesGlobal(s: Stmt, last: Location, declare: Stmt, locals: Locals, variables: Variables, st: State)
    requires declare.Declare? && declare.name != "_" && declare.name !in locals.names
    requires EmittedLocalName(declare.name) == declare.name
    requires s.Match? && s.subjectType == PlainType(Unbounded) && s.cases == [Case(last, Wildcard, None, [declare])]
    ensures
      var run := Exec(Refusing(Number(0)), LowerOne(s, locals), variables, st, map[], 0);
      run.outcome == Normal(st) && Emitted(locals.names, declare.name) in run.variables
  {
    var m, subject := Refusing(Number(0)), SubjectName(s.location);
    var first := DeclareSubject(subject, Lowered(s.subject, locals.names), s.subjectType);
    var e := Lowered(declare.value, WithLocal(locals, declare.name).names);
    InlinedOnly(s, last, declare, locals);
    TwoDeclarations(m, first, Number(0), Variable(declare.name, e), 0, [], variables, st);
    assert [Variable(declare.name, e)] + [] == [Variable(declare.name, e)];
  }

  lemma OneCaseReturns(c: Stmt)
    ensures CasesReturn([c]) <==> c.Case? && BlockReturns(c.body)
  {
    var cases := [c];
    assert cases[0] == c && cases[1..] == [] && CasesReturn([]);
  }

  lemma InlinedOnly(s: Stmt, last: Location, declare: Stmt, locals: Locals)
    requires declare.Declare? && declare.name != "_"
    requires s.Match? && s.subjectType == PlainType(Unbounded) && s.cases == [Case(last, Wildcard, None, [declare])]
    ensures LowerOne(s, locals)
         == [DeclareSubject(SubjectName(s.location), Lowered(s.subject, locals.names), s.subjectType)]
            + [Variable(EmittedLocalName(declare.name), Lowered(declare.value, WithLocal(locals, declare.name).names))]
  {
    assert [declare][1..] == [];
    OneStatement(declare, locals);
    assert !BlockReturns([declare]);
    OneCaseReturns(s.cases[0]);
    assert s.cases == [s.cases[0]] && !MatchReturns(s.cases);
    assert MatchBody(s.location, s.subjectType, s.cases, locals) == Lower([declare], locals);
  }

  /** Discarded values of an inlined catch-all and of what follows it get the same name. */
  lemma DiscardIsRedeclared(at: Location, subject: nat, last: Location, inner: nat, later: nat, locals: Locals)
    ensures
      var discard := Declare("_", inner, false);
      var s := Match(at, subject, PlainType(Unbounded), [Case(last, Wildcard, None, [discard])]);
      var block := [s, Declare("_", later, false)];
      BlockPlaced(block) && OnceInside(s, locals) && !WellFormed(Lower(block, locals), {})
  {
    var discard, next := Declare("_", inner, false), Declare("_", later, false);
    var c := Case(last, Wildcard, None, [discard]);
    var s := Match(at, subject, PlainType(Unbounded), [c]);
    var block := [s, next];
    assert block[1..] == [next] && [c] == [c] + [];
    DeclarationAlone(discard, locals);
    DeclarationAlone(next, locals);
    NoCases(at, Unbounded, false, locals);
    CaseInFront(at, Unbounded, c, [], false, locals);
    assert !MatchReturns([c]) && Placed(s) && Linked(block);
    assert Inlined(s.subjectType, s.cases, locals) == {DeclaredAs(locals, "_")};
    BlockCompiles(block, locals);
  }

  /** A case that declares a name of its pattern: the emitted block of the case is well-formed exactly
      when there is a guard, as the body of a guarded case is a block of its own. */
  lemma PatternNameRedeclaredIff(at: Location, c: Stmt, name: string, value: nat, locals: Locals)
    requires c.Case? && c.pattern == Constructor("Some", [Positional(name)]) && c.body == [Declare(name, value, false)]
    requires IsLocalName(name) && name != "_" && EmittedLocalName(name) == name
    ensures PatternNamesFit(at, OptionType, c)
    ensures WellFormedOne(FlagCase(at, OptionType, c, locals)) <==> c.guard.Some?
  {
    var bindings, nested := [Binding(name, "value")], CaseLocals(OptionType, c.pattern, locals);
    DeclarationAlone(c.body[0], nested);
    assert c.body == [c.body[0]];
    MatchNamesAreInternal(at);
    InternalIsNotLocal(SubjectName(at));
    InternalIsNotLocal(FlagName(at));
    NamesStep(bindings);
    assert bindings[1..] == [] && NamesOf([]) == {} && PatternBindings(OptionType, c.pattern) == bindings;
    FlagCaseCompiles(at, OptionType, c, locals);
  }
}
