/** Lowering preserves meaning: the emitted code runs exactly the case the source runs, with the same
    bindings and the same guards in the same order, and never reaches its `Unreachable`. */
module LoweringCorrect {
  import opened Wrappers
  import opened Statements
  import opened ReturnAnalysis
  import opened ReturnSoundness
  import opened LocalNames
  import opened MatchNames
  import opened CppTarget
  import opened MatchLowering
  import opened LoweringShape
  import opened DeclaredNames
  import opened PatternNames

  lemma LoweredBranch(block: seq<Stmt>, locals: Locals)
    requires block != [] && (block[0].If? || IsBranch(block[0]))
    ensures LowerOne(block[0], locals) == [LowerOne(block[0], locals)[0]]
    ensures Lower(block, locals) != [] && Lower(block, locals)[0] == LowerOne(block[0], locals)[0]
      && Lower(block, locals)[1..] == Lower(block[1..], locals)
  {
  }

  lemma {:induction false} BranchesOfLowered(tail: seq<Stmt>, locals: Locals)
    requires Linked(tail)
    ensures Branches(Lower(tail, locals)) == BranchCount(tail)
    ensures Lower(tail, locals)[BranchCount(tail)..] == Lower(AfterChain(tail), locals)
    decreases tail
  {
    StartOfLowered(tail, locals);
    if tail != [] && IsBranch(tail[0]) {
      var code := Lower(tail, locals);
      LoweredBranch(tail, locals);
      BranchesOfLowered(tail[1..], locals);
      var n := BranchCount(tail);
      assert code[n..] == code[1..][n - 1..] && tail[n..] == tail[1..][n - 1..];
    } else {
      assert Lower(tail, locals)[0..] == Lower(tail, locals) && tail[0..] == tail;
    }
  }

  /** Bound names are not spelled like a variable of a match in the block. */
  predicate Clean(names: set<string>, block: seq<Stmt>) {
    names !! MatchVariables(block)
  }

  /** What the lowering of a block relies on. */
  predicate IsSound(block: seq<Stmt>, locals: Locals) {
    Linked(block) && Exhaustive(block) && NothingHidden(block, locals) && Clean(locals.names, block)
  }

  /** The same, as a premise that proofs pass on without looking into it. */
  ghost predicate Sound(block: seq<Stmt>, locals: Locals) {
    forall b {:trigger IsSound(b, locals)} :: b == block ==> IsSound(b, locals)
  }

  /** What the lowering of one statement relies on. */
  predicate SoundOne(s: Stmt, locals: Locals) {
    Placed(s) && ExhaustiveInside(s) && NothingHiddenInside(s, locals) && locals.names !! VariablesIn(s)
  }

  /** What the lowering of the cases of a match relies on. */
  predicate AreSound(location: Location, ty: SubjectType, cases: seq<Stmt>, locals: Locals) {
    && CasesPlaced(location, ty, cases) && Exhaustive(cases) && NothingHiddenInCases(ty, cases, locals)
    && locals.names !! CaseVariables(ty, cases)
  }

  ghost predicate SoundCases(location: Location, ty: SubjectType, cases: seq<Stmt>, locals: Locals) {
    forall s {:trigger AreSound(location, ty, s, locals)} :: s == cases ==> AreSound(location, ty, s, locals)
  }

  lemma SoundStep(block: seq<Stmt>, locals: Locals)
    requires Sound(block, locals) && block != []
    ensures SoundOne(block[0], locals) && (!block[0].Declare? ==> Sound(block[1..], locals))
    ensures Linked(block) && Linked(block[1..]) && Exhaustive(block)
  {
    assert IsSound(block, locals);
    assert !block[0].Declare? ==> IsSound(block[1..], locals);
  }

  lemma SoundNested(s: Stmt, locals: Locals)
    requires SoundOne(s, locals) && (s.If? || s.Elif? || s.Else? || s.While?)
    ensures Sound(s.body, locals) && BlockPlaced(s.body)
  {
    assert BlockPlaced(s.body) && Linked(s.body);
    assert IsSound(s.body, locals);
  }

  lemma SoundMatch(s: Stmt, locals: Locals)
    requires SoundOne(s, locals) && s.Match?
    ensures SoundCases(s.location, s.subjectType, s.cases, locals) && s.location !in Locations(s.cases)
    ensures locals.names !! OwnVariables(s.location, s.subjectType)
  {
    assert AreSound(s.location, s.subjectType, s.cases, locals);
  }

  lemma SoundCase(location: Location, ty: SubjectType, cases: seq<Stmt>, locals: Locals)
    requires SoundCases(location, ty, cases, locals) && cases != []
    ensures
      var c := cases[0];
      && c.Case? && Fits(ty, c.pattern) && (UsesFlag(ty) ==> PatternNamesFit(location, ty, c)) && BlockPlaced(c.body)
      && Sound(c.body, if UsesFlag(ty) then CaseLocals(ty, c.pattern, locals) else locals) && Exhaustive(c.body)
      && locals.names !! PartsVariable(ty, c)
    ensures CasesPlaced(location, ty, cases[1..]) && SoundCases(location, ty, cases[1..], locals)
  {
    var c := cases[0];
    assert AreSound(location, ty, cases, locals);
    assert BlockPlaced(c.body) && Linked(c.body);
    assert ExhaustiveInside(c) && Exhaustive(c.body);
    assert NothingHidden(c.body, if UsesFlag(ty) then CaseLocals(ty, c.pattern, locals) else locals);
    assert MatchVariables(c.body) <= CaseVariables(ty, cases);
    assert IsSound(c.body, if UsesFlag(ty) then CaseLocals(ty, c.pattern, locals) else locals);
    assert AreSound(location, ty, cases[1..], locals);
  }

  /** The same, for the shapes without a flag. */
  lemma SoundChainCase(location: Location, ty: SubjectType, cases: seq<Stmt>, locals: Locals)
    requires SoundCases(location, ty, cases, locals) && cases != [] && !UsesFlag(ty)
    ensures cases[0].Case? && Fits(ty, cases[0].pattern) && BlockPlaced(cases[0].body) && Sound(cases[0].body, locals)
    ensures SoundCases(location, ty, cases[1..], locals)
  {
    SoundCase(location, ty, cases, locals);
  }

  /** The rest of a block after its first branches is as sound, and is a block. */
  lemma {:induction false} SoundAfter(tail: seq<Stmt>, locals: Locals)
    requires Sound(tail, locals)
    ensures Sound(AfterChain(tail), locals) && BlockPlaced(AfterChain(tail))
    decreases tail
  {
    assert IsSound(tail, locals);
    if tail != [] {
      SoundStep(tail, locals);
    }
    if tail != [] && tail[0].Elif? {
      SoundAfter(tail[1..], locals);
      assert tail[BranchCount(tail)..] == tail[1..][BranchCount(tail) - 1..];
    } else if tail != [] && tail[0].Else? {
      assert tail[1..] == AfterChain(tail);
    } else {
      assert AfterChain(tail) == tail;
    }
  }

  /** Running the lowered block does what running the block does. */
  lemma {:induction false} BlockRuns(m: Meaning, block: seq<Stmt>, locals: Locals, variables: Variables, st: State,
                                     flags: Flags, fuel: nat)
    requires Typed(m) && BlockPlaced(block) && Sound(block, locals)
    ensures Exec(m, Lower(block, locals), variables, st, flags, fuel).outcome
         == ExecBlock(m, block, View(locals.names, variables), st, fuel)
    decreases fuel, block, 2
  {
    if block != [] {
      SoundStep(block, locals);
    }
    if block == [] {
    } else if block[0].If? {
      var code := Lower(block, locals);
      LoweredBranch(block, locals);
      var first := Chain(m, code, variables, st, flags, fuel);
      ChainCorrect(m, block, locals, variables, st, flags, fuel);
      ChainRestores(m, code, variables, st, flags, fuel);
      BranchesOfLowered(block[1..], locals);
      SoundAfter(block[1..], locals);
      if first.outcome.Normal? {
        BlockRuns(m, AfterChain(block[1..]), locals, variables, first.outcome.after, first.flags, fuel);
      }
    } else {
      var s, rest, next := block[0], block[1..], After(block[0], locals);
      var one := Exec(m, LowerOne(s, locals), variables, st, flags, fuel);
      StartOfLowered(rest, next);
      ExecJoined(m, LowerOne(s, locals), Lower(rest, next), variables, st, flags, fuel);
      if s.Declare? {
        DeclarationRuns(m, s, locals, variables, st, flags, fuel);
        SoundAfterDeclaration(block, locals);
      } else {
        StatementCorrect(m, s, locals, variables, st, flags, fuel);
        if one.outcome.Normal? && rest != [] {
          StatementKeepsView(m, s, rest, locals, variables, st, flags, fuel);
        }
      }
      if one.outcome.Normal? && rest != [] {
        BlockRuns(m, rest, next, one.variables, one.outcome.after, one.flags, fuel);
      }
    }
  }

  lemma SoundAfterDeclaration(block: seq<Stmt>, locals: Locals)
    requires block != [] && block[0].Declare? && Sound(block, locals)
    ensures Sound(block[1..], After(block[0], locals))
  {
    var name, next := block[0].name, After(block[0], locals);
    assert IsSound(block, locals);
    assert Placed(block[0]) && IsLocalName(name);
    if name in MatchVariables(block[1..]) {
      VariablesAreInternal(block[1..], name);
      InternalIsNotLocal(name);
    }
    assert MatchVariables(block[1..]) <= MatchVariables(block);
    forall x | x in next.names ensures x !in MatchVariables(block[1..]) {
      assert x == name || x in locals.names;
    }
    assert IsSound(block[1..], next);
  }

  lemma {:induction false} VariablesAreInternal(block: seq<Stmt>, name: string)
    requires name in MatchVariables(block)
    ensures IsInternal(name)
    decreases block, 2
  {
    if name in VariablesIn(block[0]) {
      var s := block[0];
      if s.If? || s.Elif? || s.Else? || s.While? {
        VariablesAreInternal(s.body, name);
      } else {
        MatchNamesAreInternal(s.location);
        if name in CaseVariables(s.subjectType, s.cases) {
          CaseVariablesAreInternal(s.subjectType, s.cases, name);
        }
      }
    } else {
      VariablesAreInternal(block[1..], name);
    }
  }

  lemma {:induction false} CaseVariablesAreInternal(ty: SubjectType, cases: seq<Stmt>, name: string)
    requires name in CaseVariables(ty, cases)
    ensures IsInternal(name)
    decreases cases, 1
  {
    if name in CaseVariables(ty, cases[1..]) {
      CaseVariablesAreInternal(ty, cases[1..], name);
    } else {
      MatchNamesAreInternal(cases[0].location);
      if name in MatchVariables(cases[0].body) {
        VariablesAreInternal(cases[0].body, name);
      }
    }
  }

  /** A declaration gives its value to the name it declares. */
  lemma DeclarationRuns(m: Meaning, s: Stmt, locals: Locals, variables: Variables, st: State, flags: Flags, fuel: nat)
    requires s.Declare? && (s.mentionsItself ==> s.name !in locals.names)
    ensures
      var env := View(locals.names, variables);
      var run := Exec(m, LowerOne(s, locals), variables, st, flags, fuel);
      match m.initial(s.value, InitialEnv(s, env), st)
      case InitialRaises(after) => run.outcome == Raised(after)
      case Initial(value, after) =>
        run.outcome == Normal(after) && View(After(s, locals).names, run.variables) == BindName(s.name, value, env)
  {
    var name, e := DeclaredAs(locals, s.name), Lowered(s.value, WithLocal(locals, s.name).names);
    ExecSingle(m, Variable(name, e), variables, st, flags, fuel);
    InitializerReads(s, locals, variables);
    var env := InitialEnv(s, View(locals.names, variables));
    assert View(e.names, variables - {name}) == env;
    var made := m.initial(s.value, env, st);
    assert LowerOne(s, locals) == [Variable(name, e)];
    if made.Initial? {
      if s.name == "_" {
        forall n | n in locals.names && n != "_" ensures EmittedLocalName(n) != name {
          DiscardIsUnbound(locals, n);
        }
        VariableNotRead(locals.names, variables, name, Plain(made.value));
      } else {
        VariableRead(locals.names, variables, s.name, made.value);
      }
    }
  }

  /** The initializer reads what it may depend on: the declared variable itself has no value yet. */
  lemma InitializerReads(s: Stmt, locals: Locals, variables: Variables)
    requires s.Declare?
    ensures View(WithLocal(locals, s.name).names, variables - {DeclaredAs(locals, s.name)})
         == View(locals.names, variables) - {s.name}
    ensures s.name !in locals.names ==> s.name !in View(locals.names, variables)
  {
    var name := DeclaredAs(locals, s.name);
    if s.name == "_" {
      forall n | n in locals.names && n != "_" ensures EmittedLocalName(n) != name {
        DiscardIsUnbound(locals, n);
      }
      ViewKept(locals.names, variables - {name}, variables);
    } else {
      var emit := n => EmittedLocalName(n);
      forall k ensures emit(k) == emit(s.name) ==> k == s.name {
        EmittedNames(k, s.name);
      }
      OneVariableLess(emit, locals.names, variables, s.name);
      ViewIsThrough(emit, locals.names + {s.name}, variables - {name});
      ViewIsThrough(emit, locals.names, variables);
    }
  }

  lemma OneVariableLess(emit: string -> string, names: set<string>, variables: Variables, name: string)
    requires forall k :: emit(k) == emit(name) ==> k == name
    ensures ViewThrough(emit, names + {name}, variables - {emit(name)}) == ViewThrough(emit, names, variables) - {name}
  {
  }

  /** A statement that is no declaration leaves what bound names read, as far as something follows. */
  lemma StatementKeepsView(m: Meaning, s: Stmt, rest: seq<Stmt>, locals: Locals, variables: Variables, st: State,
                           flags: Flags, fuel: nat)
    requires Typed(m) && Sound([s] + rest, locals) && rest != [] && !s.Declare?
    requires Exec(m, LowerOne(s, locals), variables, st, flags, fuel).outcome.Normal?
    requires Exec(m, LowerOne(s, locals), variables, st, flags, fuel).outcome
          == ExecStmt(m, s, View(locals.names, variables), st, fuel)
    ensures View(locals.names, Exec(m, LowerOne(s, locals), variables, st, flags, fuel).variables)
         == View(locals.names, variables)
  {
    var run := Exec(m, LowerOne(s, locals), variables, st, flags, fuel);
    var all := [s] + rest;
    assert all[0] == s && all[1..] == rest && IsSound(all, locals);
    StatementCompiles(s, locals);
    AssignedByStatement(s, locals);
    if s.Match? && MatchReturns(s.cases) {
      AcceptedMatchNeverFallsThrough(m, s, View(locals.names, variables), st, fuel);
    }
    forall n | n in locals.names && n != "_" ensures SameAt(variables, run.variables, EmittedLocalName(n)) {
      NameNotDeclared(s, rest, locals, n);
      ExecLeaves(m, LowerOne(s, locals), variables, st, flags, fuel, EmittedLocalName(n));
    }
    ViewKept(locals.names, variables, run.variables);
  }

  lemma NameNotDeclared(s: Stmt, rest: seq<Stmt>, locals: Locals, name: string)
    requires Sound([s] + rest, locals) && rest != [] && !s.Declare? && (s.Match? ==> !MatchReturns(s.cases))
    requires name in locals.names && name != "_"
    ensures EmittedLocalName(name) !in DeclaresOne(s, locals) && EmittedLocalName(name) !in VariablesIn(s)
  {
    var all, emitted := [s] + rest, EmittedLocalName(name);
    assert all[0] == s && all[1..] == rest && IsSound(all, locals);
    if emitted in VariablesIn(s) || (s.Match? && emitted in OwnVariables(s.location, s.subjectType)) {
      assert emitted in VariablesIn(s) && emitted in MatchVariables(all);
      VariablesAreInternal(all, emitted);
      EmittedInternal(name, emitted);
    }
  }

  /** What the source does with the branches left when the conditions before them failed. */
  function SourceBranches(m: Meaning, tail: seq<Stmt>, env: Env, st: State, fuel: nat): Outcome {
    if tail != [] && tail[0].Elif? then ExecChain(m, tail, env, st, fuel)
    else if tail != [] && tail[0].Else? then ExecBlock(m, tail[0].body, env, st, fuel)
    else Normal(st)
  }

  lemma ExecChainStep(m: Meaning, block: seq<Stmt>, env: Env, st: State, fuel: nat)
    requires block != [] && (block[0].If? || block[0].Elif?)
    ensures
      var tested := m.test(block[0].cond, env, st);
      ExecChain(m, block, env, st, fuel) ==
      if tested.TestRaises? then Raised(tested.after)
      else if tested.holds then ExecBlock(m, block[0].body, env, tested.after, fuel)
      else SourceBranches(m, block[1..], env, tested.after, fuel)
  {
    if |block| > 1 {
      assert block[1..][0] == block[1];
    }
  }

  lemma {:induction false} ChainCorrect(m: Meaning, block: seq<Stmt>, locals: Locals, variables: Variables, st: State,
                                        flags: Flags, fuel: nat)
    requires block != [] && block[0].If? && Typed(m) && Sound(block, locals)
    ensures Lower(block, locals) != [] && Lower(block, locals)[0].CIf?
    ensures Chain(m, Lower(block, locals), variables, st, flags, fuel).outcome
         == ExecChain(m, block, View(locals.names, variables), st, fuel)
    decreases fuel, block, 1
  {
    LoweredBranch(block, locals);
    SoundStep(block, locals);
    SoundNested(block[0], locals);
    ExecChainStep(m, block, View(locals.names, variables), st, fuel);
    var tested := m.test(block[0].cond, View(locals.names, variables), st);
    if tested.Answer? {
      if tested.holds {
        BlockRuns(m, block[0].body, locals, variables, tested.after, flags, fuel);
      } else {
        OthersCorrect(m, block[1..], locals, variables, tested.after, flags, fuel);
      }
    }
  }

  lemma {:induction false} OthersCorrect(m: Meaning, tail: seq<Stmt>, locals: Locals, variables: Variables, st: State,
                                         flags: Flags, fuel: nat)
    requires Typed(m) && Sound(tail, locals)
    ensures OtherBranches(m, Lower(tail, locals), variables, st, flags, fuel).outcome
         == SourceBranches(m, tail, View(locals.names, variables), st, fuel)
    decreases fuel, tail, 1
  {
    if tail != [] {
      SoundStep(tail, locals);
      StartOfLowered(tail, locals);
    }
    if tail != [] && IsBranch(tail[0]) {
      SoundNested(tail[0], locals);
    }
    if tail != [] && tail[0].Elif? {
      LoweredBranch(tail, locals);
      ExecChainStep(m, tail, View(locals.names, variables), st, fuel);
      var tested := m.test(tail[0].cond, View(locals.names, variables), st);
      if tested.Answer? {
        if tested.holds {
          BlockRuns(m, tail[0].body, locals, variables, tested.after, flags, fuel);
        } else {
          OthersCorrect(m, tail[1..], locals, variables, tested.after, flags, fuel);
        }
      }
    } else if tail != [] && tail[0].Else? {
      BlockRuns(m, tail[0].body, locals, variables, st, flags, fuel);
    }
  }

  lemma {:induction false} StatementCorrect(m: Meaning, s: Stmt, locals: Locals, variables: Variables, st: State,
                                            flags: Flags, fuel: nat)
    requires Typed(m) && SoundOne(s, locals) && !s.If? && !IsBranch(s) && !s.Declare?
    ensures Exec(m, LowerOne(s, locals), variables, st, flags, fuel).outcome
         == ExecStmt(m, s, View(locals.names, variables), st, fuel)
    decreases fuel, s, 1
  {
    if s.Match? {
      MatchCorrect(m, s, locals, variables, st, flags, fuel);
    } else {
      ExecSingle(m, LowerOne(s, locals)[0], variables, st, flags, fuel);
      assert LowerOne(s, locals) == [LowerOne(s, locals)[0]];
      if s.While? {
        SoundNested(s, locals);
        LoopCorrect(m, s.cond, s.body, locals, variables, st, flags, fuel);
      }
    }
  }

  lemma {:induction false} LoopCorrect(m: Meaning, cond: nat, body: seq<Stmt>, locals: Locals, variables: Variables,
                                       st: State, flags: Flags, fuel: nat)
    requires Typed(m) && BlockPlaced(body) && Sound(body, locals)
    ensures Loop(m, Holds(Lowered(cond, locals.names)), Lower(body, locals), variables, st, flags, fuel).outcome
         == ExecLoop(m, cond, body, View(locals.names, variables), st, fuel)
    decreases fuel, body, 3
  {
    if fuel != 0 {
      var tested := m.test(cond, View(locals.names, variables), st);
      if tested.Answer? && tested.holds {
        var once := Inside(m, Lower(body, locals), variables, tested.after, flags, fuel);
        BlockRuns(m, body, locals, variables, tested.after, flags, fuel);
        if once.outcome.Normal? || once.outcome.Continued? {
          LoopCorrect(m, cond, body, locals, variables, once.outcome.after, once.flags, fuel - 1);
        }
      }
    }
  }

  // The chain shape.

  lemma {:induction false} OrderedIsOneChain(location: Location, onEnum: bool, ty: SubjectType, cases: seq<Stmt>,
                                             locals: Locals)
    ensures var code := OrderedCases(location, onEnum, ty, cases, true, locals); Branches(code) == |code|
    decreases cases
  {
    if cases != [] {
      var code := OrderedCases(location, onEnum, ty, cases, true, locals);
      OrderedIsOneChain(location, onEnum, ty, cases[1..], locals);
      if cases[0].Case? && !IsCatchAll(cases[0]) {
        assert code[1..] == OrderedCases(location, onEnum, ty, cases[1..], true, locals);
      }
    }
  }

  lemma {:induction false} OtherCasesCorrect(m: Meaning, location: Location, onEnum: bool, ty: SubjectType,
                                             cases: seq<Stmt>, v: Value, locals: Locals, variables: Variables,
                                             st: State, flags: Flags, fuel: nat)
    requires Typed(m) && SoundCases(location, ty, cases, locals) && Stored(variables, SubjectName(location), v, ty)
    requires !UsesFlag(ty) && (onEnum ==> ty.EnumType?)
    ensures
      var code := OrderedCases(location, onEnum, ty, cases, true, locals);
      OtherBranches(m, code, variables, st, flags, fuel).outcome
      == ExecCases(m, cases, ty, v, View(locals.names, variables), st, fuel)
    decreases fuel, cases, 3
  {
    if cases != [] {
      var c, env := cases[0], View(locals.names, variables);
      var code := OrderedCases(location, onEnum, ty, cases, true, locals);
      SoundChainCase(location, ty, cases, locals);
      ChainsBindNothing(ty, c.pattern, v, env);
      ExecCasesStep(m, cases, ty, v, env, st, fuel);
      if IsCatchAll(c) {
        BlockRuns(m, c.body, locals, variables, st, flags, fuel);
      } else {
        assert code[1..] == OrderedCases(location, onEnum, ty, cases[1..], true, locals);
        CaseConditionCorrect(m, SubjectName(location), onEnum, ty, c.pattern, c.guard, v, locals.names, variables, st,
                             flags);
        var tested := EvalCondition(m, code[0].cond, variables, st, flags).value;
        if tested.Answer? {
          if tested.holds {
            BlockRuns(m, c.body, locals, variables, tested.after, flags, fuel);
          } else {
            OtherCasesCorrect(m, location, onEnum, ty, cases[1..], v, locals, variables, tested.after, flags, fuel);
          }
        }
      }
    }
  }

  lemma ExecChainOnly(m: Meaning, code: seq<Code>, variables: Variables, st: State, flags: Flags, fuel: nat)
    requires code != [] && code[0].CIf? && Branches(code[1..]) == |code[1..]|
    ensures Exec(m, code, variables, st, flags, fuel) == Chain(m, code, variables, st, flags, fuel)
  {
    assert AfterBranches(code[1..]) == [];
    ChainRestores(m, code, variables, st, flags, fuel);
  }

  /** The else-if chain runs what the match runs. */
  lemma {:induction false} OrderedCorrect(m: Meaning, location: Location, onEnum: bool, ty: SubjectType,
                                          cases: seq<Stmt>, v: Value, locals: Locals, variables: Variables, st: State,
                                          flags: Flags, fuel: nat)
    requires Typed(m) && SoundCases(location, ty, cases, locals) && Stored(variables, SubjectName(location), v, ty)
    requires !UsesFlag(ty) && (onEnum ==> ty.EnumType?)
    ensures Exec(m, OrderedCases(location, onEnum, ty, cases, false, locals), variables, st, flags, fuel).outcome
         == ExecCases(m, cases, ty, v, View(locals.names, variables), st, fuel)
    decreases fuel, cases, 3
  {
    if cases != [] {
      var c, env := cases[0], View(locals.names, variables);
      var code := OrderedCases(location, onEnum, ty, cases, false, locals);
      SoundChainCase(location, ty, cases, locals);
      ChainsBindNothing(ty, c.pattern, v, env);
      ExecCasesStep(m, cases, ty, v, env, st, fuel);
      if IsCatchAll(c) {
        BlockRuns(m, c.body, locals, variables, st, flags, fuel);
      } else {
        assert code[1..] == OrderedCases(location, onEnum, ty, cases[1..], true, locals);
        OrderedIsOneChain(location, onEnum, ty, cases[1..], locals);
        ExecChainOnly(m, code, variables, st, flags, fuel);
        CaseConditionCorrect(m, SubjectName(location), onEnum, ty, c.pattern, c.guard, v, locals.names, variables, st,
                             flags);
        var tested := EvalCondition(m, code[0].cond, variables, st, flags).value;
        if tested.Answer? {
          if tested.holds {
            BlockRuns(m, c.body, locals, variables, tested.after, flags, fuel);
          } else {
            OtherCasesCorrect(m, location, onEnum, ty, cases[1..], v, locals, variables, tested.after, flags, fuel);
          }
        }
      }
    }
  }

  // The shape of separate ifs.

  /** Where a match that counts on returning falls through in the source, its code is stuck. */
  function Trapped(o: Outcome): Outcome {
    if o.Normal? then Stuck else o
  }

  lemma {:induction false} StartOfReturning(location: Location, ty: SubjectType, cases: seq<Stmt>, locals: Locals)
    requires CasesPlaced(location, ty, cases)
    ensures !StartsWithElse(ReturningCases(location, ty, cases, locals))
  {
    if cases != [] {
      StartOfLowered(cases[0].body, locals);
    }
  }

  /** The separate ifs run what the match runs, as no taken body falls through to the next one. */
  lemma {:induction false} ReturningCorrect(m: Meaning, location: Location, ty: SubjectType, cases: seq<Stmt>, v: Value,
                                            locals: Locals, variables: Variables, st: State, flags: Flags, fuel: nat)
    requires Typed(m) && SoundCases(location, ty, cases, locals) && Stored(variables, SubjectName(location), v, ty)
    requires !UsesFlag(ty) && CasesReturn(cases)
    ensures Exec(m, ReturningCases(location, ty, cases, locals), variables, st, flags, fuel).outcome
         == Trapped(ExecCases(m, cases, ty, v, View(locals.names, variables), st, fuel))
    decreases fuel, cases, 3
  {
    if cases == [] {
      ExecSingle(m, Unreachable, variables, st, flags, fuel);
    } else {
      var c, env := cases[0], View(locals.names, variables);
      SoundCase(location, ty, cases, locals);
      ChainsBindNothing(ty, c.pattern, v, env);
      ExecCasesStep(m, cases, ty, v, env, st, fuel);
      if IsCatchAll(c) {
        AcceptedBlockNeverFallsThrough(m, c.body, env, st, fuel);
        BlockRuns(m, c.body, locals, variables, st, flags, fuel);
      } else {
        var cond := CaseCondition(SubjectName(location), false, ty, c.pattern, c.guard, locals.names);
        var rest := ReturningCases(location, ty, cases[1..], locals);
        StartOfReturning(location, ty, cases[1..], locals);
        CaseConditionCorrect(m, SubjectName(location), false, ty, c.pattern, c.guard, v, locals.names, variables, st,
                             flags);
        ExecIf(m, cond, Lower(c.body, locals), rest, variables, st, flags, fuel);
        var tested := EvalCondition(m, cond, variables, st, flags).value;
        if tested.Answer? {
          if tested.holds {
            AcceptedBlockNeverFallsThrough(m, c.body, env, tested.after, fuel);
            BlockRuns(m, c.body, locals, variables, tested.after, flags, fuel);
          } else {
            ReturningCorrect(m, location, ty, cases[1..], v, locals, variables, tested.after, flags, fuel);
          }
        }
      }
    }
  }

  // The flag shape.

  predicate IsSet(variables: Variables, flags: Flags, flag: string) {
    flag in variables && variables[flag].Flag? && flag in flags && flags[flag]
  }

  /** Once the flag is set no later case runs. */
  lemma {:induction false} FlagSetSkips(m: Meaning, location: Location, ty: SubjectType, cases: seq<Stmt>,
                                        locals: Locals, variables: Variables, st: State, flags: Flags, fuel: nat)
    requires IsSet(variables, flags, FlagName(location))
    ensures Exec(m, FlagCases(location, ty, cases, locals), variables, st, flags, fuel)
         == Run(Normal(st), variables, flags)
    decreases cases
  {
    if cases != [] {
      var rest := FlagCases(location, ty, cases[1..], locals);
      FlagSetSkips(m, location, ty, cases[1..], locals, variables, st, flags, fuel);
      if cases[0].Case? {
        StartOfFlagCases(location, ty, cases[1..], locals);
        SkippedCase(m, FlagName(location), FlagCase(location, ty, cases[0], locals), rest, variables, st, flags, fuel);
      }
    }
  }

  lemma SkippedCase(m: Meaning, flag: string, c: Code, rest: seq<Code>, variables: Variables, st: State, flags: Flags,
                    fuel: nat)
    requires IsSet(variables, flags, flag)
    requires c.CIf? && c.cond.And? && c.cond.left == FlagClear(flag) && !StartsWithElse(rest)
    ensures Exec(m, [c] + rest, variables, st, flags, fuel) == Exec(m, rest, variables, st, flags, fuel)
  {
    assert EvalCondition(m, FlagClear(flag), variables, st, flags) == Some(Answer(false, st));
    ExecIf(m, c.cond, c.body, rest, variables, st, flags, fuel);
  }

  /** What a case of the flag shape does with its guard and its body; a guarded body is a block of its
      own. */
  lemma FlagBodyRuns(m: Meaning, flag: string, guard: Option<nat>, body: seq<Code>, names: set<string>,
                     variables: Variables, st: State, flags: Flags, fuel: nat)
    requires flag in variables && variables[flag].Flag?
    ensures
      var raised := flags[flag := true];
      var tested := if guard == None then Answer(true, st) else m.test(guard.value, View(names, variables), st);
      var run := Exec(m, FlagBody(flag, guard, body, names), variables, st, flags, fuel);
      if tested.TestRaises? then run == Run(Raised(tested.after), variables, flags)
      else if !tested.holds then run == Run(Normal(tested.after), variables, flags)
      else
        var inner := Exec(m, body, variables, tested.after, raised, fuel);
        run.outcome == inner.outcome && run.flags == inner.flags
  {
    var inside := [SetFlag(flag)] + body;
    var tested := if guard == None then Answer(true, st) else m.test(guard.value, View(names, variables), st);
    ExecFirst(m, SetFlag(flag), body, variables, tested.after, flags, fuel);
    if guard.Some? {
      var cond := Holds(Lowered(guard.value, names));
      ExecIf(m, cond, inside, [], variables, st, flags, fuel);
      assert [CIf(cond, inside)] + [] == [CIf(cond, inside)];
    }
  }

  /** The start of a case that matches: what follows it sees what the pattern binds. */
  lemma CaseEntered(m: Meaning, location: Location, ty: SubjectType, c: Stmt, v: Value, rest: seq<Code>, locals: Locals,
                    variables: Variables, st: State, flags: Flags, fuel: nat) returns (inner: Variables)
    requires Stored(variables, SubjectName(location), v, ty) && UsesFlag(ty) && c.Case? && Fits(ty, c.pattern)
    requires PatternNamesFit(location, ty, c) && locals.names !! PartsVariable(ty, c)
    requires Matches(m, c.pattern, ty, v, View(locals.names, variables), st)
    ensures Exec(m, CaseStart(location, c.location, ty, c.pattern) + rest, variables, st, flags, fuel)
         == Exec(m, rest, inner, st, flags, fuel)
    ensures View(CaseLocals(ty, c.pattern, locals).names, inner)
         == Bound(c.pattern, ty, v, View(locals.names, variables))
    ensures SameAt(variables, inner, FlagName(location))
  {
    if c.pattern.Constructor? {
      inner := ConstructorEntered(m, location, ty, c, v, rest, locals, variables, st, flags, fuel);
    } else {
      inner := variables;
      NothingStarts(location, c.location, ty, c.pattern, rest, locals);
    }
  }

  lemma NothingStarts(location: Location, at: Location, ty: SubjectType, pattern: Pattern, rest: seq<Code>,
                      locals: Locals)
    requires !pattern.Constructor?
    ensures CaseStart(location, at, ty, pattern) + rest == rest && CaseLocals(ty, pattern, locals) == locals
  {
    assert NamesOf(PatternBindings(ty, pattern)) == {};
    assert CaseStart(location, at, ty, pattern) == [];
  }

  lemma Regrouped(a: seq<Code>, b: seq<Code>, c: seq<Code>)
    ensures a + b + c == a + (b + c)
  {
  }

  lemma ConstructorEntered(m: Meaning, location: Location, ty: SubjectType, c: Stmt, v: Value, rest: seq<Code>,
                           locals: Locals, variables: Variables, st: State, flags: Flags, fuel: nat)
    returns (inner: Variables)
    requires Stored(variables, SubjectName(location), v, ty) && UsesFlag(ty) && c.Case? && Fits(ty, c.pattern)
    requires PatternNamesFit(location, ty, c) && locals.names !! PartsVariable(ty, c)
    requires c.pattern.Constructor? && v.Tagged? && v.tag == c.pattern.tag
    ensures Exec(m, CaseStart(location, c.location, ty, c.pattern) + rest, variables, st, flags, fuel)
         == Exec(m, rest, inner, st, flags, fuel)
    ensures View(CaseLocals(ty, c.pattern, locals).names, inner)
         == Bound(c.pattern, ty, v, View(locals.names, variables))
    ensures SameAt(variables, inner, FlagName(location))
  {
    var bindings, from := PatternBindings(ty, c.pattern), SourceName(location, c.location, ty);
    var start, after := PartsStart(location, c.location, ty, c.pattern), Declarations(from, bindings) + rest;
    Regrouped(start, Declarations(from, bindings), rest);
    var ready := PartsDeclared(m, location, ty, c, v, after, locals, variables, st, flags, fuel);
    PatternBindingsCorrect(ty, c.pattern, v, View(locals.names, variables));
    inner := PatternDeclared(m, from, FlagName(location), bindings, v.payload, rest, locals.names, ready, st, flags,
                             fuel);
  }

  lemma PatternDeclared(m: Meaning, from: string, flag: string, bindings: seq<Binding>, payload: map<string, int>,
                        rest: seq<Code>, names: set<string>, ready: Variables, st: State, flags: Flags, fuel: nat)
    returns (inner: Variables)
    requires NamesFit(bindings, from, flag) && HasFields(bindings, payload)
    requires from in ready && FieldsIn(ready[from]) == payload
    ensures Exec(m, Declarations(from, bindings) + rest, ready, st, flags, fuel)
         == Exec(m, rest, inner, st, flags, fuel)
    ensures View(names + NamesOf(bindings), inner) == BoundBy(bindings, payload, View(names, ready))
    ensures SameAt(ready, inner, flag)
  {
    inner := Declared(bindings, payload, ready);
    FlagIsNoName(bindings, from, flag);
    DeclarationsRun(m, from, bindings, payload, rest, ready, st, flags, fuel);
    FittingNamesBind(bindings, payload, names, ready);
    OthersKept(bindings, payload, ready, flag);
  }

  lemma FlagIsNoName(bindings: seq<Binding>, from: string, flag: string)
    requires NamesFit(bindings, from, flag)
    ensures flag !in NamesOf(bindings) && Apart(bindings, from)
  {
  }

  lemma PartsDeclared(m: Meaning, location: Location, ty: SubjectType, c: Stmt, v: Value, rest: seq<Code>,
                      locals: Locals, variables: Variables, st: State, flags: Flags, fuel: nat)
    returns (ready: Variables)
    requires Stored(variables, SubjectName(location), v, ty) && UsesFlag(ty) && c.Case? && Fits(ty, c.pattern)
    requires c.pattern.Constructor? && v.Tagged? && v.tag == c.pattern.tag && locals.names !! PartsVariable(ty, c)
    ensures Exec(m, PartsStart(location, c.location, ty, c.pattern) + rest, variables, st, flags, fuel)
         == Exec(m, rest, ready, st, flags, fuel)
    ensures View(locals.names, ready) == View(locals.names, variables) && SameAt(variables, ready, FlagName(location))
    ensures var from := SourceName(location, c.location, ty); from in ready && FieldsIn(ready[from]) == v.payload
    ensures ready.Keys <= variables.Keys + {CaseName(c.location)}
  {
    if DeclaresParts(ty, c.pattern) {
      var name, subject := CaseName(c.location), SubjectName(location);
      MatchNamesDiffer(c.location, location);
      MatchNamesAreInternal(c.location);
      ready := variables[name := Parts(v.payload)];
      ExecFirst(m, DeclareParts(name, subject, c.pattern.tag), rest, variables, st, flags, fuel);
      InternalNotRead(locals.names, variables, name, Parts(v.payload));
    } else {
      ready := variables;
      assert PartsStart(location, c.location, ty, c.pattern) + rest == rest;
    }
  }

  /** What a case that matches does, and the variables its guard sees. */
  lemma FlagCaseRuns(m: Meaning, location: Location, ty: SubjectType, c: Stmt, v: Value, rest: seq<Code>,
                     locals: Locals, variables: Variables, st: State, flags: Flags, fuel: nat)
    returns (inner: Variables)
    requires c.Case? && Stored(variables, SubjectName(location), v, ty) && UsesFlag(ty) && Fits(ty, c.pattern)
    requires PatternNamesFit(location, ty, c) && locals.names !! PartsVariable(ty, c)
    requires Matches(m, c.pattern, ty, v, View(locals.names, variables), st)
    requires IsClear(variables, flags, FlagName(location)) && !StartsWithElse(rest)
    ensures
      var nested := CaseLocals(ty, c.pattern, locals);
      var env := View(nested.names, inner);
      var tested := if c.guard == None then Answer(true, st) else m.test(c.guard.value, env, st);
      var run := Exec(m, [FlagCase(location, ty, c, locals)] + rest, variables, st, flags, fuel);
      && env == Bound(c.pattern, ty, v, View(locals.names, variables))
      && if tested.TestRaises? then run == Run(Raised(tested.after), variables, flags)
         else if !tested.holds then run == Exec(m, rest, variables, tested.after, flags, fuel)
         else
           var body := Exec(m, Lower(c.body, nested), inner, tested.after, flags[FlagName(location) := true], fuel);
           run == Then(m, body.(variables := variables), rest, fuel)
  {
    var flag, nested := FlagName(location), CaseLocals(ty, c.pattern, locals);
    var cond := And(FlagClear(flag), FlagCondition(SubjectName(location), ty, c.pattern));
    var start, body := CaseStart(location, c.location, ty, c.pattern), Lower(c.body, nested);
    var inside := FlagBody(flag, c.guard, body, nested.names);
    FlagConditionCorrect(m, SubjectName(location), flag, ty, c.pattern, v, View(locals.names, variables), variables, st,
                         flags);
    inner := CaseEntered(m, location, ty, c, v, inside, locals, variables, st, flags, fuel);
    ExecIf(m, cond, start + inside, rest, variables, st, flags, fuel);
    FlagBodyRuns(m, flag, c.guard, body, nested.names, inner, st, flags, fuel);
  }

  lemma FlagCaseSkipped(m: Meaning, location: Location, ty: SubjectType, c: Stmt, v: Value, rest: seq<Code>,
                        locals: Locals, variables: Variables, st: State, flags: Flags, fuel: nat)
    requires c.Case? && Stored(variables, SubjectName(location), v, ty) && UsesFlag(ty) && Fits(ty, c.pattern)
    requires !Matches(m, c.pattern, ty, v, View(locals.names, variables), st)
    requires IsClear(variables, flags, FlagName(location)) && !StartsWithElse(rest)
    ensures Exec(m, [FlagCase(location, ty, c, locals)] + rest, variables, st, flags, fuel)
         == Exec(m, rest, variables, st, flags, fuel)
  {
    var code := FlagCase(location, ty, c, locals);
    FlagConditionCorrect(m, SubjectName(location), FlagName(location), ty, c.pattern, v, View(locals.names, variables),
                         variables, st, flags);
    ExecIf(m, code.cond, code.body, rest, variables, st, flags, fuel);
  }

  lemma ExecCasesStep(m: Meaning, cases: seq<Stmt>, ty: SubjectType, v: Value, env: Env, st: State, fuel: nat)
    requires cases != [] && cases[0].Case?
    ensures
      var c, inner := cases[0], Bound(cases[0].pattern, ty, v, env);
      var tested := if c.guard == None then Answer(true, st) else m.test(c.guard.value, inner, st);
      ExecCases(m, cases, ty, v, env, st, fuel) ==
      if !Matches(m, c.pattern, ty, v, env, st) then ExecCases(m, cases[1..], ty, v, env, st, fuel)
      else if tested.TestRaises? then Raised(tested.after)
      else if tested.holds then ExecBlock(m, c.body, inner, tested.after, fuel)
      else ExecCases(m, cases[1..], ty, v, env, tested.after, fuel)
  {
  }

  /** The flag shape runs what the match runs. */
  lemma {:induction false} FlagCorrect(m: Meaning, location: Location, ty: SubjectType, cases: seq<Stmt>, v: Value,
                                       locals: Locals, variables: Variables, st: State, flags: Flags, fuel: nat)
    requires Typed(m) && SoundCases(location, ty, cases, locals) && Stored(variables, SubjectName(location), v, ty)
    requires UsesFlag(ty) && location !in Locations(cases) && IsClear(variables, flags, FlagName(location))
    ensures Exec(m, FlagCases(location, ty, cases, locals), variables, st, flags, fuel).outcome
         == ExecCases(m, cases, ty, v, View(locals.names, variables), st, fuel)
    decreases fuel, cases, 3
  {
    if cases != [] {
      var c, rest := cases[0], FlagCases(location, ty, cases[1..], locals);
      SoundCase(location, ty, cases, locals);
      StartOfFlagCases(location, ty, cases[1..], locals);
      ExecCasesStep(m, cases, ty, v, View(locals.names, variables), st, fuel);
      if !Matches(m, c.pattern, ty, v, View(locals.names, variables), st) {
        FlagCaseSkipped(m, location, ty, c, v, rest, locals, variables, st, flags, fuel);
        FlagCorrect(m, location, ty, cases[1..], v, locals, variables, st, flags, fuel);
      } else {
        var inner := FlagCaseRuns(m, location, ty, c, v, rest, locals, variables, st, flags, fuel);
        var nested := CaseLocals(ty, c.pattern, locals);
        var env := View(nested.names, inner);
        var tested := if c.guard == None then Answer(true, st) else m.test(c.guard.value, env, st);
        if tested.Answer? && tested.holds {
          FlagTaken(m, location, ty, c.body, cases[1..], nested, inner, locals, variables, tested.after, flags, fuel);
          BlockRuns(m, c.body, nested, inner, tested.after, flags[FlagName(location) := true], fuel);
        } else if tested.Answer? {
          FlagCorrect(m, location, ty, cases[1..], v, locals, variables, tested.after, flags, fuel);
        }
      }
    }
  }

  /** After a taken case, nothing else of the match runs. */
  lemma FlagTaken(m: Meaning, location: Location, ty: SubjectType, body: seq<Stmt>, later: seq<Stmt>, nested: Locals,
                  inner: Variables, locals: Locals, variables: Variables, st: State, flags: Flags, fuel: nat)
    requires location !in Locations(body) && FlagName(location) in variables && variables[FlagName(location)].Flag?
    ensures
      var run := Exec(m, Lower(body, nested), inner, st, flags[FlagName(location) := true], fuel);
      Then(m, run.(variables := variables), FlagCases(location, ty, later, locals), fuel).outcome == run.outcome
  {
    var flag := FlagName(location);
    var raised := flags[flag := true];
    var run := Exec(m, Lower(body, nested), inner, st, raised, fuel);
    AssignedByLowered(body, nested);
    VariablesOfMatches(body, location);
    ExecKeeps(m, Lower(body, nested), inner, st, raised, fuel, flag);
    if run.outcome.Normal? {
      FlagSetSkips(m, location, ty, later, locals, variables, run.outcome.after, run.flags, fuel);
    }
  }

  // Whole matches.

  lemma EndingCorrect(m: Meaning, code: seq<Code>, cases: seq<Stmt>, variables: Variables, st: State, flags: Flags,
                      fuel: nat)
    ensures
      var run := Exec(m, code, variables, st, flags, fuel);
      Exec(m, code + Ending(cases), variables, st, flags, fuel).outcome
      == if MatchReturns(cases) then Trapped(run.outcome) else run.outcome
  {
    var run := Exec(m, code, variables, st, flags, fuel);
    ExecJoined(m, code, Ending(cases), variables, st, flags, fuel);
    if run.outcome.Normal? && MatchReturns(cases) {
      ExecSingle(m, Unreachable, run.variables, run.outcome.after, run.flags, fuel);
    }
  }

  /** The code of the flag shape around its cases. */
  lemma FlagMatchRuns(m: Meaning, location: Location, ty: SubjectType, cases: seq<Stmt>, locals: Locals,
                      variables: Variables, st: State, flags: Flags, fuel: nat)
    requires UsesFlag(ty)
    ensures
      var flag := FlagName(location);
      var run := Exec(m, FlagCases(location, ty, cases, locals), variables[flag := Flag], st, flags[flag := false],
                      fuel);
      Exec(m, MatchBody(location, ty, cases, locals), variables, st, flags, fuel).outcome
      == if MatchReturns(cases) then Trapped(run.outcome) else run.outcome
  {
    var flag, code := FlagName(location), FlagCases(location, ty, cases, locals);
    EndingCorrect(m, code, cases, variables[flag := Flag], st, flags[flag := false], fuel);
    ExecFirst(m, DeclareFlag(flag), code + Ending(cases), variables, st, flags, fuel);
    assert MatchBody(location, ty, cases, locals) == [DeclareFlag(flag)] + (code + Ending(cases));
  }

  /** What the code of a match does: what the match does, except that it is stuck where a match whose
      cases all return falls through. */
  lemma {:induction false} MatchBodyCorrect(m: Meaning, location: Location, ty: SubjectType, cases: seq<Stmt>, v: Value,
                                            locals: Locals, variables: Variables, st: State, flags: Flags, fuel: nat)
    requires Typed(m) && SoundCases(location, ty, cases, locals) && Stored(variables, SubjectName(location), v, ty)
    requires location !in Locations(cases) && locals.names !! OwnVariables(location, ty)
    ensures
      var source := ExecCases(m, cases, ty, v, View(locals.names, variables), st, fuel);
      Exec(m, MatchBody(location, ty, cases, locals), variables, st, flags, fuel).outcome
      == if MatchReturns(cases) then Trapped(source) else source
    decreases fuel, cases, 5
  {
    if UsesFlag(ty) {
      var flag := FlagName(location);
      FlagMatchRuns(m, location, ty, cases, locals, variables, st, flags, fuel);
      MatchNamesDiffer(location, location);
      OwnNotRead(location, ty, flag, Flag, locals.names, variables);
      FlagCorrect(m, location, ty, cases, v, locals, variables[flag := Flag], st, flags[flag := false], fuel);
    } else if ty.EnumType? && HasGuards(cases) {
      OrderedCorrect(m, location, true, ty, cases, v, locals, variables, st, flags, fuel);
      EndingCorrect(m, OrderedCases(location, true, ty, cases, false, locals), cases, variables, st, flags, fuel);
    } else if MatchReturns(cases) {
      ReturningCorrect(m, location, ty, cases, v, locals, variables, st, flags, fuel);
    } else {
      OrderedCorrect(m, location, false, ty, cases, v, locals, variables, st, flags, fuel);
    }
  }

  lemma InternalNotRead(names: set<string>, variables: Variables, name: string, e: Entity)
    requires IsInternal(name) && name !in names
    ensures View(names, variables[name := e]) == View(names, variables)
    ensures View(names, variables - {name}) == View(names, variables)
  {
    forall n | n in names && n != "_" ensures EmittedLocalName(n) != name {
      if EmittedLocalName(n) == name {
        EmittedInternal(n, name);
      }
    }
    VariableNotRead(names, variables, name, e);
    ViewKept(names, variables - {name}, variables);
  }

  /** Declaring a variable of a match does not change what bound names read. */
  lemma OwnNotRead(location: Location, ty: SubjectType, name: string, e: Entity, names: set<string>,
                   variables: Variables)
    requires name in OwnVariables(location, ty) && names !! OwnVariables(location, ty)
    ensures View(names, variables[name := e]) == View(names, variables)
    ensures View(names, variables - {name}) == View(names, variables)
  {
    MatchNamesAreInternal(location);
    InternalNotRead(names, variables, name, e);
  }

  lemma MatchStart(m: Meaning, s: Stmt, locals: Locals, variables: Variables, st: State, flags: Flags, fuel: nat)
    requires s.Match? && locals.names !! OwnVariables(s.location, s.subjectType)
    ensures
      var subject := m.subject(s.subject, s.subjectType, View(locals.names, variables), st);
      var run := Exec(m, LowerOne(s, locals), variables, st, flags, fuel);
      if subject.SubjectRaises? then run == Run(Raised(subject.after), variables, flags)
      else
        var more := variables[SubjectName(s.location) := Held(subject.value)];
        && View(locals.names, more) == View(locals.names, variables)
        && run == Exec(m, MatchBody(s.location, s.subjectType, s.cases, locals), more, subject.after, flags, fuel)
  {
    var name, ty := SubjectName(s.location), s.subjectType;
    var subject := m.subject(s.subject, ty, View(locals.names, variables), st);
    ExecFirst(m, DeclareSubject(name, Lowered(s.subject, locals.names), ty), MatchBody(s.location, ty, s.cases, locals),
              variables, st, flags, fuel);
    OwnNotRead(s.location, ty, name, if subject.Got? then Held(subject.value) else Flag, locals.names, variables);
  }

  lemma {:induction false} MatchCorrect(m: Meaning, s: Stmt, locals: Locals, variables: Variables, st: State,
                                        flags: Flags, fuel: nat)
    requires s.Match? && Typed(m) && SoundOne(s, locals)
    ensures Exec(m, LowerOne(s, locals), variables, st, flags, fuel).outcome
         == ExecStmt(m, s, View(locals.names, variables), st, fuel)
    decreases fuel, s, 0
  {
    var env := View(locals.names, variables);
    var subject := m.subject(s.subject, s.subjectType, env, st);
    SoundMatch(s, locals);
    MatchStart(m, s, locals, variables, st, flags, fuel);
    if subject.Got? {
      var more := variables[SubjectName(s.location) := Held(subject.value)];
      MatchBodyCorrect(m, s.location, s.subjectType, s.cases, subject.value, locals, more, subject.after, flags, fuel);
      if MatchReturns(s.cases) {
        AcceptedMatchNeverFallsThrough(m, s, env, st, fuel);
      }
    }
  }

  /** A block whose emitted code declares no name twice is compiled to code that is well-formed and runs
      as the block does. `declared` are the names that the C++ block around it declared before. */
  lemma BlockCorrect(block: seq<Stmt>, locals: Locals, declared: set<string>)
    requires BlockPlaced(block) && IsSound(block, locals)
    requires DeclaresOnce(block, locals) && Declares(block, locals) !! declared
    ensures WellFormed(Lower(block, locals), declared)
    ensures forall m: Meaning, variables, st, flags, fuel :: Typed(m) ==>
      Exec(m, Lower(block, locals), variables, st, flags, fuel).outcome
      == ExecBlock(m, block, View(locals.names, variables), st, fuel)
  {
    BlockCompiles(block, locals);
    WellFormedApart(Lower(block, locals), {}, declared);
    assert {} + declared == declared;
    forall m: Meaning, variables, st, flags, fuel | Typed(m)
      ensures Exec(m, Lower(block, locals), variables, st, flags, fuel).outcome
           == ExecBlock(m, block, View(locals.names, variables), st, fuel)
    {
      BlockRuns(m, block, locals, variables, st, flags, fuel);
    }
  }

  // Nothing emitted is ever stuck.

  ghost predicate SimpleNeverStuck(m: Meaning) {
    forall id, env, st :: m.simple(id, env, st) != Stuck
  }

  lemma {:induction false} SourceNeverStuck(m: Meaning, block: seq<Stmt>, env: Env, st: State, fuel: nat)
    requires SimpleNeverStuck(m)
    ensures ExecBlock(m, block, env, st, fuel) != Stuck
    decreases fuel, block, 2
  {
    if block != [] && block[0].Declare? {
      var made := m.initial(block[0].value, InitialEnv(block[0], env), st);
      if made.Initial? {
        SourceNeverStuck(m, block[1..], BindName(block[0].name, made.value, env), made.after, fuel);
      }
    } else if block != [] {
      var first := if block[0].If? then ExecChain(m, block, env, st, fuel) else ExecStmt(m, block[0], env, st, fuel);
      if block[0].If? {
        ChainNeverStuck(m, block, env, st, fuel);
      } else {
        StatementNeverStuck(m, block[0], env, st, fuel);
      }
      if first.Normal? {
        SourceNeverStuck(m, if block[0].If? then AfterChain(block[1..]) else block[1..], env, first.after, fuel);
      }
    }
  }

  lemma {:induction false} ChainNeverStuck(m: Meaning, block: seq<Stmt>, env: Env, st: State, fuel: nat)
    requires SimpleNeverStuck(m) && block != [] && (block[0].If? || block[0].Elif?)
    ensures ExecChain(m, block, env, st, fuel) != Stuck
    decreases fuel, block, 1
  {
    var tested := m.test(block[0].cond, env, st);
    if tested.Answer? {
      if tested.holds {
        SourceNeverStuck(m, block[0].body, env, tested.after, fuel);
      } else if |block| > 1 && block[1].Elif? {
        ChainNeverStuck(m, block[1..], env, tested.after, fuel);
      } else if |block| > 1 && block[1].Else? {
        SourceNeverStuck(m, block[1].body, env, tested.after, fuel);
      }
    }
  }

  lemma {:induction false} StatementNeverStuck(m: Meaning, s: Stmt, env: Env, st: State, fuel: nat)
    requires SimpleNeverStuck(m)
    ensures ExecStmt(m, s, env, st, fuel) != Stuck
    decreases fuel, s, 0
  {
    if s.While? {
      LoopNeverStuck(m, s.cond, s.body, env, st, fuel);
    } else if s.Match? {
      var subject := m.subject(s.subject, s.subjectType, env, st);
      if subject.Got? {
        CasesNeverStuck(m, s.cases, s.subjectType, subject.value, env, subject.after, fuel);
      }
    }
  }

  lemma {:induction false} LoopNeverStuck(m: Meaning, cond: nat, body: seq<Stmt>, env: Env, st: State, fuel: nat)
    requires SimpleNeverStuck(m)
    ensures ExecLoop(m, cond, body, env, st, fuel) != Stuck
    decreases fuel, body, 3
  {
    if fuel != 0 {
      var tested := m.test(cond, env, st);
      if tested.Answer? && tested.holds {
        var once := ExecBlock(m, body, env, tested.after, fuel);
        SourceNeverStuck(m, body, env, tested.after, fuel);
        if once.Normal? || once.Continued? {
          LoopNeverStuck(m, cond, body, env, once.after, fuel - 1);
        }
      }
    }
  }

  lemma {:induction false} CasesNeverStuck(m: Meaning, cases: seq<Stmt>, ty: SubjectType, v: Value, env: Env,
                                           st: State, fuel: nat)
    requires SimpleNeverStuck(m)
    ensures ExecCases(m, cases, ty, v, env, st, fuel) != Stuck
    decreases fuel, cases, 3
  {
    if cases != [] {
      var c := cases[0];
      if !c.Case? || !Matches(m, c.pattern, ty, v, env, st) {
        CasesNeverStuck(m, cases[1..], ty, v, env, st, fuel);
      } else {
        var inner := Bound(c.pattern, ty, v, env);
        var tested := if c.guard == None then Answer(true, st) else m.test(c.guard.value, inner, st);
        if tested.Answer? && tested.holds {
          SourceNeverStuck(m, c.body, inner, tested.after, fuel);
        } else if tested.Answer? {
          CasesNeverStuck(m, cases[1..], ty, v, env, tested.after, fuel);
        }
      }
    }
  }

  /** No run of lowered code reaches an `Unreachable`, reads a variable of a match that is not there, or
      takes a payload the subject does not hold. */
  lemma LoweredNeverStuck(m: Meaning, block: seq<Stmt>, locals: Locals, variables: Variables, st: State, flags: Flags,
                          fuel: nat)
    requires Typed(m) && SimpleNeverStuck(m) && BlockPlaced(block) && IsSound(block, locals)
    ensures Exec(m, Lower(block, locals), variables, st, flags, fuel).outcome != Stuck
  {
    BlockRuns(m, block, locals, variables, st, flags, fuel);
    SourceNeverStuck(m, block, View(locals.names, variables), st, fuel);
  }
}
