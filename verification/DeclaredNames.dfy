/** Which names the blocks of emitted code declare, where the body of a catch-all may stand in the block
    around its match, and when emitted code is well-formed. */
module DeclaredNames {
  import opened Wrappers
  import opened Statements
  import opened ReturnAnalysis
  import opened LocalNames
  import opened MatchNames
  import opened CppTarget
  import opened MatchLowering
  import opened LoweringShape

  /** The C++ names that a block declares in the C++ block it is emitted to. */
  function Declares(block: seq<Stmt>, locals: Locals): set<string>
    decreases block, 2
  {
    if block == [] then {} else DeclaresOne(block[0], locals) + Declares(block[1..], After(block[0], locals))
  }

  function DeclaresOne(s: Stmt, locals: Locals): set<string>
    decreases s, 1
  {
    match s
    case Declare(name, _, _) => {DeclaredAs(locals, name)}
    case Match(location, _, ty, cases) => OwnVariables(location, ty) + Inlined(ty, cases, locals)
    case _ => {}
  }

  /** The shape of separate ifs, where a catch-all after other cases has no block of its own either. */
  predicate AreSeparate(ty: SubjectType, cases: seq<Stmt>) {
    !(ty.EnumType? && HasGuards(cases)) && MatchReturns(cases)
  }

  /** What the body of a catch-all declares next to its match. */
  function Inlined(ty: SubjectType, cases: seq<Stmt>, locals: Locals): set<string>
    decreases cases, 1
  {
    if UsesFlag(ty) then {} else InlinedFrom(cases, AreSeparate(ty, cases), locals)
  }

  function InlinedFrom(cases: seq<Stmt>, separate: bool, locals: Locals): set<string>
    decreases cases, 0
  {
    if cases == [] then {}
    else if !cases[0].Case? then InlinedFrom(cases[1..], separate, locals)
    else if IsCatchAll(cases[0]) then Declares(cases[0].body, locals)
    else if separate then InlinedFrom(cases[1..], separate, locals)
    else {}
  }

  /** No block of the emitted code declares a name twice. */
  predicate DeclaresOnce(block: seq<Stmt>, locals: Locals)
    decreases block, 2
  {
    block == [] ||
    (&& OnceInside(block[0], locals)
     && DeclaresOne(block[0], locals) !! Declares(block[1..], After(block[0], locals))
     && DeclaresOnce(block[1..], After(block[0], locals)))
  }

  predicate OnceInside(s: Stmt, locals: Locals)
    decreases s, 1
  {
    match s
    case If(_, body) => DeclaresOnce(body, locals)
    case Elif(_, body) => DeclaresOnce(body, locals)
    case Else(body) => DeclaresOnce(body, locals)
    case While(_, body) => DeclaresOnce(body, locals)
    case Match(_, _, ty, cases) =>
      if UsesFlag(ty) then FlagBodiesOnce(ty, cases, locals) else BodiesOnce(cases, locals)
    case _ => true
  }

  /** Without a guard, the body of a case is in the block that declares the names of the pattern. */
  predicate FlagBodiesOnce(ty: SubjectType, cases: seq<Stmt>, locals: Locals)
    decreases cases, 1
  {
    cases == [] ||
    (&& (cases[0].Case? ==> FlagBodyOnce(ty, cases[0], locals))
     && FlagBodiesOnce(ty, cases[1..], locals))
  }

  predicate FlagBodyOnce(ty: SubjectType, c: Stmt, locals: Locals)
    requires c.Case?
    decreases c, 0
  {
    var nested := CaseLocals(ty, c.pattern, locals);
    && DeclaresOnce(c.body, nested)
    && (c.guard == None ==> NamesOf(PatternBindings(ty, c.pattern)) !! Declares(c.body, nested))
  }

  /** Cases after a catch-all are not emitted. */
  predicate BodiesOnce(cases: seq<Stmt>, locals: Locals)
    decreases cases, 1
  {
    cases == [] ||
    if !cases[0].Case? then BodiesOnce(cases[1..], locals)
    else DeclaresOnce(cases[0].body, locals) && (IsCatchAll(cases[0]) || BodiesOnce(cases[1..], locals))
  }

  // Names that mean what they mean in the program.

  /** No bound name is emitted as one of these. */
  predicate Spares(names: set<string>, declared: set<string>) {
    forall n :: n in names && n != "_" ==> EmittedLocalName(n) !in declared
  }

  /** No initializer mentions an outer variable of the name it declares, and what follows a match in its
      block does not see a bound name hidden by the body of its catch-all. */
  predicate NothingHidden(block: seq<Stmt>, locals: Locals)
    decreases block, 2
  {
    block == [] ||
    (&& NothingHiddenInside(block[0], locals)
     && (block[0].Match? && block[1..] != [] && !MatchReturns(block[0].cases) ==>
           Spares(locals.names, Inlined(block[0].subjectType, block[0].cases, locals)))
     && NothingHidden(block[1..], After(block[0], locals)))
  }

  predicate NothingHiddenInside(s: Stmt, locals: Locals)
    decreases s, 1
  {
    match s
    case Declare(name, _, mentionsItself) => mentionsItself ==> name !in locals.names
    case If(_, body) => NothingHidden(body, locals)
    case Elif(_, body) => NothingHidden(body, locals)
    case Else(body) => NothingHidden(body, locals)
    case While(_, body) => NothingHidden(body, locals)
    case Match(_, _, ty, cases) => NothingHiddenInCases(ty, cases, locals)
    case _ => true
  }

  predicate NothingHiddenInCases(ty: SubjectType, cases: seq<Stmt>, locals: Locals)
    decreases cases, 1
  {
    cases == [] ||
    (&& (cases[0].Case? ==>
           NothingHidden(cases[0].body, if UsesFlag(ty) then CaseLocals(ty, cases[0].pattern, locals) else locals))
     && NothingHiddenInCases(ty, cases[1..], locals))
  }

  // What kinds of names are declared.

  /** A match variable that a block declares is of one of its matches, and is not the variable of a
      payload. */
  predicate OfMatch(name: string, locations: set<Location>) {
    IsInternal(name) ==> exists l :: l in locations && (name == SubjectName(l) || name == FlagName(l))
  }

  lemma {:induction false} DeclaredKinds(block: seq<Stmt>, locals: Locals, name: string)
    requires Linked(block) && name in Declares(block, locals)
    ensures OfMatch(name, Locations(block))
    decreases block, 2
  {
    var s := block[0];
    if name in DeclaresOne(s, locals) {
      OneDeclaredKinds(s, locals, name);
    } else {
      DeclaredKinds(block[1..], After(s, locals), name);
    }
  }

  lemma {:induction false} OneDeclaredKinds(s: Stmt, locals: Locals, name: string)
    requires Placed(s) && name in DeclaresOne(s, locals)
    ensures OfMatch(name, LocationsIn(s))
    decreases s, 1
  {
    if s.Declare? {
      LocalIsNotInternal(locals, s.name);
    } else if name in Inlined(s.subjectType, s.cases, locals) {
      InlinedKinds(s.location, s.subjectType, s.cases, AreSeparate(s.subjectType, s.cases), locals, name);
    }
  }

  lemma {:induction false} InlinedKinds(location: Location, ty: SubjectType, cases: seq<Stmt>, separate: bool,
                                        locals: Locals, name: string)
    requires CasesPlaced(location, ty, cases) && name in InlinedFrom(cases, separate, locals)
    ensures OfMatch(name, Locations(cases))
    decreases cases, 0
  {
    if IsCatchAll(cases[0]) {
      assert LocationsIn(cases[0]) == Locations(cases[0].body);
      DeclaredKinds(cases[0].body, locals, name);
    } else {
      InlinedKinds(location, ty, cases[1..], separate, locals, name);
    }
  }

  lemma LocalIsNotInternal(locals: Locals, name: string)
    requires IsLocalName(name)
    ensures !IsInternal(DeclaredAs(locals, name)) && !IsReserved(DeclaredAs(locals, name))
  {
    var emitted := DeclaredAs(locals, name);
    if name == "_" {
      DiscardNames(NextDiscard(locals), 0);
      EmittedNames(emitted, emitted);
    } else {
      EmittedNames(name, name);
    }
    if IsInternal(emitted) {
      InternalIsNotLocal(emitted);
      if name != "_" {
        EmittedInternal(name, emitted);
      }
    }
  }

  /** The variables of a match are not among those of the matches inside. */
  lemma OwnIsNotInside(location: Location, name: string, locations: set<Location>)
    requires name == SubjectName(location) || name == FlagName(location)
    requires location !in locations
    ensures !OfMatch(name, locations) && !IsReserved(name)
  {
    MatchNamesAreInternal(location);
    InternalIsNotLocal(name);
    EmittedNames(name, name);
    forall l | l in locations ensures name != SubjectName(l) && name != FlagName(l) {
      MatchNamesDiffer(location, l);
      MatchNamesDiffer(l, location);
    }
  }

  lemma PartsAreNotInside(at: Location, locations: set<Location>)
    ensures !OfMatch(CaseName(at), locations) && !IsReserved(CaseName(at))
  {
    MatchNamesAreInternal(at);
    InternalIsNotLocal(CaseName(at));
    EmittedNames(CaseName(at), CaseName(at));
    forall l | l in locations ensures CaseName(at) != SubjectName(l) && CaseName(at) != FlagName(l) {
      MatchNamesDiffer(at, l);
    }
  }

  // When emitted code is well-formed.

  lemma WellFormedBoth(p: seq<Code>, r: seq<Code>)
    ensures WellFormed(p + r, {}) <==> WellFormed(p, {}) && WellFormed(r, {}) && Introduced(r) !! Introduced(p)
    ensures Introduced(p + r) == Introduced(p) + Introduced(r)
  {
    WellFormedJoined(p, r, {});
    WellFormedApart(r, {}, Introduced(p));
  }

  lemma WellFormedSingle(c: Code)
    ensures WellFormed([c], {}) <==> WellFormedOne(c)
    ensures Introduced([c]) == Introduces(c)
  {
    assert [c][1..] == [];
  }

  /** The code of a block declares the names the block declares, and is well-formed exactly when no
      block declares a name twice. */
  lemma {:induction false} BlockCompiles(block: seq<Stmt>, locals: Locals)
    requires Linked(block)
    ensures Introduced(Lower(block, locals)) == Declares(block, locals)
    ensures WellFormed(Lower(block, locals), {}) <==> DeclaresOnce(block, locals)
    decreases block, 3
  {
    if block != [] {
      var s, next := block[0], After(block[0], locals);
      StatementCompiles(s, locals);
      BlockCompiles(block[1..], next);
      WellFormedBoth(LowerOne(s, locals), Lower(block[1..], next));
    }
  }

  lemma {:induction false} StatementCompiles(s: Stmt, locals: Locals)
    requires Placed(s)
    ensures Introduced(LowerOne(s, locals)) == DeclaresOne(s, locals)
    ensures WellFormed(LowerOne(s, locals), {}) <==> OnceInside(s, locals)
    decreases s, 2
  {
    if s.Match? {
      var body := MatchBody(s.location, s.subjectType, s.cases, locals);
      MatchCompiles(s.location, s.subjectType, s.cases, locals);
      SubjectCompiles(s, body, locals);
    } else {
      var code := LowerOne(s, locals);
      WellFormedSingle(code[0]);
      assert code == [code[0]];
      if s.If? || s.Elif? || s.Else? || s.While? {
        BlockCompiles(s.body, locals);
      } else if s.Declare? {
        LocalIsNotInternal(locals, s.name);
      }
    }
  }

  /** The subject's variable is declared before the code of its match. */
  lemma SubjectCompiles(s: Stmt, body: seq<Code>, locals: Locals)
    requires s.Match? && Placed(s)
    requires Introduced(body)
          == (if UsesFlag(s.subjectType) then {FlagName(s.location)} else {}) + Inlined(s.subjectType, s.cases, locals)
    ensures
      var code := [DeclareSubject(SubjectName(s.location), Lowered(s.subject, locals.names), s.subjectType)] + body;
      Introduced(code) == DeclaresOne(s, locals) && (WellFormed(code, {}) <==> WellFormed(body, {}))
  {
    var subject := SubjectName(s.location);
    var first := DeclareSubject(subject, Lowered(s.subject, locals.names), s.subjectType);
    WellFormedSingle(first);
    WellFormedBoth([first], body);
    OwnIsNotInside(s.location, subject, Locations(s.cases));
    MatchNamesDiffer(s.location, s.location);
    if subject in Inlined(s.subjectType, s.cases, locals) {
      InlinedKinds(s.location, s.subjectType, s.cases, AreSeparate(s.subjectType, s.cases), locals, subject);
    }
  }

  lemma EndingCompiles(cases: seq<Stmt>)
    ensures WellFormed(Ending(cases), {}) && Introduced(Ending(cases)) == {}
  {
    if MatchReturns(cases) {
      WellFormedSingle(Unreachable);
    }
  }

  lemma {:induction false} MatchCompiles(location: Location, ty: SubjectType, cases: seq<Stmt>, locals: Locals)
    requires location !in Locations(cases) && CasesPlaced(location, ty, cases)
    ensures
      var code := MatchBody(location, ty, cases, locals);
      && Introduced(code) == (if UsesFlag(ty) then {FlagName(location)} else {}) + Inlined(ty, cases, locals)
      && (WellFormed(code, {})
        <==> if UsesFlag(ty) then FlagBodiesOnce(ty, cases, locals) else BodiesOnce(cases, locals))
    decreases cases, 2
  {
    var ending, flag := Ending(cases), DeclareFlag(FlagName(location));
    EndingCompiles(cases);
    if UsesFlag(ty) {
      var code := FlagCases(location, ty, cases, locals);
      FlagCasesCompile(location, ty, cases, locals);
      OwnIsNotInside(location, FlagName(location), Locations(cases));
      WellFormedSingle(flag);
      WellFormedBoth([flag], code);
      WellFormedBoth([flag] + code, ending);
    } else if ty.EnumType? && HasGuards(cases) {
      OrderedCompile(location, true, ty, cases, false, locals);
      WellFormedBoth(OrderedCases(location, true, ty, cases, false, locals), ending);
    } else if MatchReturns(cases) {
      ReturningCompile(location, ty, cases, locals);
    } else {
      OrderedCompile(location, false, ty, cases, false, locals);
    }
  }

  lemma {:induction false} FlagCasesCompile(location: Location, ty: SubjectType, cases: seq<Stmt>, locals: Locals)
    requires UsesFlag(ty) && CasesPlaced(location, ty, cases)
    ensures Introduced(FlagCases(location, ty, cases, locals)) == {}
    ensures WellFormed(FlagCases(location, ty, cases, locals), {}) <==> FlagBodiesOnce(ty, cases, locals)
    decreases cases, 1
  {
    if cases != [] {
      var code := FlagCase(location, ty, cases[0], locals);
      FlagCaseCompiles(location, ty, cases[0], locals);
      FlagCasesCompile(location, ty, cases[1..], locals);
      WellFormedSingle(code);
      WellFormedBoth([code], FlagCases(location, ty, cases[1..], locals));
    }
  }

  lemma {:induction false} FlagCaseCompiles(location: Location, ty: SubjectType, c: Stmt, locals: Locals)
    requires c.Case? && PatternNamesFit(location, ty, c) && BlockPlaced(c.body)
    ensures WellFormedOne(FlagCase(location, ty, c, locals)) <==> FlagBodyOnce(ty, c, locals)
    decreases c, 0
  {
    var nested := CaseLocals(ty, c.pattern, locals);
    var start, body := CaseStart(location, c.location, ty, c.pattern), Lower(c.body, nested);
    var inside := FlagBody(FlagName(location), c.guard, body, nested.names);
    BlockCompiles(c.body, nested);
    StartCompiles(location, c.location, ty, c.pattern);
    FlagBodyCompiles(FlagName(location), c.guard, body, nested.names);
    WellFormedBoth(start, inside);
    PartsAreNotDeclared(c.body, nested, c.location);
  }

  lemma PartsAreNotDeclared(body: seq<Stmt>, locals: Locals, at: Location)
    requires Linked(body)
    ensures CaseName(at) !in Declares(body, locals)
  {
    PartsAreNotInside(at, Locations(body));
    if CaseName(at) in Declares(body, locals) {
      DeclaredKinds(body, locals, CaseName(at));
    }
  }

  lemma FlagBodyCompiles(flag: string, guard: Option<nat>, body: seq<Code>, names: set<string>)
    ensures
      var code := FlagBody(flag, guard, body, names);
      && (WellFormed(code, {}) <==> WellFormed(body, {}))
      && Introduced(code) == if guard == None then Introduced(body) else {}
  {
    var inside := [SetFlag(flag)] + body;
    WellFormedSingle(SetFlag(flag));
    WellFormedBoth([SetFlag(flag)], body);
    if guard.Some? {
      WellFormedSingle(CIf(Holds(Lowered(guard.value, names)), inside));
    }
  }

  /** The start of a case is well-formed, as the names of its pattern fit. */
  lemma StartCompiles(location: Location, at: Location, ty: SubjectType, pattern: Pattern)
    requires NamesFit(PatternBindings(ty, pattern), SourceName(location, at, ty), FlagName(location))
    ensures
      var code := CaseStart(location, at, ty, pattern);
      && WellFormed(code, {})
      && Introduced(code)
         == (if DeclaresParts(ty, pattern) then {CaseName(at)} else {}) + NamesOf(PatternBindings(ty, pattern))
  {
    var from, bindings := SourceName(location, at, ty), PatternBindings(ty, pattern);
    DeclarationsCompile(from, bindings);
    FittingNamesCompile(bindings, from, FlagName(location));
    PartsCompile(location, at, ty, pattern);
    WellFormedBoth(PartsStart(location, at, ty, pattern), Declarations(from, bindings));
    assert DeclaresParts(ty, pattern) ==> CaseName(at) !in NamesOf(bindings);
  }

  lemma PartsCompile(location: Location, at: Location, ty: SubjectType, pattern: Pattern)
    ensures WellFormed(PartsStart(location, at, ty, pattern), {})
    ensures Introduced(PartsStart(location, at, ty, pattern))
         == if DeclaresParts(ty, pattern) then {CaseName(at)} else {}
  {
    if DeclaresParts(ty, pattern) {
      MatchNamesDiffer(at, location);
      PartsAreNotInside(at, {});
      WellFormedSingle(DeclareParts(CaseName(at), SubjectName(location), pattern.tag));
    }
  }

  lemma NamesStep(bindings: seq<Binding>)
    requires bindings != []
    ensures NamesOf(bindings) == {bindings[0].name} + NamesOf(bindings[1..])
  {
    forall name | name in NamesOf(bindings) ensures name in {bindings[0].name} + NamesOf(bindings[1..]) {
      var i :| 0 <= i < |bindings| && bindings[i].name == name;
      if i > 0 {
        assert bindings[1..][i - 1].name == name;
      }
    }
    forall name | name in NamesOf(bindings[1..]) ensures name in NamesOf(bindings) {
      var i :| 0 <= i < |bindings[1..]| && bindings[1..][i].name == name;
      assert bindings[i + 1].name == name;
    }
    assert bindings[0].name in NamesOf(bindings);
  }

  predicate DistinctNames(bindings: seq<Binding>) {
    forall i, j :: 0 <= i < j < |bindings| ==> bindings[i].name != bindings[j].name
  }

  /** No name is a reserved word or the variable it is read from. */
  predicate MayDeclare(bindings: seq<Binding>, from: string) {
    forall i :: 0 <= i < |bindings| ==> !IsReserved(bindings[i].name) && bindings[i].name != from
  }

  lemma MayDeclareStep(bindings: seq<Binding>, from: string)
    requires bindings != []
    ensures MayDeclare(bindings, from) && DistinctNames(bindings)
       <==> !IsReserved(bindings[0].name) && bindings[0].name != from && bindings[0].name !in NamesOf(bindings[1..])
            && MayDeclare(bindings[1..], from) && DistinctNames(bindings[1..])
  {
    var rest := bindings[1..];
    forall i | 1 <= i < |bindings| ensures bindings[i] == rest[i - 1] {
    }
    forall i | 0 <= i < |rest| ensures rest[i] == bindings[i + 1] {
    }
    if bindings[0].name !in NamesOf(rest) && DistinctNames(rest) {
      forall i, j | 0 <= i < j < |bindings| ensures bindings[i].name != bindings[j].name {
        assert rest[j - 1].name in NamesOf(rest);
        assert i > 0 ==> rest[i - 1].name != rest[j - 1].name;
      }
    }
    if bindings[0].name in NamesOf(rest) {
      var j :| 0 <= j < |rest| && rest[j].name == bindings[0].name;
      assert bindings[j + 1].name == bindings[0].name;
    }
  }

  /** The declarations of a pattern are well-formed exactly when no name is a reserved word, the variable
      it is read from, or repeated. */
  lemma {:induction false} DeclarationsCompile(from: string, bindings: seq<Binding>)
    ensures Introduced(Declarations(from, bindings)) == NamesOf(bindings)
    ensures WellFormed(Declarations(from, bindings), {}) <==> MayDeclare(bindings, from) && DistinctNames(bindings)
    decreases |bindings|
  {
    if bindings != [] {
      var first := Bind(bindings[0].name, from, bindings[0].field);
      DeclarationsCompile(from, bindings[1..]);
      NamesStep(bindings);
      MayDeclareStep(bindings, from);
      WellFormedSingle(first);
      WellFormedBoth([first], Declarations(from, bindings[1..]));
    }
  }

  lemma FittingNamesCompile(bindings: seq<Binding>, from: string, flag: string)
    requires NamesFit(bindings, from, flag)
    ensures MayDeclare(bindings, from) && DistinctNames(bindings)
  {
    forall i | 0 <= i < |bindings| ensures !IsReserved(bindings[i].name) {
      EmittedNames(bindings[i].name, bindings[i].name);
    }
  }

  lemma {:induction false} OrderedCompile(location: Location, onEnum: bool, ty: SubjectType, cases: seq<Stmt>,
                                          emitted: bool, locals: Locals)
    requires CasesPlaced(location, ty, cases)
    ensures
      var code := OrderedCases(location, onEnum, ty, cases, emitted, locals);
      && Introduced(code) == (if emitted then {} else InlinedFrom(cases, false, locals))
      && (WellFormed(code, {}) <==> BodiesOnce(cases, locals))
    decreases cases, 1
  {
    if cases != [] {
      var code := OrderedCases(location, onEnum, ty, cases, emitted, locals);
      BlockCompiles(cases[0].body, locals);
      if IsCatchAll(cases[0]) {
        if emitted {
          WellFormedSingle(code[0]);
        }
      } else {
        var rest := OrderedCases(location, onEnum, ty, cases[1..], true, locals);
        OrderedCompile(location, onEnum, ty, cases[1..], true, locals);
        assert code == [code[0]] + rest;
        WellFormedSingle(code[0]);
        WellFormedBoth([code[0]], rest);
      }
    }
  }

  lemma {:induction false} ReturningCompile(location: Location, ty: SubjectType, cases: seq<Stmt>, locals: Locals)
    requires CasesPlaced(location, ty, cases)
    ensures
      var code := ReturningCases(location, ty, cases, locals);
      && Introduced(code) == InlinedFrom(cases, true, locals)
      && (WellFormed(code, {}) <==> BodiesOnce(cases, locals))
    decreases cases, 1
  {
    var code := ReturningCases(location, ty, cases, locals);
    if cases == [] {
      WellFormedSingle(Unreachable);
    } else {
      BlockCompiles(cases[0].body, locals);
      if !IsCatchAll(cases[0]) {
        var rest := ReturningCases(location, ty, cases[1..], locals);
        ReturningCompile(location, ty, cases[1..], locals);
        assert code == [code[0]] + rest;
        WellFormedSingle(code[0]);
        WellFormedBoth([code[0]], rest);
      }
    }
  }
}
