/** The lowering of blocks to C++, with its three shapes for a match: a flag that says a case was
    taken, an else-if chain, and plain ifs that count on every body to return. */
module MatchLowering {
  import opened Wrappers
  import opened Statements
  import opened ReturnAnalysis
  import opened LocalNames
  import opened MatchNames
  import opened CppTarget

  predicate HasPayloads(variants: seq<Variant>) {
    variants != [] && (variants[0].fields != [] || HasPayloads(variants[1..]))
  }

  predicate HasGuards(cases: seq<Stmt>) {
    cases != [] && ((cases[0].Case? && cases[0].guard.Some?) || HasGuards(cases[1..]))
  }

  predicate UsesFlag(ty: SubjectType) {
    ty.OptionType? || ty.ResultType? || (ty.EnumType? && HasPayloads(ty.declared))
  }

  predicate IsCatchAll(c: Stmt) {
    c.Case? && c.pattern == Wildcard && c.guard == None
  }

  function CarrierOf(ty: SubjectType): Carrier {
    if ty.PlainType? then ty.carrier else Unbounded
  }

  /** The condition of a case in a chain. An enumeration is only compared with its constructors. */
  function CaseCondition(subject: string, onEnum: bool, ty: SubjectType, pattern: Pattern, guard: Option<nat>,
                         names: set<string>): Condition {
    var test :=
      match pattern
      case Wildcard => Always
      case Constructor(tag, _) => IsVariant(subject, tag)
      case Equals(operand) => if onEnum then Always else EqualsOperand(subject, operand, CarrierOf(ty), names);
    if guard.Some? then And(test, Holds(Lowered(guard.value, names))) else test
  }

  /** The condition of a case in the flag shape. Wrappers only ask for their first constructor. */
  function FlagCondition(subject: string, ty: SubjectType, pattern: Pattern): Condition {
    if !pattern.Constructor? then Always
    else
      match ty
      case OptionType => if pattern.tag == "Some" then IsVariant(subject, "Some") else Not(IsVariant(subject, "Some"))
      case ResultType => if pattern.tag == "Ok" then IsVariant(subject, "Ok") else Not(IsVariant(subject, "Ok"))
      case _ => IsVariant(subject, pattern.tag)
  }

  /** A name and the payload field it stands for. */
  datatype Binding = Binding(name: string, field: string)

  /** `enum_case_bindings`, without the ones whose field does not exist. */
  function EnumCaseBindings(args: seq<PatternArg>, position: nat, fields: seq<string>): seq<Binding>
    requires position <= |args|
    decreases |args| - position
  {
    if position == |args| then []
    else
      var field := ArgField(args[position], position, fields);
      (if field.Some? then [Binding(args[position].name, field.value)] else [])
      + EnumCaseBindings(args, position + 1, fields)
  }

  /** The names a case of the flag shape binds. */
  function PatternBindings(ty: SubjectType, pattern: Pattern): seq<Binding> {
    if !pattern.Constructor? then []
    else if ty.EnumType? then EnumCaseBindings(pattern.args, 0, FieldsOf(ty.declared, pattern.tag))
    else if |pattern.args| != 1 || !pattern.args[0].Positional? then []
    else if (ty.OptionType? && pattern.tag == "Some") || (ty.ResultType? && pattern.tag == "Ok") then
      [Binding(pattern.args[0].name, "value")]
    else if ty.ResultType? && pattern.tag == "Err" then [Binding(pattern.args[0].name, "error")]
    else []
  }

  /** The declarations: each name as it is written. */
  function Declarations(from: string, bindings: seq<Binding>): seq<Code> {
    if bindings == [] then []
    else [Bind(bindings[0].name, from, bindings[0].field)] + Declarations(from, bindings[1..])
  }

  function NamesOf(bindings: seq<Binding>): set<string> {
    set i | 0 <= i < |bindings| :: bindings[i].name
  }

  /** What payload fields are read from: the subject of a wrapper, or the variable of the case. */
  function SourceName(location: Location, at: Location, ty: SubjectType): string {
    if ty.EnumType? then CaseName(at) else SubjectName(location)
  }

  predicate DeclaresParts(ty: SubjectType, pattern: Pattern) {
    ty.EnumType? && pattern.Constructor? && HasTag(ty.declared, pattern.tag)
  }

  /** The declaration of the payload of a case, if there is one. */
  function PartsStart(location: Location, at: Location, ty: SubjectType, pattern: Pattern): seq<Code> {
    if DeclaresParts(ty, pattern) then [DeclareParts(CaseName(at), SubjectName(location), pattern.tag)] else []
  }

  /** How the block of a case begins in the flag shape. */
  function CaseStart(location: Location, at: Location, ty: SubjectType, pattern: Pattern): seq<Code> {
    PartsStart(location, at, ty, pattern) + Declarations(SourceName(location, at, ty), PatternBindings(ty, pattern))
  }

  /** The names that the guard and the body of such a case see. */
  function CaseLocals(ty: SubjectType, pattern: Pattern, locals: Locals): Locals {
    locals.(names := locals.names + NamesOf(PatternBindings(ty, pattern)))
  }

  /** The context after a statement. */
  function After(s: Stmt, locals: Locals): Locals {
    if s.Declare? then WithLocal(locals, s.name) else locals
  }

  function Lower(block: seq<Stmt>, locals: Locals): seq<Code>
    decreases block, 3
  {
    if block == [] then [] else LowerOne(block[0], locals) + Lower(block[1..], After(block[0], locals))
  }

  /** The initializer of a declaration is emitted when its name is bound already. */
  function LowerOne(s: Stmt, locals: Locals): seq<Code>
    decreases s, 2
  {
    var names := locals.names;
    match s
    case Simple(id) => [Do(Lowered(id, names))]
    case Declare(name, value, _) =>
      [Variable(DeclaredAs(locals, name), Lowered(value, WithLocal(locals, name).names))]
    case Return(id) => [Leave(Lowered(id, names))]
    case Raise(id) => [Throw(Lowered(id, names))]
    case Break => [BreakLoop]
    case Continue => [ContinueLoop]
    case If(cond, body) => [CIf(Holds(Lowered(cond, names)), Lower(body, locals))]
    case Elif(cond, body) => [CElseIf(Holds(Lowered(cond, names)), Lower(body, locals))]
    case Else(body) => [CElse(Lower(body, locals))]
    case While(cond, body) => [CWhile(Holds(Lowered(cond, names)), Lower(body, locals))]
    case Match(location, subject, ty, cases) =>
      [DeclareSubject(SubjectName(location), Lowered(subject, names), ty)] + MatchBody(location, ty, cases, locals)
    case Case(_, _, _, _) => []
  }

  function Ending(cases: seq<Stmt>): seq<Code> {
    if MatchReturns(cases) then [Unreachable] else []
  }

  function MatchBody(location: Location, ty: SubjectType, cases: seq<Stmt>, locals: Locals): seq<Code>
    decreases cases, 2
  {
    if UsesFlag(ty) then [DeclareFlag(FlagName(location))] + FlagCases(location, ty, cases, locals) + Ending(cases)
    else if ty.EnumType? && HasGuards(cases) then
      OrderedCases(location, true, ty, cases, false, locals) + Ending(cases)
    else if MatchReturns(cases) then ReturningCases(location, ty, cases, locals)
    else OrderedCases(location, false, ty, cases, false, locals)
  }

  function FlagBody(flag: string, guard: Option<nat>, body: seq<Code>, names: set<string>): seq<Code> {
    if guard.Some? then [CIf(Holds(Lowered(guard.value, names)), [SetFlag(flag)] + body)]
    else [SetFlag(flag)] + body
  }

  function FlagCases(location: Location, ty: SubjectType, cases: seq<Stmt>, locals: Locals): seq<Code>
    decreases cases, 1
  {
    if cases == [] then []
    else if !cases[0].Case? then FlagCases(location, ty, cases[1..], locals)
    else [FlagCase(location, ty, cases[0], locals)] + FlagCases(location, ty, cases[1..], locals)
  }

  /** The guard and the body see the names of the pattern as well. */
  function FlagCase(location: Location, ty: SubjectType, c: Stmt, locals: Locals): Code
    requires c.Case?
    decreases c, 0
  {
    var flag, nested := FlagName(location), CaseLocals(ty, c.pattern, locals);
    CIf(And(FlagClear(flag), FlagCondition(SubjectName(location), ty, c.pattern)),
        CaseStart(location, c.location, ty, c.pattern)
        + FlagBody(flag, c.guard, Lower(c.body, nested), nested.names))
  }

  /** One if chain, up to the first catch-all, which is in no block of its own when it comes first;
      `emitted` says that the chain was begun. */
  function OrderedCases(location: Location, onEnum: bool, ty: SubjectType, cases: seq<Stmt>, emitted: bool,
                        locals: Locals): seq<Code>
    decreases cases, 1
  {
    if cases == [] then []
    else if !cases[0].Case? then OrderedCases(location, onEnum, ty, cases[1..], emitted, locals)
    else
      var c, body := cases[0], Lower(cases[0].body, locals);
      if IsCatchAll(c) then
        if emitted then [CElse(body)] else body
      else
        var cond := CaseCondition(SubjectName(location), onEnum, ty, c.pattern, c.guard, locals.names);
        [if emitted then CElseIf(cond, body) else CIf(cond, body)]
        + OrderedCases(location, onEnum, ty, cases[1..], true, locals)
  }

  /** Separate ifs, up to the first catch-all, which is in no block of its own. */
  function ReturningCases(location: Location, ty: SubjectType, cases: seq<Stmt>, locals: Locals): seq<Code>
    decreases cases, 1
  {
    if cases == [] then [Unreachable]
    else if !cases[0].Case? then ReturningCases(location, ty, cases[1..], locals)
    else if IsCatchAll(cases[0]) then Lower(cases[0].body, locals)
    else
      var c := cases[0];
      [CIf(CaseCondition(SubjectName(location), false, ty, c.pattern, c.guard, locals.names), Lower(c.body, locals))]
      + ReturningCases(location, ty, cases[1..], locals)
  }

  method EmitBlock(body: seq<Stmt>, initial: Locals) returns (out: seq<Code>)
    ensures out == Lower(body, initial)
    decreases body, 3
  {
    out := [];
    var locals := initial;
    ghost var tail, whole := body, Lower(body, initial);
    for i := 0 to |body|
      invariant tail == body[i..] && out + Lower(tail, locals) == whole
    {
      Rest(body, i);
      var one, next := EmitStatement(body[i], locals);
      tail := tail[1..];
      locals := next;
      out := out + one;
    }
  }

  /** The code of a statement, and the context it leaves. */
  method EmitStatement(s: Stmt, locals: Locals) returns (out: seq<Code>, next: Locals)
    ensures out == LowerOne(s, locals) && next == After(s, locals)
    decreases s, 2
  {
    next := locals;
    var names := locals.names;
    match s {
      case Simple(id) => out := [Do(Lowered(id, names))];
      case Declare(name, value, _) =>
        next := WithLocal(locals, name);
        out := [Variable(DeclaredAs(locals, name), Lowered(value, next.names))];
      case Return(id) => out := [Leave(Lowered(id, names))];
      case Raise(id) => out := [Throw(Lowered(id, names))];
      case Break => out := [BreakLoop];
      case Continue => out := [ContinueLoop];
      case If(cond, body) =>
        var code := EmitBlock(body, locals);
        out := [CIf(Holds(Lowered(cond, names)), code)];
      case Elif(cond, body) =>
        var code := EmitBlock(body, locals);
        out := [CElseIf(Holds(Lowered(cond, names)), code)];
      case Else(body) =>
        var code := EmitBlock(body, locals);
        out := [CElse(code)];
      case While(cond, body) =>
        var code := EmitBlock(body, locals);
        out := [CWhile(Holds(Lowered(cond, names)), code)];
      case Match(location, subject, ty, cases) =>
        var code := EmitMatchBody(location, ty, cases, locals);
        out := [DeclareSubject(SubjectName(location), Lowered(subject, names), ty)] + code;
      case Case(_, _, _, _) => out := [];
    }
  }

  method EmitMatchBody(location: Location, ty: SubjectType, cases: seq<Stmt>, locals: Locals) returns (out: seq<Code>)
    ensures out == MatchBody(location, ty, cases, locals)
    decreases cases, 3
  {
    if UsesFlag(ty) {
      var code := EmitFlagCases(location, ty, cases, locals);
      out := [DeclareFlag(FlagName(location))] + code;
      if MatchReturns(cases) {
        out := out + [Unreachable];
      }
    } else if ty.EnumType? && HasGuards(cases) {
      out := EmitOrderedCases(location, true, ty, cases, locals);
      if MatchReturns(cases) {
        out := out + [Unreachable];
      }
    } else if MatchReturns(cases) {
      out := EmitReturningCases(location, ty, cases, locals);
    } else {
      out := EmitOrderedCases(location, false, ty, cases, locals);
    }
  }

  /** `enum_case_bindings`. */
  method CollectBindings(args: seq<PatternArg>, fields: seq<string>) returns (out: seq<Binding>)
    ensures out == EnumCaseBindings(args, 0, fields)
  {
    out := [];
    for i := 0 to |args|
      invariant out + EnumCaseBindings(args, i, fields) == EnumCaseBindings(args, 0, fields)
    {
      var field := ArgField(args[i], i, fields);
      if field.Some? {
        out := out + [Binding(args[i].name, field.value)];
      }
    }
  }

  method FindBindings(ty: SubjectType, pattern: Pattern) returns (bindings: seq<Binding>)
    ensures bindings == PatternBindings(ty, pattern)
  {
    if pattern.Constructor? && ty.EnumType? {
      bindings := CollectBindings(pattern.args, FieldsOf(ty.declared, pattern.tag));
      return;
    }
    bindings := [];
    if pattern.Constructor? && |pattern.args| == 1 && pattern.args[0].Positional? {
      var name := pattern.args[0].name;
      if (ty.OptionType? && pattern.tag == "Some") || (ty.ResultType? && pattern.tag == "Ok") {
        bindings := [Binding(name, "value")];
      } else if ty.ResultType? && pattern.tag == "Err" {
        bindings := [Binding(name, "error")];
      }
    }
  }

  /** One case of the flag shape. */
  method EmitFlagCase(location: Location, ty: SubjectType, c: Stmt, locals: Locals) returns (code: Code)
    requires c.Case?
    ensures code == FlagCase(location, ty, c, locals)
    decreases c, 1
  {
    var flag := FlagName(location);
    var bindings := FindBindings(ty, c.pattern);
    var nested := locals.(names := locals.names + NamesOf(bindings));
    var start := Declarations(SourceName(location, c.location, ty), bindings);
    if DeclaresParts(ty, c.pattern) {
      start := [DeclareParts(CaseName(c.location), SubjectName(location), c.pattern.tag)] + start;
    }
    var body := EmitBlock(c.body, nested);
    body := [SetFlag(flag)] + body;
    if c.guard.Some? {
      body := [CIf(Holds(Lowered(c.guard.value, nested.names)), body)];
    }
    code := CIf(And(FlagClear(flag), FlagCondition(SubjectName(location), ty, c.pattern)), start + body);
    assert start == CaseStart(location, c.location, ty, c.pattern);
  }

  lemma FlagCasesStep(location: Location, ty: SubjectType, cases: seq<Stmt>, locals: Locals, out: seq<Code>,
                      later: seq<Code>)
    requires cases != [] && later == FlagCases(location, ty, cases[1..], locals)
    ensures out + FlagCases(location, ty, cases, locals)
         == if cases[0].Case? then out + [FlagCase(location, ty, cases[0], locals)] + later else out + later
  {
    if cases[0].Case? {
      var code := FlagCase(location, ty, cases[0], locals);
      assert out + ([code] + later) == out + [code] + later;
    }
  }

  method EmitFlagCases(location: Location, ty: SubjectType, cases: seq<Stmt>, locals: Locals) returns (out: seq<Code>)
    ensures out == FlagCases(location, ty, cases, locals)
    decreases cases, 2
  {
    out := [];
    ghost var tail, later := cases, FlagCases(location, ty, cases, locals);
    ghost var whole := later;
    for i := 0 to |cases|
      invariant tail == cases[i..] && later == FlagCases(location, ty, tail, locals) && out + later == whole
    {
      Rest(cases, i);
      later := FlagCases(location, ty, tail[1..], locals);
      FlagCasesStep(location, ty, tail, locals, out, later);
      tail := tail[1..];
      if cases[i].Case? {
        var code := EmitFlagCase(location, ty, cases[i], locals);
        out := out + [code];
      }
    }
  }

  method EmitOrderedCases(location: Location, onEnum: bool, ty: SubjectType, cases: seq<Stmt>, locals: Locals)
    returns (out: seq<Code>)
    ensures out == OrderedCases(location, onEnum, ty, cases, false, locals)
    decreases cases, 1
  {
    out := [];
    var emittedCase := false;
    ghost var tail, whole := cases, OrderedCases(location, onEnum, ty, cases, false, locals);
    for i := 0 to |cases|
      invariant tail == cases[i..] && out + OrderedCases(location, onEnum, ty, tail, emittedCase, locals) == whole
    {
      Rest(cases, i);
      tail := tail[1..];
      var c := cases[i];
      if c.Case? {
        var body := EmitBlock(c.body, locals);
        if IsCatchAll(c) {
          out := out + if emittedCase then [CElse(body)] else body;
          return;
        }
        var condition := CaseCondition(SubjectName(location), onEnum, ty, c.pattern, c.guard, locals.names);
        out := out + [if emittedCase then CElseIf(condition, body) else CIf(condition, body)];
        emittedCase := true;
      }
    }
  }

  method EmitReturningCases(location: Location, ty: SubjectType, cases: seq<Stmt>, locals: Locals)
    returns (out: seq<Code>)
    ensures out == ReturningCases(location, ty, cases, locals)
    decreases cases, 1
  {
    out := [];
    ghost var tail, whole := cases, ReturningCases(location, ty, cases, locals);
    for i := 0 to |cases|
      invariant tail == cases[i..] && out + ReturningCases(location, ty, tail, locals) == whole
    {
      Rest(cases, i);
      tail := tail[1..];
      var c := cases[i];
      if c.Case? {
        var body := EmitBlock(c.body, locals);
        if IsCatchAll(c) {
          out := out + body;
          return;
        }
        out := out + [CIf(CaseCondition(SubjectName(location), false, ty, c.pattern, c.guard, locals.names), body)];
      }
    }
    out := out + [Unreachable];
  }
}
