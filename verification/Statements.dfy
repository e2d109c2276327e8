/** A statement language with chains of branches, loops and guarded matches, and what running a
    block does. Expressions and simple statements are numbered; a `Meaning` interprets them. */
module Statements {
  import opened Wrappers

  /** A constructor of an enumeration and its payload fields. */
  datatype Variant = Variant(name: string, fields: seq<string>)

  /** The values of a plain type, as numbers: two for `bool`, few for a small integer type. */
  datatype Carrier = Unbounded | Finite(values: set<int>)

  /** What a match subject can be. */
  datatype SubjectType = OptionType | ResultType | EnumType(declared: seq<Variant>) | PlainType(carrier: Carrier)

  /** An argument of a constructor pattern: a name in position, or a name for a field. */
  datatype PatternArg = Positional(name: string) | Labelled(field: string, name: string)

  /** What a subject is compared with: a literal, or an expression that is computed. */
  datatype Operand = Literal(n: int) | Computed(id: nat)

  datatype Pattern = Wildcard | Constructor(tag: string, args: seq<PatternArg>) | Equals(operand: Operand)

  datatype Location = Location(line: nat, column: nat)

  /** `Declare` is a variable declaration or the first assignment of a name; `_` discards the value.
      An initializer may mention the name it declares, which then stands for an outer variable. */
  datatype Stmt =
    | Simple(id: nat)
    | Declare(name: string, value: nat, mentionsItself: bool)
    | Return(id: nat)
    | Raise(id: nat)
    | Break
    | Continue
    | If(cond: nat, body: seq<Stmt>)
    | Elif(cond: nat, body: seq<Stmt>)
    | Else(body: seq<Stmt>)
    | While(cond: nat, body: seq<Stmt>)
    | Match(location: Location, subject: nat, subjectType: SubjectType, cases: seq<Stmt>)
    | Case(location: Location, pattern: Pattern, guard: Option<nat>, body: seq<Stmt>)

  datatype Value = Tagged(tag: string, payload: map<string, int>) | Number(n: int)

  /** Variables and the trace of observable effects. */
  datatype State = State(store: map<string, int>, trace: seq<int>)

  /** What local names stand for: a value, or the place of a mutable variable in the store. */
  type Env = map<string, int>

  datatype Tested = Answer(holds: bool, after: State) | TestRaises(after: State)

  datatype Initial = Initial(value: int, after: State) | InitialRaises(after: State)

  datatype Evaluated = Got(value: Value, after: State) | SubjectRaises(after: State)

  datatype Outcome =
    | Normal(after: State)
    | Returned(result: int, after: State)
    | Raised(after: State)
    | Broke(after: State)
    | Continued(after: State)
    | Stuck
    | OutOfFuel

  /** What the numbered parts mean: any functions of the bindings and the state, which may change
      the state and may raise. */
  datatype Meaning = Meaning(
    simple: (nat, Env, State) -> Outcome,
    initial: (nat, Env, State) -> Initial,
    result: (nat, Env, State) -> (int, State),
    raise: (nat, Env, State) -> State,
    test: (nat, Env, State) -> Tested,
    subject: (nat, SubjectType, Env, State) -> Evaluated,
    constant: (nat, Carrier, Env, State) -> int)

  function VariantsOf(ty: SubjectType): seq<Variant> {
    match ty
    case OptionType => [Variant("Some", ["value"]), Variant("None", [])]
    case ResultType => [Variant("Ok", ["value"]), Variant("Err", ["error"])]
    case EnumType(declared) => declared
    case PlainType(_) => []
  }

  function FieldsOf(variants: seq<Variant>, tag: string): seq<string> {
    if variants == [] then []
    else if variants[0].name == tag then variants[0].fields
    else FieldsOf(variants[1..], tag)
  }

  predicate HasTag(variants: seq<Variant>, tag: string) {
    exists i :: 0 <= i < |variants| && variants[i].name == tag
  }

  predicate InCarrier(n: int, carrier: Carrier) {
    carrier.Finite? ==> n in carrier.values
  }

  /** A value of the subject's type. */
  predicate Conforms(v: Value, ty: SubjectType) {
    match v
    case Number(n) => ty.PlainType? && InCarrier(n, ty.carrier)
    case Tagged(tag, payload) =>
      && HasTag(VariantsOf(ty), tag)
      && forall f :: f in FieldsOf(VariantsOf(ty), tag) ==> f in payload
  }

  /** Subjects and computed operands are of their types, where those have values. */
  ghost predicate Typed(m: Meaning) {
    && (forall e, ty, env, st ::
          m.subject(e, ty, env, st).Got? ==> Conforms(m.subject(e, ty, env, st).value, ty))
    && (forall id, carrier, env, st ::
          carrier != Finite({}) ==> InCarrier(m.constant(id, carrier, env, st), carrier))
  }

  function OperandValue(m: Meaning, operand: Operand, carrier: Carrier, env: Env, st: State): int {
    match operand
    case Literal(n) => n
    case Computed(id) => m.constant(id, carrier, env, st)
  }

  predicate Matches(m: Meaning, p: Pattern, ty: SubjectType, v: Value, env: Env, st: State) {
    match p
    case Wildcard => true
    case Constructor(tag, _) => v.Tagged? && v.tag == tag
    case Equals(operand) => ty.PlainType? && v == Number(OperandValue(m, operand, ty.carrier, env, st))
  }

  /** The field a pattern argument names, if there is one. */
  function ArgField(arg: PatternArg, position: nat, fields: seq<string>): Option<string> {
    match arg
    case Positional(_) => if position < |fields| then Some(fields[position]) else None
    case Labelled(field, _) => if field in fields then Some(field) else None
  }

  /** `_` is not bound. */
  function BindName(name: string, value: int, env: Env): Env {
    if name == "_" then env else env[name := value]
  }

  function BindArgs(args: seq<PatternArg>, position: nat, fields: seq<string>, payload: map<string, int>,
                    env: Env): Env
    requires position <= |args|
    decreases |args| - position
  {
    if position == |args| then env
    else
      var field := ArgField(args[position], position, fields);
      var bound :=
        if field.Some? && field.value in payload then BindName(args[position].name, payload[field.value], env) else env;
      BindArgs(args, position + 1, fields, payload, bound)
  }

  function Bound(p: Pattern, ty: SubjectType, v: Value, env: Env): Env {
    if p.Constructor? && v.Tagged? then BindArgs(p.args, 0, FieldsOf(VariantsOf(ty), p.tag), v.payload, env)
    else env
  }

  /** How many `elif` branches, and then at most one `else`, continue an if chain. */
  function BranchCount(tail: seq<Stmt>): (n: nat)
    ensures n <= |tail|
  {
    if tail != [] && tail[0].Elif? then 1 + BranchCount(tail[1..])
    else if tail != [] && tail[0].Else? then 1
    else 0
  }

  /** The statements after an if chain. */
  function AfterChain(tail: seq<Stmt>): seq<Stmt> {
    tail[BranchCount(tail)..]
  }

  /** What an initializer may depend on. */
  function InitialEnv(s: Stmt, env: Env): Env
    requires s.Declare?
  {
    if s.mentionsItself then env else env - {s.name}
  }

  function ExecBlock(m: Meaning, block: seq<Stmt>, env: Env, st: State, fuel: nat): Outcome
    decreases fuel, block, 2
  {
    if block == [] then Normal(st)
    else if block[0].Declare? then
      match m.initial(block[0].value, InitialEnv(block[0], env), st)
      case InitialRaises(after) => Raised(after)
      case Initial(value, after) =>
        ExecBlock(m, block[1..], BindName(block[0].name, value, env), after, fuel)
    else
      var first := if block[0].If? then ExecChain(m, block, env, st, fuel) else ExecStmt(m, block[0], env, st, fuel);
      var rest := if block[0].If? then AfterChain(block[1..]) else block[1..];
      if first.Normal? then ExecBlock(m, rest, env, first.after, fuel) else first
  }

  /** The chain that starts at the first statement, an `if` or an `elif`. */
  function ExecChain(m: Meaning, block: seq<Stmt>, env: Env, st: State, fuel: nat): Outcome
    requires block != [] && (block[0].If? || block[0].Elif?)
    decreases fuel, block, 1
  {
    match m.test(block[0].cond, env, st)
    case TestRaises(after) => Raised(after)
    case Answer(holds, after) =>
      if holds then ExecBlock(m, block[0].body, env, after, fuel)
      else if |block| > 1 && block[1].Elif? then
        assert block[1..][0] == block[1];
        ExecChain(m, block[1..], env, after, fuel)
      else if |block| > 1 && block[1].Else? then ExecBlock(m, block[1].body, env, after, fuel)
      else Normal(after)
  }

  /** One statement other than an `if` or a declaration; branches and cases out of place do nothing. */
  function ExecStmt(m: Meaning, s: Stmt, env: Env, st: State, fuel: nat): Outcome
    decreases fuel, s, 0
  {
    match s
    case Simple(id) => m.simple(id, env, st)
    case Return(id) => Returned(m.result(id, env, st).0, m.result(id, env, st).1)
    case Raise(id) => Raised(m.raise(id, env, st))
    case Break => Broke(st)
    case Continue => Continued(st)
    case While(cond, body) => ExecLoop(m, cond, body, env, st, fuel)
    case Match(_, subject, ty, cases) =>
      (match m.subject(subject, ty, env, st)
       case SubjectRaises(after) => Raised(after)
       case Got(v, after) => ExecCases(m, cases, ty, v, env, after, fuel))
    case _ => Normal(st)
  }

  function ExecLoop(m: Meaning, cond: nat, body: seq<Stmt>, env: Env, st: State, fuel: nat): Outcome
    decreases fuel, body, 3
  {
    if fuel == 0 then OutOfFuel
    else match m.test(cond, env, st)
      case TestRaises(after) => Raised(after)
      case Answer(holds, after) =>
        if !holds then Normal(after)
        else
          var once := ExecBlock(m, body, env, after, fuel);
          match once
          case Normal(next) => ExecLoop(m, cond, body, env, next, fuel - 1)
          case Continued(next) => ExecLoop(m, cond, body, env, next, fuel - 1)
          case Broke(next) => Normal(next)
          case _ => once
  }

  /** The first case in order whose pattern matches and whose guard holds; guards run in order, with
      the bindings of their pattern. Without such a case the match does nothing. */
  function ExecCases(m: Meaning, cases: seq<Stmt>, ty: SubjectType, v: Value, env: Env, st: State, fuel: nat): Outcome
    decreases fuel, cases, 3
  {
    if cases == [] then Normal(st)
    else if !cases[0].Case? || !Matches(m, cases[0].pattern, ty, v, env, st) then
      ExecCases(m, cases[1..], ty, v, env, st, fuel)
    else
      var inner := Bound(cases[0].pattern, ty, v, env);
      if cases[0].guard == None then ExecBlock(m, cases[0].body, inner, st, fuel)
      else match m.test(cases[0].guard.value, inner, st)
        case TestRaises(after) => Raised(after)
        case Answer(holds, after) =>
          if holds then ExecBlock(m, cases[0].body, inner, after, fuel)
          else ExecCases(m, cases[1..], ty, v, env, after, fuel)
  }
}
