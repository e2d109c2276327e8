/** The part of C++ that blocks with matches are lowered to: which code is well-formed, and what running
    it does. Branches are flat, as in the text: an `else if` or `else` belongs to the `if` chain right
    before it. */
module CppTarget {
  import opened Wrappers
  import opened Statements
  import opened LocalNames

  /** An expression or simple statement, and the names that were bound where it was lowered: its uses
      of them are emitted as `EmittedLocalName` has them. */
  datatype Lowered = Lowered(id: nat, names: set<string>)

  /** What a C++ variable is: a local of the program, or the subject, the payload of a case or the flag
      of a match. */
  datatype Entity = Plain(value: int) | Held(subject: Value) | Parts(fields: map<string, int>) | Flag

  /** The variables in scope, by their C++ names. */
  type Variables = map<string, Entity>

  /** The flags, which are set inside the blocks that ask for them. */
  type Flags = map<string, bool>

  /** What a lowered expression reads: its bound names, through their emitted forms. */
  function View(names: set<string>, variables: Variables): Env {
    map n | n in names && n != "_" && EmittedLocalName(n) in variables && variables[EmittedLocalName(n)].Plain?
      :: variables[EmittedLocalName(n)].value
  }

  datatype Condition =
    | Always
    | Holds(e: Lowered)
    | IsVariant(subject: string, tag: string)
    | EqualsOperand(subject: string, operand: Operand, carrier: Carrier, names: set<string>)
    | FlagClear(flag: string)
    | Not(inner: Condition)
    | And(left: Condition, right: Condition)

  /** `Variable` to `Bind` declare the variable they name, for the rest of its block. `DeclareParts` is
      the payload of a subject of a constructor, and `Bind` a field of a payload. */
  datatype Code =
    | Do(e: Lowered)
    | Leave(e: Lowered)
    | Throw(e: Lowered)
    | BreakLoop
    | ContinueLoop
    | CIf(cond: Condition, body: seq<Code>)
    | CElseIf(cond: Condition, body: seq<Code>)
    | CElse(body: seq<Code>)
    | CWhile(cond: Condition, body: seq<Code>)
    | Variable(name: string, e: Lowered)
    | DeclareSubject(name: string, e: Lowered, subjectType: SubjectType)
    | DeclareFlag(name: string)
    | DeclareParts(name: string, subject: string, tag: string)
    | Bind(name: string, from: string, field: string)
    | SetFlag(flag: string)
    | Unreachable

  // Which code is well-formed.

  function Introduces(c: Code): set<string> {
    match c
    case Variable(name, _) => {name}
    case DeclareSubject(name, _, _) => {name}
    case DeclareFlag(name) => {name}
    case DeclareParts(name, _, _) => {name}
    case Bind(name, _, _) => {name}
    case _ => {}
  }

  /** The names that code declares in its own block. */
  function Introduced(code: seq<Code>): set<string> {
    if code == [] then {} else Introduces(code[0]) + Introduced(code[1..])
  }

  /** No block declares a name twice or a reserved word, and no `auto&&` is initialized with itself.
      `declared` are the names the block declared before. */
  predicate WellFormed(code: seq<Code>, declared: set<string>)
    decreases code, 1
  {
    code == [] ||
    (&& WellFormedOne(code[0]) && Introduces(code[0]) !! declared
     && WellFormed(code[1..], declared + Introduces(code[0])))
  }

  predicate WellFormedOne(c: Code)
    decreases c, 0
  {
    && (forall name :: name in Introduces(c) ==> !IsReserved(name))
    && match c
       case CIf(_, body) => WellFormed(body, {})
       case CElseIf(_, body) => WellFormed(body, {})
       case CElse(body) => WellFormed(body, {})
       case CWhile(_, body) => WellFormed(body, {})
       case DeclareParts(name, subject, _) => name != subject
       case Bind(name, from, _) => name != from
       case _ => true
  }

  /** What a block declared before only matters by its names. */
  lemma {:induction false} WellFormedApart(code: seq<Code>, declared: set<string>, more: set<string>)
    ensures WellFormed(code, declared + more) <==> WellFormed(code, declared) && Introduced(code) !! more
    decreases code
  {
    if code != [] {
      var here := Introduces(code[0]);
      WellFormedApart(code[1..], declared + here, more);
      assert declared + more + here == declared + here + more;
    }
  }

  lemma {:induction false} WellFormedJoined(p: seq<Code>, r: seq<Code>, declared: set<string>)
    ensures WellFormed(p + r, declared) <==> WellFormed(p, declared) && WellFormed(r, declared + Introduced(p))
    ensures Introduced(p + r) == Introduced(p) + Introduced(r)
    decreases p
  {
    if p == [] {
      assert p + r == r && declared + Introduced(p) == declared;
    } else {
      var here := Introduces(p[0]);
      assert (p + r)[1..] == p[1..] + r && (p + r)[0] == p[0];
      WellFormedJoined(p[1..], r, declared + here);
      assert declared + here + Introduced(p[1..]) == declared + Introduced(p);
    }
  }

  // Running code.

  datatype Run = Run(outcome: Outcome, variables: Variables, flags: Flags)

  /** The value of a condition; `None` when it reads a variable that is not there. */
  function EvalCondition(m: Meaning, c: Condition, variables: Variables, st: State, flags: Flags): Option<Tested> {
    match c
    case Always => Some(Answer(true, st))
    case Holds(e) => Some(m.test(e.id, View(e.names, variables), st))
    case IsVariant(subject, tag) =>
      if subject in variables && variables[subject].Held? then
        var v := variables[subject].subject;
        Some(Answer(v.Tagged? && v.tag == tag, st))
      else None
    case EqualsOperand(subject, operand, carrier, names) =>
      if subject in variables && variables[subject].Held? then
        var value := OperandValue(m, operand, carrier, View(names, variables), st);
        Some(Answer(variables[subject].subject == Number(value), st))
      else None
    case FlagClear(flag) =>
      if flag in variables && variables[flag].Flag? && flag in flags then Some(Answer(!flags[flag], st)) else None
    case Not(inner) =>
      (match EvalCondition(m, inner, variables, st, flags)
       case Some(Answer(holds, after)) => Some(Answer(!holds, after))
       case other => other)
    case And(left, right) =>
      (match EvalCondition(m, left, variables, st, flags)
       case Some(Answer(holds, after)) =>
         if holds then EvalCondition(m, right, variables, after, flags) else Some(Answer(false, after))
       case other => other)
  }

  predicate StartsWithElse(code: seq<Code>) {
    code != [] && (code[0].CElseIf? || code[0].CElse?)
  }

  function Branches(tail: seq<Code>): (n: nat)
    ensures n <= |tail|
  {
    if tail != [] && tail[0].CElseIf? then 1 + Branches(tail[1..])
    else if tail != [] && tail[0].CElse? then 1
    else 0
  }

  function AfterBranches(tail: seq<Code>): seq<Code> {
    tail[Branches(tail)..]
  }

  /** The fields of a payload: of a wrapper, through the subject, or of a case. */
  function FieldsIn(e: Entity): map<string, int> {
    if e.Parts? then e.fields else if e.Held? && e.subject.Tagged? then e.subject.payload else map[]
  }

  /** Runs code in one block; what it declared is in scope at the end. */
  function Exec(m: Meaning, code: seq<Code>, variables: Variables, st: State, flags: Flags, fuel: nat): Run
    decreases fuel, code, 2
  {
    if code == [] then Run(Normal(st), variables, flags)
    else
      var first := if code[0].CIf? then Chain(m, code, variables, st, flags, fuel)
                   else ExecOne(m, code[0], variables, st, flags, fuel);
      var rest := if code[0].CIf? then AfterBranches(code[1..]) else code[1..];
      if first.outcome.Normal? then Exec(m, rest, first.variables, first.outcome.after, first.flags, fuel) else first
  }

  /** A block inside: its variables go out of scope. */
  function Inside(m: Meaning, body: seq<Code>, variables: Variables, st: State, flags: Flags, fuel: nat): Run
    decreases fuel, body, 3
  {
    Exec(m, body, variables, st, flags, fuel).(variables := variables)
  }

  /** The chain that starts at the first statement. */
  function Chain(m: Meaning, code: seq<Code>, variables: Variables, st: State, flags: Flags, fuel: nat): Run
    requires code != [] && (code[0].CIf? || code[0].CElseIf?)
    decreases fuel, code, 1
  {
    match EvalCondition(m, code[0].cond, variables, st, flags)
    case None => Run(Stuck, variables, flags)
    case Some(TestRaises(after)) => Run(Raised(after), variables, flags)
    case Some(Answer(holds, after)) =>
      if holds then Inside(m, code[0].body, variables, after, flags, fuel)
      else OtherBranches(m, code[1..], variables, after, flags, fuel)
  }

  /** What is left of a chain whose conditions failed so far. */
  function OtherBranches(m: Meaning, tail: seq<Code>, variables: Variables, st: State, flags: Flags, fuel: nat): Run
    decreases fuel, tail, 1
  {
    if tail != [] && tail[0].CElseIf? then
      (match EvalCondition(m, tail[0].cond, variables, st, flags)
       case None => Run(Stuck, variables, flags)
       case Some(TestRaises(after)) => Run(Raised(after), variables, flags)
       case Some(Answer(holds, after)) =>
         if holds then Inside(m, tail[0].body, variables, after, flags, fuel)
         else OtherBranches(m, tail[1..], variables, after, flags, fuel))
    else if tail != [] && tail[0].CElse? then Inside(m, tail[0].body, variables, st, flags, fuel)
    else Run(Normal(st), variables, flags)
  }

  /** A variable is in scope in its own initializer, where it has no value yet. */
  function ExecOne(m: Meaning, code: Code, variables: Variables, st: State, flags: Flags, fuel: nat): Run
    decreases fuel, code, 0
  {
    match code
    case Do(e) => Run(m.simple(e.id, View(e.names, variables), st), variables, flags)
    case Leave(e) =>
      var result := m.result(e.id, View(e.names, variables), st);
      Run(Returned(result.0, result.1), variables, flags)
    case Throw(e) => Run(Raised(m.raise(e.id, View(e.names, variables), st)), variables, flags)
    case BreakLoop => Run(Broke(st), variables, flags)
    case ContinueLoop => Run(Continued(st), variables, flags)
    case CWhile(cond, body) => Loop(m, cond, body, variables, st, flags, fuel)
    case Variable(name, e) =>
      (match m.initial(e.id, View(e.names, variables - {name}), st)
       case InitialRaises(after) => Run(Raised(after), variables, flags)
       case Initial(value, after) => Run(Normal(after), variables[name := Plain(value)], flags))
    case DeclareSubject(name, e, ty) =>
      (match m.subject(e.id, ty, View(e.names, variables - {name}), st)
       case SubjectRaises(after) => Run(Raised(after), variables, flags)
       case Got(v, after) => Run(Normal(after), variables[name := Held(v)], flags))
    case DeclareFlag(name) => Run(Normal(st), variables[name := Flag], flags[name := false])
    case DeclareParts(name, subject, tag) =>
      if subject != name && subject in variables && variables[subject].Held? && variables[subject].subject.Tagged?
         && variables[subject].subject.tag == tag
      then Run(Normal(st), variables[name := Parts(variables[subject].subject.payload)], flags)
      else Run(Stuck, variables, flags)
    case Bind(name, from, field) =>
      if from != name && from in variables && field in FieldsIn(variables[from])
      then Run(Normal(st), variables[name := Plain(FieldsIn(variables[from])[field])], flags)
      else Run(Stuck, variables, flags)
    case SetFlag(flag) => Assign(flag, variables, st, flags)
    case _ => Run(Stuck, variables, flags)
  }

  /** `flag = true;` writes whatever variable has that name. */
  function Assign(flag: string, variables: Variables, st: State, flags: Flags): Run {
    if flag in variables && variables[flag].Flag? then Run(Normal(st), variables, flags[flag := true])
    else if flag in variables && variables[flag].Plain? then Run(Normal(st), variables[flag := Plain(1)], flags)
    else Run(Stuck, variables, flags)
  }

  function Loop(m: Meaning, cond: Condition, body: seq<Code>, variables: Variables, st: State, flags: Flags,
                fuel: nat): Run
    decreases fuel, body, 4
  {
    if fuel == 0 then Run(OutOfFuel, variables, flags)
    else match EvalCondition(m, cond, variables, st, flags)
      case None => Run(Stuck, variables, flags)
      case Some(TestRaises(after)) => Run(Raised(after), variables, flags)
      case Some(Answer(holds, after)) =>
        if !holds then Run(Normal(after), variables, flags)
        else
          var once := Inside(m, body, variables, after, flags, fuel);
          match once.outcome
          case Normal(next) => Loop(m, cond, body, variables, next, once.flags, fuel - 1)
          case Continued(next) => Loop(m, cond, body, variables, next, once.flags, fuel - 1)
          case Broke(next) => Run(Normal(next), variables, once.flags)
          case _ => once
  }

  // What running code leaves alone.

  /** The flags that code may declare or set. */
  function Assigned(code: seq<Code>): set<string>
    decreases code, 1
  {
    if code == [] then {} else AssignedIn(code[0]) + Assigned(code[1..])
  }

  function AssignedIn(c: Code): set<string>
    decreases c, 0
  {
    match c
    case CIf(_, body) => Assigned(body)
    case CElseIf(_, body) => Assigned(body)
    case CElse(body) => Assigned(body)
    case CWhile(_, body) => Assigned(body)
    case DeclareFlag(name) => {name}
    case SetFlag(name) => {name}
    case _ => {}
  }

  predicate SameAt<T(==)>(a: map<string, T>, b: map<string, T>, name: string) {
    (name in a <==> name in b) && (name in a ==> a[name] == b[name])
  }

  lemma {:induction false} AssignedAfter(tail: seq<Code>, n: nat, flag: string)
    requires n <= |tail| && flag !in Assigned(tail)
    ensures flag !in Assigned(tail[n..])
    decreases n
  {
    if n > 0 {
      AssignedAfter(tail[1..], n - 1, flag);
      assert tail[1..][n - 1..] == tail[n..];
    } else {
      assert tail[0..] == tail;
    }
  }

  /** Running code leaves the flags of other matches alone. */
  lemma {:induction false} ExecKeeps(m: Meaning, code: seq<Code>, variables: Variables, st: State, flags: Flags,
                                     fuel: nat, flag: string)
    requires flag !in Assigned(code)
    ensures SameAt(flags, Exec(m, code, variables, st, flags, fuel).flags, flag)
    decreases fuel, code, 2
  {
    if code == [] {
    } else if code[0].CIf? {
      var first := Chain(m, code, variables, st, flags, fuel);
      ChainKeeps(m, code, variables, st, flags, fuel, flag);
      AssignedAfter(code[1..], Branches(code[1..]), flag);
      if first.outcome.Normal? {
        ExecKeeps(m, AfterBranches(code[1..]), first.variables, first.outcome.after, first.flags, fuel, flag);
      }
    } else {
      var first := ExecOne(m, code[0], variables, st, flags, fuel);
      ExecOneKeeps(m, code[0], variables, st, flags, fuel, flag);
      if first.outcome.Normal? {
        ExecKeeps(m, code[1..], first.variables, first.outcome.after, first.flags, fuel, flag);
      }
    }
  }

  lemma {:induction false} ChainKeeps(m: Meaning, code: seq<Code>, variables: Variables, st: State, flags: Flags,
                                      fuel: nat, flag: string)
    requires code != [] && code[0].CIf? && flag !in Assigned(code)
    ensures SameAt(flags, Chain(m, code, variables, st, flags, fuel).flags, flag)
    decreases fuel, code, 1
  {
    var c := EvalCondition(m, code[0].cond, variables, st, flags);
    if c.Some? && c.value.Answer? {
      if c.value.holds {
        ExecKeeps(m, code[0].body, variables, c.value.after, flags, fuel, flag);
      } else {
        OthersKeep(m, code[1..], variables, c.value.after, flags, fuel, flag);
      }
    }
  }

  lemma {:induction false} OthersKeep(m: Meaning, tail: seq<Code>, variables: Variables, st: State, flags: Flags,
                                      fuel: nat, flag: string)
    requires flag !in Assigned(tail)
    ensures SameAt(flags, OtherBranches(m, tail, variables, st, flags, fuel).flags, flag)
    decreases fuel, tail, 1
  {
    if tail != [] && tail[0].CElseIf? {
      var c := EvalCondition(m, tail[0].cond, variables, st, flags);
      if c.Some? && c.value.Answer? {
        if c.value.holds {
          ExecKeeps(m, tail[0].body, variables, c.value.after, flags, fuel, flag);
        } else {
          OthersKeep(m, tail[1..], variables, c.value.after, flags, fuel, flag);
        }
      }
    } else if tail != [] && tail[0].CElse? {
      ExecKeeps(m, tail[0].body, variables, st, flags, fuel, flag);
    }
  }

  lemma {:induction false} ExecOneKeeps(m: Meaning, code: Code, variables: Variables, st: State, flags: Flags,
                                        fuel: nat, flag: string)
    requires flag !in AssignedIn(code)
    ensures SameAt(flags, ExecOne(m, code, variables, st, flags, fuel).flags, flag)
    decreases fuel, code, 0
  {
    if code.CWhile? {
      LoopKeeps(m, code.cond, code.body, variables, st, flags, fuel, flag);
    }
  }

  lemma {:induction false} LoopKeeps(m: Meaning, cond: Condition, body: seq<Code>, variables: Variables, st: State,
                                     flags: Flags, fuel: nat, flag: string)
    requires flag !in Assigned(body)
    ensures SameAt(flags, Loop(m, cond, body, variables, st, flags, fuel).flags, flag)
    decreases fuel, body, 4
  {
    if fuel != 0 {
      var c := EvalCondition(m, cond, variables, st, flags);
      if c.Some? && c.value.Answer? && c.value.holds {
        var once := Inside(m, body, variables, c.value.after, flags, fuel);
        ExecKeeps(m, body, variables, c.value.after, flags, fuel, flag);
        if once.outcome.Normal? || once.outcome.Continued? {
          LoopKeeps(m, cond, body, variables, once.outcome.after, once.flags, fuel - 1, flag);
        }
      }
    }
  }

  lemma {:induction false} IntroducedAfter(tail: seq<Code>, n: nat)
    requires n <= |tail|
    ensures Introduced(tail[n..]) <= Introduced(tail)
    decreases n
  {
    if n > 0 {
      IntroducedAfter(tail[1..], n - 1);
      assert tail[1..][n - 1..] == tail[n..];
    } else {
      assert tail[0..] == tail;
    }
  }

  lemma LoopRestores(m: Meaning, cond: Condition, body: seq<Code>, variables: Variables, st: State, flags: Flags,
                     fuel: nat)
    ensures Loop(m, cond, body, variables, st, flags, fuel).variables == variables
    decreases fuel
  {
    if fuel != 0 {
      var c := EvalCondition(m, cond, variables, st, flags);
      if c.Some? && c.value.Answer? && c.value.holds {
        var once := Inside(m, body, variables, c.value.after, flags, fuel);
        if once.outcome.Normal? || once.outcome.Continued? {
          LoopRestores(m, cond, body, variables, once.outcome.after, once.flags, fuel - 1);
        }
      }
    }
  }

  lemma {:induction false} OthersRestore(m: Meaning, tail: seq<Code>, variables: Variables, st: State, flags: Flags,
                                         fuel: nat)
    ensures OtherBranches(m, tail, variables, st, flags, fuel).variables == variables
    decreases tail
  {
    if tail != [] && tail[0].CElseIf? {
      var c := EvalCondition(m, tail[0].cond, variables, st, flags);
      if c.Some? && c.value.Answer? {
        OthersRestore(m, tail[1..], variables, c.value.after, flags, fuel);
      }
    }
  }

  lemma ChainRestores(m: Meaning, code: seq<Code>, variables: Variables, st: State, flags: Flags, fuel: nat)
    requires code != [] && code[0].CIf?
    ensures Chain(m, code, variables, st, flags, fuel).variables == variables
  {
    var c := EvalCondition(m, code[0].cond, variables, st, flags);
    if c.Some? && c.value.Answer? {
      OthersRestore(m, code[1..], variables, c.value.after, flags, fuel);
    }
  }

  lemma ExecOneLeaves(m: Meaning, c: Code, variables: Variables, st: State, flags: Flags, fuel: nat, name: string)
    requires name !in Introduces(c) && name !in AssignedIn(c)
    ensures SameAt(variables, ExecOne(m, c, variables, st, flags, fuel).variables, name)
  {
    if c.CWhile? {
      LoopRestores(m, c.cond, c.body, variables, st, flags, fuel);
    }
  }

  /** Running code leaves alone the variables of its block that it neither declares nor sets as a flag. */
  lemma {:induction false} ExecLeaves(m: Meaning, code: seq<Code>, variables: Variables, st: State, flags: Flags,
                                      fuel: nat, name: string)
    requires name !in Introduced(code) && name !in Assigned(code)
    ensures SameAt(variables, Exec(m, code, variables, st, flags, fuel).variables, name)
    decreases |code|
  {
    if code == [] {
    } else if code[0].CIf? {
      var first := Chain(m, code, variables, st, flags, fuel);
      ChainRestores(m, code, variables, st, flags, fuel);
      IntroducedAfter(code[1..], Branches(code[1..]));
      AssignedAfter(code[1..], Branches(code[1..]), name);
      if first.outcome.Normal? {
        ExecLeaves(m, AfterBranches(code[1..]), first.variables, first.outcome.after, first.flags, fuel, name);
      }
    } else {
      var first := ExecOne(m, code[0], variables, st, flags, fuel);
      ExecOneLeaves(m, code[0], variables, st, flags, fuel, name);
      if first.outcome.Normal? {
        ExecLeaves(m, code[1..], first.variables, first.outcome.after, first.flags, fuel, name);
      }
    }
  }

  // Code after code.

  function Then(m: Meaning, first: Run, rest: seq<Code>, fuel: nat): Run {
    if first.outcome.Normal? then Exec(m, rest, first.variables, first.outcome.after, first.flags, fuel) else first
  }

  lemma {:induction false} BranchesOfJoined(p: seq<Code>, r: seq<Code>)
    requires !StartsWithElse(r)
    ensures Branches(p + r) == Branches(p)
    decreases p
  {
    if p == [] {
      assert p + r == r;
    } else {
      assert (p + r)[1..] == p[1..] + r && (p + r)[0] == p[0];
      BranchesOfJoined(p[1..], r);
    }
  }

  lemma {:induction false} OthersOfJoined(m: Meaning, p: seq<Code>, r: seq<Code>, variables: Variables, st: State,
                                          flags: Flags, fuel: nat)
    requires !StartsWithElse(r)
    ensures OtherBranches(m, p + r, variables, st, flags, fuel) == OtherBranches(m, p, variables, st, flags, fuel)
    decreases p
  {
    if p == [] {
      assert p + r == r;
    } else {
      assert (p + r)[1..] == p[1..] + r && (p + r)[0] == p[0];
      if p[0].CElseIf? {
        var c := EvalCondition(m, p[0].cond, variables, st, flags);
        if c.Some? && c.value.Answer? {
          OthersOfJoined(m, p[1..], r, variables, c.value.after, flags, fuel);
        }
      }
    }
  }

  /** Code followed by code that does not continue its last chain runs one after the other. */
  lemma {:induction false} ExecJoined(m: Meaning, p: seq<Code>, r: seq<Code>, variables: Variables, st: State,
                                      flags: Flags, fuel: nat)
    requires !StartsWithElse(r)
    ensures Exec(m, p + r, variables, st, flags, fuel) == Then(m, Exec(m, p, variables, st, flags, fuel), r, fuel)
    decreases |p|
  {
    if p == [] {
      assert p + r == r;
    } else {
      assert (p + r)[1..] == p[1..] + r && (p + r)[0] == p[0];
      var first := if p[0].CIf? then Chain(m, p, variables, st, flags, fuel)
                   else ExecOne(m, p[0], variables, st, flags, fuel);
      if p[0].CIf? {
        var n := Branches(p[1..]);
        BranchesOfJoined(p[1..], r);
        assert (p[1..] + r)[n..] == p[1..][n..] + r;
        var c := EvalCondition(m, p[0].cond, variables, st, flags);
        if c.Some? && c.value.Answer? {
          OthersOfJoined(m, p[1..], r, variables, c.value.after, flags, fuel);
        }
        if first.outcome.Normal? {
          ExecJoined(m, AfterBranches(p[1..]), r, first.variables, first.outcome.after, first.flags, fuel);
        }
      } else if first.outcome.Normal? {
        ExecJoined(m, p[1..], r, first.variables, first.outcome.after, first.flags, fuel);
      }
    }
  }

  lemma ExecSingle(m: Meaning, c: Code, variables: Variables, st: State, flags: Flags, fuel: nat)
    ensures Exec(m, [c], variables, st, flags, fuel)
         == if c.CIf? then Chain(m, [c], variables, st, flags, fuel) else ExecOne(m, c, variables, st, flags, fuel)
  {
    assert [c][1..] == [];
    assert Branches([]) == 0;
  }

  /** An `if` without other branches. */
  lemma ExecIf(m: Meaning, cond: Condition, body: seq<Code>, rest: seq<Code>, variables: Variables, st: State,
               flags: Flags, fuel: nat)
    requires !StartsWithElse(rest) && EvalCondition(m, cond, variables, st, flags).Some?
    ensures
      var tested := EvalCondition(m, cond, variables, st, flags).value;
      Exec(m, [CIf(cond, body)] + rest, variables, st, flags, fuel) ==
      if tested.TestRaises? then Run(Raised(tested.after), variables, flags)
      else if !tested.holds then Exec(m, rest, variables, tested.after, flags, fuel)
      else Then(m, Inside(m, body, variables, tested.after, flags, fuel), rest, fuel)
  {
    var code := [CIf(cond, body)] + rest;
    assert code[0] == CIf(cond, body) && code[1..] == rest && rest[0..] == rest;
    assert AfterBranches(code[1..]) == rest;
    var tested := EvalCondition(m, cond, variables, st, flags).value;
    assert OtherBranches(m, rest, variables, tested.after, flags, fuel) == Run(Normal(tested.after), variables, flags);
    assert Exec(m, code, variables, st, flags, fuel) == Then(m, Chain(m, code, variables, st, flags, fuel), rest, fuel);
  }

  /** One statement that is no `if`, and the rest. */
  lemma ExecFirst(m: Meaning, c: Code, rest: seq<Code>, variables: Variables, st: State, flags: Flags, fuel: nat)
    requires !c.CIf?
    ensures Exec(m, [c] + rest, variables, st, flags, fuel)
         == Then(m, ExecOne(m, c, variables, st, flags, fuel), rest, fuel)
  {
    var code := [c] + rest;
    assert code[0] == c && code[1..] == rest;
  }
}
