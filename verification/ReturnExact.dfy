/** Which blocks no run completes normally, exactly, and where the return analysis finds them. */
module ReturnExact {
  import opened Wrappers
  import opened Statements
  import opened ReturnAnalysis
  import opened ReturnSoundness
  import opened MatchCheck

  /** The statement ends the run of its block. */
  predicate Ends(s: Stmt) {
    s.Return? || s.Raise? || s.Break? || s.Continue?
  }

  /** The pattern of a case can take the value, when the computed operands in `refused` do not equal it. */
  predicate MayTake(p: Pattern, ty: SubjectType, v: Value, refused: set<nat>) {
    match p
    case Wildcard => true
    case Constructor(tag, _) => v.Tagged? && v.tag == tag
    case Equals(Literal(n)) => ty.PlainType? && v == Number(n)
    case Equals(Computed(id)) => ty.PlainType? && v.Number? && id !in refused
  }

  /** The pattern of a case can leave the value. */
  predicate MayLeave(p: Pattern, ty: SubjectType, v: Value) {
    match p
    case Wildcard => false
    case Constructor(tag, _) => !(v.Tagged? && v.tag == tag)
    case Equals(operand) => !(ty.PlainType? && v.Number? && AlwaysEquals(operand, v.n, ty.carrier))
  }

  /** The operand that did not equal the value. */
  function Refused(p: Pattern): set<nat> {
    if p.Equals? && p.operand.Computed? then {p.operand.id} else {}
  }

  /** No run of the block completes normally. */
  ghost predicate Stops(block: seq<Stmt>)
    decreases block, 3
  {
    if block == [] then false
    else if Ends(block[0]) then true
    else if block[0].If? then (Stops(block[0].body) && BranchesStop(block[1..])) || Stops(AfterChain(block[1..]))
    else (block[0].Match? && MatchStops(block[0].subjectType, block[0].cases)) || Stops(block[1..])
  }

  ghost predicate BranchesStop(tail: seq<Stmt>)
    decreases tail, 1
  {
    && tail != []
    && if tail[0].Elif? then Stops(tail[0].body) && BranchesStop(tail[1..])
       else tail[0].Else? && Stops(tail[0].body)
  }

  /** No value of the type escapes the cases. */
  ghost predicate MatchStops(ty: SubjectType, cases: seq<Stmt>)
    decreases cases, 2
  {
    !exists v :: Conforms(v, ty) && Escapes(cases, ty, v, {})
  }

  /** Some run of the cases on the value completes normally: no case takes it, or one whose body may complete. A
      guard that runs may change what computed operands equal. */
  ghost predicate Escapes(cases: seq<Stmt>, ty: SubjectType, v: Value, refused: set<nat>)
    decreases cases, 1
  {
    if cases == [] then true
    else if !cases[0].Case? then Escapes(cases[1..], ty, v, refused)
    else
      var p := cases[0].pattern;
      || (MayTake(p, ty, v, refused) && !Stops(cases[0].body))
      || (MayTake(p, ty, v, refused) && cases[0].guard.Some? && Escapes(cases[1..], ty, v, {}))
      || (MayLeave(p, ty, v) && Escapes(cases[1..], ty, v, refused + Refused(p)))
  }

  // No run of a block that stops completes normally.

  predicate AreRefused(m: Meaning, refused: set<nat>, ty: SubjectType, v: Value, env: Env, st: State) {
    ty.PlainType? && v.Number? ==> forall id :: id in refused ==> m.constant(id, ty.carrier, env, st) != v.n
  }

  /** What a case does with the value is something it may do. */
  lemma TakesOrLeaves(m: Meaning, p: Pattern, ty: SubjectType, v: Value, refused: set<nat>, env: Env, st: State)
    requires Typed(m) && Conforms(v, ty) && AreRefused(m, refused, ty, v, env, st)
    ensures Matches(m, p, ty, v, env, st) ==> MayTake(p, ty, v, refused)
    ensures !Matches(m, p, ty, v, env, st) ==> MayLeave(p, ty, v) && AreRefused(m, refused + Refused(p), ty, v, env, st)
  {
    if p.Equals? && p.operand.Computed? && ty.PlainType? && v.Number? {
      assert InCarrier(m.constant(p.operand.id, ty.carrier, env, st), ty.carrier);
    }
  }

  lemma {:induction false} StoppedBlock(m: Meaning, block: seq<Stmt>, env: Env, st: State, fuel: nat)
    requires Typed(m) && Stops(block)
    ensures !ExecBlock(m, block, env, st, fuel).Normal?
    decreases block, 3
  {
    if block[0].If? {
      if Stops(block[0].body) && BranchesStop(block[1..]) {
        StoppedChain(m, block, env, st, fuel);
      } else {
        var first := ExecChain(m, block, env, st, fuel);
        if first.Normal? {
          StoppedBlock(m, AfterChain(block[1..]), env, first.after, fuel);
        }
      }
    } else if block[0].Match? && MatchStops(block[0].subjectType, block[0].cases) {
      var subject := m.subject(block[0].subject, block[0].subjectType, env, st);
      if subject.Got? {
        StoppedCases(m, block[0].cases, block[0].subjectType, subject.value, {}, env, subject.after, fuel);
      }
    } else if block[0].Declare? {
      var made := m.initial(block[0].value, InitialEnv(block[0], env), st);
      if made.Initial? {
        StoppedBlock(m, block[1..], BindName(block[0].name, made.value, env), made.after, fuel);
      }
    } else if !Ends(block[0]) {
      var first := ExecStmt(m, block[0], env, st, fuel);
      if first.Normal? {
        StoppedBlock(m, block[1..], env, first.after, fuel);
      }
    }
  }

  lemma {:induction false} StoppedChain(m: Meaning, block: seq<Stmt>, env: Env, st: State, fuel: nat)
    requires block != [] && (block[0].If? || block[0].Elif?)
    requires Typed(m) && Stops(block[0].body) && BranchesStop(block[1..])
    ensures !ExecChain(m, block, env, st, fuel).Normal?
    decreases block, 2
  {
    match m.test(block[0].cond, env, st)
    case TestRaises(_) =>
    case Answer(holds, after) =>
      if holds {
        StoppedBlock(m, block[0].body, env, after, fuel);
      } else if block[1].Elif? {
        StoppedChain(m, block[1..], env, after, fuel);
      } else {
        StoppedBlock(m, block[1].body, env, after, fuel);
      }
  }

  lemma {:induction false} StoppedCases(m: Meaning, cases: seq<Stmt>, ty: SubjectType, v: Value, refused: set<nat>,
                                        env: Env, st: State, fuel: nat)
    requires Typed(m) && Conforms(v, ty) && !Escapes(cases, ty, v, refused) && AreRefused(m, refused, ty, v, env, st)
    ensures !ExecCases(m, cases, ty, v, env, st, fuel).Normal?
    decreases cases, 2
  {
    var c := cases[0];
    if !c.Case? {
      StoppedCases(m, cases[1..], ty, v, refused, env, st, fuel);
    } else {
      TakesOrLeaves(m, c.pattern, ty, v, refused, env, st);
      var inner := Bound(c.pattern, ty, v, env);
      if !Matches(m, c.pattern, ty, v, env, st) {
        StoppedCases(m, cases[1..], ty, v, refused + Refused(c.pattern), env, st, fuel);
      } else if c.guard == None {
        StoppedBlock(m, c.body, inner, st, fuel);
      } else {
        var tested := m.test(c.guard.value, inner, st);
        if tested.Answer? && tested.holds {
          StoppedBlock(m, c.body, inner, tested.after, fuel);
        } else if tested.Answer? {
          StoppedCases(m, cases[1..], ty, v, {}, env, tested.after, fuel);
        }
      }
    }
  }

  // A run of any other block that completes normally. Every test and every subject takes the next choice of a
  // script; the place in the script is the length of the trace.

  /** An answer, the value of a subject, and which computed operands equal it afterwards. */
  datatype Choice = Choice(holds: bool, value: Value, equal: set<nat>)

  function Next(st: State): State {
    st.(trace := st.trace + [0])
  }

  ghost function Constant(last: Choice, id: nat, carrier: Carrier): (n: int)
    ensures carrier != Finite({}) ==> InCarrier(n, carrier)
  {
    if last.value.Number? && id in last.equal && InCarrier(last.value.n, carrier) then last.value.n
    else Other(carrier, last.value)
  }

  function Last(full: nat -> Choice, st: State): Choice {
    full(if st.trace == [] then 0 else |st.trace| - 1)
  }

  ghost function Oracle(full: nat -> Choice): Meaning {
    Meaning((id, env, st) => Normal(st), (id, env, st) => Initial(0, st), (id, env, st) => (0, st), (id, env, st) => st,
            (id, env, st: State) => Answer(full(|st.trace|).holds, Next(st)),
            (id, ty, env, st: State) =>
              if Conforms(full(|st.trace|).value, ty) then Got(full(|st.trace|).value, Next(st)) else SubjectRaises(st),
            (id: nat, carrier, env, st: State) => Constant(Last(full, st), id, carrier))
  }

  lemma OracleIsTyped(full: nat -> Choice)
    ensures Typed(Oracle(full))
  {
    var m := Oracle(full);
    forall id, carrier, env, st | carrier != Finite({}) ensures InCarrier(m.constant(id, carrier, env, st), carrier) {
      assert m.constant(id, carrier, env, st) == Constant(Last(full, st), id, carrier);
    }
  }

  /** The script stands at a place. */
  predicate At(full: nat -> Choice, place: nat, script: seq<Choice>) {
    forall j :: 0 <= j < |script| ==> full(place + j) == script[j]
  }

  lemma AtJoin(full: nat -> Choice, place: nat, a: seq<Choice>, b: seq<Choice>)
    requires At(full, place, a + b)
    ensures At(full, place, a) && At(full, place + |a|, b)
  {
    forall j | 0 <= j < |a| ensures full(place + j) == a[j] {
      assert (a + b)[j] == a[j];
    }
    forall j | 0 <= j < |b| ensures full(place + |a| + j) == b[j] {
      assert (a + b)[|a| + j] == b[j];
    }
  }

  lemma AtFirst(full: nat -> Choice, place: nat, c: Choice, rest: seq<Choice>)
    requires At(full, place, [c] + rest)
    ensures full(place) == c && At(full, place + 1, rest)
  {
    AtJoin(full, place, [c], rest);
    assert ([c] + rest)[0] == c && full(place + 0) == c;
  }

  predicate Reached(o: Outcome, length: nat) {
    o.Normal? && |o.after.trace| == length
  }

  ghost predicate Completes(block: seq<Stmt>, script: seq<Choice>) {
    forall full, env, st: State, fuel: nat {:trigger ExecBlock(Oracle(full), block, env, st, fuel)} ::
      fuel > 0 && At(full, |st.trace|, script)
      ==> Reached(ExecBlock(Oracle(full), block, env, st, fuel), |st.trace| + |script|)
  }

  ghost predicate ChainCompletes(block: seq<Stmt>, script: seq<Choice>)
    requires block != [] && (block[0].If? || block[0].Elif?)
  {
    forall full, env, st: State, fuel: nat {:trigger ExecChain(Oracle(full), block, env, st, fuel)} ::
      fuel > 0 && At(full, |st.trace|, script)
      ==> Reached(ExecChain(Oracle(full), block, env, st, fuel), |st.trace| + |script|)
  }

  ghost predicate StmtCompletes(s: Stmt, script: seq<Choice>) {
    forall full, env, st: State, fuel: nat {:trigger ExecStmt(Oracle(full), s, env, st, fuel)} ::
      fuel > 0 && At(full, |st.trace|, script)
      ==> Reached(ExecStmt(Oracle(full), s, env, st, fuel), |st.trace| + |script|)
  }

  /** The choice before the script says which operands equal the value. */
  predicate After(full: nat -> Choice, place: nat, v: Value, equal: set<nat>) {
    place > 0 && full(place - 1).value == v && full(place - 1).equal == equal
  }

  ghost predicate CasesComplete(cases: seq<Stmt>, ty: SubjectType, v: Value, equal: set<nat>, script: seq<Choice>) {
    forall full, env, st: State, fuel: nat {:trigger ExecCases(Oracle(full), cases, ty, v, env, st, fuel)} ::
      fuel > 0 && After(full, |st.trace|, v, equal) && At(full, |st.trace|, script)
      ==> Reached(ExecCases(Oracle(full), cases, ty, v, env, st, fuel), |st.trace| + |script|)
  }

  lemma IfCompletes(block: seq<Stmt>, chain: seq<Choice>, rest: seq<Choice>)
    requires block != [] && block[0].If? && ChainCompletes(block, chain) && Completes(AfterChain(block[1..]), rest)
    ensures Completes(block, chain + rest)
  {
    forall full, env, st: State, fuel: nat | fuel > 0 && At(full, |st.trace|, chain + rest)
      ensures Reached(ExecBlock(Oracle(full), block, env, st, fuel), |st.trace| + |chain + rest|)
    {
      AtJoin(full, |st.trace|, chain, rest);
      var first := ExecChain(Oracle(full), block, env, st, fuel);
      var last := ExecBlock(Oracle(full), AfterChain(block[1..]), env, first.after, fuel);
      assert Reached(last, |st.trace| + |chain + rest|);
    }
  }

  lemma StmtThenCompletes(block: seq<Stmt>, first: seq<Choice>, rest: seq<Choice>)
    requires block != [] && !block[0].If? && !block[0].Declare?
    requires StmtCompletes(block[0], first) && Completes(block[1..], rest)
    ensures Completes(block, first + rest)
  {
    forall full, env, st: State, fuel: nat | fuel > 0 && At(full, |st.trace|, first + rest)
      ensures Reached(ExecBlock(Oracle(full), block, env, st, fuel), |st.trace| + |first + rest|)
    {
      AtJoin(full, |st.trace|, first, rest);
      var once := ExecStmt(Oracle(full), block[0], env, st, fuel);
      var last := ExecBlock(Oracle(full), block[1..], env, once.after, fuel);
      assert Reached(last, |st.trace| + |first + rest|);
    }
  }

  lemma DeclareCompletes(block: seq<Stmt>, rest: seq<Choice>)
    requires block != [] && block[0].Declare? && Completes(block[1..], rest)
    ensures Completes(block, rest)
  {
    forall full, env, st: State, fuel: nat | fuel > 0 && At(full, |st.trace|, rest)
      ensures Reached(ExecBlock(Oracle(full), block, env, st, fuel), |st.trace| + |rest|)
    {
      var last := ExecBlock(Oracle(full), block[1..], BindName(block[0].name, 0, env), st, fuel);
      assert Reached(last, |st.trace| + |rest|);
    }
  }

  lemma MatchCompletes(s: Stmt, v: Value, equal: set<nat>, cases: seq<Choice>)
    requires s.Match? && Conforms(v, s.subjectType) && CasesComplete(s.cases, s.subjectType, v, equal, cases)
    ensures StmtCompletes(s, [Choice(false, v, equal)] + cases)
  {
    var script := [Choice(false, v, equal)] + cases;
    forall full, env, st: State, fuel: nat | fuel > 0 && At(full, |st.trace|, script)
      ensures Reached(ExecStmt(Oracle(full), s, env, st, fuel), |st.trace| + |script|)
    {
      AtFirst(full, |st.trace|, Choice(false, v, equal), cases);
      var last := ExecCases(Oracle(full), s.cases, s.subjectType, v, env, Next(st), fuel);
      assert Reached(last, |st.trace| + |script|);
    }
  }

  const PLAIN := Number(0)

  lemma WhileCompletes(s: Stmt)
    requires s.While?
    ensures StmtCompletes(s, [Choice(false, PLAIN, {})])
  {
    var script := [Choice(false, PLAIN, {})] + [];
    forall full, env, st: State, fuel: nat | fuel > 0 && At(full, |st.trace|, script)
      ensures Reached(ExecStmt(Oracle(full), s, env, st, fuel), |st.trace| + |script|)
    {
      AtFirst(full, |st.trace|, script[0], []);
    }
  }

  lemma {:induction false} CompletingScript(block: seq<Stmt>) returns (script: seq<Choice>)
    requires !Stops(block)
    ensures Completes(block, script)
    decreases block, 3
  {
    script := [];
    if block != [] && block[0].If? {
      var chain := ChainScript(block);
      var rest := CompletingScript(AfterChain(block[1..]));
      script := chain + rest;
      IfCompletes(block, chain, rest);
    } else if block != [] && block[0].Declare? {
      script := CompletingScript(block[1..]);
      DeclareCompletes(block, script);
    } else if block != [] {
      var first := [];
      if block[0].While? {
        first := [Choice(false, PLAIN, {})];
        WhileCompletes(block[0]);
      } else if block[0].Match? {
        var v :| Conforms(v, block[0].subjectType) && Escapes(block[0].cases, block[0].subjectType, v, {});
        var equal, cases := CasesScript(block[0].cases, block[0].subjectType, v, {});
        first := [Choice(false, v, equal)] + cases;
        MatchCompletes(block[0], v, equal, cases);
      }
      var rest := CompletingScript(block[1..]);
      script := first + rest;
      StmtThenCompletes(block, first, rest);
    }
  }

  lemma BranchTaken(block: seq<Stmt>, v: Value, body: seq<Choice>)
    requires block != [] && (block[0].If? || block[0].Elif?) && Completes(block[0].body, body)
    ensures ChainCompletes(block, [Choice(true, v, {})] + body)
  {
    var script := [Choice(true, v, {})] + body;
    forall full, env, st: State, fuel: nat | fuel > 0 && At(full, |st.trace|, script)
      ensures Reached(ExecChain(Oracle(full), block, env, st, fuel), |st.trace| + |script|)
    {
      AtFirst(full, |st.trace|, Choice(true, v, {}), body);
      var last := ExecBlock(Oracle(full), block[0].body, env, Next(st), fuel);
      assert Reached(last, |st.trace| + |script|);
    }
  }

  /** What completes after the first branch is not taken. */
  ghost predicate TailCompletes(tail: seq<Stmt>, script: seq<Choice>) {
    if tail != [] && tail[0].Elif? then ChainCompletes(tail, script)
    else if tail != [] && tail[0].Else? then Completes(tail[0].body, script)
    else script == []
  }

  lemma BranchLeft(block: seq<Stmt>, v: Value, rest: seq<Choice>)
    requires block != [] && (block[0].If? || block[0].Elif?) && TailCompletes(block[1..], rest)
    ensures ChainCompletes(block, [Choice(false, v, {})] + rest)
  {
    var script := [Choice(false, v, {})] + rest;
    forall full, env, st: State, fuel: nat | fuel > 0 && At(full, |st.trace|, script)
      ensures Reached(ExecChain(Oracle(full), block, env, st, fuel), |st.trace| + |script|)
    {
      AtFirst(full, |st.trace|, Choice(false, v, {}), rest);
      if |block| > 1 && block[1].Elif? {
        assert Reached(ExecChain(Oracle(full), block[1..], env, Next(st), fuel), |st.trace| + |script|);
      } else if |block| > 1 && block[1].Else? {
        assert Reached(ExecBlock(Oracle(full), block[1].body, env, Next(st), fuel), |st.trace| + |script|);
      }
    }
  }

  lemma {:induction false} ChainScript(block: seq<Stmt>) returns (script: seq<Choice>)
    requires block != [] && (block[0].If? || block[0].Elif?) && !(Stops(block[0].body) && BranchesStop(block[1..]))
    ensures ChainCompletes(block, script)
    decreases block, 2
  {
    if !Stops(block[0].body) {
      var body := CompletingScript(block[0].body);
      script := [Choice(true, PLAIN, {})] + body;
      BranchTaken(block, PLAIN, body);
    } else {
      var rest := [];
      if |block| > 1 && block[1].Elif? {
        rest := ChainScript(block[1..]);
      } else if |block| > 1 && block[1].Else? {
        rest := CompletingScript(block[1].body);
      }
      script := [Choice(false, PLAIN, {})] + rest;
      BranchLeft(block, PLAIN, rest);
    }
  }

  // The cases.

  lemma OracleEquals(full: nat -> Choice, id: nat, ty: SubjectType, v: Value, equal: set<nat>, env: Env, st: State)
    requires ty.PlainType? && v.Number? && Conforms(v, ty) && After(full, |st.trace|, v, equal)
    ensures id in equal ==> Oracle(full).constant(id, ty.carrier, env, st) == v.n
    ensures id !in equal && ty.carrier != Finite({v.n}) ==> Oracle(full).constant(id, ty.carrier, env, st) != v.n
  {
    assert Oracle(full).constant(id, ty.carrier, env, st) == Constant(full(|st.trace| - 1), id, ty.carrier);
  }

  /** With these operands equal to the value, the pattern takes it, or leaves it. */
  lemma OracleTakes(full: nat -> Choice, p: Pattern, ty: SubjectType, v: Value, equal: set<nat>, env: Env, st: State)
    requires Conforms(v, ty) && After(full, |st.trace|, v, equal)
    ensures MayTake(p, ty, v, {}) && Refused(p) <= equal ==> Matches(Oracle(full), p, ty, v, env, st)
    ensures MayLeave(p, ty, v) && Refused(p) !! equal ==> !Matches(Oracle(full), p, ty, v, env, st)
  {
    if p.Equals? && p.operand.Computed? && ty.PlainType? && v.Number? {
      OracleEquals(full, p.operand.id, ty, v, equal, env, st);
    }
  }

  lemma NotACase(cases: seq<Stmt>, ty: SubjectType, v: Value, equal: set<nat>, rest: seq<Choice>)
    requires cases != [] && !cases[0].Case? && CasesComplete(cases[1..], ty, v, equal, rest)
    ensures CasesComplete(cases, ty, v, equal, rest)
  {
    forall full, env, st: State, fuel: nat
      | fuel > 0 && After(full, |st.trace|, v, equal) && At(full, |st.trace|, rest)
      ensures Reached(ExecCases(Oracle(full), cases, ty, v, env, st, fuel), |st.trace| + |rest|)
    {
      assert Reached(ExecCases(Oracle(full), cases[1..], ty, v, env, st, fuel), |st.trace| + |rest|);
    }
  }

  lemma CaseLeft(cases: seq<Stmt>, ty: SubjectType, v: Value, equal: set<nat>, rest: seq<Choice>)
    requires cases != [] && cases[0].Case? && CasesComplete(cases[1..], ty, v, equal, rest) && Conforms(v, ty)
    requires MayLeave(cases[0].pattern, ty, v) && Refused(cases[0].pattern) !! equal
    ensures CasesComplete(cases, ty, v, equal, rest)
  {
    forall full, env, st: State, fuel: nat
      | fuel > 0 && After(full, |st.trace|, v, equal) && At(full, |st.trace|, rest)
      ensures Reached(ExecCases(Oracle(full), cases, ty, v, env, st, fuel), |st.trace| + |rest|)
    {
      OracleTakes(full, cases[0].pattern, ty, v, equal, env, st);
      assert Reached(ExecCases(Oracle(full), cases[1..], ty, v, env, st, fuel), |st.trace| + |rest|);
    }
  }

  /** The guard of the case fails, which may change the operands. */
  lemma GuardFails(cases: seq<Stmt>, ty: SubjectType, v: Value, equal: set<nat>, later: set<nat>, rest: seq<Choice>)
    requires cases != [] && cases[0].Case? && cases[0].guard.Some? && Conforms(v, ty)
    requires MayTake(cases[0].pattern, ty, v, {}) && Refused(cases[0].pattern) <= equal
    requires CasesComplete(cases[1..], ty, v, later, rest)
    ensures CasesComplete(cases, ty, v, equal, [Choice(false, v, later)] + rest)
  {
    var script := [Choice(false, v, later)] + rest;
    forall full, env, st: State, fuel: nat
      | fuel > 0 && After(full, |st.trace|, v, equal) && At(full, |st.trace|, script)
      ensures Reached(ExecCases(Oracle(full), cases, ty, v, env, st, fuel), |st.trace| + |script|)
    {
      OracleTakes(full, cases[0].pattern, ty, v, equal, env, st);
      AtFirst(full, |st.trace|, Choice(false, v, later), rest);
      assert Reached(ExecCases(Oracle(full), cases[1..], ty, v, env, Next(st), fuel), |st.trace| + |script|);
    }
  }

  /** The case is taken. */
  lemma CaseTaken(cases: seq<Stmt>, ty: SubjectType, v: Value, equal: set<nat>, body: seq<Choice>)
    requires cases != [] && cases[0].Case? && Completes(cases[0].body, body) && Conforms(v, ty)
    requires MayTake(cases[0].pattern, ty, v, {}) && Refused(cases[0].pattern) <= equal
    ensures CasesComplete(cases, ty, v, equal, (if cases[0].guard.Some? then [Choice(true, v, {})] else []) + body)
  {
    var first := if cases[0].guard.Some? then [Choice(true, v, {})] else [];
    var script := first + body;
    forall full, env, st: State, fuel: nat
      | fuel > 0 && After(full, |st.trace|, v, equal) && At(full, |st.trace|, script)
      ensures Reached(ExecCases(Oracle(full), cases, ty, v, env, st, fuel), |st.trace| + |script|)
    {
      OracleTakes(full, cases[0].pattern, ty, v, equal, env, st);
      AtJoin(full, |st.trace|, first, body);
      if cases[0].guard.Some? {
        AtFirst(full, |st.trace|, Choice(true, v, {}), body);
      }
      var from := if cases[0].guard.Some? then Next(st) else st;
      var last := ExecBlock(Oracle(full), cases[0].body, Bound(cases[0].pattern, ty, v, env), from, fuel);
      assert Reached(last, |st.trace| + |script|);
    }
  }

  lemma {:induction false} CasesScript(cases: seq<Stmt>, ty: SubjectType, v: Value, refused: set<nat>)
    returns (equal: set<nat>, script: seq<Choice>)
    requires Conforms(v, ty) && Escapes(cases, ty, v, refused)
    ensures equal !! refused && CasesComplete(cases, ty, v, equal, script)
    decreases cases, 2
  {
    if cases == [] {
      equal, script := {}, [];
    } else if !cases[0].Case? {
      equal, script := CasesScript(cases[1..], ty, v, refused);
      NotACase(cases, ty, v, equal, script);
    } else {
      var p := cases[0].pattern;
      if MayTake(p, ty, v, refused) && !Stops(cases[0].body) {
        var body := CompletingScript(cases[0].body);
        equal := Refused(p);
        script := (if cases[0].guard.Some? then [Choice(true, v, {})] else []) + body;
        CaseTaken(cases, ty, v, equal, body);
      } else if MayTake(p, ty, v, refused) && cases[0].guard.Some? && Escapes(cases[1..], ty, v, {}) {
        var later, rest := CasesScript(cases[1..], ty, v, {});
        equal := Refused(p);
        script := [Choice(false, v, later)] + rest;
        GuardFails(cases, ty, v, equal, later, rest);
      } else {
        equal, script := CasesScript(cases[1..], ty, v, refused + Refused(p));
        CaseLeft(cases, ty, v, equal, script);
      }
    }
  }

  /** No run of the block completes normally, under any typed meaning of its parts. */
  ghost predicate NeverCompletes(block: seq<Stmt>) {
    forall m: Meaning, env, st, fuel {:trigger ExecBlock(m, block, env, st, fuel)} ::
      Typed(m) ==> !ExecBlock(m, block, env, st, fuel).Normal?
  }

  /** The blocks that stop are exactly the ones that never complete normally. */
  lemma NeverCompletesIff(block: seq<Stmt>)
    ensures Stops(block) <==> NeverCompletes(block)
  {
    if Stops(block) {
      forall m: Meaning, env, st, fuel | Typed(m) ensures !ExecBlock(m, block, env, st, fuel).Normal? {
        StoppedBlock(m, block, env, st, fuel);
      }
    } else {
      var script := CompletingScript(block);
      var full := (n: nat) => if n < |script| then script[n] else Choice(false, PLAIN, {});
      ScriptedRun(block, script, full);
    }
  }

  lemma ScriptedRun(block: seq<Stmt>, script: seq<Choice>, full: nat -> Choice)
    requires Completes(block, script) && At(full, 0, script)
    ensures !NeverCompletes(block)
  {
    var m, env, st, fuel := Oracle(full), map[], State(map[], []), 1;
    OracleIsTyped(full);
    assert Reached(ExecBlock(Oracle(full), block, env, st, fuel), |st.trace| + |script|);
    assert Typed(m) && ExecBlock(m, block, env, st, fuel).Normal?;
  }

  // Where the analysis finds every block that stops.

  /** Some run on the value reaches the case and may take it. */
  predicate Arrives(cases: seq<Stmt>, ty: SubjectType, v: Value, refused: set<nat>, i: nat): (arrives: bool)
    ensures arrives ==> i < |cases| && cases[i].Case?
    decreases cases
  {
    && i < |cases| && cases[0].Case?
    && var p := cases[0].pattern;
       if i == 0 then MayTake(p, ty, v, refused)
       else
         || (MayTake(p, ty, v, refused) && cases[0].guard.Some? && Arrives(cases[1..], ty, v, {}, i - 1))
         || (MayLeave(p, ty, v) && Arrives(cases[1..], ty, v, refused + Refused(p), i - 1))
  }

  /** Some value of the type arrives at the case. */
  ghost predicate Live(ty: SubjectType, cases: seq<Stmt>, i: nat) {
    exists v :: Conforms(v, ty) && Arrives(cases, ty, v, {}, i)
  }

  /** Every case of a match is live, and a match without cases has a value to leave. */
  ghost predicate AllLive(ty: SubjectType, cases: seq<Stmt>) {
    && (forall i :: 0 <= i < |cases| ==> Live(ty, cases, i))
    && (cases == [] ==> exists v :: Conforms(v, ty))
  }

  /** Nothing raises, breaks or continues outside the loops, and no case is dead. */
  ghost predicate Calm(block: seq<Stmt>)
    decreases block, 1
  {
    block == [] || (CalmInside(block[0]) && Calm(block[1..]))
  }

  ghost predicate CalmInside(s: Stmt)
    decreases s, 0
  {
    match s
    case If(_, body) => Calm(body)
    case Elif(_, body) => Calm(body)
    case Else(body) => Calm(body)
    case Case(_, _, _, body) => Calm(body)
    case Match(_, _, ty, cases) => Calm(cases) && AllLive(ty, cases)
    case Raise(_) => false
    case Break => false
    case Continue => false
    case _ => true
  }

  lemma {:induction false} ArrivalEscapes(cases: seq<Stmt>, ty: SubjectType, v: Value, refused: set<nat>, i: nat)
    requires Arrives(cases, ty, v, refused, i) && !Stops(cases[i].body)
    ensures Escapes(cases, ty, v, refused)
    decreases i
  {
    if i > 0 {
      var p := cases[0].pattern;
      if MayTake(p, ty, v, refused) && cases[0].guard.Some? && Arrives(cases[1..], ty, v, {}, i - 1) {
        ArrivalEscapes(cases[1..], ty, v, {}, i - 1);
      } else {
        ArrivalEscapes(cases[1..], ty, v, refused + Refused(p), i - 1);
      }
    }
  }

  lemma {:induction false} CalmAt(block: seq<Stmt>, i: nat)
    requires Calm(block) && i <= |block|
    ensures Calm(block[i..])
    ensures i < |block| ==> CalmInside(block[i])
    decreases i
  {
    if i != 0 {
      CalmAt(block[1..], i - 1);
      assert block[1..][i - 1..] == block[i..];
    } else {
      assert block[0..] == block;
    }
  }

  lemma {:induction false} RejectedCase(cases: seq<Stmt>) returns (i: nat)
    requires !CasesReturn(cases) && forall j :: 0 <= j < |cases| ==> cases[j].Case?
    ensures i < |cases| && !BlockReturns(cases[i].body)
  {
    if !BlockReturns(cases[0].body) {
      i := 0;
    } else {
      var j := RejectedCase(cases[1..]);
      i := j + 1;
    }
  }

  /** A calm block that the analysis rejects may complete normally. */
  lemma {:induction false} RejectedMayComplete(block: seq<Stmt>)
    requires Calm(block) && !BlockReturns(block)
    ensures !Stops(block)
    decreases block, 2
  {
    if block != [] && block[0].If? {
      CalmAt(block[1..], BranchCount(block[1..]));
      RejectedMayComplete(AfterChain(block[1..]));
      if BlockReturns(block[0].body) {
        RejectedBranches(block[1..]);
      } else {
        RejectedMayComplete(block[0].body);
      }
    } else if block != [] {
      RejectedMayComplete(block[1..]);
      if block[0].Match? {
        RejectedMatch(block[0].subjectType, block[0].cases);
      }
    }
  }

  lemma {:induction false} RejectedBranches(tail: seq<Stmt>)
    requires Calm(tail) && !BranchesReturn(tail)
    ensures !BranchesStop(tail)
    decreases tail, 1
  {
    if tail != [] && (tail[0].Elif? || tail[0].Else?) {
      if !BlockReturns(tail[0].body) {
        RejectedMayComplete(tail[0].body);
      } else if tail[0].Elif? {
        RejectedBranches(tail[1..]);
      }
    }
  }

  lemma {:induction false} RejectedMatch(ty: SubjectType, cases: seq<Stmt>)
    requires Calm(cases) && AllLive(ty, cases) && !MatchReturns(cases)
    ensures !MatchStops(ty, cases)
    decreases cases, 1
  {
    if cases == [] {
      var v :| Conforms(v, ty);
      assert Escapes(cases, ty, v, {});
    } else {
      forall j | 0 <= j < |cases| ensures cases[j].Case? {
        assert Live(ty, cases, j);
      }
      var i := RejectedCase(cases);
      CalmAt(cases, i);
      RejectedMayComplete(cases[i].body);
      assert Live(ty, cases, i);
      var v :| Conforms(v, ty) && Arrives(cases, ty, v, {}, i);
      ArrivalEscapes(cases, ty, v, {}, i);
    }
  }

  /** The analysis is exact on calm blocks whose returning matches are exhaustive: it accepts a block exactly
      when no run of it completes normally. */
  lemma AnalysisIsExact(block: seq<Stmt>)
    requires Calm(block) && Exhaustive(block)
    ensures BlockReturns(block) <==> NeverCompletes(block)
  {
    if BlockReturns(block) {
      forall m: Meaning, env, st, fuel | Typed(m) ensures !ExecBlock(m, block, env, st, fuel).Normal? {
        AcceptedBlockNeverFallsThrough(m, block, env, st, fuel);
      }
    } else {
      RejectedMayComplete(block);
      NeverCompletesIff(block);
    }
  }

  // Which cases are live.

  /** The pattern takes the constructor. */
  predicate TakesConstructor(p: Pattern, tag: string) {
    p == Wildcard || (p.Constructor? && p.tag == tag)
  }

  /** On a wrapper or an enumeration a value arrives at a case that takes its constructor, unless an unguarded one
      before does. */
  lemma {:induction false} ConstructorArrives(cases: seq<Stmt>, ty: SubjectType, v: Value, refused: set<nat>, i: nat)
    requires !ty.PlainType? && v.Tagged? && forall j :: 0 <= j < |cases| ==> cases[j].Case?
    ensures Arrives(cases, ty, v, refused, i) <==>
      && i < |cases| && TakesConstructor(cases[i].pattern, v.tag)
      && forall j :: 0 <= j < i ==> cases[j].guard.Some? || !TakesConstructor(cases[j].pattern, v.tag)
    decreases |cases|
  {
    if cases != [] && i > 0 {
      ConstructorArrives(cases[1..], ty, v, {}, i - 1);
      ConstructorArrives(cases[1..], ty, v, refused + Refused(cases[0].pattern), i - 1);
      if i < |cases| {
        assert forall j :: 0 <= j < i - 1 ==> cases[1..][j] == cases[j + 1];
        assert forall j :: 1 <= j < i ==> cases[j] == cases[1..][j - 1];
      }
    }
  }

  /** The case takes a constructor of the type that no unguarded case before takes. */
  predicate ArrivesBy(tag: string, ty: SubjectType, cases: seq<Stmt>, i: nat)
    requires i < |cases| && forall j :: 0 <= j < |cases| ==> cases[j].Case?
  {
    && tag in Tags(ty) && TakesConstructor(cases[i].pattern, tag)
    && forall j :: 0 <= j < i ==> cases[j].guard.Some? || !TakesConstructor(cases[j].pattern, tag)
  }

  /** So a case is live exactly when it takes a constructor that no unguarded case before takes. */
  lemma LiveIff(ty: SubjectType, cases: seq<Stmt>, i: nat)
    requires !ty.PlainType? && i < |cases| && forall j :: 0 <= j < |cases| ==> cases[j].Case?
    ensures Live(ty, cases, i) <==> exists tag :: ArrivesBy(tag, ty, cases, i)
  {
    if Live(ty, cases, i) {
      var v :| Conforms(v, ty) && Arrives(cases, ty, v, {}, i);
      ConstructorArrives(cases, ty, v, {}, i);
      assert ArrivesBy(v.tag, ty, cases, i);
    }
    if tag :| ArrivesBy(tag, ty, cases, i) {
      var v := Tagged(tag, map f | f in FieldsOf(VariantsOf(ty), tag) :: 0);
      ConstructorArrives(cases, ty, v, {}, i);
      assert Conforms(v, ty);
    }
  }

  /** Every constructor's case of an accepted match is live. */
  lemma AcceptedConstructorIsLive(ty: SubjectType, cases: seq<Stmt>, i: nat)
    requires !ty.PlainType? && AcceptsMatch(ty, cases) && i < |cases|
    ensures cases[i].Case? && (cases[i].pattern.Constructor? ==> Live(ty, cases, i))
  {
    AcceptsIff(ty, cases);
    assert Proper(ty, cases, i);
    if cases[i].pattern.Constructor? {
      forall j | 0 <= j < |cases| ensures cases[j].Case? {
        assert Proper(ty, cases, j);
      }
      assert ArrivesBy(cases[i].pattern.tag, ty, cases, i);
      LiveIff(ty, cases, i);
    }
  }

  lemma AcceptedStops(block: seq<Stmt>)
    requires BlockReturns(block) && Exhaustive(block)
    ensures Stops(block)
  {
    forall m: Meaning, env, st, fuel | Typed(m) ensures !ExecBlock(m, block, env, st, fuel).Normal? {
      AcceptedBlockNeverFallsThrough(m, block, env, st, fuel);
    }
    NeverCompletesIff(block);
  }

  /** What returning cases take does not reach a case after them. */
  lemma {:induction false} TakenStops(cases: seq<Stmt>, c: Stmt, ty: SubjectType, v: Value, refused: set<nat>)
    requires CasesReturn(cases) && Exhaustive(cases) && Takes(cases, ty, v)
    ensures !Escapes(cases + [c], ty, v, refused)
    decreases |cases|
  {
    var p := cases[0].pattern;
    TakesStep(cases, ty, v);
    AcceptedStops(cases[0].body);
    assert (cases + [c])[0] == cases[0] && (cases + [c])[1..] == cases[1..] + [c];
    if !TakesAt(cases[0], ty, v) {
      TakenStops(cases[1..], c, ty, v, {});
      TakenStops(cases[1..], c, ty, v, refused + Refused(p));
    }
  }

  lemma {:induction false} CoveredInFront(cases: seq<Stmt>, c: Stmt, k: nat)
    requires k <= |cases|
    ensures CoveredBefore(cases + [c], k) == CoveredBefore(cases, k)
  {
    if k > 0 {
      CoveredInFront(cases, c, k - 1);
      CoveredNext(cases, k - 1);
      CoveredNext(cases + [c], k - 1);
    }
  }

  lemma ProperInFront(ty: SubjectType, cases: seq<Stmt>, c: Stmt, k: nat)
    requires k < |cases| && Proper(ty, cases, k)
    ensures Proper(ty, cases + [c], k)
  {
    assert (cases + [c])[k] == cases[k] && forall j :: 0 <= j < k ==> (cases + [c])[j] == cases[j];
    CoveredInFront(cases, c, k);
  }

  lemma ProperAtEnd(ty: SubjectType, cases: seq<Stmt>, c: Stmt)
    requires !HasCatchAll(cases) && c.Case? && c.guard.Some? && c.pattern == Wildcard
    ensures Proper(ty, cases + [c], |cases|)
  {
    assert forall j :: 0 <= j < |cases| ==> (cases + [c])[j] == cases[j] && !CatchesAll(cases[j]);
  }

  lemma StillFinished(ty: SubjectType, cases: seq<Stmt>, c: Stmt)
    requires Finished(ty, cases) && !HasCatchAll(cases) && c.Case? && c.guard.Some?
    ensures Finished(ty, cases + [c])
  {
    CoveredNext(cases + [c], |cases|);
    CoveredInFront(cases, c, |cases|);
  }

  lemma DeadCaseIsAccepted(ty: SubjectType, cases: seq<Stmt>, c: Stmt)
    requires AcceptsMatch(ty, cases) && !HasCatchAll(cases)
    requires c.Case? && c.guard.Some? && c.pattern == Wildcard
    ensures AcceptsMatch(ty, cases + [c])
  {
    AcceptsIff(ty, cases);
    forall k | 0 <= k <= |cases| ensures Proper(ty, cases + [c], k) {
      if k < |cases| {
        ProperInFront(ty, cases, c, k);
      } else {
        ProperAtEnd(ty, cases, c);
      }
    }
    StillFinished(ty, cases, c);
    AcceptsIff(ty, cases + [c]);
  }

  lemma {:induction false} CasesReturnAt(cases: seq<Stmt>, i: nat)
    requires CasesReturn(cases) && i < |cases|
    ensures cases[i].Case? && BlockReturns(cases[i].body)
  {
    if i > 0 {
      CasesReturnAt(cases[1..], i - 1);
    }
  }

  /** A dead case is not seen: when every constructor has a case that returns, a guarded `_` that does not return
      may still follow, and no run completes normally although the analysis says that one may. */
  lemma DeadCaseIsRejected(at: Location, subject: nat, ty: SubjectType, cases: seq<Stmt>, c: Stmt)
    requires !ty.PlainType? && AcceptsMatch(ty, cases) && !HasCatchAll(cases) && CasesReturn(cases) && Exhaustive(cases)
    requires c.Case? && c.guard.Some? && c.pattern == Wildcard && !BlockReturns(c.body)
    ensures AcceptsMatch(ty, cases + [c])
    ensures var block := [Match(at, subject, ty, cases + [c])]; Stops(block) && !BlockReturns(block)
  {
    var all := cases + [c];
    var block := [Match(at, subject, ty, all)];
    DeadCaseIsAccepted(ty, cases, c);
    AcceptedMatchCovers(ty, cases);
    forall v | Conforms(v, ty) ensures !Escapes(all, ty, v, {}) {
      CoveredValuesAreTaken(ty, cases, v);
      TakenStops(cases, c, ty, v, {});
    }
    assert MatchStops(ty, all);
    if CasesReturn(all) {
      CasesReturnAt(all, |cases|);
    }
    assert block[1..] == [];
  }

  /** A statement that raises, breaks or continues stops the block, but does not return. */
  lemma EndingIsNotReturning(s: Stmt)
    requires Ends(s) && !s.Return?
    ensures Stops([s]) && !BlockReturns([s])
  {
    assert [s][1..] == [];
  }
}
