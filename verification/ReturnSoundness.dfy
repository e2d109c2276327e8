/** The return analysis is sound on blocks whose matches are exhaustive, and exhaustive matches are
    exactly the ones that always run a case. */
module ReturnSoundness {
  import opened Wrappers
  import opened Statements
  import opened ReturnAnalysis

  predicate Unguarded(c: Stmt) {
    c.Case? && c.guard == None
  }

  /** Some case without a guard takes everything. */
  predicate HasCatchAll(cases: seq<Stmt>) {
    exists i :: 0 <= i < |cases| && Unguarded(cases[i]) && cases[i].pattern == Wildcard
  }

  /** Some case without a guard takes the constructor. */
  predicate TakesTag(cases: seq<Stmt>, tag: string) {
    exists i :: 0 <= i < |cases| && Unguarded(cases[i]) && cases[i].pattern.Constructor? && cases[i].pattern.tag == tag
  }

  /** The operand has this value in every run: as a literal, or as the only value of the type. */
  predicate AlwaysEquals(operand: Operand, n: int, carrier: Carrier) {
    operand == Literal(n) || (operand.Computed? && carrier == Finite({n}))
  }

  /** Some case without a guard takes the number. */
  predicate TakesNumber(cases: seq<Stmt>, n: int, carrier: Carrier) {
    exists i :: 0 <= i < |cases| && Unguarded(cases[i]) && cases[i].pattern.Equals? &&
                AlwaysEquals(cases[i].pattern.operand, n, carrier)
  }

  /** Exhaustive: a catch-all, or an unguarded case for each constructor of the subject's type, or for
      each of its values when they are finitely many. */
  predicate Covers(ty: SubjectType, cases: seq<Stmt>) {
    HasCatchAll(cases) ||
    match ty
    case PlainType(carrier) =>
      carrier.Finite? && forall n :: n in carrier.values ==> TakesNumber(cases, n, carrier)
    case _ => forall k :: 0 <= k < |VariantsOf(ty)| ==> TakesTag(cases, VariantsOf(ty)[k].name)
  }

  /** Every match whose cases all return is exhaustive, at any depth. */
  predicate Exhaustive(block: seq<Stmt>)
    decreases block, 1
  {
    block == [] || (ExhaustiveInside(block[0]) && Exhaustive(block[1..]))
  }

  predicate ExhaustiveInside(s: Stmt)
    decreases s, 0
  {
    match s
    case If(_, body) => Exhaustive(body)
    case Elif(_, body) => Exhaustive(body)
    case Else(body) => Exhaustive(body)
    case While(_, body) => Exhaustive(body)
    case Case(_, _, _, body) => Exhaustive(body)
    case Match(_, _, ty, cases) => Exhaustive(cases) && (MatchReturns(cases) ==> Covers(ty, cases))
    case _ => true
  }

  /** An unguarded case that takes this value, whatever the state. */
  predicate Takes(cases: seq<Stmt>, ty: SubjectType, v: Value) {
    HasCatchAll(cases) ||
    match v
    case Tagged(tag, _) => TakesTag(cases, tag)
    case Number(n) => ty.PlainType? && TakesNumber(cases, n, ty.carrier)
  }

  lemma CoveredValuesAreTaken(ty: SubjectType, cases: seq<Stmt>, v: Value)
    requires Covers(ty, cases) && Conforms(v, ty)
    ensures Takes(cases, ty, v)
  {
  }

  /** The unguarded case at a position takes the value. */
  predicate TakesAt(c: Stmt, ty: SubjectType, v: Value) {
    && Unguarded(c)
    && (|| c.pattern == Wildcard
        || (v.Tagged? && c.pattern.Constructor? && c.pattern.tag == v.tag)
        || (v.Number? && ty.PlainType? && c.pattern.Equals? && AlwaysEquals(c.pattern.operand, v.n, ty.carrier)))
  }

  lemma TakesSomewhere(cases: seq<Stmt>, ty: SubjectType, v: Value)
    ensures Takes(cases, ty, v) <==> exists i :: 0 <= i < |cases| && TakesAt(cases[i], ty, v)
  {
    if Takes(cases, ty, v) {
      if HasCatchAll(cases) {
        var i :| 0 <= i < |cases| && Unguarded(cases[i]) && cases[i].pattern == Wildcard;
        assert TakesAt(cases[i], ty, v);
      } else if v.Tagged? {
        var i :| 0 <= i < |cases| && Unguarded(cases[i]) && cases[i].pattern.Constructor?
          && cases[i].pattern.tag == v.tag;
        assert TakesAt(cases[i], ty, v);
      } else {
        var i :| 0 <= i < |cases| && Unguarded(cases[i]) && cases[i].pattern.Equals? &&
                 AlwaysEquals(cases[i].pattern.operand, v.n, ty.carrier);
        assert TakesAt(cases[i], ty, v);
      }
    }
  }

  lemma TakesStep(cases: seq<Stmt>, ty: SubjectType, v: Value)
    requires cases != []
    ensures Takes(cases, ty, v) <==> TakesAt(cases[0], ty, v) || Takes(cases[1..], ty, v)
  {
    TakesSomewhere(cases, ty, v);
    TakesSomewhere(cases[1..], ty, v);
    forall i | 1 <= i < |cases| ensures cases[i] == cases[1..][i - 1] {
    }
    if Takes(cases[1..], ty, v) {
      var i :| 0 <= i < |cases[1..]| && TakesAt(cases[1..][i], ty, v);
      assert TakesAt(cases[i + 1], ty, v);
    }
  }

  /** A case that takes a value matches it, whatever the state. */
  lemma TakenMatches(m: Meaning, c: Stmt, ty: SubjectType, v: Value, env: Env, st: State)
    requires Typed(m) && Conforms(v, ty) && TakesAt(c, ty, v)
    ensures Matches(m, c.pattern, ty, v, env, st)
  {
    if c.pattern.Equals? && c.pattern.operand.Computed? {
      assert InCarrier(m.constant(c.pattern.operand.id, ty.carrier, env, st), ty.carrier);
    }
  }

  lemma {:induction false} ExhaustiveAt(block: seq<Stmt>, i: nat)
    requires Exhaustive(block) && i <= |block|
    ensures Exhaustive(block[i..])
    ensures i < |block| ==> ExhaustiveInside(block[i])
    decreases |block|
  {
    if i != 0 {
      ExhaustiveAt(block[1..], i - 1);
      assert block[1..][i - 1..] == block[i..];
    } else {
      assert block[0..] == block;
    }
  }

  /** The return analysis is sound: no run of an accepted block completes normally. */
  lemma {:induction false} AcceptedBlockNeverFallsThrough(m: Meaning, block: seq<Stmt>, env: Env, st: State, fuel: nat)
    requires Typed(m) && Exhaustive(block) && BlockReturns(block)
    ensures !ExecBlock(m, block, env, st, fuel).Normal?
    decreases block, 2
  {
    if block[0].If? {
      var rest := AfterChain(block[1..]);
      if ChainReturns(block) {
        AcceptedChainNeverFallsThrough(m, block, env, st, fuel);
      } else {
        var first := ExecChain(m, block, env, st, fuel);
        ExhaustiveAt(block[1..], BranchCount(block[1..]));
        if first.Normal? {
          AcceptedBlockNeverFallsThrough(m, rest, env, first.after, fuel);
        }
      }
    } else if block[0].Match? && MatchReturns(block[0].cases) {
      AcceptedMatchNeverFallsThrough(m, block[0], env, st, fuel);
    } else if block[0].Declare? {
      var made := m.initial(block[0].value, InitialEnv(block[0], env), st);
      if made.Initial? {
        var next := BindName(block[0].name, made.value, env);
        AcceptedBlockNeverFallsThrough(m, block[1..], next, made.after, fuel);
      }
    } else if !block[0].Return? {
      var first := ExecStmt(m, block[0], env, st, fuel);
      if first.Normal? {
        AcceptedBlockNeverFallsThrough(m, block[1..], env, first.after, fuel);
      }
    }
  }

  lemma {:induction false} AcceptedChainNeverFallsThrough(m: Meaning, block: seq<Stmt>, env: Env, st: State, fuel: nat)
    requires block != [] && (block[0].If? || block[0].Elif?)
    requires Typed(m) && Exhaustive(block) && BlockReturns(block[0].body) && BranchesReturn(block[1..])
    ensures !ExecChain(m, block, env, st, fuel).Normal?
    decreases block, 1
  {
    match m.test(block[0].cond, env, st)
    case TestRaises(_) =>
    case Answer(holds, after) =>
      if holds {
        AcceptedBlockNeverFallsThrough(m, block[0].body, env, after, fuel);
      } else if block[1].Elif? {
        AcceptedChainNeverFallsThrough(m, block[1..], env, after, fuel);
      } else {
        ExhaustiveAt(block, 1);
        AcceptedBlockNeverFallsThrough(m, block[1].body, env, after, fuel);
      }
  }

  lemma {:induction false} AcceptedMatchNeverFallsThrough(m: Meaning, s: Stmt, env: Env, st: State, fuel: nat)
    requires s.Match? && Typed(m) && ExhaustiveInside(s) && MatchReturns(s.cases)
    ensures !ExecStmt(m, s, env, st, fuel).Normal?
    decreases s, 1
  {
    var subject := m.subject(s.subject, s.subjectType, env, st);
    if subject.Got? {
      CoveredValuesAreTaken(s.subjectType, s.cases, subject.value);
      AcceptedCasesNeverFallThrough(m, s.cases, s.subjectType, subject.value, env, subject.after, fuel);
    }
  }

  lemma {:induction false} AcceptedCasesNeverFallThrough(m: Meaning, cases: seq<Stmt>, ty: SubjectType, v: Value,
                                                         env: Env, st: State, fuel: nat)
    requires Typed(m) && Exhaustive(cases) && CasesReturn(cases) && Conforms(v, ty) && Takes(cases, ty, v)
    ensures !ExecCases(m, cases, ty, v, env, st, fuel).Normal?
    decreases cases, 3
  {
    var c := cases[0];
    TakesStep(cases, ty, v);
    if TakesAt(c, ty, v) {
      TakenMatches(m, c, ty, v, env, st);
    }
    if !Matches(m, c.pattern, ty, v, env, st) {
      AcceptedCasesNeverFallThrough(m, cases[1..], ty, v, env, st, fuel);
    } else {
      var inner := Bound(c.pattern, ty, v, env);
      var tested := if c.guard == None then Answer(true, st) else m.test(c.guard.value, inner, st);
      if tested.Answer? && tested.holds {
        AcceptedBlockNeverFallsThrough(m, c.body, inner, tested.after, fuel);
      } else if tested.Answer? {
        AcceptedCasesNeverFallThrough(m, cases[1..], ty, v, env, tested.after, fuel);
      }
    }
  }

  /** A value of the type other than `v`, if it has one. */
  ghost function Other(carrier: Carrier, v: Value): (n: int)
    ensures carrier != Finite({}) ==> InCarrier(n, carrier)
    ensures v.Number? && InCarrier(v.n, carrier) && carrier != Finite({v.n}) ==> n != v.n
  {
    var taken := if v.Number? then v.n else 0;
    match carrier
    case Unbounded => taken + 1
    case Finite(values) =>
      if exists n :: n in values && n != taken then
        var n :| n in values && n != taken; n
      else
        assert forall n :: n in values ==> n == taken;
        assert taken in values ==> values == {taken};
        taken
  }

  /** A meaning under which subjects are `v`, every guard fails and no computed operand equals `v` as
      long as its type has another value. */
  ghost function Refusing(v: Value): Meaning {
    Meaning((id, env, st) => Normal(st), (id, env, st) => Initial(0, st), (id, env, st) => (0, st), (id, env, st) => st,
            (id, env, st) => Answer(false, st),
            (id, ty, env, st) => if Conforms(v, ty) then Got(v, st) else SubjectRaises(st),
            (id, carrier, env, st) => Other(carrier, v))
  }

  lemma {:induction false} RefusedCases(cases: seq<Stmt>, ty: SubjectType, v: Value, env: Env, st: State, fuel: nat)
    requires Conforms(v, ty) && !Takes(cases, ty, v)
    ensures ExecCases(Refusing(v), cases, ty, v, env, st, fuel) == Normal(st)
    decreases cases
  {
    if cases != [] {
      TakesStep(cases, ty, v);
      RefusedCases(cases[1..], ty, v, env, st, fuel);
    }
  }

  /** A number above every literal. */
  function AboveLiterals(cases: seq<Stmt>): int {
    if cases == [] then 0
    else
      var rest := AboveLiterals(cases[1..]);
      var c := cases[0];
      if c.Case? && c.pattern.Equals? && c.pattern.operand.Literal? && c.pattern.operand.n >= rest
      then c.pattern.operand.n + 1 else rest
  }

  lemma {:induction false} NoLiteralAbove(cases: seq<Stmt>, n: int)
    requires n >= AboveLiterals(cases)
    ensures !TakesNumber(cases, n, Unbounded)
  {
    if cases != [] {
      NoLiteralAbove(cases[1..], n);
      forall i | 0 <= i < |cases| && Unguarded(cases[i]) && cases[i].pattern.Equals?
        ensures !AlwaysEquals(cases[i].pattern.operand, n, Unbounded)
      {
        if i > 0 {
          assert cases[1..][i - 1] == cases[i];
        }
      }
    }
  }

  /** A value of the subject's type that no unguarded case takes. */
  lemma UntakenValue(ty: SubjectType, cases: seq<Stmt>) returns (v: Value)
    requires !Covers(ty, cases)
    ensures Conforms(v, ty) && !Takes(cases, ty, v)
  {
    if ty.PlainType? && ty.carrier.Unbounded? {
      v := Number(AboveLiterals(cases));
      NoLiteralAbove(cases, v.n);
    } else if ty.PlainType? {
      var n :| n in ty.carrier.values && !TakesNumber(cases, n, ty.carrier);
      v := Number(n);
    } else {
      var k :| 0 <= k < |VariantsOf(ty)| && !TakesTag(cases, VariantsOf(ty)[k].name);
      var tag := VariantsOf(ty)[k].name;
      v := Tagged(tag, map f | f in FieldsOf(VariantsOf(ty), tag) :: 0);
      assert VariantsOf(ty)[k].name == tag;
    }
  }

  /** A match whose cases all return never falls through, under any meaning of its computed parts and
      for any value of its subject's type, exactly when it is exhaustive. On a type without bound only
      a catch-all makes it so. */
  lemma NeverFallsThroughIffCovers(ty: SubjectType, cases: seq<Stmt>)
    requires MatchReturns(cases) && Exhaustive(cases)
    ensures Covers(ty, cases) <==>
      forall m: Meaning, v, env, st, fuel :: Typed(m) && Conforms(v, ty) ==>
        !ExecCases(m, cases, ty, v, env, st, fuel).Normal?
    ensures ty == PlainType(Unbounded) ==> (Covers(ty, cases) <==> HasCatchAll(cases))
  {
    if Covers(ty, cases) {
      forall m: Meaning, v, env, st, fuel | Typed(m) && Conforms(v, ty)
        ensures !ExecCases(m, cases, ty, v, env, st, fuel).Normal?
      {
        CoveredValuesAreTaken(ty, cases, v);
        AcceptedCasesNeverFallThrough(m, cases, ty, v, env, st, fuel);
      }
    } else {
      var v := UntakenValue(ty, cases);
      RefusedCases(cases, ty, v, map[], State(map[], []), 0);
      RefusingIsTyped(v);
    }
  }

  lemma RefusingIsTyped(v: Value)
    ensures Typed(Refusing(v))
  {
  }
}
