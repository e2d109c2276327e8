/** The checks semantic analysis makes on the cases of a match. */
module MatchCheck {
  import opened Wrappers
  import opened Statements
  import ReturnAnalysis
  import opened ReturnSoundness

  function Tags(ty: SubjectType): set<string> {
    set v | v in VariantsOf(ty) :: v.name
  }

  /** What is left to check after some cases: `covered` are the constructors with an unguarded case,
      `caught` says that an unguarded `_` was seen. An enumeration is exhausted when as many
      constructors are covered as it declares, a wrapper when its two are. Plain values are never
      required to be exhausted. */
  predicate Accepts(ty: SubjectType, cases: seq<Stmt>, covered: set<string>, caught: bool)
    decreases cases
  {
    if cases == [] then caught || ty.PlainType? || |covered| == |VariantsOf(ty)|
    else
      && cases[0].Case? && !caught
      && var unguarded := cases[0].guard == None;
         match cases[0].pattern
         case Wildcard =>
           && !(unguarded && !ty.PlainType? && |covered| == |VariantsOf(ty)|)
           && Accepts(ty, cases[1..], covered, unguarded)
         case Constructor(tag, _) =>
           if ty.PlainType? then Accepts(ty, cases[1..], covered, false)
           else
             && tag in Tags(ty) && tag !in covered
             && Accepts(ty, cases[1..], if unguarded then covered + {tag} else covered, false)
         case Equals(_) => ty.PlainType? && Accepts(ty, cases[1..], covered, false)
  }

  predicate AcceptsMatch(ty: SubjectType, cases: seq<Stmt>) {
    Accepts(ty, cases, {}, false)
  }

  method CheckMatch(ty: SubjectType, cases: seq<Stmt>) returns (accepted: bool)
    ensures accepted == AcceptsMatch(ty, cases)
  {
    var covered: set<string> := {};
    var caught := false;
    var i := 0;
    assert cases[0..] == cases;
    while i < |cases|
      invariant 0 <= i <= |cases|
      invariant AcceptsMatch(ty, cases) == Accepts(ty, cases[i..], covered, caught)
    {
      assert cases[i..][0] == cases[i] && cases[i..][1..] == cases[i + 1..];
      if !cases[i].Case? || caught {
        return false;
      }
      var unguarded := cases[i].guard == None;
      match cases[i].pattern {
        case Wildcard =>
          if unguarded {
            if !ty.PlainType? && |covered| == |VariantsOf(ty)| {
              return false;
            }
            caught := true;
          }
        case Constructor(tag, _) =>
          if !ty.PlainType? {
            if tag !in Tags(ty) || tag in covered {
              return false;
            }
            if unguarded {
              covered := covered + {tag};
            }
          }
        case Equals(_) =>
          if !ty.PlainType? {
            return false;
          }
      }
      i := i + 1;
    }
    accepted := caught || ty.PlainType? || |covered| == |VariantsOf(ty)|;
  }

  lemma {:induction false} TagsAreFew(variants: seq<Variant>)
    ensures |set v | v in variants :: v.name| <= |variants|
  {
    var names := set v | v in variants :: v.name;
    if variants != [] {
      TagsAreFew(variants[1..]);
      var rest := set v | v in variants[1..] :: v.name;
      assert variants == [variants[0]] + variants[1..];
      assert names == rest + {variants[0].name};
    }
  }

  lemma FullSubset(a: set<string>, b: set<string>)
    requires a <= b && |a| >= |b|
    ensures a == b
  {
    if a != b {
      var x :| x in b && x !in a;
      assert a <= b - {x};
      SubsetSize(a, b - {x});
    }
  }

  lemma {:induction false} SubsetSize(a: set<string>, b: set<string>)
    requires a <= b
    ensures |a| <= |b|
    decreases a
  {
    if a != {} {
      var x :| x in a;
      SubsetSize(a - {x}, b - {x});
    }
  }

  // Exactly which matches are accepted.

  /** The constructors that the first `n` cases take without a guard. */
  function CoveredBefore(cases: seq<Stmt>, n: nat): set<string>
    requires n <= |cases|
  {
    set i | 0 <= i < n && Unguarded(cases[i]) && cases[i].pattern.Constructor? :: cases[i].pattern.tag
  }

  /** Every constructor is covered, and no two share a name. */
  predicate AllCovered(ty: SubjectType, covered: set<string>) {
    covered == Tags(ty) && |Tags(ty)| == |VariantsOf(ty)|
  }

  predicate CatchesAll(c: Stmt) {
    Unguarded(c) && c.pattern == Wildcard
  }

  /** A case may stand at its place: nothing follows a catch-all, a catch-all still has something to take, and a
      constructor is one of the type that is not covered before. */
  predicate Proper(ty: SubjectType, cases: seq<Stmt>, i: nat)
    requires i < |cases|
  {
    && cases[i].Case? && (forall j :: 0 <= j < i ==> !CatchesAll(cases[j]))
    && match cases[i].pattern
       case Wildcard => ty.PlainType? || cases[i].guard.Some? || !AllCovered(ty, CoveredBefore(cases, i))
       case Constructor(tag, _) => ty.PlainType? || (tag in Tags(ty) && tag !in CoveredBefore(cases, i))
       case Equals(_) => ty.PlainType?
  }

  /** Nothing is left: a catch-all, or all constructors; of plain values nothing is asked. */
  predicate Finished(ty: SubjectType, cases: seq<Stmt>) {
    HasCatchAll(cases) || ty.PlainType? || AllCovered(ty, CoveredBefore(cases, |cases|))
  }

  lemma CountMeansAll(ty: SubjectType, covered: set<string>)
    requires covered <= Tags(ty)
    ensures |covered| == |VariantsOf(ty)| <==> AllCovered(ty, covered)
  {
    TagsAreFew(VariantsOf(ty));
    SubsetSize(covered, Tags(ty));
    if |covered| == |VariantsOf(ty)| {
      FullSubset(covered, Tags(ty));
    }
  }

  lemma CoveredNext(cases: seq<Stmt>, i: nat)
    requires i < |cases|
    ensures CoveredBefore(cases, i + 1)
         == CoveredBefore(cases, i)
            + if Unguarded(cases[i]) && cases[i].pattern.Constructor? then {cases[i].pattern.tag} else {}
  {
  }

  function CoveredWith(ty: SubjectType, covered: set<string>, c: Stmt): set<string> {
    if !ty.PlainType? && Unguarded(c) && c.pattern.Constructor? then covered + {c.pattern.tag} else covered
  }

  /** The checks so far have seen the first `i` cases. */
  predicate SeenBefore(ty: SubjectType, cases: seq<Stmt>, i: nat, covered: set<string>, caught: bool)
    requires i <= |cases|
  {
    && caught == (exists j :: 0 <= j < i && CatchesAll(cases[j]))
    && (!ty.PlainType? ==> covered == CoveredBefore(cases, i) && covered <= Tags(ty))
  }

  lemma AcceptsStep(ty: SubjectType, cases: seq<Stmt>, i: nat, covered: set<string>, caught: bool)
    requires i < |cases| && SeenBefore(ty, cases, i, covered, caught)
    ensures Accepts(ty, cases[i..], covered, caught) <==>
      Proper(ty, cases, i) && Accepts(ty, cases[i + 1..], CoveredWith(ty, covered, cases[i]), CatchesAll(cases[i]))
    ensures Proper(ty, cases, i) ==>
      SeenBefore(ty, cases, i + 1, CoveredWith(ty, covered, cases[i]), CatchesAll(cases[i]))
  {
    assert cases[i..][0] == cases[i] && cases[i..][1..] == cases[i + 1..];
    CoveredNext(cases, i);
    if !ty.PlainType? {
      CountMeansAll(ty, covered);
    }
  }

  lemma {:induction false} AcceptsRestIff(ty: SubjectType, cases: seq<Stmt>, i: nat, covered: set<string>, caught: bool)
    requires i <= |cases| && SeenBefore(ty, cases, i, covered, caught)
    ensures Accepts(ty, cases[i..], covered, caught) <==>
      (forall k :: i <= k < |cases| ==> Proper(ty, cases, k)) && Finished(ty, cases)
    decreases |cases| - i
  {
    if i == |cases| {
      if !ty.PlainType? {
        CountMeansAll(ty, covered);
      }
      assert HasCatchAll(cases) <==> caught;
    } else {
      AcceptsStep(ty, cases, i, covered, caught);
      if Proper(ty, cases, i) {
        AcceptsRestIff(ty, cases, i + 1, CoveredWith(ty, covered, cases[i]), CatchesAll(cases[i]));
      }
    }
  }

  /** A match is accepted exactly when every case may stand at its place and nothing is left. */
  lemma AcceptsIff(ty: SubjectType, cases: seq<Stmt>)
    ensures AcceptsMatch(ty, cases) <==>
      (forall k :: 0 <= k < |cases| ==> Proper(ty, cases, k)) && Finished(ty, cases)
  {
    assert cases[0..] == cases;
    AcceptsRestIff(ty, cases, 0, {}, false);
  }

  /** An accepted match on a wrapper or an enumeration is exhaustive. */
  lemma AcceptedMatchCovers(ty: SubjectType, cases: seq<Stmt>)
    requires !ty.PlainType? && AcceptsMatch(ty, cases)
    ensures Covers(ty, cases)
  {
    AcceptsIff(ty, cases);
    if !HasCatchAll(cases) {
      forall k | 0 <= k < |VariantsOf(ty)| ensures TakesTag(cases, VariantsOf(ty)[k].name) {
        assert VariantsOf(ty)[k].name in CoveredBefore(cases, |cases|);
      }
    }
  }

  /** A match on plain values need not be: one literal case is accepted, and is exhaustive only for a
      type of that one value, even though the return analysis counts on it when the case returns. */
  lemma AcceptedPlainMatchNeedNotCover(at: Location, carrier: Carrier, n: int, result: nat)
    ensures
      var cases := [Case(at, Equals(Literal(n)), None, [Return(result)])];
      && AcceptsMatch(PlainType(carrier), cases) && ReturnAnalysis.MatchReturns(cases)
      && (Covers(PlainType(carrier), cases) <==> carrier.Finite? && carrier.values <= {n})
  {
    var cases := [Case(at, Equals(Literal(n)), None, [Return(result)])];
    assert cases[1..] == [];
    assert ReturnAnalysis.CasesReturn([]);
    assert Unguarded(cases[0]) && AlwaysEquals(cases[0].pattern.operand, n, carrier);
    if carrier.Finite? {
      forall k | k in carrier.values && TakesNumber(cases, k, carrier) ensures k == n {
      }
      if Covers(PlainType(carrier), cases) {
        forall k | k in carrier.values ensures k in {n} {
          assert TakesNumber(cases, k, carrier);
        }
      }
    }
  }
}
