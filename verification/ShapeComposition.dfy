/** Substituting twice into shape-value expressions, and substituting nothing. */
module ShapeComposition {
  import opened MachineInt
  import opened Wrappers
  import opened ShapeLexer
  import opened ShapeParser
  import opened ShapePrinter
  import opened ShapeEval
  import opened ShapeSubstitution
  import opened ShapeArithmetic

  /** The tree of the text that a substituted tree is folded to. */
  function Folded(m: Node): Node {
    if Eval(m, map[]).Value? then IntegerNode(Eval(m, map[]).value) else m
  }

  /** What a substituted text parses to. */
  lemma SubstituteParses(text: string, n: Node, bindings: Bindings)
    requires ParseExpr(text) == Some(n) && ValidBindings(n, bindings)
    ensures ParseExpr(Substitute(text, bindings)) == Some(Folded(SubstituteNode(n, bindings)))
  {
    var m := SubstituteNode(n, bindings);
    SubstituteWellFormed(n, bindings);
    RoundTrip(m);
    if Eval(m, map[]).Value? {
      IntegerTextParses(Eval(m, map[]).value);
    }
  }

  /** A folded tree has the value of the tree, unless that is INT64_MIN. */
  lemma FoldedEval(m: Node)
    ensures Eval(Folded(m), map[]) == if Eval(m, map[]) == Value(INT64_MIN) then Undefined else Eval(m, map[])
  {
    if Eval(m, map[]).Value? {
      EvalIsInt64(m);
      IntegerNodeEval(Eval(m, map[]).value, map[]);
    }
  }

  lemma FoldedTwice(m: Node)
    ensures Folded(Folded(m)) == Folded(m)
  {
    FoldedEval(m);
  }

  /** Integers have no names to substitute. */
  lemma IntegerNodeStays(v: int, bindings: Bindings)
    requires IdentifierKeys(bindings)
    ensures SubstituteNode(IntegerNode(v), bindings) == IntegerNode(v)
  {
    DigitsRoundTrip(0);
    DigitsRoundTrip(Abs(v));
    assert Digits(0) == "0";
    NumberIsNotIdentifier("0");
    NumberIsNotIdentifier(Digits(Abs(v)));
  }

  /** The bindings of one substitution, substituted by another, and what only the other binds. */
  function Composed(first: Bindings, second: Bindings): Bindings {
    map k | k in first.Keys + second.Keys :: if k in first then Substitute(first[k], second) else second[k]
  }

  function Stepwise(n: Node, first: Bindings, second: Bindings): Node {
    SubstituteNode(SubstituteNode(n, first), second)
  }

  function AtOnce(n: Node, first: Bindings, second: Bindings): Node {
    SubstituteNode(n, Composed(first, second))
  }

  /** Every name of the tree is bound to valid expressions on both ways. */
  predicate Composable(n: Node, first: Bindings, second: Bindings) {
    && IdentifierKeys(first) && IdentifierKeys(second)
    && ValidBindings(n, first) && ValidBindings(n, second)
    && forall k :: k in Atoms(n) && k in first ==> ValidBindings(Parse(first[k]).value, second)
  }

  /** What a bound name stands for after both substitutions. */
  function Twice(k: string, first: Bindings, second: Bindings): Node
    requires k in first && Parse(first[k]).Some?
  {
    SubstituteNode(Parse(first[k]).value, second)
  }

  /** What a name is bound to becomes no constant, unless it is written as that constant. */
  predicate KeepsItsTree(m: Node) {
    Eval(m, map[]).Value? ==> m == IntegerNode(Eval(m, map[]).value)
  }

  predicate AllKeep(n: Node, first: Bindings, second: Bindings)
    requires Composable(n, first, second)
  {
    forall k :: k in Atoms(n) && k in first ==> KeepsItsTree(Twice(k, first, second))
  }

  predicate NoneSmallest(n: Node, first: Bindings, second: Bindings)
    requires Composable(n, first, second)
  {
    forall k :: k in Atoms(n) && k in first ==> Eval(Twice(k, first, second), map[]) != Value(INT64_MIN)
  }

  lemma ComposedBinds(n: Node, k: string, first: Bindings, second: Bindings)
    requires Composable(n, first, second) && k in Atoms(n) && k in first
    ensures k in Composed(first, second)
    ensures Parse(Composed(first, second)[k]) == Some(Folded(Twice(k, first, second)))
  {
    SubstituteParses(first[k], Parse(first[k]).value, second);
  }

  lemma ComposableParts(n: Node, first: Bindings, second: Bindings)
    requires Composable(n, first, second) && n.Binary?
    ensures Composable(n.left, first, second) && Composable(n.right, first, second)
    ensures AllKeep(n, first, second) <==> AllKeep(n.left, first, second) && AllKeep(n.right, first, second)
    ensures NoneSmallest(n, first, second)
       <==> NoneSmallest(n.left, first, second) && NoneSmallest(n.right, first, second)
  {
  }

  lemma LeafTwice(k: string, first: Bindings, second: Bindings)
    requires Composable(Leaf(k), first, second)
    ensures
      var twice, once := Stepwise(Leaf(k), first, second), AtOnce(Leaf(k), first, second);
      if k in first then twice == Twice(k, first, second) && once == Folded(twice) else twice == once
  {
    assert k in Atoms(Leaf(k));
    if k in first {
      ComposedBinds(Leaf(k), k, first, second);
    }
  }

  /** The trees of both ways are equal exactly when every bound name keeps its tree. */
  lemma {:induction false} TreesAgree(n: Node, first: Bindings, second: Bindings)
    requires Composable(n, first, second)
    ensures
      Stepwise(n, first, second) == AtOnce(n, first, second)
      <==> AllKeep(n, first, second)
  {
    match n
    case Leaf(k) =>
      LeafTwice(k, first, second);
    case Binary(_, left, right) =>
      ComposableParts(n, first, second);
      TreesAgree(left, first, second);
      TreesAgree(right, first, second);
  }

  lemma LeafOnceEval(k: string, first: Bindings, second: Bindings)
    requires Composable(Leaf(k), first, second)
    ensures
      var once := Eval(AtOnce(Leaf(k), first, second), map[]);
      if NoneSmallest(Leaf(k), first, second) then once == Eval(Stepwise(Leaf(k), first, second), map[])
      else !once.Value?
  {
    var twice := Stepwise(Leaf(k), first, second);
    assert k in Atoms(Leaf(k));
    LeafTwice(k, first, second);
    FoldedEval(twice);
  }

  /** Where no name stands for INT64_MIN, both ways have the same value. */
  lemma {:induction false} TreesEval(n: Node, first: Bindings, second: Bindings)
    requires Composable(n, first, second)
    ensures
      var once := Eval(AtOnce(n, first, second), map[]);
      if NoneSmallest(n, first, second) then once == Eval(Stepwise(n, first, second), map[])
      else !once.Value?
  {
    match n
    case Leaf(k) =>
      LeafOnceEval(k, first, second);
    case Binary(_, left, right) =>
      ComposableParts(n, first, second);
      TreesEval(left, first, second);
      TreesEval(right, first, second);
  }

  /** Only by itself does a name that stands for INT64_MIN leave an integer's tree. */
  lemma SmallestHidesInteger(n: Node, first: Bindings, second: Bindings, v: int)
    requires Composable(n, first, second) && !NoneSmallest(n, first, second) && n.Binary?
    ensures AtOnce(n, first, second) != IntegerNode(v)
  {
    ComposableParts(n, first, second);
    if !NoneSmallest(n.left, first, second) {
      SmallestIsBinary(n.left, first, second);
    } else {
      SmallestIsBinary(n.right, first, second);
    }
  }

  lemma SmallestIsBinary(n: Node, first: Bindings, second: Bindings)
    requires Composable(n, first, second) && !NoneSmallest(n, first, second)
    ensures AtOnce(n, first, second).Binary?
  {
    if n.Leaf? {
      LeafTwice(n.atom, first, second);
    }
  }

  lemma SmallestDoesNotKeep(n: Node, first: Bindings, second: Bindings)
    requires Composable(n, first, second) && !NoneSmallest(n, first, second)
    ensures !AllKeep(n, first, second)
  {
    IntegerNodeEval(INT64_MIN, map[]);
  }

  /** The trees of both ways, once folded, have the same meaning. */
  lemma FoldedTreesAgree(n: Node, first: Bindings, second: Bindings)
    requires Composable(n, first, second)
    ensures
      var twice, once := Stepwise(n, first, second), AtOnce(n, first, second);
      SameMeaning(Folded(twice), Folded(once))
      <==> (Eval(twice, map[]).Value? && (n.Leaf? || NoneSmallest(n, first, second))) || AllKeep(n, first, second)
  {
    var twice, once := Stepwise(n, first, second), AtOnce(n, first, second);
    TreesEval(n, first, second);
    TreesAgree(n, first, second);
    FoldedEval(twice);
    FoldedEval(once);
    if !NoneSmallest(n, first, second) {
      SmallestDoesNotKeep(n, first, second);
      if n.Leaf? {
        LeafTwice(n.atom, first, second);
      } else if Eval(twice, map[]).Value? {
        SmallestHidesInteger(n, first, second, Eval(twice, map[]).value);
      }
    }
  }

  lemma {:induction false} SubstitutedValid(n: Node, first: Bindings, second: Bindings)
    requires Composable(n, first, second)
    ensures ValidBindings(SubstituteNode(n, first), second)
  {
    match n
    case Leaf(k) =>
      assert k in Atoms(n);
    case Binary(_, left, right) =>
      ComposableParts(n, first, second);
      SubstitutedValid(left, first, second);
      SubstitutedValid(right, first, second);
  }

  lemma IntegerNodeValid(v: int, bindings: Bindings)
    requires IdentifierKeys(bindings)
    ensures ValidBindings(IntegerNode(v), bindings)
  {
    forall k | k in Atoms(IntegerNode(v)) ensures k !in bindings {
      if k in bindings {
        IntegerHasNoNames(v, k);
      }
    }
  }

  /** Folding in between makes no difference to the tree. */
  lemma FoldedBetween(m: Node, bindings: Bindings)
    requires WellFormed(m) && IdentifierKeys(bindings) && ValidBindings(m, bindings)
    ensures ValidBindings(Folded(m), bindings)
    ensures Folded(SubstituteNode(Folded(m), bindings)) == Folded(SubstituteNode(m, bindings))
  {
    if Eval(m, map[]).Value? {
      var v := Eval(m, map[]).value;
      IntegerNodeValid(v, bindings);
      IntegerNodeStays(v, bindings);
      FoldedTwice(m);
      NamesAreHarmless(bindings);
      ConstantStays(m, bindings);
    }
  }

  lemma TwiceParses(text: string, n: Node, first: Bindings, second: Bindings)
    requires ParseExpr(text) == Some(n) && Composable(n, first, second)
    ensures ParseExpr(Substitute(Substitute(text, first), second))
         == Some(Folded(Stepwise(n, first, second)))
  {
    var m := SubstituteNode(n, first);
    SubstituteParses(text, n, first);
    SubstituteWellFormed(n, first);
    SubstitutedValid(n, first, second);
    FoldedBetween(m, second);
    SubstituteParses(Substitute(text, first), Folded(m), second);
  }

  lemma OnceParses(text: string, n: Node, first: Bindings, second: Bindings)
    requires ParseExpr(text) == Some(n) && Composable(n, first, second)
    ensures ParseExpr(Substitute(text, Composed(first, second))) == Some(Folded(AtOnce(n, first, second)))
  {
    forall k | k in Atoms(n) && k in first ensures Parse(Composed(first, second)[k]).Some? {
      ComposedBinds(n, k, first, second);
    }
    SubstituteParses(text, n, Composed(first, second));
  }

  /** Substituting twice is substituting once by the composed bindings, up to equivalence, exactly when the
      whole becomes a constant, or every bound name keeps its tree. */
  lemma SubstituteTwice(text: string, n: Node, first: Bindings, second: Bindings)
    requires ParseExpr(text) == Some(n) && Composable(n, first, second)
    ensures
      var whole := Eval(Stepwise(n, first, second), map[]);
      Equivalent(Substitute(Substitute(text, first), second), Substitute(text, Composed(first, second)))
      <==> (whole.Value? && (n.Leaf? || NoneSmallest(n, first, second))) || AllKeep(n, first, second)
  {
    TwiceParses(text, n, first, second);
    OnceParses(text, n, first, second);
    FoldedTreesAgree(n, first, second);
    EquivalentValid(Substitute(Substitute(text, first), second), Substitute(text, Composed(first, second)),
                    Folded(Stepwise(n, first, second)),
                    Folded(AtOnce(n, first, second)));
  }

  lemma {:induction false} TrimmedLeft(s: string)
    ensures TrimLeft(s) == "" || !IsAsciiSpace(TrimLeft(s)[0])
  {
    if s != "" && IsAsciiSpace(s[0]) {
      TrimmedLeft(s[1..]);
    }
  }

  lemma {:induction false} TrimmedRight(s: string)
    ensures TrimRight(TrimRight(s)) == TrimRight(s)
    ensures |TrimRight(s)| <= |s| && TrimRight(s) == s[..|TrimRight(s)|]
    decreases |s|
  {
    if s != "" && IsAsciiSpace(s[|s| - 1]) {
      TrimmedRight(s[..|s| - 1]);
    }
  }

  lemma TrimTwice(s: string)
    ensures Trim(Trim(s)) == Trim(s)
  {
    var left := TrimLeft(s);
    TrimmedLeft(s);
    TrimmedRight(left);
    assert Trim(s) != "" ==> Trim(s)[0] == left[0];
  }

  lemma InvalidText(text: string, bindings: Bindings)
    requires ParseExpr(text) == None
    ensures ParseExpr(Substitute(text, bindings)) == None && Substitute(text, bindings) == Trim(text)
  {
    TrimTwice(text);
    TrimDecidesParse(Trim(text), text);
  }

  /** Texts that are not expressions are only trimmed. */
  lemma InvalidTwice(text: string, first: Bindings, second: Bindings)
    requires ParseExpr(text) == None
    ensures Substitute(Substitute(text, first), second) == Substitute(text, Composed(first, second)) == Trim(text)
  {
    InvalidText(text, first);
    InvalidText(text, Composed(first, second));
    InvalidText(Substitute(text, first), second);
    TrimTwice(text);
  }

  /** Substituting nothing keeps a text equivalent, exactly when it does not evaluate to INT64_MIN. */
  lemma SubstituteNothing(text: string)
    ensures Equivalent(Substitute(text, map[]), text) <==> EvalText(text, map[]) != Value(INT64_MIN)
  {
    match ParseExpr(text) {
      case None =>
        InvalidText(text, map[]);
        TrimTwice(text);
        EquivalentMeans(Substitute(text, map[]), text);
      case Some(n) =>
        NoSubstitution(n);
        SubstituteParses(text, n, map[]);
        EquivalentValid(Substitute(text, map[]), text, Folded(n), n);
        FoldedEval(n);
    }
  }

  /** An atom after substitution: one that is not bound, or one of a bound atom's expression. */
  predicate AtomAfter(n: Node, bindings: Bindings, atom: string)
    requires ValidBindings(n, bindings)
  {
    || (atom in Atoms(n) && atom !in bindings)
    || exists k :: k in Atoms(n) && k in bindings && atom in Atoms(Parse(bindings[k]).value)
  }

  lemma {:induction false} SubstitutedAtoms(n: Node, bindings: Bindings, atom: string)
    requires ValidBindings(n, bindings)
    ensures atom in Atoms(SubstituteNode(n, bindings)) <==> AtomAfter(n, bindings, atom)
  {
    match n
    case Leaf(k) =>
      assert k in Atoms(n);
    case Binary(_, left, right) =>
      SubstitutedAtoms(left, bindings, atom);
      SubstitutedAtoms(right, bindings, atom);
  }

  /** A name occurs in the substituted text exactly when it is left by the substitution, and the whole is
      not a constant. */
  lemma NamesAfterSubstitution(text: string, n: Node, bindings: Bindings, name: string)
    requires ParseExpr(text) == Some(n) && ValidBindings(n, bindings) && IsIdentifierText(name)
    ensures
      var m := ParseExpr(Substitute(text, bindings));
      m.Some? && (name in Atoms(m.value)
                  <==> AtomAfter(n, bindings, name) && !Eval(SubstituteNode(n, bindings), map[]).Value?)
  {
    var m := SubstituteNode(n, bindings);
    SubstituteParses(text, n, bindings);
    SubstitutedAtoms(n, bindings, name);
    if Eval(m, map[]).Value? {
      IntegerHasNoNames(Eval(m, map[]).value, name);
    }
  }

  lemma IntegerHasNoNames(v: int, name: string)
    requires IsIdentifierText(name)
    ensures name !in Atoms(IntegerNode(v))
  {
    DigitsRoundTrip(0);
    DigitsRoundTrip(Abs(v));
    assert Digits(0) == "0";
    NumberIsNotIdentifier(name);
  }

  // Both ways under every binding of the names.

  lemma FoldedEvalUnder(m: Node, env: Env)
    requires IdentifierKeys(env)
    ensures Eval(Folded(m), env) == if Eval(m, map[]) == Value(INT64_MIN) then Undefined else Eval(m, env)
  {
    if Eval(m, map[]).Value? {
      EvalClosed(m, env);
      EvalIsInt64(m);
      IntegerNodeEval(Eval(m, map[]).value, env);
    }
  }

  lemma {:induction false} TreesEvalUnder(n: Node, first: Bindings, second: Bindings, env: Env)
    requires Composable(n, first, second) && NoneSmallest(n, first, second) && IdentifierKeys(env)
    ensures Eval(AtOnce(n, first, second), env)
         == Eval(Stepwise(n, first, second), env)
  {
    match n
    case Leaf(k) =>
      LeafTwice(k, first, second);
      FoldedEvalUnder(Stepwise(n, first, second), env);
    case Binary(_, left, right) =>
      ComposableParts(n, first, second);
      TreesEvalUnder(left, first, second, env);
      TreesEvalUnder(right, first, second, env);
  }

  /** Where no name stands for INT64_MIN, both ways have the same value under all bindings. */
  lemma SubstituteTwiceEval(text: string, n: Node, first: Bindings, second: Bindings, env: Env)
    requires ParseExpr(text) == Some(n) && Composable(n, first, second) && NoneSmallest(n, first, second)
    requires IdentifierKeys(env)
    ensures EvalText(Substitute(Substitute(text, first), second), env)
         == EvalText(Substitute(text, Composed(first, second)), env)
  {
    TwiceParses(text, n, first, second);
    OnceParses(text, n, first, second);
    TreesEval(n, first, second);
    TreesEvalUnder(n, first, second, env);
    FoldedEvalUnder(Stepwise(n, first, second), env);
    FoldedEvalUnder(AtOnce(n, first, second), env);
  }

  function Sum(a: string, b: string): Node {
    Binary(Plus, Leaf(a), Leaf(b))
  }

  lemma SumHasValue(x: nat, y: nat, m: string)
    requires x + y <= INT64_MAX && IsIdentifierText(m)
    ensures
      var sum := Sum(Digits(x), Digits(y));
      Eval(sum, map[]).Value? && Eval(Binary(Plus, sum, Leaf(m)), map[]) == Undefined
  {
    var sum := Sum(Digits(x), Digits(y));
    LiteralText(x, map[]);
    LiteralText(y, map[]);
    OperatorMeans(Leaf(Digits(x)), Leaf(Digits(y)), map[], x, y);
    NumberIsNotIdentifier(m);
    UndefinedOperand(Plus, sum, Leaf(m), map[]);
  }

  lemma SumTwice(n: string, m: string, a: string, two: string, one: string, first: Bindings, second: Bindings)
    requires IsIdentifierText(n) && IsIdentifierText(a) && IsNumberText(one)
    requires n != m && a != m && first.Keys == {n} && second.Keys == {a}
    requires Parse(first[n]) == Some(Sum(a, one)) && Parse(second[a]) == Some(Leaf(two))
    ensures Composable(Sum(n, m), first, second) && n in Atoms(Sum(n, m)) && Twice(n, first, second) == Sum(two, one)
    ensures Stepwise(Sum(n, m), first, second) == Binary(Plus, Sum(two, one), Leaf(m))
  {
    NumberIsNotIdentifier(one);
    assert SubstituteNode(Leaf(m), first) == Leaf(m) == SubstituteNode(Leaf(m), second);
    assert SubstituteNode(Leaf(n), first) == Sum(a, one);
    assert SubstituteNode(Sum(a, one), second) == Sum(two, one);
  }

  /** With N bound to A + y and then A to x, the sum N + M becomes x + y + M, but their sum is folded when both
      are bound at once. */
  lemma FoldedBindingIsNotEquivalent(n: string, m: string, a: string, x: nat, y: nat, text: string,
                                     first: Bindings, second: Bindings)
    requires IsIdentifierText(n) && IsIdentifierText(m) && IsIdentifierText(a) && n != m && a != m && x + y <= INT64_MAX
    requires ParseExpr(text) == Some(Sum(n, m)) && first.Keys == {n} && second.Keys == {a}
    requires Parse(first[n]) == Some(Sum(a, Digits(y))) && Parse(second[a]) == Some(Leaf(Digits(x)))
    ensures !Equivalent(Substitute(Substitute(text, first), second), Substitute(text, Composed(first, second)))
  {
    DigitsRoundTrip(y);
    SumHasValue(x, y, m);
    SumTwice(n, m, a, Digits(x), Digits(y), first, second);
    SubstituteTwice(text, Sum(n, m), first, second);
  }
}
