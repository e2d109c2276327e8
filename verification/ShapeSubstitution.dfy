/** Substitution into shape-value expressions, constant folding, and equivalence. */
module ShapeSubstitution {
  import opened MachineInt
  import opened Wrappers
  import opened ShapeLexer
  import opened ShapeParser
  import opened ShapeGrammar
  import opened ShapePrinter
  import opened ShapeEval

  type Bindings = map<string, string>

  function DigitChar(d: nat): char
    requires d < 10
  {
    ('0' as int + d) as char
  }

  function Digits(n: nat): string {
    if n < 10 then [DigitChar(n)] else Digits(n / 10) + [DigitChar(n % 10)]
  }

  /** `std::to_string`. */
  function IntegerText(v: int): string {
    if v < 0 then "-" + Digits(-v) else Digits(v)
  }

  /** The decimal text of a number is read back as that number. */
  lemma {:induction false} DigitsRoundTrip(n: nat)
    ensures IsNumberText(Digits(n)) && Decimal(Digits(n)) == n
  {
    if n >= 10 {
      DigitsRoundTrip(n / 10);
      var front, text := Digits(n / 10), Digits(n);
      assert text[..|text| - 1] == front;
    } else {
      assert Digits(n)[..0] == "";
    }
  }

  /** The tree that the text of an integer parses to. */
  function IntegerNode(v: int): Node {
    if v < 0 then Binary(Minus, Leaf("0"), Leaf(Digits(-v))) else Leaf(Digits(v))
  }

  lemma NegativeTokens(d: string)
    requires IsNumberText(d)
    ensures Lex("-" + d) == [OpToken(Minus), Tok(Number, d), Tok(End, "")]
  {
    assert "-" + d == ['-'] + d;
    LexPunctuation('-', d);
    LexNumber(d, "");
    assert d + "" == d;
  }

  lemma NegativeParses(toks: seq<Tok>, d: string)
    requires toks == [OpToken(Minus), Tok(Number, d), Tok(End, "")]
    ensures ParseTokens(toks) == Some(Binary(Minus, Leaf("0"), Leaf(d)))
  {
    WrittenIsParsed(toks, 2, Sign(toks[0], Atom(toks[1])));
  }

  lemma IntegerTextParses(v: int)
    ensures ParseExpr(IntegerText(v)) == Some(IntegerNode(v))
  {
    if v < 0 {
      DigitsRoundTrip(-v);
      NegativeTokens(Digits(-v));
      NegativeParses(Lex(IntegerText(v)), Digits(-v));
    } else {
      DigitsRoundTrip(v);
      RoundTrip(Leaf(Digits(v)));
    }
  }

  predicate IdentifierKeys<T>(m: map<string, T>) {
    forall k :: k in m ==> IsIdentifierText(k)
  }

  /** Reading the text of an integer gives it back exactly unless it is INT64_MIN, whose magnitude
      is not a 64-bit literal. */
  lemma IntegerTextEval(v: int, env: Env)
    requires IsInt64(v) && IdentifierKeys(env)
    ensures EvalText(IntegerText(v), env) == if v == INT64_MIN then Undefined else Value(v)
  {
    IntegerTextParses(v);
    IntegerNodeEval(v, env);
  }

  lemma IntegerNodeEval(v: int, env: Env)
    requires IsInt64(v) && IdentifierKeys(env)
    ensures Eval(IntegerNode(v), env) == if v == INT64_MIN then Undefined else Value(v)
  {
    if v < 0 {
      var d: nat := -v;
      assert IntegerNode(v) == Binary(Minus, Leaf("0"), Leaf(Digits(d)));
      NegativeEval(d, env);
    } else {
      LiteralEval(v, env);
    }
  }

  lemma NegativeEval(d: nat, env: Env)
    requires IdentifierKeys(env)
    ensures Eval(Binary(Minus, Leaf("0"), Leaf(Digits(d))), env) == if d <= INT64_MAX then Value(0 - d) else Undefined
  {
    assert Digits(0) == "0";
    LiteralEval(0, env);
    LiteralEval(d, env);
  }

  /** A decimal text has its value when that is a 64-bit literal, and no value otherwise. */
  lemma LiteralEval(v: nat, env: Env)
    requires IdentifierKeys(env)
    ensures Eval(Leaf(Digits(v)), env) == if v <= INT64_MAX then Value(v) else Undefined
  {
    DigitsRoundTrip(v);
    NumberIsNotIdentifier(Digits(v));
  }

  lemma NumberIsNotIdentifier(atom: string)
    ensures !(IsNumberText(atom) && IsIdentifierText(atom))
  {
    assert IsNumberText(atom) ==> IsDigit(atom[0]);
  }

  /** `substitute_node`. */
  function SubstituteNode(n: Node, bindings: Bindings): Node {
    match n
    case Leaf(atom) =>
      if atom !in bindings then n
      else if Parse(bindings[atom]).Some? then Parse(bindings[atom]).value
      else Leaf(bindings[atom])
    case Binary(op, left, right) =>
      Binary(op, SubstituteNode(left, bindings), SubstituteNode(right, bindings))
  }

  /** `shape_value_expr_substitute`: an expression that has a value after substitution is replaced
      by the text of the value. */
  function Substitute(text: string, bindings: Bindings): string {
    match ParseExpr(text)
    case None => Trim(text)
    case Some(n) =>
      var normal := Normalize(SubstituteNode(n, bindings));
      var folded := EvalText(normal, map[]);
      if folded.Value? then IntegerText(folded.value) else normal
  }

  /** The names and numbers in a tree. */
  function Atoms(n: Node): set<string> {
    match n
    case Leaf(atom) => {atom}
    case Binary(_, left, right) => Atoms(left) + Atoms(right)
  }

  /** What is bound in the tree are names, and to valid expressions. */
  predicate ValidBindings(n: Node, bindings: Bindings) {
    forall k :: k in Atoms(n) && k in bindings ==> IsIdentifierText(k) && Parse(bindings[k]).Some?
  }

  /** The environment in which each bound name has the value of its binding. */
  function Extended(env: Env, bindings: Bindings): Env {
    (env - bindings.Keys) +
    map k | k in bindings && EvalText(bindings[k], env).Value? :: EvalText(bindings[k], env).value
  }

  predicate NoOverflow(n: Node, bindings: Bindings, env: Env) {
    forall k :: k in Atoms(n) && k in bindings ==> !EvalText(bindings[k], env).Overflow?
  }

  lemma {:induction false} SubstituteWellFormed(n: Node, bindings: Bindings)
    requires WellFormed(n) && ValidBindings(n, bindings)
    ensures WellFormed(SubstituteNode(n, bindings))
  {
    if n.Binary? {
      SubstituteWellFormed(n.left, bindings);
      SubstituteWellFormed(n.right, bindings);
    }
  }

  /** The substitution lemma on trees. */
  lemma {:induction false} SubstituteNodeEval(n: Node, bindings: Bindings, env: Env)
    requires WellFormed(n) && ValidBindings(n, bindings) && NoOverflow(n, bindings, env)
    ensures Eval(SubstituteNode(n, bindings), env) == Eval(n, Extended(env, bindings))
  {
    match n
    case Leaf(atom) =>
      SubstituteLeafEval(atom, bindings, env);
    case Binary(_, left, right) =>
      SubstituteNodeEval(left, bindings, env);
      SubstituteNodeEval(right, bindings, env);
  }

  lemma SubstituteLeafEval(atom: string, bindings: Bindings, env: Env)
    requires WellFormed(Leaf(atom)) && ValidBindings(Leaf(atom), bindings) && NoOverflow(Leaf(atom), bindings, env)
    ensures Eval(SubstituteNode(Leaf(atom), bindings), env) == Eval(Leaf(atom), Extended(env, bindings))
  {
    var extended := Extended(env, bindings);
    if atom in bindings {
      var bound := EvalText(bindings[atom], env);
      NumberIsNotIdentifier(atom);
      assert atom in Atoms(Leaf(atom));
      BoundValue(atom, bindings, env);
      assert Eval(Parse(bindings[atom]).value, env) == bound;
    } else {
      assert atom in extended <==> atom in env;
    }
  }

  lemma BoundValue(atom: string, bindings: Bindings, env: Env)
    requires atom in bindings
    ensures
      var bound, extended := EvalText(bindings[atom], env), Extended(env, bindings);
      if bound.Value? then atom in extended && extended[atom] == bound.value else atom !in extended
  {
  }

  /** Bindings that overflow do so in every environment. */
  lemma NoOverflowClosed(n: Node, bindings: Bindings, env: Env)
    requires NoOverflow(n, bindings, env)
    ensures NoOverflow(n, bindings, map[])
  {
    forall k | k in Atoms(n) && k in bindings ensures !EvalText(bindings[k], map[]).Overflow? {
      if EvalText(bindings[k], map[]).Overflow? {
        EvalClosed(ParseExpr(bindings[k]).value, env);
      }
    }
  }

  /** The substitution lemma on texts: substituting and folding evaluates like the original with
      each bound name standing for its binding's value, undefined results included. It holds exactly
      when the original, with the bindings alone, does not evaluate to INT64_MIN, the one value whose
      text is not read back. */
  lemma SubstituteEval(text: string, bindings: Bindings, env: Env)
    requires ParseExpr(text).Some? && ValidBindings(ParseExpr(text).value, bindings) && IdentifierKeys(env)
    requires NoOverflow(ParseExpr(text).value, bindings, env) && !EvalText(text, Extended(env, bindings)).Overflow?
    ensures
      EvalText(Substitute(text, bindings), env) == EvalText(text, Extended(env, bindings))
      <==> EvalText(text, Extended(map[], bindings)) != Value(INT64_MIN)
  {
    var n := ParseExpr(text).value;
    SubstituteTreeEval(n, bindings, env);
    FoldEval(text, SubstituteNode(n, bindings), bindings, env);
  }

  lemma SubstituteTreeEval(n: Node, bindings: Bindings, env: Env)
    requires WellFormed(n) && ValidBindings(n, bindings) && NoOverflow(n, bindings, env)
    ensures var substituted := SubstituteNode(n, bindings);
      && WellFormed(substituted)
      && Eval(substituted, env) == Eval(n, Extended(env, bindings))
      && Eval(substituted, map[]) == Eval(n, Extended(map[], bindings))
      && (Eval(substituted, map[]).Value? ==> Eval(substituted, env) == Eval(substituted, map[]))
  {
    var substituted := SubstituteNode(n, bindings);
    SubstituteWellFormed(n, bindings);
    SubstituteNodeEval(n, bindings, env);
    NoOverflowClosed(n, bindings, env);
    SubstituteNodeEval(n, bindings, map[]);
    if Eval(substituted, map[]).Value? {
      EvalClosed(substituted, env);
    }
  }

  /** What folding makes of the substituted tree. */
  lemma FoldEval(text: string, substituted: Node, bindings: Bindings, env: Env)
    requires ParseExpr(text).Some? && substituted == SubstituteNode(ParseExpr(text).value, bindings)
    requires WellFormed(substituted) && IdentifierKeys(env)
    ensures EvalText(Substitute(text, bindings), env)
         == if Eval(substituted, map[]) == Value(INT64_MIN) then Undefined else Eval(substituted, env)
  {
    RoundTrip(substituted);
    var folded := Eval(substituted, map[]);
    if folded.Value? {
      EvalClosed(substituted, env);
      EvalIsInt64(substituted);
      IntegerTextEval(folded.value, env);
    }
  }

  lemma {:induction false} EvalIsInt64(n: Node)
    requires Eval(n, map[]).Value?
    ensures IsInt64(Eval(n, map[]).value)
  {
    if n.Binary? && n.op == Percent {
      EvalIsInt64(n.left);
      EvalIsInt64(n.right);
      RemainderIsInt64(Eval(n.left, map[]).value, Eval(n.right, map[]).value);
    }
  }

  lemma RemainderIsInt64(a: int, b: int)
    requires IsInt64(a) && IsInt64(b) && b != 0
    ensures IsInt64(TruncatedRemainder(a, b))
  {
    var q, r := Abs(a) / Abs(b), Abs(a) % Abs(b);
    assert Abs(a) == Abs(b) * q + r;
    SignsCancel(b, q);
    assert TruncatedRemainder(a, b) == if a >= 0 then r else -r;
  }

  lemma SignsCancel(b: int, q: int)
    ensures (-b) * q == -(b * q) && b * (-q) == -(b * q)
  {
  }

  function Difference(x: nat, y: nat, z: nat): Node {
    Binary(Minus, Binary(Minus, Leaf(Digits(x)), Leaf(Digits(y))), Leaf(Digits(z)))
  }

  lemma DifferenceEval(x: nat, y: nat, z: nat)
    requires x <= INT64_MAX && y <= INT64_MAX && z <= INT64_MAX && IsInt64(x - y) && IsInt64(x - y - z)
    ensures WellFormed(Difference(x, y, z)) && Eval(Difference(x, y, z), map[]) == Value(x - y - z)
  {
    LiteralEval(x, map[]);
    LiteralEval(y, map[]);
    LiteralEval(z, map[]);
    DigitsRoundTrip(x);
    DigitsRoundTrip(y);
    DigitsRoundTrip(z);
  }

  /** The one folded text that is not read back: any expression of the value, as 0 - 9223372036854775807 - 1. */
  lemma FoldOfSmallestIntegerIsNotReadBack(max: nat)
    requires max == INT64_MAX
    ensures
      var text := Normalize(Difference(0, max, 1));
      EvalText(text, map[]) == Value(INT64_MIN) && EvalText(Substitute(text, map[]), map[]) == Undefined
  {
    var n := Difference(0, max, 1);
    DifferenceEval(0, max, 1);
    RoundTrip(n);
    NoSubstitution(n);
    IntegerTextEval(INT64_MIN, map[]);
  }

  lemma {:induction false} NoSubstitution(n: Node)
    ensures SubstituteNode(n, map[]) == n
  {
    if n.Binary? {
      NoSubstitution(n.left);
      NoSubstitution(n.right);
    }
  }

  /** `shape_value_expr_equivalent`. */
  predicate Equivalent(left: string, right: string) {
    var l, r := NormalText(left), NormalText(right);
    if l == "" || r == "" then Trim(left) == Trim(right)
    else if l == r then true
    else
      var a, b := EvalText(l, map[]), EvalText(r, map[]);
      a.Value? && b.Value? && a.value == b.value
  }

  predicate SameMeaning(a: Node, b: Node) {
    a == b || (Eval(a, map[]).Value? && Eval(a, map[]) == Eval(b, map[]))
  }

  /** The normal text of a valid expression is valid and evaluates like it. */
  lemma NormalTextEval(text: string, n: Node)
    requires ParseExpr(text) == Some(n)
    ensures NormalText(text) != ""
    ensures EvalText(NormalText(text), map[]) == Eval(n, map[])
  {
    NormalTextEmptyIffInvalid(text);
    RoundTrip(n);
  }

  lemma EquivalentValid(left: string, right: string, a: Node, b: Node)
    requires ParseExpr(left) == Some(a) && ParseExpr(right) == Some(b)
    ensures Equivalent(left, right) <==> SameMeaning(a, b)
  {
    NormalTextEval(left, a);
    NormalTextEval(right, b);
    NormalTextDecidesTree(left, right);
  }

  /** What the equivalence test decides, said on trees. */
  lemma EquivalentMeans(left: string, right: string)
    ensures Equivalent(left, right) <==>
      if ParseExpr(left).Some? && ParseExpr(right).Some?
      then SameMeaning(ParseExpr(left).value, ParseExpr(right).value)
      else Trim(left) == Trim(right)
  {
    if ParseExpr(left).Some? && ParseExpr(right).Some? {
      EquivalentValid(left, right, ParseExpr(left).value, ParseExpr(right).value);
    } else {
      NormalTextEmptyIffInvalid(left);
      NormalTextEmptyIffInvalid(right);
    }
  }

  /** Texts that trim alike are valid or invalid together. */
  lemma TrimDecidesParse(left: string, right: string)
    requires Trim(left) == Trim(right)
    ensures ParseExpr(left) == ParseExpr(right)
  {
    LexTrim(left);
    LexTrim(right);
  }

  /** The test is an equivalence relation on all texts, valid or not. */
  lemma EquivalentIsEquivalence(a: string, b: string, c: string)
    ensures Equivalent(a, a)
    ensures Equivalent(a, b) ==> Equivalent(b, a)
    ensures Equivalent(a, b) && Equivalent(b, c) ==> Equivalent(a, c)
  {
    EquivalentMeans(a, a);
    EquivalentMeans(a, b);
    EquivalentMeans(b, a);
    EquivalentMeans(b, c);
    EquivalentMeans(a, c);
    if Trim(a) == Trim(b) {
      TrimDecidesParse(a, b);
    }
    if Trim(b) == Trim(c) {
      TrimDecidesParse(b, c);
    }
  }

  /** Equivalent texts are valid together. */
  lemma EquivalentValidity(a: string, b: string)
    requires Equivalent(a, b)
    ensures ParseExpr(a).Some? <==> ParseExpr(b).Some?
  {
    EquivalentMeans(a, b);
    if ParseExpr(a) == None || ParseExpr(b) == None {
      TrimDecidesParse(a, b);
    }
  }

  /** Equivalent texts have the same outcome under every binding of their names. */
  lemma EquivalentSound(a: string, b: string, env: Env)
    requires Equivalent(a, b)
    ensures EvalText(a, env) == EvalText(b, env)
  {
    EquivalentMeans(a, b);
    EquivalentValidity(a, b);
    if ParseExpr(a).Some? && ParseExpr(a) != ParseExpr(b) {
      EvalClosed(ParseExpr(a).value, env);
      EvalClosed(ParseExpr(b).value, env);
    }
  }

  /** A number is bound to an expression of its own value. */
  predicate HarmlessKey(k: string, bindings: Bindings)
    requires k in bindings
  {
    IsNumberText(k) && Decimal(k) <= INT64_MAX ==> EvalText(bindings[k], map[]) == Value(Decimal(k))
  }

  predicate HarmlessKeys(bindings: Bindings) {
    forall k :: k in bindings ==> HarmlessKey(k, bindings)
  }

  /** Bindings of names are harmless. */
  lemma NamesAreHarmless(bindings: Bindings)
    requires IdentifierKeys(bindings)
    ensures HarmlessKeys(bindings)
  {
    forall k | k in bindings ensures HarmlessKey(k, bindings) {
      NumberIsNotIdentifier(k);
    }
  }

  lemma {:induction false} ConstantStays(n: Node, bindings: Bindings)
    requires WellFormed(n) && HarmlessKeys(bindings) && Eval(n, map[]).Value?
    ensures WellFormed(SubstituteNode(n, bindings)) && Eval(SubstituteNode(n, bindings), map[]) == Eval(n, map[])
  {
    match n
    case Leaf(atom) =>
      assert atom in bindings ==> HarmlessKey(atom, bindings);
    case Binary(_, left, right) =>
      ConstantStays(left, bindings);
      ConstantStays(right, bindings);
  }

  lemma ConstantSubstitute(text: string, bindings: Bindings)
    requires ParseExpr(text).Some? && HarmlessKeys(bindings) && EvalText(text, map[]).Value?
    ensures Substitute(text, bindings) == IntegerText(EvalText(text, map[]).value)
  {
    var n := ParseExpr(text).value;
    ConstantStays(n, bindings);
    RoundTrip(SubstituteNode(n, bindings));
  }

  /** Equivalent texts, valid or not, have the same text after every harmless substitution. */
  lemma EquivalentSubstitute(a: string, b: string, bindings: Bindings)
    requires Equivalent(a, b) && HarmlessKeys(bindings)
    ensures Substitute(a, bindings) == Substitute(b, bindings)
    ensures Equivalent(Substitute(a, bindings), Substitute(b, bindings))
  {
    EquivalentMeans(a, b);
    EquivalentValidity(a, b);
    if ParseExpr(a).Some? && ParseExpr(a) != ParseExpr(b) {
      ConstantSubstitute(a, bindings);
      ConstantSubstitute(b, bindings);
    }
    EquivalentIsEquivalence(Substitute(a, bindings), a, b);
  }

  /** Substitution keeps equivalence exactly when it is harmless. */
  lemma EquivalenceKeptIffHarmless(bindings: Bindings)
    ensures HarmlessKeys(bindings) <==>
      forall a, b :: Equivalent(a, b) ==> Equivalent(Substitute(a, bindings), Substitute(b, bindings))
  {
    if HarmlessKeys(bindings) {
      forall a, b | Equivalent(a, b) ensures Equivalent(Substitute(a, bindings), Substitute(b, bindings)) {
        EquivalentSubstitute(a, b, bindings);
      }
    } else {
      var k :| k in bindings && !HarmlessKey(k, bindings);
      var length := LongerThan(bindings.Keys);
      var b := Zeros(length) + k;
      SpelledLonger(k, length);
      HarmfulKeyBreaksEquivalence(k, b, bindings);
    }
  }

  /** Two spellings of a number, as 0 and 00, are equivalent, but a binding for one of them replaces
      only that one. */
  lemma HarmfulKeyBreaksEquivalence(k: string, b: string, bindings: Bindings)
    requires k in bindings && !HarmlessKey(k, bindings) && b !in bindings
    requires IsNumberText(b) && Decimal(b) == Decimal(k)
    ensures Equivalent(k, b) && !Equivalent(Substitute(k, bindings), Substitute(b, bindings))
  {
    SpellingsAreEquivalent(k, b);
    NumberSubstitutes(b, bindings);
    KeySubstitutes(k, bindings);
    IntegerTextEval(Decimal(b), map[]);
    if Equivalent(Substitute(k, bindings), Substitute(b, bindings)) {
      EquivalentSound(Substitute(k, bindings), Substitute(b, bindings), map[]);
    }
  }

  /** A bound number is replaced by something of its binding's value, or of no value. */
  lemma KeySubstitutes(k: string, bindings: Bindings)
    requires k in bindings && IsNumberText(k)
    ensures
      var value := EvalText(Substitute(k, bindings), map[]);
      value == EvalText(bindings[k], map[]) || value == Undefined
  {
    var bound := bindings[k];
    LeafText(k);
    if Parse(bound).Some? {
      FoldEval(k, Parse(bound).value, bindings, map[]);
    } else {
      InvalidStays(k, bindings);
    }
  }

  lemma InvalidStays(k: string, bindings: Bindings)
    requires k in bindings && ParseExpr(k) == Some(Leaf(k)) && Parse(bindings[k]) == None
    ensures Substitute(k, bindings) == bindings[k]
  {
    assert SubstituteNode(Leaf(k), bindings) == Leaf(bindings[k]) && Normalize(Leaf(bindings[k])) == bindings[k];
    assert ParseExpr(bindings[k]) == None;
  }

  function Zeros(n: nat): string {
    seq(n, i => '0')
  }

  /** Zeros in front make another spelling. */
  lemma {:induction false} SpelledLonger(k: string, n: nat)
    requires IsNumberText(k)
    ensures IsNumberText(Zeros(n) + k) && Decimal(Zeros(n) + k) == Decimal(k)
    decreases n
  {
    if n == 0 {
      assert Zeros(n) + k == k;
    } else {
      SpelledLonger(k, n - 1);
      assert Zeros(n) + k == ['0'] + (Zeros(n - 1) + k);
      ZeroInFront(Zeros(n - 1) + k);
    }
  }

  lemma {:induction false} ZeroInFront(s: string)
    requires AllDigits(s)
    ensures AllDigits(['0'] + s) && Decimal(['0'] + s) == Decimal(s)
    decreases |s|
  {
    var longer := ['0'] + s;
    if s == "" {
      assert longer[..0] == "";
    } else {
      ZeroInFront(s[..|s| - 1]);
      assert longer[..|longer| - 1] == ['0'] + s[..|s| - 1];
    }
  }

  lemma {:induction false} LongerThan(keys: set<string>) returns (n: nat)
    ensures forall k :: k in keys ==> |k| < n
  {
    if keys == {} {
      n := 0;
    } else {
      var k :| k in keys;
      var rest := LongerThan(keys - {k});
      n := if |k| < rest then rest else |k| + 1;
    }
  }

  lemma SpellingsAreEquivalent(a: string, b: string)
    requires IsNumberText(a) && IsNumberText(b) && Decimal(a) == Decimal(b) <= INT64_MAX
    ensures Equivalent(a, b)
  {
    LeafText(a);
    LeafText(b);
    NumberEval(a);
    NumberEval(b);
    EquivalentValid(a, b, Leaf(a), Leaf(b));
  }

  lemma NumberEval(atom: string)
    requires IsNumberText(atom) && Decimal(atom) <= INT64_MAX
    ensures Eval(Leaf(atom), map[]) == Value(Decimal(atom))
  {
  }

  lemma NumberSubstitutes(atom: string, bindings: Bindings)
    requires IsNumberText(atom) && Decimal(atom) <= INT64_MAX && atom !in bindings
    ensures Substitute(atom, bindings) == IntegerText(Decimal(atom))
  {
    LeafText(atom);
    assert SubstituteNode(Leaf(atom), bindings) == Leaf(atom) && Normalize(Leaf(atom)) == atom;
  }

  lemma LeafText(atom: string)
    requires IsNumberText(atom) || IsIdentifierText(atom)
    ensures ParseExpr(atom) == Some(Leaf(atom)) && Parse(atom) == Some(Leaf(atom))
  {
    RoundTrip(Leaf(atom));
  }
}
