/** What the operators of shape-value expressions compute, said on integers. */
module ShapeArithmetic {
  import opened MachineInt
  import opened Wrappers
  import opened RowMajor
  import opened ShapeLexer
  import opened ShapeParser
  import opened ShapePrinter
  import opened ShapeEval
  import opened ShapeSubstitution

  /** `x` divided by `y` is `q` with the remainder `r`, which is smaller than `y` and has the sign of `x`. */
  predicate Division(x: int, y: int, q: int, r: int) {
    && x == q * y + r
    && Abs(r) < Abs(y)
    && (if x < 0 then r <= 0 else r >= 0)
  }

  lemma Magnitude(q: int, y: int)
    ensures Abs(q * y) == Times(Abs(q), Abs(y))
    ensures q * y == if (q < 0) == (y < 0) then Times(Abs(q), Abs(y)) else 0 - Times(Abs(q), Abs(y))
  {
    TimesIsProduct(Abs(q), Abs(y));
    SignsCancel(q, y);
    SignsCancel(Abs(q), y);
    SignsCancel(y, Abs(q));
  }

  /** The magnitude and the sign of a product. */
  lemma SignedProduct(q: int, y: int)
    ensures Abs(q * y) == Times(Abs(q), Abs(y))
    ensures q * y > 0 ==> (q > 0) == (y > 0)
    ensures q * y < 0 ==> (q > 0) == (y < 0)
    ensures q != 0 ==> Abs(q * y) >= Abs(y)
    ensures y != 0 ==> Abs(q * y) >= Abs(q)
  {
    Magnitude(q, y);
    if q != 0 {
      TimesMonotone(1, Abs(q), Abs(y));
      TimesOne(Abs(y));
    }
    if y != 0 {
      TimesMonotoneRight(Abs(q), 1, Abs(y));
      TimesOne(Abs(q));
    }
  }

  /** A division towards zero divides the magnitudes. */
  lemma DivisionOfMagnitudes(x: int, y: int, q: int, r: int)
    requires Division(x, y, q, r)
    ensures Abs(q) == Quotient(Abs(x), Abs(y)) && Abs(r) == Remainder(Abs(x), Abs(y))
    ensures x >= 0 ==> q == 0 || (q > 0) == (y > 0)
    ensures x < 0 ==> q == 0 || (q > 0) == (y < 0)
  {
    SignedProduct(q, y);
    QuotientIsUnique(Abs(q), Abs(r), Abs(y));
  }

  lemma DivisionIs(x: int, y: int, q: int, r: int)
    requires Division(x, y, q, r)
    ensures q == TruncatedQuotient(x, y) && r == TruncatedRemainder(x, y)
  {
    DivisionOfMagnitudes(x, y, q, r);
    QuotientIsDivision(Abs(x), Abs(y));
    Commutes(q, y);
  }

  lemma Commutes(q: int, y: int)
    ensures q * y == y * q
  {
  }

  lemma DivisionExists(x: int, y: int)
    requires y != 0
    ensures Division(x, y, TruncatedQuotient(x, y), TruncatedRemainder(x, y))
  {
    var a, b := Abs(x), Abs(y);
    QuotientIsDivision(a, b);
    QuotientSplits(a, b);
    var q := TruncatedQuotient(x, y);
    SignedProduct(q, y);
    Commutes(q, y);
  }

  /** An operation has its exact result, unless that does not fit 64 bits. */
  function Fitted(v: int): Outcome {
    if IsInt64(v) then Value(v) else Overflow
  }

  /** Sums, differences and products are the exact ones; there is no quotient or remainder by 0. */
  lemma OperatorMeans(left: Node, right: Node, env: Env, x: int, y: int)
    requires Eval(left, env) == Value(x) && Eval(right, env) == Value(y)
    ensures Eval(Binary(Plus, left, right), env) == Fitted(x + y)
    ensures Eval(Binary(Minus, left, right), env) == Fitted(x - y)
    ensures Eval(Binary(Star, left, right), env) == Fitted(x * y)
    ensures y == 0 ==> Eval(Binary(Slash, left, right), env) == Undefined
    ensures y == 0 ==> Eval(Binary(Percent, left, right), env) == Undefined
  {
  }

  /** The quotient and the remainder are the ones of division towards zero. */
  lemma DivisionMeans(left: Node, right: Node, env: Env, x: int, y: int, q: int, r: int)
    requires Eval(left, env) == Value(x) && Eval(right, env) == Value(y) && Division(x, y, q, r)
    ensures Eval(Binary(Slash, left, right), env) == Fitted(q)
    ensures Eval(Binary(Percent, left, right), env) == if IsInt64(q) then Value(r) else Overflow
  {
    DivisionIs(x, y, q, r);
  }

  /** Only INT64_MIN / -1 does not fit 64 bits. */
  lemma DivisionFits(x: int, y: int, q: int, r: int)
    requires IsInt64(x) && IsInt64(y) && Division(x, y, q, r)
    ensures IsInt64(r) && IsInt64(q * y)
    ensures IsInt64(q) <==> !(x == INT64_MIN && y == -1)
  {
    SignedProduct(q, y);
    DivisionOfMagnitudes(x, y, q, r);
    if Abs(y) > 1 && q != 0 {
      TimesMonotoneRight(Abs(q), 2, Abs(y));
      TimesIsProduct(Abs(q), 2);
    }
  }

  /** Dividing, multiplying back and adding the remainder gives the dividend. */
  lemma QuotientAndRemainder(left: Node, right: Node, env: Env, x: int, y: int)
    requires Eval(left, env) == Value(x) && Eval(right, env) == Value(y) && IsInt64(x) && IsInt64(y) && y != 0
    ensures
      Eval(Binary(Plus, Binary(Star, Binary(Slash, left, right), right), Binary(Percent, left, right)), env)
      == if x == INT64_MIN && y == -1 then Overflow else Value(x)
  {
    var q, r := TruncatedQuotient(x, y), TruncatedRemainder(x, y);
    DivisionExists(x, y);
    DivisionFits(x, y, q, r);
    var quotient, remainder := Binary(Slash, left, right), Binary(Percent, left, right);
    DivisionMeans(left, right, env, x, y, q, r);
    if IsInt64(q) {
      OperatorMeans(quotient, right, env, q, y);
      OperatorMeans(Binary(Star, quotient, right), remainder, env, q * y, r);
    }
  }

  /** Subtracting what was added gives the first operand, unless the sum does not fit. */
  lemma AddThenSubtract(left: Node, right: Node, env: Env, x: int, y: int)
    requires Eval(left, env) == Value(x) && Eval(right, env) == Value(y) && IsInt64(x)
    ensures Eval(Binary(Minus, Binary(Plus, left, right), right), env) == if IsInt64(x + y) then Value(x) else Overflow
  {
    if IsInt64(x + y) {
      OperatorMeans(Binary(Plus, left, right), right, env, x + y, y);
    }
  }

  // The same on texts.

  lemma LiteralText(x: nat, env: Env)
    requires x <= INT64_MAX && IdentifierKeys(env)
    ensures WellFormed(Leaf(Digits(x))) && Eval(Leaf(Digits(x)), env) == Value(x)
  {
    DigitsRoundTrip(x);
    LiteralEval(x, env);
  }

  lemma PrintedEval(n: Node, text: string, env: Env)
    requires WellFormed(n) && text == Normalize(n)
    ensures EvalText(text, env) == Eval(n, env)
  {
    RoundTrip(n);
  }

  function BinaryText(left: string, op: Op, right: string): string {
    left + [' ', OpChar(op), ' '] + right
  }

  /** An operation on atoms and its text, which is put in parentheses where the context binds tighter. */
  lemma AtomsText(op: Op, a: string, b: string, parent: nat)
    ensures
      var text := BinaryText(a, op, b);
      Print(Binary(op, Leaf(a), Leaf(b)), parent) == if Precedence(op) < parent then "(" + text + ")" else text
  {
    var p := Precedence(op);
    assert Print(Leaf(a), p) == a && Print(Leaf(b), p + 1) == b;
    assert Spaced(op) == [' ', OpChar(op), ' '];
  }

  lemma OperatorText(op: Op, infix: string, x: nat, y: nat, env: Env)
    requires infix == [' ', OpChar(op), ' ']
    ensures EvalText(Digits(x) + infix + Digits(y), env) == Eval(Binary(op, Leaf(Digits(x)), Leaf(Digits(y))), env)
  {
    DigitsRoundTrip(x);
    DigitsRoundTrip(y);
    AtomsText(op, Digits(x), Digits(y), 0);
    PrintedEval(Binary(op, Leaf(Digits(x)), Leaf(Digits(y))), BinaryText(Digits(x), op, Digits(y)), env);
  }

  /** The operators between two decimal numbers. */
  lemma TextSum(x: nat, y: nat, env: Env)
    requires x <= INT64_MAX && y <= INT64_MAX && IdentifierKeys(env)
    ensures EvalText(Digits(x) + " + " + Digits(y), env) == Fitted(x + y)
    ensures EvalText(Digits(x) + " - " + Digits(y), env) == Value(x - y)
  {
    LiteralText(x, env);
    LiteralText(y, env);
    OperatorMeans(Leaf(Digits(x)), Leaf(Digits(y)), env, x, y);
    OperatorText(Plus, " + ", x, y, env);
    OperatorText(Minus, " - ", x, y, env);
  }

  lemma TextProduct(x: nat, y: nat, env: Env)
    requires x <= INT64_MAX && y <= INT64_MAX && IdentifierKeys(env)
    ensures EvalText(Digits(x) + " * " + Digits(y), env) == Fitted(Times(x, y))
  {
    LiteralText(x, env);
    LiteralText(y, env);
    OperatorMeans(Leaf(Digits(x)), Leaf(Digits(y)), env, x, y);
    TimesIsProduct(x, y);
    OperatorText(Star, " * ", x, y, env);
  }

  lemma TextQuotient(x: nat, y: nat, env: Env)
    requires x <= INT64_MAX && y <= INT64_MAX && IdentifierKeys(env)
    ensures EvalText(Digits(x) + " / " + Digits(y), env) == if y == 0 then Undefined else Value(Quotient(x, y))
  {
    OperatorText(Slash, " / ", x, y, env);
    LiteralsDivide(x, y, env);
  }

  lemma TextRemainder(x: nat, y: nat, env: Env)
    requires x <= INT64_MAX && y <= INT64_MAX && IdentifierKeys(env)
    ensures EvalText(Digits(x) + " % " + Digits(y), env) == if y == 0 then Undefined else Value(Remainder(x, y))
  {
    OperatorText(Percent, " % ", x, y, env);
    LiteralsDivide(x, y, env);
  }

  lemma LiteralsDivide(x: nat, y: nat, env: Env)
    requires x <= INT64_MAX && y <= INT64_MAX && IdentifierKeys(env)
    ensures Eval(Binary(Slash, Leaf(Digits(x)), Leaf(Digits(y))), env)
         == if y == 0 then Undefined else Value(Quotient(x, y))
    ensures Eval(Binary(Percent, Leaf(Digits(x)), Leaf(Digits(y))), env)
         == if y == 0 then Undefined else Value(Remainder(x, y))
  {
    LiteralText(x, env);
    LiteralText(y, env);
    OperatorMeans(Leaf(Digits(x)), Leaf(Digits(y)), env, x, y);
    if y != 0 {
      SizesDivide(x, y);
      DivisionMeans(Leaf(Digits(x)), Leaf(Digits(y)), env, x, y, Quotient(x, y), Remainder(x, y));
    }
  }

  lemma SizesDivide(x: nat, y: nat)
    requires y != 0
    ensures Division(x, y, Quotient(x, y), Remainder(x, y)) && Quotient(x, y) <= x
  {
    QuotientSplits(x, y);
    SignedProduct(Quotient(x, y), y);
  }

  /** The text of a product of extents. */
  function ExtentsText(shape: seq<nat>): string
    requires shape != []
  {
    if |shape| == 1 then Digits(shape[0]) else ExtentsText(Init(shape)) + " * " + Digits(Last(shape))
  }

  function ExtentsNode(shape: seq<nat>): Node
    requires shape != []
  {
    if |shape| == 1 then Leaf(Digits(shape[0])) else Binary(Star, ExtentsNode(Init(shape)), Leaf(Digits(Last(shape))))
  }

  /** The extents and the products on the way are 64-bit integers. */
  predicate ExtentsFit(shape: seq<nat>) {
    forall i :: 0 <= i <= |shape| ==> Product(shape[..i]) <= INT64_MAX
  }

  lemma {:induction false} ExtentsPrint(shape: seq<nat>)
    requires shape != []
    ensures WellFormed(ExtentsNode(shape))
    ensures Print(ExtentsNode(shape), 2) == ExtentsText(shape) == Normalize(ExtentsNode(shape))
  {
    DigitsRoundTrip(Last(shape));
    if |shape| > 1 {
      ExtentsPrint(Init(shape));
    }
  }

  lemma FitsStep(shape: seq<nat>)
    requires shape != []
    ensures ExtentsFit(shape) <==> ExtentsFit(Init(shape)) && Product(shape) <= INT64_MAX
  {
    assert shape[..|shape|] == shape;
    assert forall i :: 0 <= i <= |Init(shape)| ==> Init(shape)[..i] == shape[..i];
  }

  lemma {:induction false} ExtentsEval(shape: seq<nat>, env: Env)
    requires shape != [] && IdentifierKeys(env) && forall i :: 0 <= i < |shape| ==> shape[i] <= INT64_MAX
    ensures Eval(ExtentsNode(shape), env) == if ExtentsFit(shape) then Value(Product(shape)) else Overflow
  {
    var rest, last := Init(shape), Last(shape);
    LiteralText(last, env);
    FitsStep(shape);
    if rest == [] {
      TimesOne(last);
    } else {
      ExtentsEval(rest, env);
      if ExtentsFit(rest) {
        OperatorMeans(ExtentsNode(rest), Leaf(Digits(last)), env, Product(rest), last);
        TimesIsProduct(Product(rest), last);
      }
    }
  }

  /** The product of extents evaluates to the number of elements exactly when no product on the way
      is too large. */
  lemma ExtentsProduct(shape: seq<nat>, env: Env)
    requires shape != [] && IdentifierKeys(env) && forall i :: 0 <= i < |shape| ==> shape[i] <= INT64_MAX
    ensures EvalText(ExtentsText(shape), env) == if ExtentsFit(shape) then Value(Product(shape)) else Overflow
  {
    ExtentsPrint(shape);
    ExtentsEval(shape, env);
    PrintedEval(ExtentsNode(shape), ExtentsText(shape), env);
  }

  /** A name has the value it is bound to. */
  lemma NameText(name: string, env: Env)
    requires IsIdentifierText(name)
    ensures EvalText(name, env) == if name in env then Value(env[name]) else Undefined
  {
    NumberIsNotIdentifier(name);
    LeafText(name);
  }

  /** An operand without a value leaves the expression without one. */
  lemma UndefinedOperand(op: Op, left: Node, right: Node, env: Env)
    requires !Eval(left, env).Overflow? && !Eval(right, env).Overflow?
    requires Eval(left, env).Undefined? || Eval(right, env).Undefined?
    ensures Eval(Binary(op, left, right), env) == Undefined
  {
  }

  /** Substituting numbers for names folds the expression to the text of its value. */
  lemma ProductFolds(a: string, b: string, x: nat, y: nat, text: string)
    requires IsIdentifierText(a) && IsIdentifierText(b) && a != b && text == a + " * " + b
    requires x <= INT64_MAX && y <= INT64_MAX && Times(x, y) <= INT64_MAX
    ensures Substitute(text, map[a := Digits(x), b := Digits(y)]) == Digits(Times(x, y))
  {
    AtomsText(Star, a, b, 0);
    assert text == BinaryText(a, Star, b);
    RoundTrip(Binary(Star, Leaf(a), Leaf(b)));
    NumbersReplace(a, b, x, y);
    var m := Binary(Star, Leaf(Digits(x)), Leaf(Digits(y)));
    ProductValue(x, y, Normalize(m));
  }

  lemma ProductValue(x: nat, y: nat, text: string)
    requires x <= INT64_MAX && y <= INT64_MAX
    requires text == Normalize(Binary(Star, Leaf(Digits(x)), Leaf(Digits(y))))
    ensures EvalText(text, map[]) == Fitted(Times(x, y))
  {
    AtomsText(Star, Digits(x), Digits(y), 0);
    assert text == Digits(x) + " * " + Digits(y);
    TextProduct(x, y, map[]);
  }

  lemma NumbersReplace(a: string, b: string, x: nat, y: nat)
    requires a != b
    ensures SubstituteNode(Binary(Star, Leaf(a), Leaf(b)), map[a := Digits(x), b := Digits(y)])
         == Binary(Star, Leaf(Digits(x)), Leaf(Digits(y)))
  {
    DigitsRoundTrip(x);
    DigitsRoundTrip(y);
    LeafText(Digits(x));
    LeafText(Digits(y));
  }
}
