/** Evaluation of shape-value expressions in 64-bit integers, and the decimal texts of integers. */
module ShapeEval {
  import opened MachineInt
  import opened Wrappers
  import opened ShapeLexer
  import opened ShapeParser
  import opened ShapePrinter

  /** `Overflow`: the C++ evaluation overflows a `long long`, which has no defined result.
      `Undefined`: the evaluation gives `std::nullopt`. */
  datatype Outcome = Overflow | Undefined | Value(value: int)

  type Env = map<string, int>

  function DigitValue(c: char): nat
    requires IsDigit(c)
  {
    c as int - '0' as int
  }

  function Decimal(text: string): nat
    requires AllDigits(text)
  {
    if text == "" then 0 else Decimal(text[..|text| - 1]) * 10 + DigitValue(text[|text| - 1])
  }

  function ParsedInteger(text: string): Option<int> {
    if IsNumberText(text) && Decimal(text) <= INT64_MAX then Some(Decimal(text)) else None
  }

  /** `parse_integer` gives the decimal value exactly when the text is all digits and the value fits
      a `long long`; it never overflows on the way. */
  method ParseInteger(text: string) returns (r: Option<int>)
    ensures r == ParsedInteger(text)
  {
    if text == "" {
      return None;
    }
    var value := 0;
    for i := 0 to |text|
      invariant AllDigits(text[..i]) && value == Decimal(text[..i]) <= INT64_MAX
    {
      if text[i] < '0' || text[i] > '9' {
        return None;
      }
      var digit := DigitValue(text[i]);
      assert text[..i + 1][..i] == text[..i];
      if value > (INT64_MAX - digit) / 10 {
        if AllDigits(text) {
          DecimalGrows(text, i + 1);
        }
        return None;
      }
      value := value * 10 + digit;
    }
    assert text[..|text|] == text;
    return Some(value);
  }

  lemma {:induction false} DecimalGrows(text: string, n: nat)
    requires AllDigits(text) && n <= |text|
    ensures Decimal(text[..n]) <= Decimal(text)
    decreases |text|
  {
    if n == |text| {
      assert text[..n] == text;
    } else {
      var shorter := text[..|text| - 1];
      assert shorter[..n] == text[..n];
      DecimalGrows(shorter, n);
    }
  }

  function TruncatedQuotient(a: int, b: int): int
    requires b != 0
  {
    if (a >= 0) == (b > 0) then Abs(a) / Abs(b) else -(Abs(a) / Abs(b))
  }

  function Abs(a: int): nat {
    if a < 0 then -a else a
  }

  /** C++ `/` and `%`: the quotient is truncated and the remainder has the dividend's sign. */
  function TruncatedRemainder(a: int, b: int): int
    requires b != 0
  {
    a - b * TruncatedQuotient(a, b)
  }

  function Checked(v: int): Outcome {
    if IsInt64(v) then Value(v) else Overflow
  }

  function Apply(op: Op, a: int, b: int): Outcome {
    match op
    case Plus => Checked(a + b)
    case Minus => Checked(a - b)
    case Star => Checked(a * b)
    case Slash => if b == 0 then Undefined else Checked(TruncatedQuotient(a, b))
    case Percent =>
      if b == 0 then Undefined
      else if !IsInt64(TruncatedQuotient(a, b)) then Overflow
      else Value(TruncatedRemainder(a, b))
  }

  function Combine(op: Op, a: Outcome, b: Outcome): Outcome {
    if a.Overflow? || b.Overflow? then Overflow
    else if a.Undefined? || b.Undefined? then Undefined
    else Apply(op, a.value, b.value)
  }

  /** `eval_node`. */
  function Eval(n: Node, env: Env): Outcome {
    match n
    case Leaf(atom) =>
      if ParsedInteger(atom).Some? then Value(ParsedInteger(atom).value)
      else if atom in env then Value(env[atom])
      else Undefined
    case Binary(op, left, right) => Combine(op, Eval(left, env), Eval(right, env))
  }

  function EvalText(text: string, env: Env): Outcome {
    match ParseExpr(text)
    case None => Undefined
    case Some(n) => Eval(n, env)
  }

  /** An expression with a value under no bindings has it under all of them; so has one that
      overflows. */
  lemma {:induction false} EvalClosed(n: Node, env: Env)
    requires !Eval(n, map[]).Undefined?
    ensures Eval(n, env) == Eval(n, map[])
  {
    if n.Binary? {
      if !Eval(n.left, map[]).Undefined? {
        EvalClosed(n.left, env);
      }
      if !Eval(n.right, map[]).Undefined? {
        EvalClosed(n.right, env);
      }
    }
  }
}
