/** The language of shape-value expressions: which tokens the parser accepts, and which trees it builds. */
module ShapeGrammar {
  import opened Wrappers
  import opened ShapeLexer
  import opened ShapeParser

  /** An expression as it is written, with its signs and parentheses. */
  datatype Written =
    | Atom(token: Tok)
    | Sign(token: Tok, of: Written)
    | Group(open: Tok, of: Written, close: Tok)
    | Infix(left: Written, token: Tok, right: Written)

  function Spelled(w: Written): (toks: seq<Tok>)
    ensures toks != []
  {
    match w
    case Atom(token) => [token]
    case Sign(token, of) => [token] + Spelled(of)
    case Group(open, of, close) => [open] + Spelled(of) + [close]
    case Infix(left, token, right) => Spelled(left) + [token] + Spelled(right)
  }

  /** Sums are of level 1, products of level 2, and signs of level 3. */
  function Level(op: Op): nat {
    match op
    case Plus | Minus => 1
    case Star | Slash | Percent => 2
  }

  /** The expression is an operand of the level: both kinds of operators associate to the left, and what binds
      weaker is in parentheses. */
  predicate Fits(w: Written, level: nat) {
    match w
    case Atom(token) => token.kind == Number || token.kind == Identifier
    case Sign(token, of) => (token.kind == Operator(Plus) || token.kind == Operator(Minus)) && Fits(of, 3)
    case Group(open, of, close) => open.kind == LParen && close.kind == RParen && Fits(of, 1)
    case Infix(left, token, right) =>
      && token.kind.Operator? && Level(token.kind.op) >= level
      && Fits(left, Level(token.kind.op)) && Fits(right, Level(token.kind.op) + 1)
  }

  /** A plus does nothing and a minus subtracts from 0. */
  function TreeOf(w: Written): Node
    requires Fits(w, 1)
  {
    match w
    case Atom(token) => Leaf(token.text)
    case Sign(token, of) =>
      FitsLower(of, 3);
      if token.kind == Operator(Plus) then TreeOf(of) else Binary(Minus, Leaf("0"), TreeOf(of))
    case Group(_, of, _) => TreeOf(of)
    case Infix(left, token, right) =>
      FitsLower(left, Level(token.kind.op));
      FitsLower(right, Level(token.kind.op) + 1);
      Binary(token.kind.op, TreeOf(left), TreeOf(right))
  }

  lemma FitsLower(w: Written, level: nat)
    requires Fits(w, level) && level >= 1
    ensures Fits(w, 1)
  {
  }

  // What the parser does at a position. The quantified token list keeps proofs that only pass these
  // facts on from looking into the parser.

  predicate Inside(toks: seq<Tok>, at: nat) {
    Terminated(toks) && at < |toks|
  }

  ghost predicate ParsesUnary(toks: seq<Tok>, at: nat, end: nat, n: Node) {
    forall t {:trigger UnaryAt(t, at)} :: t == toks && Inside(t, at) ==> UnaryAt(t, at) == Some((n, end))
  }

  ghost predicate ParsesProduct(toks: seq<Tok>, at: nat, end: nat, n: Node) {
    forall t {:trigger ProductAt(t, at)} :: t == toks && Inside(t, at) && Inside(t, end)
      ==> ProductAt(t, at) == ProductTail(t, end, n)
  }

  ghost predicate ParsesSum(toks: seq<Tok>, at: nat, end: nat, n: Node) {
    forall t {:trigger SumAt(t, at)} :: t == toks && Inside(t, at) && Inside(t, end)
      ==> SumAt(t, at) == SumTail(t, end, n)
  }

  lemma JoinAtom(toks: seq<Tok>, at: nat)
    requires Inside(toks, at) && (toks[at].kind == Number || toks[at].kind == Identifier)
    ensures ParsesUnary(toks, at, at + 1, Leaf(toks[at].text))
  {
  }

  lemma JoinSign(toks: seq<Tok>, at: nat, end: nat, n: Node)
    requires Inside(toks, at + 1) && (toks[at].kind == Operator(Plus) || toks[at].kind == Operator(Minus))
    requires ParsesUnary(toks, at + 1, end, n)
    ensures ParsesUnary(toks, at, end, if toks[at].kind == Operator(Plus) then n else Binary(Minus, Leaf("0"), n))
  {
    assert UnaryAt(toks, at + 1) == Some((n, end));
  }

  lemma JoinGroup(toks: seq<Tok>, at: nat, end: nat, n: Node)
    requires Terminated(toks) && at + 2 < end < |toks| && toks[at].kind == LParen && toks[end - 1].kind == RParen
    requires ParsesSum(toks, at + 1, end - 1, n)
    ensures ParsesUnary(toks, at, end, n)
  {
    assert Inside(toks, at + 1) && SumAt(toks, at + 1) == SumTail(toks, end - 1, n);
    GroupStep(toks, at, end - 1, n);
  }

  lemma GroupStep(toks: seq<Tok>, at: nat, close: nat, n: Node)
    requires Terminated(toks) && at + 1 < close < |toks|
    requires toks[at].kind == LParen && toks[close].kind == RParen
    requires SumAt(toks, at + 1) == SumTail(toks, close, n)
    ensures UnaryAt(toks, at) == Some((n, close + 1))
  {
  }

  lemma JoinUnary(toks: seq<Tok>, at: nat, end: nat, n: Node)
    requires Terminated(toks) && at < end < |toks| && ParsesUnary(toks, at, end, n)
    ensures ParsesProduct(toks, at, end, n)
  {
    assert UnaryAt(toks, at) == Some((n, end));
    ProductOfUnary(toks, at, end, n);
  }

  lemma ProductOfUnary(toks: seq<Tok>, at: nat, end: nat, n: Node)
    requires Terminated(toks) && at < end < |toks| && UnaryAt(toks, at) == Some((n, end))
    ensures ProductAt(toks, at) == ProductTail(toks, end, n)
  {
  }

  lemma JoinProduct(toks: seq<Tok>, at: nat, mid: nat, end: nat, op: Op, left: Node, right: Node)
    requires Terminated(toks) && at < mid < mid + 1 < end < |toks|
    requires Level(op) == 2 && toks[mid].kind == Operator(op)
    requires ParsesProduct(toks, at, mid, left) && ParsesUnary(toks, mid + 1, end, right)
    ensures ParsesProduct(toks, at, end, Binary(op, left, right))
  {
    assert ProductAt(toks, at) == ProductTail(toks, mid, left);
    assert UnaryAt(toks, mid + 1) == Some((right, end));
    ProductStep(toks, mid, end, op, left, right);
  }

  lemma ProductStep(toks: seq<Tok>, mid: nat, end: nat, op: Op, left: Node, right: Node)
    requires Terminated(toks) && mid + 1 < end < |toks| && Level(op) == 2 && toks[mid].kind == Operator(op)
    requires UnaryAt(toks, mid + 1) == Some((right, end))
    ensures ProductTail(toks, mid, left) == ProductTail(toks, end, Binary(op, left, right))
  {
  }

  lemma JoinToSum(toks: seq<Tok>, at: nat, end: nat, n: Node)
    requires Terminated(toks) && at < end < |toks| && !OperatorAt(toks, end, false) && ParsesProduct(toks, at, end, n)
    ensures ParsesSum(toks, at, end, n)
  {
    assert ProductAt(toks, at) == ProductTail(toks, end, n);
    SumOfProduct(toks, at, end, n);
  }

  lemma SumOfProduct(toks: seq<Tok>, at: nat, end: nat, n: Node)
    requires Terminated(toks) && at < end < |toks| && !OperatorAt(toks, end, false)
    requires ProductAt(toks, at) == ProductTail(toks, end, n)
    ensures SumAt(toks, at) == SumTail(toks, end, n)
  {
  }

  lemma JoinSum(toks: seq<Tok>, at: nat, mid: nat, end: nat, op: Op, left: Node, right: Node)
    requires Terminated(toks) && at < mid < mid + 1 < end < |toks|
    requires Level(op) == 1 && toks[mid].kind == Operator(op) && !OperatorAt(toks, end, false)
    requires ParsesSum(toks, at, mid, left) && ParsesProduct(toks, mid + 1, end, right)
    ensures ParsesSum(toks, at, end, Binary(op, left, right))
  {
    assert SumAt(toks, at) == SumTail(toks, mid, left);
    assert ProductAt(toks, mid + 1) == ProductTail(toks, end, right);
    SumStep(toks, mid, end, op, left, right);
  }

  lemma SumStep(toks: seq<Tok>, mid: nat, end: nat, op: Op, left: Node, right: Node)
    requires Terminated(toks) && mid + 1 < end < |toks| && Level(op) == 1 && toks[mid].kind == Operator(op)
    requires ProductAt(toks, mid + 1) == ProductTail(toks, end, right) && !OperatorAt(toks, end, false)
    ensures SumTail(toks, mid, left) == SumTail(toks, end, Binary(op, left, right))
  {
  }

  // What is written is parsed.

  /** The expression is spelled at a position, before the end. */
  predicate SpelledAt(toks: seq<Tok>, at: nat, end: nat, w: Written) {
    at <= end < |toks| && Terminated(toks) && toks[at..end] == Spelled(w)
  }

  lemma SignParts(toks: seq<Tok>, at: nat, end: nat, w: Written)
    requires SpelledAt(toks, at, end, w) && w.Sign?
    ensures at + 1 < end && toks[at] == w.token && SpelledAt(toks, at + 1, end, w.of)
  {
    var all := toks[at..end];
    assert toks[at] == all[0] && toks[at + 1..end] == all[1..] == Spelled(w.of);
  }

  lemma GroupParts(toks: seq<Tok>, at: nat, end: nat, w: Written)
    requires SpelledAt(toks, at, end, w) && w.Group?
    ensures at + 2 < end && toks[at] == w.open && toks[end - 1] == w.close && SpelledAt(toks, at + 1, end - 1, w.of)
  {
    var all := toks[at..end];
    var last := |all| - 1;
    assert toks[at] == all[0] && toks[end - 1] == all[last];
    assert all[1..last] == Spelled(w.of);
    forall k | 1 <= k < last ensures toks[at + k] == all[k] {
    }
    assert toks[at + 1..end - 1] == all[1..last];
  }

  lemma InfixParts(toks: seq<Tok>, at: nat, end: nat, w: Written, mid: nat)
    requires SpelledAt(toks, at, end, w) && w.Infix? && mid == at + |Spelled(w.left)|
    ensures at < mid && mid + 1 < end && toks[mid] == w.token
    ensures SpelledAt(toks, at, mid, w.left) && SpelledAt(toks, mid + 1, end, w.right)
  {
    var all, k := toks[at..end], |Spelled(w.left)|;
    assert toks[mid] == all[k];
    assert toks[at..mid] == all[..k] == Spelled(w.left);
    assert toks[mid + 1..end] == all[k + 1..] == Spelled(w.right);
  }

  lemma {:induction false} UnaryOfWritten(toks: seq<Tok>, at: nat, end: nat, w: Written)
    requires SpelledAt(toks, at, end, w) && Fits(w, 3) && Fits(w, 1)
    ensures ParsesUnary(toks, at, end, TreeOf(w))
    decreases w, 0
  {
    match w
    case Atom(token) =>
      assert toks[at..end][0] == toks[at] == token;
      JoinAtom(toks, at);
    case Sign(_, of) =>
      SignParts(toks, at, end, w);
      FitsLower(of, 3);
      UnaryOfWritten(toks, at + 1, end, of);
      JoinSign(toks, at, end, TreeOf(of));
    case Group(_, of, _) =>
      GroupParts(toks, at, end, w);
      SumOfWritten(toks, at + 1, end - 1, of);
      JoinGroup(toks, at, end, TreeOf(of));
  }

  lemma {:induction false} ProductOfWritten(toks: seq<Tok>, at: nat, end: nat, w: Written)
    requires SpelledAt(toks, at, end, w) && Fits(w, 2) && Fits(w, 1)
    ensures ParsesProduct(toks, at, end, TreeOf(w))
    decreases w, 1
  {
    if w.Infix? {
      var mid := at + |Spelled(w.left)|;
      InfixParts(toks, at, end, w, mid);
      FitsLower(w.left, 2);
      FitsLower(w.right, 3);
      ProductOfWritten(toks, at, mid, w.left);
      UnaryOfWritten(toks, mid + 1, end, w.right);
      JoinProduct(toks, at, mid, end, w.token.kind.op, TreeOf(w.left), TreeOf(w.right));
    } else {
      UnaryOfWritten(toks, at, end, w);
      JoinUnary(toks, at, end, TreeOf(w));
    }
  }

  lemma {:induction false} SumOfWritten(toks: seq<Tok>, at: nat, end: nat, w: Written)
    requires SpelledAt(toks, at, end, w) && Fits(w, 1) && !OperatorAt(toks, end, false)
    ensures ParsesSum(toks, at, end, TreeOf(w))
    decreases w, 2
  {
    if w.Infix? && Level(w.token.kind.op) == 1 {
      var mid := at + |Spelled(w.left)|;
      InfixParts(toks, at, end, w, mid);
      FitsLower(w.right, 2);
      SumOfWritten(toks, at, mid, w.left);
      ProductOfWritten(toks, mid + 1, end, w.right);
      JoinSum(toks, at, mid, end, w.token.kind.op, TreeOf(w.left), TreeOf(w.right));
    } else {
      ProductOfWritten(toks, at, end, w);
      JoinToSum(toks, at, end, TreeOf(w));
    }
  }

  /** What is written as the grammar says is accepted, as the tree it stands for. */
  lemma WrittenIsParsed(toks: seq<Tok>, end: nat, w: Written)
    requires SpelledAt(toks, 0, end, w) && Fits(w, 1) && toks[end].kind == End
    ensures ParseTokens(toks) == Some(TreeOf(w))
  {
    SumOfWritten(toks, 0, end, w);
    assert Inside(toks, 0) && Inside(toks, end) && SumAt(toks, 0) == SumTail(toks, end, TreeOf(w));
  }

  // What is parsed is written.

  /** The parser's result at a position is an expression that is spelled there. */
  predicate Reads(toks: seq<Tok>, at: nat, r: (Node, nat), w: Written, level: nat) {
    && Fits(w, level) && Fits(w, 1) && TreeOf(w) == r.0
    && at < r.1 < |toks| && toks[at..r.1] == Spelled(w)
  }

  lemma {:induction false} SumIsWritten(toks: seq<Tok>, at: nat) returns (w: Written)
    requires Inside(toks, at) && SumAt(toks, at).Some?
    ensures Reads(toks, at, SumAt(toks, at).value, w, 1)
    decreases |toks| - at, 3
  {
    var left := ProductAt(toks, at).value;
    var first := ProductIsWritten(toks, at);
    w := SumTailIsWritten(toks, at, left.1, left.0, first);
  }

  lemma {:induction false} SumTailIsWritten(toks: seq<Tok>, from: nat, at: nat, left: Node, first: Written)
    returns (w: Written)
    requires Inside(toks, at) && Reads(toks, from, (left, at), first, 1) && SumTail(toks, at, left).Some?
    ensures Reads(toks, from, SumTail(toks, at, left).value, w, 1)
    decreases |toks| - at, 2
  {
    if !OperatorAt(toks, at, true) {
      w := first;
    } else {
      var right := ProductAt(toks, at + 1).value;
      var second := ProductIsWritten(toks, at + 1);
      w := Infix(first, toks[at], second);
      InfixRead(toks, from, at, left, right, first, second);
      w := SumTailIsWritten(toks, from, right.1, Binary(toks[at].kind.op, left, right.0), w);
    }
  }

  lemma InfixRead(toks: seq<Tok>, from: nat, at: nat, left: Node, right: (Node, nat), first: Written, second: Written)
    requires Inside(toks, at) && toks[at].kind.Operator?
    requires Reads(toks, from, (left, at), first, Level(toks[at].kind.op))
    requires Reads(toks, at + 1, right, second, Level(toks[at].kind.op) + 1)
    ensures Reads(toks, from, (Binary(toks[at].kind.op, left, right.0), right.1), Infix(first, toks[at], second),
                  Level(toks[at].kind.op))
  {
    assert toks[from..right.1] == toks[from..at] + [toks[at]] + toks[at + 1..right.1];
  }

  lemma {:induction false} ProductIsWritten(toks: seq<Tok>, at: nat) returns (w: Written)
    requires Inside(toks, at) && ProductAt(toks, at).Some?
    ensures Reads(toks, at, ProductAt(toks, at).value, w, 2)
    decreases |toks| - at, 2
  {
    var left := UnaryAt(toks, at).value;
    var first := UnaryIsWritten(toks, at);
    w := ProductTailIsWritten(toks, at, left.1, left.0, first);
  }

  lemma {:induction false} ProductTailIsWritten(toks: seq<Tok>, from: nat, at: nat, left: Node, first: Written)
    returns (w: Written)
    requires Inside(toks, at) && Reads(toks, from, (left, at), first, 2) && ProductTail(toks, at, left).Some?
    ensures Reads(toks, from, ProductTail(toks, at, left).value, w, 2)
    decreases |toks| - at, 1
  {
    if !OperatorAt(toks, at, false) {
      w := first;
    } else {
      var right := UnaryAt(toks, at + 1).value;
      var second := UnaryIsWritten(toks, at + 1);
      w := Infix(first, toks[at], second);
      InfixRead(toks, from, at, left, right, first, second);
      w := ProductTailIsWritten(toks, from, right.1, Binary(toks[at].kind.op, left, right.0), w);
    }
  }

  lemma {:induction false} UnaryIsWritten(toks: seq<Tok>, at: nat) returns (w: Written)
    requires Inside(toks, at) && UnaryAt(toks, at).Some?
    ensures Reads(toks, at, UnaryAt(toks, at).value, w, 3)
    decreases |toks| - at, 1
  {
    var r := UnaryAt(toks, at).value;
    if toks[at].kind == Operator(Plus) || toks[at].kind == Operator(Minus) {
      var of := UnaryIsWritten(toks, at + 1);
      assert toks[at..r.1] == [toks[at]] + toks[at + 1..r.1];
      w := Sign(toks[at], of);
    } else {
      w := PrimaryIsWritten(toks, at);
    }
  }

  lemma {:induction false} PrimaryIsWritten(toks: seq<Tok>, at: nat) returns (w: Written)
    requires Inside(toks, at) && PrimaryAt(toks, at).Some?
    ensures Reads(toks, at, PrimaryAt(toks, at).value, w, 3)
    decreases |toks| - at, 0
  {
    if toks[at].kind == Number || toks[at].kind == Identifier {
      w := Atom(toks[at]);
    } else {
      var inner := SumAt(toks, at + 1).value;
      var of := SumIsWritten(toks, at + 1);
      assert toks[at..inner.1 + 1] == [toks[at]] + toks[at + 1..inner.1] + [toks[inner.1]];
      w := Group(toks[at], of, toks[inner.1]);
    }
  }

  /** The parser accepts exactly what the grammar allows, up to an end token, and builds the tree it stands for. */
  lemma ParsedIffWritten(toks: seq<Tok>, n: Node)
    requires Terminated(toks)
    ensures ParseTokens(toks) == Some(n) <==>
      exists w, end: nat :: SpelledAt(toks, 0, end, w) && Fits(w, 1) && toks[end].kind == End && TreeOf(w) == n
  {
    if ParseTokens(toks) == Some(n) {
      var w := SumIsWritten(toks, 0);
      assert SpelledAt(toks, 0, SumAt(toks, 0).value.1, w);
    }
    if w, end: nat :| SpelledAt(toks, 0, end, w) && Fits(w, 1) && toks[end].kind == End && TreeOf(w) == n {
      WrittenIsParsed(toks, end, w);
    }
  }
}
