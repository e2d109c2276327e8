/** The normal text of a shape-value expression, with as few parentheses as precedence allows, and
    the round trip through the lexer and the parser. */
module ShapePrinter {
  import opened Wrappers
  import opened ShapeLexer
  import opened ShapeParser
  import opened ShapeGrammar

  function Precedence(op: Op): nat {
    if Additive(op) then 1 else 2
  }

  function Spaced(op: Op): string {
    " " + OpText(op) + " "
  }

  /** `normalize_node`. */
  function Print(n: Node, parent: nat): string {
    match n
    case Leaf(atom) => atom
    case Binary(op, left, right) =>
      var text := Print(left, Precedence(op)) + Spaced(op) + Print(right, Precedence(op) + 1);
      if Precedence(op) < parent then "(" + text + ")" else text
  }

  function Normalize(n: Node): string {
    Print(n, 0)
  }

  function OpToken(op: Op): Tok {
    Tok(Operator(op), OpText(op))
  }

  const OPEN := Tok(LParen, "(")
  const CLOSE := Tok(RParen, ")")

  function LeafToken(atom: string): Tok {
    Tok(if IsNumberText(atom) then Number else Identifier, atom)
  }

  /** The tokens of a printed tree. */
  function Tokens(n: Node, parent: nat): seq<Tok> {
    match n
    case Leaf(atom) => [LeafToken(atom)]
    case Binary(op, left, right) =>
      var inner := Tokens(left, Precedence(op)) + [OpToken(op)] + Tokens(right, Precedence(op) + 1);
      if Precedence(op) < parent then [OPEN] + inner + [CLOSE] else inner
  }

  lemma LexOperator(op: Op, rest: string)
    ensures Lex(Spaced(op) + rest) == [OpToken(op)] + Lex(rest)
  {
    var tail := OpText(op) + (" " + rest);
    assert Spaced(op) + rest == " " + tail;
    LexSpace(tail);
    LexPunctuation(OpChar(op), " " + rest);
    assert Punctuation(OpChar(op)) == OpToken(op);
    LexSpace(rest);
  }

  lemma Regroup<T>(a: seq<T>, b: seq<T>, c: seq<T>, d: seq<T>)
    ensures a + b + c + d == a + (b + (c + d))
  {
  }

  lemma LexOpen(rest: string)
    ensures Lex(['('] + rest) == [OPEN] + Lex(rest)
  {
    LexPunctuation('(', rest);
  }

  lemma LexClose(rest: string)
    ensures Lex([')'] + rest) == [CLOSE] + Lex(rest)
  {
    LexPunctuation(')', rest);
  }

  lemma LexParentheses(inner: string, toks: seq<Tok>, rest: string)
    requires Lex(inner + ([')'] + rest)) == toks + Lex([')'] + rest)
    ensures Lex(['('] + inner + [')'] + rest) == ([OPEN] + toks + [CLOSE]) + Lex(rest)
  {
    var after := inner + ([')'] + rest);
    Regroup(['('], inner, [')'], rest);
    LexOpen(after);
    LexClose(rest);
    Regroup([OPEN], toks, [CLOSE], Lex(rest));
  }

  /** Lexing a printed tree gives the tree's tokens, whatever separated text follows. */
  lemma {:induction false} LexPrint(n: Node, parent: nat, rest: string)
    requires WellFormed(n) && Separated(rest)
    ensures Lex(Print(n, parent) + rest) == Tokens(n, parent) + Lex(rest)
    decreases n, 1
  {
    match n
    case Leaf(atom) =>
      if IsNumberText(atom) {
        LexNumber(atom, rest);
      } else {
        LexIdentifier(atom, rest);
      }
    case Binary(op, _, _) =>
      if Precedence(op) < parent {
        LexBare(n, [')'] + rest);
        LexParentheses(Print(n, 0), Tokens(n, 0), rest);
      } else {
        LexBare(n, rest);
      }
  }

  lemma {:induction false} LexBare(n: Node, rest: string)
    requires n.Binary? && WellFormed(n) && Separated(rest)
    ensures Lex(Print(n, 0) + rest) == Tokens(n, 0) + Lex(rest)
    decreases n, 0
  {
    var p := Precedence(n.op);
    var l, r := Print(n.left, p), Print(n.right, p + 1);
    Regroup(l, Spaced(n.op), r, rest);
    LexPrint(n.left, p, Spaced(n.op) + (r + rest));
    LexOperator(n.op, r + rest);
    LexPrint(n.right, p + 1, rest);
    Regroup(Tokens(n.left, p), [OpToken(n.op)], Tokens(n.right, p + 1), Lex(rest));
  }

  /** The printed tree as it is written. */
  function Printed(n: Node, parent: nat): Written {
    match n
    case Leaf(atom) => Atom(LeafToken(atom))
    case Binary(op, left, right) =>
      var inner := Infix(Printed(left, Precedence(op)), OpToken(op), Printed(right, Precedence(op) + 1));
      if Precedence(op) < parent then Group(OPEN, inner, CLOSE) else inner
  }

  /** It is spelled by the tokens, fits where it is printed, and stands for the tree. */
  lemma {:induction false} PrintedIsWritten(n: Node, parent: nat)
    requires WellFormed(n) && parent <= 3
    ensures Spelled(Printed(n, parent)) == Tokens(n, parent)
    ensures Fits(Printed(n, parent), parent) && Fits(Printed(n, parent), 1) && TreeOf(Printed(n, parent)) == n
  {
    if n.Binary? {
      PrintedIsWritten(n.left, Precedence(n.op));
      PrintedIsWritten(n.right, Precedence(n.op) + 1);
    }
  }

  /** No signs, only operators and parentheses. */
  predicate Unsigned(w: Written) {
    match w
    case Atom(_) => true
    case Sign(_, _) => false
    case Group(_, of, _) => Unsigned(of)
    case Infix(left, _, right) => Unsigned(left) && Unsigned(right)
  }

  /** No way to write a tree without signs takes fewer tokens: every printed pair of parentheses is needed. */
  lemma {:induction false} PrintedIsShortest(w: Written, parent: nat)
    requires Fits(w, parent) && Fits(w, 1) && Unsigned(w) && parent <= 3
    ensures |Tokens(TreeOf(w), parent)| <= |Spelled(w)|
  {
    if w.Group? {
      PrintedIsShortest(w.of, 1);
    } else if w.Infix? {
      FitsLower(w.left, Level(w.token.kind.op));
      FitsLower(w.right, Level(w.token.kind.op) + 1);
      PrintedIsShortest(w.left, Level(w.token.kind.op));
      PrintedIsShortest(w.right, Level(w.token.kind.op) + 1);
    }
  }

  /** Print then parse is the identity on trees with number and identifier leaves. */
  lemma RoundTrip(n: Node)
    requires WellFormed(n)
    ensures Parse(Normalize(n)) == Some(n)
  {
    var toks, end := Lex(Normalize(n)), |Tokens(n, 0)|;
    LexPrint(n, 0, "");
    assert Normalize(n) + "" == Normalize(n);
    assert toks == Tokens(n, 0) + [Tok(End, "")];
    PrintedIsWritten(n, 0);
    WrittenIsParsed(toks, end, Printed(n, 0));
  }

  /** Equal normal texts mean equal trees. */
  lemma NormalTextsAreDistinct(a: Node, b: Node)
    requires WellFormed(a) && WellFormed(b) && Normalize(a) == Normalize(b)
    ensures a == b
  {
    RoundTrip(a);
    RoundTrip(b);
  }

  /** `normalize_shape_value_expr`: the empty text stands for an invalid expression. */
  function NormalText(text: string): string {
    match ParseExpr(text)
    case None => ""
    case Some(n) => Normalize(n)
  }

  lemma {:induction false} PrintNonempty(n: Node, parent: nat)
    requires WellFormed(n)
    ensures Print(n, parent) != ""
  {
    if n.Binary? {
      PrintNonempty(n.left, Precedence(n.op));
    }
  }

  /** The empty normal text is given to exactly the invalid texts. */
  lemma NormalTextEmptyIffInvalid(text: string)
    ensures NormalText(text) == "" <==> ParseExpr(text) == None
  {
    if ParseExpr(text).Some? {
      PrintNonempty(ParseExpr(text).value, 0);
    }
  }

  /** Normalising is idempotent, on all texts. */
  lemma NormalTextIdempotent(text: string)
    ensures NormalText(NormalText(text)) == NormalText(text)
  {
    match ParseExpr(text)
    case None =>
      assert Lex("") == [Tok(End, "")];
    case Some(n) =>
      RoundTrip(n);
  }

  /** Two valid texts have the same normal text exactly when they parse to the same tree. */
  lemma NormalTextDecidesTree(a: string, b: string)
    requires ParseExpr(a).Some? && ParseExpr(b).Some?
    ensures NormalText(a) == NormalText(b) <==> ParseExpr(a) == ParseExpr(b)
  {
    if NormalText(a) == NormalText(b) {
      NormalTextsAreDistinct(ParseExpr(a).value, ParseExpr(b).value);
    }
  }
}
