/** The precedence-climbing parser of shape-value expressions and its grammar. */
module ShapeParser {
  import opened Wrappers
  import opened ShapeLexer

  datatype Node = Leaf(atom: string) | Binary(op: Op, left: Node, right: Node)

  /** Trees whose leaves are numbers and identifiers: exactly what the parser builds. */
  predicate WellFormed(n: Node) {
    match n
    case Leaf(atom) => IsNumberText(atom) || IsIdentifierText(atom)
    case Binary(_, left, right) => WellFormed(left) && WellFormed(right)
  }

  predicate Additive(op: Op) {
    op == Plus || op == Minus
  }

  /** A token list that only ends in its end token, so that the cursor can always look. */
  predicate Terminated(toks: seq<Tok>) {
    toks != [] && toks[|toks| - 1].kind == End
  }

  /** Is the token at the cursor an operator of the sum level (or of the product level)? */
  predicate OperatorAt(toks: seq<Tok>, at: nat, additive: bool)
    requires at < |toks|
  {
    toks[at].kind.Operator? && Additive(toks[at].kind.op) == additive
  }

  /** The grammar: each function parses from a cursor and gives the tree and the cursor after it. */
  function SumAt(toks: seq<Tok>, at: nat): (r: Option<(Node, nat)>)
    requires Terminated(toks) && at < |toks|
    ensures r.Some? ==> at < r.value.1 < |toks| && (GoodTokens(toks) ==> WellFormed(r.value.0))
    decreases |toks| - at, 3
  {
    match ProductAt(toks, at)
    case None => None
    case Some((left, next)) => SumTail(toks, next, left)
  }

  function SumTail(toks: seq<Tok>, at: nat, left: Node): (r: Option<(Node, nat)>)
    requires Terminated(toks) && at < |toks|
    ensures r.Some? ==> at <= r.value.1 < |toks|
    ensures r.Some? && GoodTokens(toks) && WellFormed(left) ==> WellFormed(r.value.0)
    decreases |toks| - at, 2
  {
    if !OperatorAt(toks, at, true) then Some((left, at))
    else match ProductAt(toks, at + 1)
      case None => None
      case Some((right, next)) => SumTail(toks, next, Binary(toks[at].kind.op, left, right))
  }

  function ProductAt(toks: seq<Tok>, at: nat): (r: Option<(Node, nat)>)
    requires Terminated(toks) && at < |toks|
    ensures r.Some? ==> at < r.value.1 < |toks| && (GoodTokens(toks) ==> WellFormed(r.value.0))
    decreases |toks| - at, 2
  {
    match UnaryAt(toks, at)
    case None => None
    case Some((left, next)) => ProductTail(toks, next, left)
  }

  function ProductTail(toks: seq<Tok>, at: nat, left: Node): (r: Option<(Node, nat)>)
    requires Terminated(toks) && at < |toks|
    ensures r.Some? ==> at <= r.value.1 < |toks|
    ensures r.Some? && GoodTokens(toks) && WellFormed(left) ==> WellFormed(r.value.0)
    decreases |toks| - at, 1
  {
    if !OperatorAt(toks, at, false) then Some((left, at))
    else match UnaryAt(toks, at + 1)
      case None => None
      case Some((right, next)) => ProductTail(toks, next, Binary(toks[at].kind.op, left, right))
  }

  function UnaryAt(toks: seq<Tok>, at: nat): (r: Option<(Node, nat)>)
    requires Terminated(toks) && at < |toks|
    ensures r.Some? ==> at < r.value.1 < |toks| && (GoodTokens(toks) ==> WellFormed(r.value.0))
    decreases |toks| - at, 1
  {
    if toks[at].kind == Operator(Plus) then UnaryAt(toks, at + 1)
    else if toks[at].kind == Operator(Minus) then
      match UnaryAt(toks, at + 1)
      case None => None
      case Some((right, next)) => Some((Binary(Minus, Leaf("0"), right), next))
    else PrimaryAt(toks, at)
  }

  function PrimaryAt(toks: seq<Tok>, at: nat): (r: Option<(Node, nat)>)
    requires Terminated(toks) && at < |toks|
    ensures r.Some? ==> at < r.value.1 < |toks| && (GoodTokens(toks) ==> WellFormed(r.value.0))
    decreases |toks| - at, 0
  {
    if toks[at].kind == Number || toks[at].kind == Identifier then Some((Leaf(toks[at].text), at + 1))
    else if toks[at].kind != LParen then None
    else match SumAt(toks, at + 1)
      case None => None
      case Some((inner, next)) => if toks[next].kind == RParen then Some((inner, next + 1)) else None
  }

  function ParseTokens(toks: seq<Tok>): (r: Option<Node>)
    requires Terminated(toks)
    ensures r.Some? && GoodTokens(toks) ==> WellFormed(r.value)
  {
    match SumAt(toks, 0)
    case None => None
    case Some((n, next)) => if toks[next].kind == End then Some(n) else None
  }

  function Parse(text: string): (r: Option<Node>)
    ensures r.Some? ==> WellFormed(r.value)
  {
    LexGood(text);
    ParseTokens(Lex(text))
  }

  /** `parse_expr`: trims, then parses. */
  function ParseExpr(text: string): (r: Option<Node>)
    ensures r == Parse(text)
  {
    LexTrim(text);
    Parse(Trim(text))
  }

  /** The parser object: a fixed token list and a cursor that the methods advance. A method that
      fails leaves the cursor where it failed; nothing reads it after that. */
  class Parser {
    const tokens: seq<Tok>
    var cursor: nat

    ghost predicate Valid()
      reads this
    {
      Terminated(tokens) && cursor < |tokens|
    }

    constructor (text: string)
      ensures Valid() && tokens == Lex(text) && cursor == 0
    {
      var lexed := LexText(text);
      tokens := lexed;
      cursor := 0;
    }

    /** The method's result and, on success, the cursor are the grammar's. */
    ghost predicate Agrees(result: Option<Node>, spec: Option<(Node, nat)>)
      reads this
    {
      match spec
      case None => result == None
      case Some((n, next)) => result == Some(n) && cursor == next
    }

    method Match(kind: TokKind) returns (matched: bool)
      requires Valid() && kind != End
      modifies this
      ensures Valid()
      ensures matched == (tokens[old(cursor)].kind == kind)
      ensures cursor == if matched then old(cursor) + 1 else old(cursor)
    {
      if tokens[cursor].kind != kind {
        return false;
      }
      cursor := cursor + 1;
      return true;
    }

    method ParseSum() returns (left: Option<Node>)
      requires Valid()
      modifies this
      ensures Valid() && old(cursor) <= cursor && Agrees(left, SumAt(tokens, old(cursor)))
      decreases |tokens| - cursor, 3
    {
      ghost var start := cursor;
      left := ParseProduct();
      while left.Some? && OperatorAt(tokens, cursor, true)
        invariant Valid() && start <= cursor
        invariant left == None ==> SumAt(tokens, start) == None
        invariant left.Some? ==> start < cursor && SumAt(tokens, start) == SumTail(tokens, cursor, left.value)
        decreases |tokens| - cursor
      {
        var op := tokens[cursor].kind.op;
        cursor := cursor + 1;
        var right := ParseProduct();
        if right == None {
          return None;
        }
        left := Some(Binary(op, left.value, right.value));
      }
    }

    method ParseProduct() returns (left: Option<Node>)
      requires Valid()
      modifies this
      ensures Valid() && old(cursor) <= cursor && Agrees(left, ProductAt(tokens, old(cursor)))
      decreases |tokens| - cursor, 2
    {
      ghost var start := cursor;
      left := ParseUnary();
      while left.Some? && OperatorAt(tokens, cursor, false)
        invariant Valid() && start <= cursor
        invariant left == None ==> ProductAt(tokens, start) == None
        invariant left.Some? ==> start < cursor && ProductAt(tokens, start) == ProductTail(tokens, cursor, left.value)
        decreases |tokens| - cursor
      {
        var op := tokens[cursor].kind.op;
        cursor := cursor + 1;
        var right := ParseUnary();
        if right == None {
          return None;
        }
        left := Some(Binary(op, left.value, right.value));
      }
    }

    method ParseUnary() returns (node: Option<Node>)
      requires Valid()
      modifies this
      ensures Valid() && old(cursor) <= cursor && Agrees(node, UnaryAt(tokens, old(cursor)))
      decreases |tokens| - cursor, 1
    {
      var plus := Match(Operator(Plus));
      if plus {
        node := ParseUnary();
        return;
      }
      var minus := Match(Operator(Minus));
      if minus {
        var right := ParseUnary();
        if right == None {
          return None;
        }
        return Some(Binary(Minus, Leaf("0"), right.value));
      }
      node := ParsePrimary();
    }

    method ParsePrimary() returns (node: Option<Node>)
      requires Valid()
      modifies this
      ensures Valid() && old(cursor) <= cursor && Agrees(node, PrimaryAt(tokens, old(cursor)))
      decreases |tokens| - cursor, 0
    {
      if tokens[cursor].kind == Number || tokens[cursor].kind == Identifier {
        node := Some(Leaf(tokens[cursor].text));
        cursor := cursor + 1;
        return;
      }
      var open := Match(LParen);
      if !open {
        return None;
      }
      var inner := ParseSum();
      if inner == None {
        return None;
      }
      var closed := Match(RParen);
      node := if closed then inner else None;
    }

    method ParseAll() returns (node: Option<Node>)
      requires Valid() && cursor == 0
      modifies this
      ensures node == ParseTokens(tokens)
    {
      node := ParseSum();
      if node == None || tokens[cursor].kind != End {
        return None;
      }
    }
  }

  method ParseText(text: string) returns (node: Option<Node>)
    ensures node == Parse(text)
  {
    var parser := new Parser(text);
    node := parser.ParseAll();
  }
}
