/** Characters and tokens of shape-value expressions. */
module ShapeLexer {
  /** `std::isspace` in the C locale. */
  predicate IsSpace(c: char) {
    c as int == 32 || 9 <= c as int <= 13
  }

  /** The white space that `trim_view` removes: fewer characters than `IsSpace`. */
  predicate IsAsciiSpace(c: char) {
    c == ' ' || c == '\t' || c == '\r' || c == '\n'
  }

  predicate IsDigit(c: char) {
    '0' <= c <= '9'
  }

  predicate IsIdentifierStart(c: char) {
    'a' <= c <= 'z' || 'A' <= c <= 'Z' || c == '_'
  }

  predicate IsIdentifierContinue(c: char) {
    IsIdentifierStart(c) || IsDigit(c)
  }

  predicate AllDigits(s: string) {
    forall i :: 0 <= i < |s| ==> IsDigit(s[i])
  }

  predicate IsNumberText(s: string) {
    s != "" && AllDigits(s)
  }

  predicate AllContinue(s: string) {
    forall i :: 0 <= i < |s| ==> IsIdentifierContinue(s[i])
  }

  predicate IsIdentifierText(s: string) {
    s != "" && IsIdentifierStart(s[0]) && AllContinue(s)
  }

  function TrimLeft(s: string): string {
    if s != "" && IsAsciiSpace(s[0]) then TrimLeft(s[1..]) else s
  }

  function TrimRight(s: string): string {
    if s != "" && IsAsciiSpace(s[|s| - 1]) then TrimRight(s[..|s| - 1]) else s
  }

  function Trim(s: string): string {
    TrimRight(TrimLeft(s))
  }

  datatype Op = Plus | Minus | Star | Slash | Percent

  datatype TokKind = End | Number | Identifier | Operator(op: Op) | LParen | RParen | Invalid

  datatype Tok = Tok(kind: TokKind, text: string)

  function DigitRun(s: string): (n: nat)
    ensures n <= |s| && AllDigits(s[..n])
    ensures n < |s| ==> !IsDigit(s[n])
  {
    if s != "" && IsDigit(s[0]) then 1 + DigitRun(s[1..]) else 0
  }

  function IdentifierRun(s: string): (n: nat)
    ensures n <= |s| && AllContinue(s[..n])
    ensures n < |s| ==> !IsIdentifierContinue(s[n])
  {
    if s != "" && IsIdentifierContinue(s[0]) then 1 + IdentifierRun(s[1..]) else 0
  }

  function OpChar(op: Op): char {
    match op
    case Plus => '+'
    case Minus => '-'
    case Star => '*'
    case Slash => '/'
    case Percent => '%'
  }

  function OpText(op: Op): string {
    [OpChar(op)]
  }

  function Punctuation(c: char): Tok {
    if c == '+' then Tok(Operator(Plus), "+")
    else if c == '-' then Tok(Operator(Minus), "-")
    else if c == '*' then Tok(Operator(Star), "*")
    else if c == '/' then Tok(Operator(Slash), "/")
    else if c == '%' then Tok(Operator(Percent), "%")
    else if c == '(' then Tok(LParen, "(")
    else if c == ')' then Tok(RParen, ")")
    else Tok(Invalid, [c])
  }

  /** The first token of a text and the length it takes, when the text does not start with space. */
  function FirstToken(s: string): (r: (Tok, nat))
    requires s != "" && !IsSpace(s[0])
    ensures 0 < r.1 <= |s|
  {
    if IsDigit(s[0]) then (Tok(Number, s[..DigitRun(s)]), DigitRun(s))
    else if IsIdentifierStart(s[0]) then (Tok(Identifier, s[..IdentifierRun(s)]), IdentifierRun(s))
    else (Punctuation(s[0]), 1)
  }

  /** Tokens of a text, up to and including the end token. */
  function Lex(s: string): (toks: seq<Tok>)
    ensures toks != [] && toks[|toks| - 1].kind == End
  {
    if s == "" then [Tok(End, "")]
    else if IsSpace(s[0]) then Lex(s[1..])
    else [FirstToken(s).0] + Lex(s[FirstToken(s).1..])
  }

  /** Number and identifier tokens spell numbers and identifiers. */
  predicate GoodTokens(toks: seq<Tok>) {
    forall i :: 0 <= i < |toks| ==>
      && (toks[i].kind == Number ==> IsNumberText(toks[i].text))
      && (toks[i].kind == Identifier ==> IsIdentifierText(toks[i].text))
  }

  lemma FirstTokenGood(s: string)
    requires s != "" && !IsSpace(s[0])
    ensures GoodTokens([FirstToken(s).0])
  {
    if IsDigit(s[0]) {
      assert s[..DigitRun(s)] != "";
    }
  }

  lemma {:induction false} LexGood(s: string)
    ensures GoodTokens(Lex(s))
  {
    if s == "" {
    } else if IsSpace(s[0]) {
      LexGood(s[1..]);
    } else {
      var first, rest := FirstToken(s).0, Lex(s[FirstToken(s).1..]);
      FirstTokenGood(s);
      LexGood(s[FirstToken(s).1..]);
      GoodJoined(first, rest);
    }
  }

  lemma GoodJoined(first: Tok, rest: seq<Tok>)
    requires GoodTokens([first]) && GoodTokens(rest)
    ensures GoodTokens([first] + rest)
  {
    assert [first][0] == first;
  }

  lemma {:induction false} DigitRunIs(s: string, n: nat)
    requires n <= |s| && AllDigits(s[..n]) && (n < |s| ==> !IsDigit(s[n]))
    ensures DigitRun(s) == n
  {
    if n != 0 {
      assert s[..n][0] == s[0];
      assert s[1..][..n - 1] == s[..n][1..];
      DigitRunIs(s[1..], n - 1);
    }
  }

  lemma {:induction false} IdentifierRunIs(s: string, n: nat)
    requires n <= |s| && AllContinue(s[..n]) && (n < |s| ==> !IsIdentifierContinue(s[n]))
    ensures IdentifierRun(s) == n
  {
    if n != 0 {
      assert s[..n][0] == s[0];
      assert s[1..][..n - 1] == s[..n][1..];
      IdentifierRunIs(s[1..], n - 1);
    }
  }

  /** A text whose first character cannot extend a number or an identifier. */
  predicate Separated(rest: string) {
    rest == "" || !IsIdentifierContinue(rest[0])
  }

  lemma LexNumber(text: string, rest: string)
    requires IsNumberText(text) && Separated(rest)
    ensures Lex(text + rest) == [Tok(Number, text)] + Lex(rest)
  {
    var s := text + rest;
    assert s[..|text|] == text && s[|text|..] == rest;
    assert IsDigit(s[0]);
    DigitRunIs(s, |text|);
  }

  lemma LexIdentifier(text: string, rest: string)
    requires IsIdentifierText(text) && Separated(rest)
    ensures Lex(text + rest) == [Tok(Identifier, text)] + Lex(rest)
  {
    var s := text + rest;
    assert s[..|text|] == text && s[|text|..] == rest;
    assert s[0] == text[0];
    IdentifierRunIs(s, |text|);
  }

  lemma LexPunctuation(c: char, rest: string)
    requires !IsSpace(c) && !IsIdentifierContinue(c)
    ensures Lex([c] + rest) == [Punctuation(c)] + Lex(rest)
  {
    assert ([c] + rest)[1..] == rest;
  }

  lemma LexSpace(rest: string)
    ensures Lex(" " + rest) == Lex(rest)
  {
    assert (" " + rest)[1..] == rest;
  }

  /** White space at either end of a text does not change its tokens. */
  lemma {:induction false} LexTrailingSpace(s: string, c: char)
    requires IsSpace(c)
    ensures Lex(s + [c]) == Lex(s)
  {
    if s == "" {
      assert s + [c] == [c] && [c][1..] == "";
    } else if IsSpace(s[0]) {
      assert (s + [c])[1..] == s[1..] + [c];
      LexTrailingSpace(s[1..], c);
    } else {
      var n := FirstToken(s).1;
      var longer := s + [c];
      assert longer[0] == s[0];
      if IsDigit(s[0]) {
        assert longer[..n] == s[..n];
        DigitRunIs(longer, n);
      } else if IsIdentifierStart(s[0]) {
        assert longer[..n] == s[..n];
        IdentifierRunIs(longer, n);
      }
      assert FirstToken(longer) == FirstToken(s);
      assert longer[n..] == s[n..] + [c];
      LexTrailingSpace(s[n..], c);
    }
  }

  lemma {:induction false} LexTrimLeft(s: string)
    ensures Lex(TrimLeft(s)) == Lex(s)
  {
    if s != "" && IsAsciiSpace(s[0]) {
      LexTrimLeft(s[1..]);
    }
  }

  lemma {:induction false} LexTrimRight(s: string)
    ensures Lex(TrimRight(s)) == Lex(s)
  {
    if s != "" && IsAsciiSpace(s[|s| - 1]) {
      LexTrimRight(s[..|s| - 1]);
      LexTrailingSpace(s[..|s| - 1], s[|s| - 1]);
      assert s == s[..|s| - 1] + [s[|s| - 1]];
    }
  }

  lemma LexTrim(s: string)
    ensures Lex(Trim(s)) == Lex(s)
  {
    LexTrimLeft(s);
    LexTrimRight(TrimLeft(s));
  }

  method ScanDigits(text: string, begin: nat) returns (end: nat)
    requires begin < |text|
    ensures end == begin + DigitRun(text[begin..])
  {
    end := begin;
    while end < |text| && IsDigit(text[end])
      invariant begin <= end <= |text|
      invariant forall k :: begin <= k < end ==> IsDigit(text[k])
    {
      end := end + 1;
    }
    assert text[begin..][..end - begin] == text[begin..end];
    DigitRunIs(text[begin..], end - begin);
  }

  method ScanIdentifier(text: string, begin: nat) returns (end: nat)
    requires begin < |text| && IsIdentifierStart(text[begin])
    ensures end == begin + IdentifierRun(text[begin..])
  {
    end := begin + 1;
    while end < |text| && IsIdentifierContinue(text[end])
      invariant begin < end <= |text|
      invariant forall k :: begin <= k < end ==> IsIdentifierContinue(text[k])
    {
      end := end + 1;
    }
    assert text[begin..][..end - begin] == text[begin..end];
    IdentifierRunIs(text[begin..], end - begin);
  }

  /** One step of the lexer at position `begin` of a text. */
  lemma LexFrom(text: string, begin: nat, end: nat, out: seq<Tok>)
    requires begin < |text| && !IsSpace(text[begin])
    requires end == begin + FirstToken(text[begin..]).1
    ensures end <= |text| && text[begin..][..end - begin] == text[begin..end]
    ensures out + Lex(text[begin..]) == (out + [FirstToken(text[begin..]).0]) + Lex(text[end..])
  {
    assert text[begin..][end - begin..] == text[end..];
  }

  method ScanToken(text: string, begin: nat) returns (tok: Tok, end: nat)
    requires begin < |text| && !IsSpace(text[begin])
    ensures begin < end <= |text|
    ensures tok == FirstToken(text[begin..]).0 && end == begin + FirstToken(text[begin..]).1
  {
    var c := text[begin];
    if IsDigit(c) {
      end := ScanDigits(text, begin);
      tok := Tok(Number, text[begin..end]);
    } else if IsIdentifierStart(c) {
      end := ScanIdentifier(text, begin);
      tok := Tok(Identifier, text[begin..end]);
    } else {
      tok := Punctuation(c);
      end := begin + 1;
    }
    assert text[begin..][..end - begin] == text[begin..end];
  }

  method LexText(text: string) returns (out: seq<Tok>)
    ensures out == Lex(text)
  {
    out := [];
    var i := 0;
    assert text[0..] == text;
    while i < |text|
      invariant 0 <= i <= |text|
      invariant out + Lex(text[i..]) == Lex(text)
    {
      var c := text[i];
      if IsSpace(c) {
        assert text[i..][1..] == text[i + 1..];
        i := i + 1;
        continue;
      }
      var begin := i;
      var tok;
      tok, i := ScanToken(text, begin);
      LexFrom(text, begin, i, out);
      out := out + [tok];
    }
    assert text[i..] == "";
    out := out + [Tok(End, "")];
  }
}
