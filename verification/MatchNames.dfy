/** The names of the variables that emitted matches declare. */
module MatchNames {
  import opened Wrappers
  import opened Statements
  import opened ShapeLexer
  import opened ShapeEval
  import opened ShapeSubstitution
  import opened LocalNames

  const MATCH_PREFIX := "__dudu_match_"
  const CASE_PREFIX := "__dudu_case_"
  const FLAG_SUFFIX := "_matched"

  function Position(at: Location): string {
    Digits(at.line) + "_" + Digits(at.column)
  }

  function SubjectName(at: Location): string {
    MATCH_PREFIX + Position(at)
  }

  function FlagName(at: Location): string {
    MATCH_PREFIX + (Position(at) + FLAG_SUFFIX)
  }

  function CaseName(at: Location): string {
    CASE_PREFIX + Position(at)
  }

  // Names that semantic analysis lets programs declare.

  predicate IsLower(c: char) {
    'a' <= c <= 'z'
  }

  predicate IsUpper(c: char) {
    'A' <= c <= 'Z'
  }

  /** `is_dudu_snake_case`: one underscore may come first. */
  predicate IsSnakeCase(name: string) {
    var text := if |name| > 1 && name[0] == '_' && name[1] != '_' then name[1..] else name;
    && text != "" && IsLower(text[0])
    && forall i :: 0 <= i < |text| ==> IsLower(text[i]) || IsDigit(text[i]) || text[i] == '_'
  }

  /** `is_dudu_all_caps`: `_` is one of these. */
  predicate IsAllCaps(name: string) {
    name != "" && forall i :: 0 <= i < |name| ==> IsUpper(name[i]) || IsDigit(name[i]) || name[i] == '_'
  }

  /** `check_local_binding_name`. */
  predicate IsLocalName(name: string) {
    IsSnakeCase(name) || IsAllCaps(name)
  }

  /** The start that all names of match variables share. */
  predicate IsInternal(name: string) {
    "__dudu_" <= name
  }

  lemma MatchNamesAreInternal(at: Location)
    ensures IsInternal(SubjectName(at)) && IsInternal(FlagName(at)) && IsInternal(CaseName(at))
  {
    assert forall i :: 0 <= i < 7 ==> SubjectName(at)[i] == MATCH_PREFIX[i];
    assert forall i :: 0 <= i < 7 ==> CaseName(at)[i] == CASE_PREFIX[i];
  }

  /** No local that a program may declare, and no discard name, is spelled like a match variable. Names
      in patterns are not checked. */
  lemma InternalIsNotLocal(name: string)
    requires IsInternal(name)
    ensures !IsLocalName(name) && name != "_"
    ensures EmittedLocalName(name) == name && !(DISCARD_PREFIX <= name)
  {
    assert name[0] == '_' && name[1] == '_' && name[2] == 'd';
    assert !IsReserved(name);
    assert ESCAPE_PREFIX[0] == 'd' && DISCARD_PREFIX[0] == 'd';
  }

  /** Only an internal name is emitted as one. */
  lemma EmittedInternal(name: string, internal: string)
    requires IsInternal(internal) && EmittedLocalName(name) == internal
    ensures name == internal
  {
    InternalIsNotLocal(internal);
    EmittedNames(name, internal);
  }

  lemma DigitsAreDigits(n: nat)
    ensures IsNumberText(Digits(n))
  {
    DigitsRoundTrip(n);
  }

  lemma DigitsDiffer(a: nat, b: nat)
    requires Digits(a) == Digits(b)
    ensures a == b
  {
    DigitsRoundTrip(a);
    DigitsRoundTrip(b);
  }

  /** Texts split alike at their first character that is no digit. */
  lemma SplitAlike(a: string, r: string, b: string, t: string)
    requires AllDigits(a) && AllDigits(b) && r != "" && t != "" && !IsDigit(r[0]) && !IsDigit(t[0])
    requires a + r == b + t
    ensures a == b && r == t
  {
    var whole := a + r;
    assert whole[..|a|] == a && whole[..|b|] == b;
    assert whole[|a|] == r[0] && whole[|b|] == t[0];
    DigitRunIs(whole, |a|);
    DigitRunIs(whole, |b|);
    assert whole[|a|..] == r && whole[|b|..] == t;
  }

  /** Positions differ, also when something that is no digit follows. */
  lemma PositionsDiffer(a: Location, b: Location, r: string, t: string)
    requires (r == "" && t == "") || (r != "" && t != "" && !IsDigit(r[0]) && !IsDigit(t[0]))
    requires Position(a) + r == Position(b) + t
    ensures a == b
  {
    DigitsAreDigits(a.line);
    DigitsAreDigits(b.line);
    DigitsAreDigits(a.column);
    DigitsAreDigits(b.column);
    var x, y := "_" + Digits(a.column) + r, "_" + Digits(b.column) + t;
    assert Position(a) + r == Digits(a.line) + x && Position(b) + t == Digits(b.line) + y;
    SplitAlike(Digits(a.line), x, Digits(b.line), y);
    assert x[1..] == Digits(a.column) + r && y[1..] == Digits(b.column) + t;
    if r == "" {
      assert Digits(a.column) + r == Digits(a.column) && Digits(b.column) + t == Digits(b.column);
    } else {
      SplitAlike(Digits(a.column), r, Digits(b.column), t);
    }
    DigitsDiffer(a.line, b.line);
    DigitsDiffer(a.column, b.column);
  }

  /** The variables of different matches have different names, and no two of one match share one. */
  lemma MatchNamesDiffer(a: Location, b: Location)
    ensures SubjectName(a) == SubjectName(b) <==> a == b
    ensures FlagName(a) == FlagName(b) <==> a == b
    ensures CaseName(a) == CaseName(b) <==> a == b
    ensures SubjectName(a) != FlagName(b) && CaseName(a) != SubjectName(b) && CaseName(a) != FlagName(b)
  {
    var n := |MATCH_PREFIX|;
    assert Position(a) + "" == Position(a) && Position(b) + "" == Position(b);
    if SubjectName(a) == SubjectName(b) {
      assert SubjectName(a)[n..] == Position(a) && SubjectName(b)[n..] == Position(b);
      PositionsDiffer(a, b, "", "");
    }
    if CaseName(a) == CaseName(b) {
      var k := |CASE_PREFIX|;
      assert CaseName(a)[k..] == Position(a) && CaseName(b)[k..] == Position(b);
      PositionsDiffer(a, b, "", "");
    }
    if FlagName(a) == FlagName(b) {
      assert FlagName(a)[n..] == Position(a) + FLAG_SUFFIX && FlagName(b)[n..] == Position(b) + FLAG_SUFFIX;
      PositionsDiffer(a, b, FLAG_SUFFIX, FLAG_SUFFIX);
    }
    SubjectIsNoFlag(a, b);
    assert CaseName(a)[7] == 'c' && SubjectName(b)[7] == 'm' && FlagName(b)[7] == 'm';
  }

  lemma SubjectIsNoFlag(a: Location, b: Location)
    ensures SubjectName(a) != FlagName(b)
  {
    DigitsAreDigits(a.column);
    var x, y := SubjectName(a), FlagName(b);
    assert IsDigit(x[|x| - 1]) by {
      var d := Digits(a.column);
      assert x[|x| - 1] == d[|d| - 1];
    }
    assert y[|y| - 1] == FLAG_SUFFIX[|FLAG_SUFFIX| - 1];
  }
}
