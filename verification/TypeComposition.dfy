/** Substituting types twice, and once by the composed substitution. */
module TypeComposition {
  import opened Wrappers
  import opened MachineInt
  import opened ShapeLexer
  import opened ShapeParser
  import opened ShapePrinter
  import opened ShapeEval
  import opened ShapeSubstitution
  import opened ShapeComposition
  import opened TypeRefs
  import opened TypeTheorems
  import opened TypeSubstitution

  /** The second substitution succeeds on what the first one binds. */
  predicate Chains(s: Substitutions, u: Substitutions) {
    forall k :: k in s ==> SubstituteType(s[k], u).Success?
  }

  /** The types of one substitution, substituted by another, and what only the other binds. */
  function Composite(s: Substitutions, u: Substitutions): Substitutions
    requires Chains(s, u)
  {
    map k | k in s.Keys + u.Keys :: if k in s then SubstituteType(s[k], u).value else u[k]
  }

  predicate BindsKnown(s: Substitutions) {
    forall k :: k in s ==> UnknownFree(s[k])
  }

  lemma {:induction false} ResultKnown(t: TypeRef, s: Substitutions)
    requires UnknownFree(t) && BindsKnown(s) && SubstituteType(t, s).Success?
    ensures UnknownFree(SubstituteType(t, s).value)
    decreases t, 0
  {
    if HasReplaced(t, s.Keys) {
      var o :| o in Own(t) && Replaced(o, s.Keys);
      ReplacedKnown(t, o, s);
    } else if t.kind != TypeKind.Value {
      KeptNode(t, s);
      ResultsKnown(t.children, s);
    }
  }

  lemma ReplacedKnown(t: TypeRef, o: Occurrence, s: Substitutions)
    requires o in Own(t) && Replaced(o, s.Keys) && BindsKnown(s)
    ensures SubstituteType(t, s).Success? && UnknownFree(SubstituteType(t, s).value)
  {
    if IsBound(o.name, s.Keys) {
      BoundNameAlone(t, o.name, s);
    } else {
      var path := SplitPath(o.name).value;
      SplitSound(o.name);
      BoundOwner(t, o.name, path.0, path.1, s);
    }
  }

  lemma {:induction false} ResultsKnown(ts: seq<TypeRef>, s: Substitutions)
    requires AllUnknownFree(ts) && BindsKnown(s) && SubstituteTypes(ts, s).Success?
    ensures AllUnknownFree(SubstituteTypes(ts, s).value)
    decreases ts, 0
  {
    if ts != [] {
      ResultKnown(ts[0], s);
      ResultsKnown(ts[1..], s);
    }
  }

  // Values.

  /** The texts of a substitution. */
  function TextsOf(s: Substitutions): Bindings {
    if SubstitutionTexts(s).Success? then SubstitutionTexts(s).value else map[]
  }

  /** Every type that is substituted has a text. */
  predicate AllPrint(s: Substitutions, u: Substitutions)
    requires Chains(s, u)
  {
    SubstitutionTexts(s).Success? && SubstitutionTexts(u).Success? && SubstitutionTexts(Composite(s, u)).Success?
  }

  /** The names of a value are bound to expressions, and the texts of both together are the composed ones. */
  predicate ValueReady(v: string, first: Bindings, second: Bindings, both: Bindings) {
    var n := ParseExpr(v);
    n.Some? ==>
      && Composable(n.value, first, second)
      && forall k :: k in Atoms(n.value) && k in first && k in both ==> both[k] == Substitute(first[k], second)
  }

  /** A value becomes a constant, or every name in it keeps its tree. */
  predicate ValueComposes(v: string, first: Bindings, second: Bindings)
    requires ParseExpr(v).Some? ==> Composable(ParseExpr(v).value, first, second)
  {
    var n := ParseExpr(v);
    n.Some? ==>
      || AllKeep(n.value, first, second)
      || (Eval(Stepwise(n.value, first, second), map[]).Value?
          && (n.value.Leaf? || NoneSmallest(n.value, first, second)))
  }

  predicate SameAt(n: Node, a: Bindings, b: Bindings) {
    forall k :: k in Atoms(n) ==> (k in a <==> k in b) && (k in a ==> a[k] == b[k])
  }

  lemma {:induction false} SameNode(n: Node, a: Bindings, b: Bindings)
    requires SameAt(n, a, b)
    ensures SubstituteNode(n, a) == SubstituteNode(n, b)
  {
    match n
    case Leaf(k) => assert k in Atoms(n);
    case Binary(_, left, right) =>
      SameNode(left, a, b);
      SameNode(right, a, b);
  }

  lemma SameText(text: string, n: Node, a: Bindings, b: Bindings)
    requires ParseExpr(text) == Some(n) && SameAt(n, a, b)
    ensures Substitute(text, a) == Substitute(text, b)
  {
    SameNode(n, a, b);
  }

  predicate SecondKept(first: Bindings, second: Bindings, both: Bindings) {
    both.Keys == first.Keys + second.Keys && forall k :: k in second && k !in first ==> both[k] == second[k]
  }

  lemma BothIsComposed(n: Node, first: Bindings, second: Bindings, both: Bindings)
    requires SecondKept(first, second, both)
    requires forall k :: k in Atoms(n) && k in first && k in both ==> both[k] == Substitute(first[k], second)
    ensures SameAt(n, both, Composed(first, second))
  {
  }

  lemma ValueTwice(v: string, first: Bindings, second: Bindings, both: Bindings)
    requires ValueReady(v, first, second, both) && SecondKept(first, second, both)
    ensures Equivalent(Substitute(Substitute(v, first), second), Substitute(v, both))
       <==> ValueComposes(v, first, second)
  {
    match ParseExpr(v) {
      case None =>
        InvalidTwice(v, first, second);
        InvalidText(v, both);
        EquivalentIsEquivalence(Trim(v), Trim(v), Trim(v));
      case Some(n) =>
        BothIsComposed(n, first, second, both);
        SameText(v, n, both, Composed(first, second));
        SubstituteTwice(v, n, first, second);
    }
  }

  // Types.

  /** The head name that a template has after the second substitution, when the first gave it a name. */
  function HeadAfter(head: string, u: Substitutions): string {
    if IsBound(head, u.Keys) then HeadName(u[head]) else head
  }

  /** A template head that the first substitution binds gets the same name both ways. */
  predicate HeadAgrees(t: TypeRef, s: Substitutions, u: Substitutions)
    requires Chains(s, u)
  {
    forall o :: o in Own(t) && o.Head? && IsBound(o.name, s.Keys) ==>
      HeadAfter(HeadName(s[o.name]), u) == HeadName(SubstituteType(s[o.name], u).value)
  }

  /** Every value in the type is ready, except in nodes that are replaced. */
  predicate Ready(t: TypeRef, s: Substitutions, u: Substitutions)
    requires Chains(s, u)
    decreases t, 0
  {
    if HasReplaced(t, s.Keys + u.Keys) then true
    else if t.kind == TypeKind.Value then ValueReady(t.value, TextsOf(s), TextsOf(u), TextsOf(Composite(s, u)))
    else AllReady(t.children, s, u)
  }

  predicate AllReady(ts: seq<TypeRef>, s: Substitutions, u: Substitutions)
    requires Chains(s, u)
    decreases ts, 0
  {
    ts == [] || (Ready(ts[0], s, u) && AllReady(ts[1..], s, u))
  }

  /** Every bound template head agrees, and every value composes, except in nodes that are replaced. */
  predicate Composes(t: TypeRef, s: Substitutions, u: Substitutions)
    requires Chains(s, u) && Ready(t, s, u)
    decreases t, 0
  {
    if HasReplaced(t, s.Keys + u.Keys) then true
    else if t.kind == TypeKind.Value then ValueComposes(t.value, TextsOf(s), TextsOf(u))
    else HeadAgrees(t, s, u) && AllCompose(t.children, s, u)
  }

  predicate AllCompose(ts: seq<TypeRef>, s: Substitutions, u: Substitutions)
    requires Chains(s, u) && AllReady(ts, s, u)
    decreases ts, 0
  {
    ts == [] || (Composes(ts[0], s, u) && AllCompose(ts[1..], s, u))
  }

  lemma TextsKeys(s: Substitutions, u: Substitutions)
    requires Chains(s, u)
    requires AllPrint(s, u)
    ensures SecondKept(TextsOf(s), TextsOf(u), TextsOf(Composite(s, u)))
  {
  }

  /** The results of both ways, where there are any. */
  predicate BothWays(t: TypeRef, s: Substitutions, u: Substitutions, twice: TypeRef, once: TypeRef)
    requires Chains(s, u)
  {
    && SubstituteType(t, s).Success?
    && SubstituteType(SubstituteType(t, s).value, u) == Success(twice)
    && SubstituteType(t, Composite(s, u)) == Success(once)
  }

  lemma ValueNode(t: TypeRef, s: Substitutions)
    requires t.kind == TypeKind.Value && SubstituteType(t, s).Success?
    ensures SubstitutionTexts(s).Success?
    ensures SubstituteType(t, s).value == t.(value := Substitute(t.value, TextsOf(s)))
  {
  }

  lemma ValueBothWays(t: TypeRef, s: Substitutions, u: Substitutions, twice: TypeRef, once: TypeRef)
    requires Chains(s, u) && t.kind == TypeKind.Value && Ready(t, s, u) && UnknownFree(t)
    requires BothWays(t, s, u, twice, once)
    ensures TypeEquivalent(twice, once) <==> Composes(t, s, u)
  {
    ValueNode(t, s);
    ValueNode(SubstituteType(t, s).value, u);
    ValueNode(t, Composite(s, u));
    TextsKeys(s, u);
    ValueTwice(t.value, TextsOf(s), TextsOf(u), TextsOf(Composite(s, u)));
    TypesReflexive(t.children);
  }

  /** A separated path is no identifier. */
  lemma PathIsNoIdentifier(name: string)
    requires SplitPath(name).Some?
    ensures !IsIdentifierText(name)
  {
    SplitSound(name);
    var owner := SplitPath(name).value.0;
    assert name[|owner|] == '.' || name[|owner|] == ':';
  }

  /** A replaced node becomes the same both ways. */
  lemma ReplacedBothWays(t: TypeRef, o: Occurrence, s: Substitutions, u: Substitutions, twice: TypeRef, once: TypeRef)
    requires Chains(s, u) && IdentifierKeys(u) && BothWays(t, s, u, twice, once)
    requires o in Own(t) && Replaced(o, s.Keys + u.Keys)
    ensures twice == once
  {
    var both := Composite(s, u);
    if IsBound(o.name, s.Keys + u.Keys) {
      BoundNameAlone(t, o.name, both);
      if IsBound(o.name, s.Keys) {
        BoundNameAlone(t, o.name, s);
      } else {
        LaterBound(t, o, s, u);
      }
    } else {
      OwnerBothWays(t, o, s, u, twice, once);
    }
  }

  /** What the first substitution leaves for the second one. */
  lemma LaterBound(t: TypeRef, o: Occurrence, s: Substitutions, u: Substitutions)
    requires o in Own(t) && SubstituteType(t, s).Success? && !o.Head? && IdentifierKeys(u)
    requires IsBound(o.name, u.Keys) && !IsBound(o.name, s.Keys)
    ensures SubstituteType(SubstituteType(t, s).value, u) == Success(u[o.name])
  {
    if OwnerBound(o.name, s.Keys) {
      PathIsNoIdentifier(o.name);
    }
    assert !HasReplaced(t, s.Keys);
    KeptNode(t, s);
    var r := SubstituteType(t, s).value;
    assert Own(r) == Own(t);
    BoundNameAlone(r, o.name, u);
  }

  lemma OwnerBothWays(t: TypeRef, o: Occurrence, s: Substitutions, u: Substitutions, twice: TypeRef, once: TypeRef)
    requires Chains(s, u) && IdentifierKeys(u) && BothWays(t, s, u, twice, once)
    requires o in Own(t) && o.Path? && OwnerBound(o.name, s.Keys + u.Keys) && !IsBound(o.name, s.Keys + u.Keys)
    ensures twice == once
  {
    var path := SplitPath(o.name).value;
    SplitSound(o.name);
    BoundOwner(t, o.name, path.0, path.1, Composite(s, u));
    if OwnerBound(o.name, s.Keys) {
      BoundOwner(t, o.name, path.0, path.1, s);
      AssociatedSubstituted(path.1, s[path.0], u);
    } else {
      LaterOwner(t, o, path.0, path.1, s, u);
    }
  }

  lemma LaterOwner(t: TypeRef, o: Occurrence, owner: string, member: string, s: Substitutions, u: Substitutions)
    requires o in Own(t) && o.Path? && Splits(o.name, owner, member) && owner in u && SubstituteType(t, s).Success?
    requires !OwnerBound(o.name, s.Keys) && !IsBound(o.name, s.Keys + u.Keys)
    ensures SubstituteType(SubstituteType(t, s).value, u)
         == Success(TypeRef(Associated, false, member, "", [u[owner]]))
  {
    SplitComplete(o.name, owner, member);
    assert !HasReplaced(t, s.Keys);
    KeptNode(t, s);
    BoundOwner(SubstituteType(t, s).value, o.name, owner, member, u);
  }

  lemma AssociatedSubstituted(member: string, owner: TypeRef, u: Substitutions)
    requires SubstituteType(owner, u).Success?
    ensures SubstituteType(TypeRef(Associated, false, member, "", [owner]), u)
         == Success(TypeRef(Associated, false, member, "", [SubstituteType(owner, u).value]))
  {
    var t, result := TypeRef(Associated, false, member, "", [owner]), [SubstituteType(owner, u).value];
    SubstituteFirst(t.children, u);
    assert t.children[1..] == [] && result + [] == result;
    assert SubstituteTypes(t.children, u) == Success(result);
    assert SubstituteType(t, u) == SubstituteInside(t, u) == Rebuilt(t, result);
  }

  /** A node that neither substitution replaces. */
  lemma NeverReplaced(t: TypeRef, s: Substitutions, u: Substitutions)
    requires !HasReplaced(t, s.Keys + u.Keys) && t.kind != TypeKind.Value && SubstituteType(t, s).Success?
    ensures !HasReplaced(t, s.Keys)
    ensures !HasReplaced(SubstituteType(t, s).value, u.Keys)
  {
    assert forall o :: o in Own(t) ==> !Replaced(o, s.Keys + u.Keys);
    assert forall o :: o in Own(t) ==> !Replaced(o, s.Keys) && !Replaced(o, u.Keys);
    KeptNode(t, s);
    assert Own(SubstituteType(t, s).value) == Own(t) || forall o :: o in Own(SubstituteType(t, s).value) ==> o.Head?;
  }

  lemma NamesBothWays(t: TypeRef, s: Substitutions, u: Substitutions, r: TypeRef)
    requires Chains(s, u) && r.kind == t.kind && |r.children| == |t.children| && r.name == NameAfter(t, s)
    ensures Trim(NameAfter(r, u)) == Trim(NameAfter(t, Composite(s, u))) <==> HeadAgrees(t, s, u)
  {
    if t.kind == Template && t.children != [] {
      var k := LookupKey(t);
      assert Own(t) == {Head(k)} && Own(r) == {Head(LookupKey(r))};
      assert HeadAgrees(t, s, u) <==>
        (IsBound(k, s.Keys) ==> HeadAfter(HeadName(s[k]), u) == HeadName(SubstituteType(s[k], u).value));
      if IsBound(k, s.Keys) {
        HeadIsTrimmed(s[k]);
        HeadIsTrimmed(SubstituteType(s[k], u).value);
        if IsBound(HeadName(s[k]), u.Keys) {
          HeadIsTrimmed(u[HeadName(s[k])]);
        }
      }
    } else {
      assert forall o :: o in Own(t) + Own(r) ==> !o.Head?;
    }
  }

  /** A node that is not replaced, both ways. */
  lemma KeptBothWays(t: TypeRef, s: Substitutions, u: Substitutions, twice: TypeRef, once: TypeRef)
    requires Chains(s, u) && BothWays(t, s, u, twice, once)
    requires !HasReplaced(t, s.Keys + u.Keys) && t.kind != TypeKind.Value && t.kind != TypeKind.Unknown
    ensures SubstituteTypes(t.children, s).Success?
    ensures SubstituteTypes(SubstituteTypes(t.children, s).value, u) == Success(twice.children)
    ensures SubstituteTypes(t.children, Composite(s, u)) == Success(once.children)
    ensures SameFrame(twice, once) <==> HeadAgrees(t, s, u)
  {
    var r := SubstituteType(t, s).value;
    NeverReplaced(t, s, u);
    KeptNode(t, s);
    KeptNode(r, u);
    assert Composite(s, u).Keys == s.Keys + u.Keys;
    KeptNode(t, Composite(s, u));
    NamesBothWays(t, s, u, r);
    FramesBothWays(t, twice, once);
  }

  lemma FramesBothWays(t: TypeRef, twice: TypeRef, once: TypeRef)
    requires twice.kind == once.kind == t.kind && twice.rvalue == once.rvalue
    requires t.kind != TypeKind.Value && t.kind != TypeKind.Unknown
    ensures SameFrame(twice, once) <==> (LeadsWithName(t.kind) ==> Trim(twice.name) == Trim(once.name))
  {
  }

  /** Substituting by one substitution and then by another is substituting by the composed one, up to equivalence,
      exactly when every bound template head agrees and every value composes. */
  lemma {:induction false} SubstituteTypeTwice(t: TypeRef, s: Substitutions, u: Substitutions,
                                               twice: TypeRef, once: TypeRef)
    requires Chains(s, u) && IdentifierKeys(u) && Ready(t, s, u) && BothWays(t, s, u, twice, once)
    requires UnknownFree(t) && BindsKnown(s) && BindsKnown(u)
    ensures TypeEquivalent(twice, once) <==> Composes(t, s, u)
    decreases t, 0
  {
    if HasReplaced(t, s.Keys + u.Keys) {
      var o :| o in Own(t) && Replaced(o, s.Keys + u.Keys);
      ReplacedBothWays(t, o, s, u, twice, once);
      ResultKnown(t, s);
      ResultKnown(SubstituteType(t, s).value, u);
      TypeReflexive(twice);
    } else if t.kind == TypeKind.Value {
      ValueBothWays(t, s, u, twice, once);
    } else {
      KeptBothWays(t, s, u, twice, once);
      SubstituteTypesTwice(t.children, s, u, twice.children, once.children);
    }
  }

  lemma {:induction false} SubstituteTypesTwice(ts: seq<TypeRef>, s: Substitutions, u: Substitutions,
                                                twice: seq<TypeRef>, once: seq<TypeRef>)
    requires Chains(s, u) && IdentifierKeys(u) && AllReady(ts, s, u)
    requires SubstituteTypes(ts, s).Success? && SubstituteTypes(SubstituteTypes(ts, s).value, u) == Success(twice)
    requires SubstituteTypes(ts, Composite(s, u)) == Success(once)
    requires AllUnknownFree(ts) && BindsKnown(s) && BindsKnown(u)
    ensures TypesEquivalent(twice, once) <==> AllCompose(ts, s, u)
    decreases ts, 0
  {
    if ts != [] {
      SubstituteTypeTwice(ts[0], s, u, twice[0], once[0]);
      SubstituteTypesTwice(ts[1..], s, u, twice[1..], once[1..]);
    }
  }

  // Where the conditions hold.

  /** A head that is bound to a name, or to a template, agrees. */
  lemma NamedHeadAgrees(t: TypeRef, k: string, s: Substitutions, u: Substitutions)
    requires Chains(s, u) && Own(t) == {Head(k)} && IsBound(k, s.Keys)
    requires s[k].kind == Named || s[k].kind == Template
    ensures HeadAgrees(t, s, u)
  {
    HeadIsTrimmed(s[k]);
    var h := LookupKey(s[k]);
    assert h == HeadName(s[k]);
    if IsBound(h, u.Keys) {
      HeadIsTrimmed(u[h]);
    }
  }

  /** The text of a substituted tree. */
  function TreeText(m: Node): string {
    if Eval(m, map[]).Value? then IntegerText(Eval(m, map[]).value) else Normalize(m)
  }

  lemma SubstitutedText(text: string, n: Node, bindings: Bindings)
    requires ParseExpr(text) == Some(n) && ValidBindings(n, bindings)
    ensures Substitute(text, bindings) == TreeText(SubstituteNode(n, bindings))
  {
    SubstituteWellFormed(n, bindings);
    RoundTrip(SubstituteNode(n, bindings));
  }

  lemma FoldedText(m: Node)
    requires Eval(m, map[]) != Outcome.Value(INT64_MIN)
    ensures TreeText(Folded(m)) == TreeText(m)
  {
    FoldedEval(m);
  }

  /** Substituting in between, or nothing at all, gives the same text. */
  lemma TextTwice(text: string, n: Node, bindings: Bindings)
    requires ParseExpr(text) == Some(n) && IdentifierKeys(bindings) && ValidBindings(n, bindings)
    requires Eval(SubstituteNode(n, bindings), map[]) != Outcome.Value(INT64_MIN)
    ensures Substitute(Substitute(text, bindings), map[])
         == Substitute(Substitute(text, map[]), bindings)
         == Substitute(text, bindings)
  {
    var m := SubstituteNode(n, bindings);
    SubstituteParses(text, n, bindings);
    SubstitutedText(text, n, bindings);
    SubstitutedText(Substitute(text, bindings), Folded(m), map[]);
    NoSubstitution(Folded(m));
    FoldedText(m);
    TextAfterNothing(text, n, bindings);
  }

  lemma TextAfterNothing(text: string, n: Node, bindings: Bindings)
    requires ParseExpr(text) == Some(n) && IdentifierKeys(bindings) && ValidBindings(n, bindings)
    requires Eval(SubstituteNode(n, bindings), map[]) != Outcome.Value(INT64_MIN)
    ensures Substitute(Substitute(text, map[]), bindings) == TreeText(SubstituteNode(n, bindings))
  {
    NoSubstitution(n);
    SubstituteParses(text, n, map[]);
    FoldedBetween(n, bindings);
    SubstitutedText(Substitute(text, map[]), Folded(n), bindings);
    FoldedEval(SubstituteNode(n, bindings));
    FoldedText(SubstituteNode(n, bindings));
    if Eval(n, map[]).Value? {
      NamesAreHarmless(bindings);
      ConstantStays(n, bindings);
      IntegerNodeStays(Eval(n, map[]).value, bindings);
    }
  }

  lemma TextAt(k: string, s: Substitutions)
    requires k in s && SubstitutionTexts(s).Success?
    ensures k in TextsOf(s) && TypeText(s[k], map[]) == Success(TextsOf(s)[k])
  {
  }

  lemma ValueText(t: TypeRef)
    requires t.kind == TypeKind.Value
    ensures TypeText(t, map[]) == Success(Substitute(t.value, map[]))
  {
  }

  /** A name that is bound to a value is composed alike as a type and as a text. */
  lemma BoundToValue(k: string, n: Node, s: Substitutions, u: Substitutions)
    requires Chains(s, u) && k in s && s[k].kind == TypeKind.Value && ParseExpr(s[k].value) == Some(n)
    requires AllPrint(s, u)
    requires IdentifierKeys(TextsOf(u)) && ValidBindings(n, TextsOf(u))
    requires Eval(SubstituteNode(n, TextsOf(u)), map[]) != Outcome.Value(INT64_MIN)
    ensures k in TextsOf(s) && k in TextsOf(Composite(s, u))
    ensures TextsOf(Composite(s, u))[k] == Substitute(TextsOf(s)[k], TextsOf(u))
  {
    var v := s[k].value;
    TextAt(k, s);
    TextAt(k, Composite(s, u));
    ValueText(s[k]);
    ValueNode(s[k], u);
    ValueText(SubstituteType(s[k], u).value);
    TextTwice(v, n, TextsOf(u));
  }

  lemma NameText(t: TypeRef)
    requires t.kind == Named
    ensures TypeText(t, map[]) == Success(Trim(t.name))
  {
  }

  lemma LeafSubstituted(name: string, m: Node, bindings: Bindings)
    requires IsIdentifierText(name)
    requires if name in bindings then Parse(bindings[name]) == Some(m) else m == Leaf(name)
    ensures Substitute(name, bindings) == TreeText(m)
  {
    LeafText(name);
    assert Atoms(Leaf(name)) == {name};
    SubstitutedText(name, Leaf(name), bindings);
  }

  /** So is a name that is bound to a name, which the second substitution leaves or binds to a value. */
  lemma BoundToName(k: string, name: string, n: Node, s: Substitutions, u: Substitutions)
    requires Chains(s, u) && k in s && s[k].kind == Named && Trim(s[k].name) == name && IsIdentifierText(name)
    requires AllPrint(s, u)
    requires name in u ==> u[name].kind == TypeKind.Value && ParseExpr(u[name].value) == Some(n)
    requires Eval(n, map[]) != Outcome.Value(INT64_MIN)
    ensures k in TextsOf(s) && k in TextsOf(Composite(s, u))
    ensures TextsOf(Composite(s, u))[k] == Substitute(TextsOf(s)[k], TextsOf(u))
  {
    TextAt(k, s);
    TextAt(k, Composite(s, u));
    NameText(s[k]);
    if name in u {
      BoundNameAlone(s[k], name, u);
      TextAt(name, u);
      ValueText(u[name]);
      BoundOnce(u[name].value, n, name, TextsOf(u));
    } else {
      UnboundName(s[k], u);
      NumberIsNotIdentifier(name);
      LeafSubstituted(name, Leaf(name), TextsOf(u));
    }
  }

  lemma UnboundName(t: TypeRef, u: Substitutions)
    requires t.kind == Named && Trim(t.name) !in u && SubstituteType(t, u).Success?
    ensures TypeText(SubstituteType(t, u).value, map[]) == Success(Trim(t.name))
  {
    NameText(SubstituteType(t, u).value);
  }

  lemma BoundOnce(value: string, n: Node, name: string, bindings: Bindings)
    requires IsIdentifierText(name) && name in bindings && bindings[name] == Substitute(value, map[])
    requires ParseExpr(value) == Some(n) && Eval(n, map[]) != Outcome.Value(INT64_MIN)
    ensures Substitute(name, bindings) == bindings[name]
  {
    NoSubstitution(n);
    SubstituteParses(value, n, map[]);
    SubstitutedText(value, n, map[]);
    FoldedText(n);
    LeafSubstituted(name, Folded(n), bindings);
  }
}
