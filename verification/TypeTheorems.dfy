/** Type equivalence is an equivalence relation on trees without Unknown nodes and a congruence for
    printing and for substitution. */
module TypeTheorems {
  import opened Wrappers
  import opened ShapeLexer
  import opened ShapeSubstitution
  import opened TypeRefs

  /** Reflexive exactly on the trees without Unknown nodes. */
  lemma {:induction false} TypeReflexive(t: TypeRef)
    ensures TypeEquivalent(t, t) <==> UnknownFree(t)
    decreases t, 0
  {
    EquivalentIsEquivalence(t.value, t.value, t.value);
    TypesReflexive(t.children);
  }

  lemma {:induction false} TypesReflexive(ts: seq<TypeRef>)
    ensures TypesEquivalent(ts, ts) <==> AllUnknownFree(ts)
    decreases ts, 0
  {
    if ts != [] {
      TypeReflexive(ts[0]);
      TypesReflexive(ts[1..]);
    }
  }

  lemma {:induction false} TypeSymmetric(l: TypeRef, r: TypeRef)
    requires TypeEquivalent(l, r)
    ensures TypeEquivalent(r, l)
    decreases l, 0
  {
    EquivalentIsEquivalence(l.value, r.value, l.value);
    TypesSymmetric(l.children, r.children);
  }

  lemma {:induction false} TypesSymmetric(l: seq<TypeRef>, r: seq<TypeRef>)
    requires TypesEquivalent(l, r)
    ensures TypesEquivalent(r, l)
    decreases l, 0
  {
    if l != [] {
      TypeSymmetric(l[0], r[0]);
      TypesSymmetric(l[1..], r[1..]);
    }
  }

  lemma {:induction false} TypeTransitive(a: TypeRef, b: TypeRef, c: TypeRef)
    requires TypeEquivalent(a, b) && TypeEquivalent(b, c)
    ensures TypeEquivalent(a, c)
    decreases a, 0
  {
    EquivalentIsEquivalence(a.value, b.value, c.value);
    TypesTransitive(a.children, b.children, c.children);
  }

  lemma {:induction false} TypesTransitive(a: seq<TypeRef>, b: seq<TypeRef>, c: seq<TypeRef>)
    requires TypesEquivalent(a, b) && TypesEquivalent(b, c)
    ensures TypesEquivalent(a, c)
    decreases a, 0
  {
    if a != [] {
      TypeTransitive(a[0], b[0], c[0]);
      TypesTransitive(a[1..], b[1..], c[1..]);
    }
  }

  lemma {:induction false} ScopeAfterTrimLeft(s: string)
    ensures HasScope(TrimLeft(s)) <==> HasScope(s)
  {
    if s != "" && IsAsciiSpace(s[0]) {
      ScopeAfterTrimLeft(s[1..]);
      if HasScope(s) {
        var i :| 0 <= i < |s| - 1 && s[i] == ':' && s[i + 1] == ':';
        assert s[1..][i - 1] == ':' && s[1..][i] == ':';
      }
      if HasScope(s[1..]) {
        var i :| 0 <= i < |s[1..]| - 1 && s[1..][i] == ':' && s[1..][i + 1] == ':';
        assert s[i + 1] == ':' && s[i + 2] == ':';
      }
    }
  }

  lemma {:induction false} ScopeAfterTrimRight(s: string)
    ensures HasScope(TrimRight(s)) <==> HasScope(s)
  {
    if s != "" && IsAsciiSpace(s[|s| - 1]) {
      var front := s[..|s| - 1];
      ScopeAfterTrimRight(front);
      if HasScope(s) {
        var i :| 0 <= i < |s| - 1 && s[i] == ':' && s[i + 1] == ':';
        assert front[i] == ':' && front[i + 1] == ':';
      }
      if HasScope(front) {
        var i :| 0 <= i < |front| - 1 && front[i] == ':' && front[i + 1] == ':';
        assert s[i] == ':' && s[i + 1] == ':';
      }
    }
  }

  /** Whether a name is spelled with `::` does not depend on the white space around it. */
  lemma ScopeOfTrimmed(a: string, b: string)
    requires Trim(a) == Trim(b)
    ensures HasScope(a) <==> HasScope(b)
  {
    ScopeAfterTrimLeft(a);
    ScopeAfterTrimRight(TrimLeft(a));
    ScopeAfterTrimLeft(b);
    ScopeAfterTrimRight(TrimLeft(b));
  }

  /** Equivalent types print the same text under every substitution of texts for names. */
  lemma {:induction false} EquivalentTypesPrintAlike(l: TypeRef, r: TypeRef, substitutions: Bindings)
    requires TypeEquivalent(l, r) && HarmlessKeys(substitutions)
    ensures TypeText(l, substitutions) == TypeText(r, substitutions)
    decreases l, 1
  {
    EquivalentKindsPrintAlike(l, r, substitutions);
    EquivalentListsPrintAlike(l.children, r.children, substitutions);
  }

  lemma {:induction false} EquivalentKindsPrintAlike(l: TypeRef, r: TypeRef, substitutions: Bindings)
    requires TypeEquivalent(l, r) && HarmlessKeys(substitutions)
    ensures KindText(l, substitutions) == KindText(r, substitutions)
    decreases l, 0
  {
    if l.kind == Template || l.kind == Function {
      EquivalentListsPrintAlike(l.children, r.children, substitutions);
      ArgumentsPrintAlike(l, r, substitutions);
    } else if l.kind == TypeKind.Value {
      EquivalentSubstitute(l.value, r.value, substitutions);
    } else {
      EquivalentChildrenPrintAlike(l.children, r.children, substitutions);
      ChildrenPrintAlike(l, r, substitutions);
    }
  }

  lemma {:induction false} EquivalentChildrenPrintAlike(l: seq<TypeRef>, r: seq<TypeRef>, substitutions: Bindings)
    requires TypesEquivalent(l, r) && HarmlessKeys(substitutions)
    ensures |l| == |r|
    ensures l != [] ==> TypeText(l[0], substitutions) == TypeText(r[0], substitutions)
    ensures l != [] ==> Texts(l[1..], substitutions) == Texts(r[1..], substitutions)
    decreases l, 0
  {
    if l != [] {
      EquivalentTypesPrintAlike(l[0], r[0], substitutions);
      EquivalentListsPrintAlike(l[1..], r[1..], substitutions);
    }
  }

  lemma ArgumentsPrintAlike(l: TypeRef, r: TypeRef, substitutions: Bindings)
    requires SameFrame(l, r) && (l.kind == Template || l.kind == Function)
    requires Texts(l.children, substitutions) == Texts(r.children, substitutions)
    ensures KindText(l, substitutions) == KindText(r, substitutions)
  {
    if l.kind == Template {
      ScopeOfTrimmed(l.name, r.name);
    }
  }

  lemma ChildrenPrintAlike(l: TypeRef, r: TypeRef, substitutions: Bindings)
    requires SameFrame(l, r) && |l.children| == |r.children|
    requires l.children != [] ==>
      && TypeText(l.children[0], substitutions) == TypeText(r.children[0], substitutions)
      && Texts(l.children[1..], substitutions) == Texts(r.children[1..], substitutions)
    ensures ChildrenText(l, substitutions) == ChildrenText(r, substitutions)
  {
    SurroundAlike(l, r);
  }

  lemma SurroundAlike(l: TypeRef, r: TypeRef)
    requires l.kind == r.kind && l.rvalue == r.rvalue && (LeadsWithName(l.kind) ==> HeadName(l) == HeadName(r))
    ensures forall first, rest :: Surround(l, first, rest) == Surround(r, first, rest)
  {
  }

  lemma {:induction false} EquivalentListsPrintAlike(l: seq<TypeRef>, r: seq<TypeRef>, substitutions: Bindings)
    requires TypesEquivalent(l, r) && HarmlessKeys(substitutions)
    ensures Texts(l, substitutions) == Texts(r, substitutions)
    decreases l, 0
  {
    if l != [] {
      EquivalentTypesPrintAlike(l[0], r[0], substitutions);
      EquivalentListsPrintAlike(l[1..], r[1..], substitutions);
    }
  }

  /** As texts, the substituted types keep the values of number literals. Names always do. */
  predicate HarmlessTexts(s: Substitutions) {
    SubstitutionTexts(s).Success? ==> HarmlessKeys(SubstitutionTexts(s).value)
  }

  /** So the generic parameters of a program, which are names, are always harmless. */
  lemma ParametersAreHarmless(s: Substitutions)
    requires IdentifierKeys(s)
    ensures HarmlessTexts(s)
  {
    if SubstitutionTexts(s).Success? {
      NamesAreHarmless(SubstitutionTexts(s).value);
    }
  }

  /** Two substitutions of equivalent types, with the same head names, for the same names. */
  predicate SameSubstitution(s: Substitutions, t: Substitutions) {
    && s.Keys == t.Keys
    && HarmlessTexts(s)
    && forall k :: k in s ==> TypeEquivalent(s[k], t[k]) && HeadName(s[k]) == HeadName(t[k])
  }

  /** A substitution without Unknown nodes agrees with itself. */
  lemma SubstitutionReflexive(s: Substitutions)
    requires HarmlessTexts(s) && forall k :: k in s ==> UnknownFree(s[k])
    ensures SameSubstitution(s, s)
  {
    forall k | k in s ensures TypeEquivalent(s[k], s[k]) {
      TypeReflexive(s[k]);
    }
  }

  lemma SameTexts(s: Substitutions, t: Substitutions)
    requires SameSubstitution(s, t)
    ensures SubstitutionTexts(s) == SubstitutionTexts(t)
  {
    forall k | k in s ensures TypeText(s[k], map[]) == TypeText(t[k], map[]) {
      EquivalentTypesPrintAlike(s[k], t[k], map[]);
    }
    TextsDecideSubstitution(s, t);
  }

  lemma TextsDecideSubstitution(s: Substitutions, t: Substitutions)
    requires s.Keys == t.Keys
    requires forall k :: k in s ==> TypeText(s[k], map[]) == TypeText(t[k], map[])
    ensures SubstitutionTexts(s) == SubstitutionTexts(t)
  {
    if exists k :: k in s && TypeText(s[k], map[]).Failure? {
      var k :| k in s && TypeText(s[k], map[]).Failure?;
      assert k in t && TypeText(t[k], map[]).Failure?;
    } else {
      var a := map k | k in s :: TypeText(s[k], map[]).value;
      var b := map k | k in t :: TypeText(t[k], map[]).value;
      assert a == b;
    }
  }

  /** Substitution fails on both types or gives equivalent types. */
  predicate SameResult(a: Result<TypeRef>, b: Result<TypeRef>) {
    if a.Success? && b.Success? then TypeEquivalent(a.value, b.value) else a == b
  }

  predicate SameResults(a: Result<seq<TypeRef>>, b: Result<seq<TypeRef>>) {
    if a.Success? && b.Success? then TypesEquivalent(a.value, b.value) else a == b
  }

  lemma SameKeys(l: TypeRef, r: TypeRef, owners: set<string>)
    requires TypeEquivalent(l, r)
    ensures LookupKey(l) == LookupKey(r)
    ensures AssociatedPath(l, owners) == AssociatedPath(r, owners)
  {
    assert l.kind == Qualified ==> Trim(l.name) == Trim(r.name);
  }

  lemma SameAssociated(path: (string, string), s: Substitutions, t: Substitutions)
    requires SameSubstitution(s, t) && path.0 in s
    ensures TypeEquivalent(TypeRef(Associated, false, path.1, "", [s[path.0]]),
                           TypeRef(Associated, false, path.1, "", [t[path.0]]))
  {
    var a, b := [s[path.0]], [t[path.0]];
    assert TypesEquivalent(a[1..], b[1..]);
    assert TypesEquivalent(a, b);
  }

  lemma SameValue(l: TypeRef, r: TypeRef, texts: Bindings)
    requires TypeEquivalent(l, r) && l.kind == TypeKind.Value && HarmlessKeys(texts)
    ensures TypeEquivalent(l.(value := Substitute(l.value, texts)), r.(value := Substitute(r.value, texts)))
  {
    EquivalentSubstitute(l.value, r.value, texts);
  }

  lemma SameRebuilt(l: TypeRef, r: TypeRef, ls: seq<TypeRef>, rs: seq<TypeRef>)
    requires TypeEquivalent(l, r) && l.kind != TypeKind.Value && TypesEquivalent(ls, rs)
    ensures SameResult(Rebuilt(l, ls), Rebuilt(r, rs))
  {
    if ls != [] {
      EquivalentListsPrintAlike(ls[1..], rs[1..], map[]);
    }
    SameFrameWithChildren(l, r, ls, rs);
  }

  lemma SameFrameWithChildren(l: TypeRef, r: TypeRef, ls: seq<TypeRef>, rs: seq<TypeRef>)
    requires SameFrame(l, r) && l.kind != TypeKind.Value
    ensures forall v, w :: SameFrame(l.(children := ls, value := v), r.(children := rs, value := w))
  {
    forall v, w ensures SameFrame(l.(children := ls, value := v), r.(children := rs, value := w)) {
      var l', r' := l.(children := ls, value := v), r.(children := rs, value := w);
      if LeadsWithName(l.kind) {
        assert HeadName(l') == Trim(l.name) && HeadName(r') == Trim(r.name);
      }
    }
  }

  /** Equivalence is a congruence for substitution, in the type and in the substituted types:
      through template heads, associated paths, shape values and shaped nodes. */
  lemma {:induction false} SubstituteCongruent(l: TypeRef, r: TypeRef, s: Substitutions, t: Substitutions)
    requires TypeEquivalent(l, r) && SameSubstitution(s, t)
    ensures SameResult(SubstituteType(l, s), SubstituteType(r, t))
    decreases l, 1
  {
    SameKeys(l, r, s.Keys);
    var key := LookupKey(l);
    if key == "" || key !in s {
      InsideCongruent(l, r, s, t);
    } else {
      SubstituteListCongruent(l.children, r.children, s, t);
    }
  }

  lemma {:induction false} InsideCongruent(l: TypeRef, r: TypeRef, s: Substitutions, t: Substitutions)
    requires TypeEquivalent(l, r) && SameSubstitution(s, t)
    ensures SameResult(SubstituteInside(l, s), SubstituteInside(r, t))
    decreases l, 0
  {
    SameKeys(l, r, s.Keys);
    if AssociatedPath(l, s.Keys).Some? {
      SameAssociated(AssociatedPath(l, s.Keys).value, s, t);
    } else if l.kind == TypeKind.Value {
      SameTexts(s, t);
      if SubstitutionTexts(s).Success? {
        SameValue(l, r, SubstitutionTexts(s).value);
      }
    } else {
      SubstituteListCongruent(l.children, r.children, s, t);
      var ls, rs := SubstituteTypes(l.children, s), SubstituteTypes(r.children, t);
      if ls.Success? {
        SameRebuilt(l, r, ls.value, rs.value);
      }
    }
  }

  lemma {:induction false} SubstituteListCongruent(l: seq<TypeRef>, r: seq<TypeRef>, s: Substitutions, t: Substitutions)
    requires TypesEquivalent(l, r) && SameSubstitution(s, t)
    ensures SameResults(SubstituteTypes(l, s), SubstituteTypes(r, t))
    decreases l, 0
  {
    if l != [] {
      SubstituteCongruent(l[0], r[0], s, t);
      SubstituteListCongruent(l[1..], r[1..], s, t);
    }
  }

  /** Equivalent types stay equivalent under one substitution without Unknown nodes. */
  lemma SubstituteKeepsEquivalence(l: TypeRef, r: TypeRef, s: Substitutions)
    requires TypeEquivalent(l, r)
    requires HarmlessTexts(s) && forall k :: k in s ==> UnknownFree(s[k])
    ensures SameResult(SubstituteType(l, s), SubstituteType(r, s))
  {
    SubstitutionReflexive(s);
    SubstituteCongruent(l, r, s, s);
  }

  /** Instantiating generic parameters, with types without Unknown nodes, keeps types equivalent. */
  lemma InstancesStayEquivalent(l: TypeRef, r: TypeRef, s: Substitutions)
    requires TypeEquivalent(l, r) && IdentifierKeys(s) && forall k :: k in s ==> UnknownFree(s[k])
    ensures SameResult(SubstituteType(l, s), SubstituteType(r, s))
  {
    ParametersAreHarmless(s);
    SubstituteKeepsEquivalence(l, r, s);
  }
}
