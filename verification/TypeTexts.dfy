/** Substituting in a type and in its text. */
module TypeTexts {
  import opened Wrappers
  import opened ShapeLexer
  import opened ShapeSubstitution
  import opened ShapeComposition
  import opened TypeRefs
  import opened TypeTheorems
  import opened TypeSubstitution
  import opened TypeComposition

  /** The text of the node can be substituted like the node: it is no path of a bound owner, a bound template head
      is bound to a plain name, and a value has the text that it keeps. */
  predicate NodeSpells(t: TypeRef, s: Substitutions) {
    && (forall o :: o in Own(t) && o.Path? && !IsBound(o.name, s.Keys) ==> !OwnerBound(o.name, s.Keys))
    && (forall o :: o in Own(t) && o.Head? && IsBound(o.name, s.Keys) ==>
          s[o.name].kind == Named && !HasScope(s[o.name].name))
    && (t.kind == TypeKind.Value ==>
          Substitute(Substitute(t.value, TextsOf(s)), map[]) == Substitute(t.value, TextsOf(s)))
  }

  /** So can every node of the type, except in nodes that are replaced. */
  predicate Spells(t: TypeRef, s: Substitutions)
    decreases t, 0
  {
    NodeSpells(t, s) && (t.kind == TypeKind.Value || HasReplaced(t, s.Keys) || AllSpell(t.children, s))
  }

  predicate AllSpell(ts: seq<TypeRef>, s: Substitutions)
    decreases ts, 0
  {
    ts == [] || (Spells(ts[0], s) && AllSpell(ts[1..], s))
  }

  lemma ReplacedText(t: TypeRef, o: Occurrence, s: Substitutions)
    requires SubstitutionTexts(s).Success? && NodeSpells(t, s) && o in Own(t) && Replaced(o, s.Keys)
    ensures SubstituteType(t, s).Success?
    ensures TypeText(SubstituteType(t, s).value, map[]) == TypeText(t, TextsOf(s))
  {
    BoundNameAlone(t, o.name, s);
    TextAt(o.name, s);
  }

  lemma BoundHeadText(t: TypeRef, s: Substitutions)
    requires t.kind == Template && t.children != [] && NodeSpells(t, s) && IsBound(LookupKey(t), s.Keys)
    requires SubstitutionTexts(s).Success? && SubstituteType(t, s).Success?
    requires Texts(SubstituteType(t, s).value.children, map[]) == Texts(t.children, TextsOf(s))
    ensures TypeText(SubstituteType(t, s).value, map[]) == TypeText(t, TextsOf(s))
  {
    var k := LookupKey(t);
    assert Head(k) in Own(t);
    TextAt(k, s);
    NameText(s[k]);
    ScopeOfTrimmed(s[k].name, Trim(s[k].name)) by {
      TrimTwice(s[k].name);
    }
    TrimTwice(s[k].name);
  }

  /** The texts of new children are those of the old ones. */
  predicate ChildrenSpell(t: TypeRef, r: TypeRef, texts: Bindings) {
    && |r.children| == |t.children|
    && Texts(r.children, map[]) == Texts(t.children, texts)
    && (t.children != [] ==>
          && TypeText(r.children[0], map[]) == TypeText(t.children[0], texts)
          && Texts(r.children[1..], map[]) == Texts(t.children[1..], texts))
  }

  predicate KeepsFrame(t: TypeRef, r: TypeRef) {
    r.kind == t.kind && r.name == t.name && r.rvalue == t.rvalue
  }

  lemma SurroundKept(t: TypeRef, r: TypeRef)
    requires KeepsFrame(t, r)
    ensures forall first, rest :: Surround(r, first, rest) == Surround(t, first, rest)
  {
  }

  lemma ChildrenKept(t: TypeRef, r: TypeRef, texts: Bindings)
    requires KeepsFrame(t, r) && ChildrenSpell(t, r, texts)
    ensures ChildrenText(r, map[]) == ChildrenText(t, texts)
  {
    SurroundKept(t, r);
  }

  lemma KindKept(t: TypeRef, r: TypeRef, texts: Bindings)
    requires KeepsFrame(t, r) && ChildrenSpell(t, r, texts) && t.kind != TypeKind.Value
    ensures KindText(r, map[]) == KindText(t, texts)
  {
    ChildrenKept(t, r, texts);
  }

  /** A node that is not replaced, when the texts of its children are the same. */
  lemma KeptText(t: TypeRef, r: TypeRef, s: Substitutions)
    requires t.kind != TypeKind.Value && !HasReplaced(t, s.Keys) && NodeSpells(t, s)
    requires SubstitutionTexts(s).Success? && SubstituteType(t, s) == Success(r) && ChildrenSpell(t, r, TextsOf(s))
    ensures TypeText(r, map[]) == TypeText(t, TextsOf(s))
  {
    KeptNode(t, s);
    if t.kind == Template && t.children != [] && IsBound(LookupKey(t), s.Keys) {
      BoundHeadText(t, s);
    } else {
      UnboundKey(t, s);
      KindKept(t, r, TextsOf(s));
    }
  }

  lemma UnboundKey(t: TypeRef, s: Substitutions)
    requires !HasReplaced(t, s.Keys) && !(t.kind == Template && t.children != [] && IsBound(LookupKey(t), s.Keys))
    requires SubstitutionTexts(s).Success?
    ensures LookupKey(t) == "" || LookupKey(t) !in TextsOf(s)
    ensures Head(LookupKey(t)) in Own(t) ==> !IsBound(LookupKey(t), s.Keys)
  {
    assert t.kind == Named || (t.kind == Template && t.children == []) ==> Alone(LookupKey(t)) in Own(t);
    assert t.kind == Qualified ==> Path(LookupKey(t)) in Own(t);
  }

  /** Substituting in a type and then printing it is substituting in its text. */
  lemma {:induction false} SubstitutedTypeText(t: TypeRef, s: Substitutions)
    requires SubstitutionTexts(s).Success? && SubstituteType(t, s).Success? && Spells(t, s)
    ensures TypeText(SubstituteType(t, s).value, map[]) == TypeText(t, TextsOf(s))
    decreases t, 0
  {
    if HasReplaced(t, s.Keys) {
      var o :| o in Own(t) && Replaced(o, s.Keys);
      ReplacedText(t, o, s);
    } else if t.kind == TypeKind.Value {
      ValueNode(t, s);
      ValueText(SubstituteType(t, s).value);
    } else {
      KeptNode(t, s);
      if t.children != [] {
        SubstitutedTypeText(t.children[0], s);
        SubstitutedTexts(t.children[1..], s);
      }
      SubstitutedTexts(t.children, s);
      KeptText(t, SubstituteType(t, s).value, s);
    }
  }

  lemma {:induction false} SubstitutedTexts(ts: seq<TypeRef>, s: Substitutions)
    requires SubstitutionTexts(s).Success? && SubstituteTypes(ts, s).Success? && AllSpell(ts, s)
    ensures Texts(SubstituteTypes(ts, s).value, map[]) == Texts(ts, TextsOf(s))
    decreases ts, 0
  {
    if ts != [] {
      SubstitutedTypeText(ts[0], s);
      SubstitutedTexts(ts[1..], s);
    }
  }

  /** A path of a bound owner is not substituted in texts: the type becomes a member of what the owner is bound to,
      and its text stays the path. */
  lemma OwnerIsKeptInText(t: TypeRef, name: string, owner: string, member: string, s: Substitutions)
    requires Path(name) in Own(t) && name !in s && Splits(name, owner, member) && owner in s && Trim(member) == member
    requires SubstitutionTexts(s).Success?
    ensures TypeText(t, TextsOf(s)) == Success(name)
    ensures SubstituteType(t, s).Success?
    ensures TypeText(SubstituteType(t, s).value, map[]) == Success(TextsOf(s)[owner] + "." + member)
  {
    BoundOwner(t, name, owner, member, s);
    TextAt(owner, s);
    var r := TypeRef(Associated, false, member, "", [s[owner]]);
    assert TypeText(r, map[]) == KindText(r, map[]) == ChildrenText(r, map[]);
  }

  // Array shapes spell their extents.

  /** Every array shape with extents has the list of their texts as its value. */
  predicate ShapesSpelled(t: TypeRef)
    decreases t, 0
  {
    && (HasShape(t.kind) && |t.children| > 1 ==>
          Texts(t.children[1..], map[]).Success? && t.value == Join(Texts(t.children[1..], map[]).value))
    && (t.kind == TypeKind.Value || AllShapesSpelled(t.children))
  }

  predicate AllShapesSpelled(ts: seq<TypeRef>)
    decreases ts, 0
  {
    ts == [] || (ShapesSpelled(ts[0]) && AllShapesSpelled(ts[1..]))
  }

  lemma ReplacedSpelled(t: TypeRef, o: Occurrence, s: Substitutions)
    requires o in Own(t) && Replaced(o, s.Keys) && forall k :: k in s ==> ShapesSpelled(s[k])
    ensures SubstituteType(t, s).Success? && ShapesSpelled(SubstituteType(t, s).value)
  {
    if IsBound(o.name, s.Keys) {
      BoundNameAlone(t, o.name, s);
    } else {
      var path := SplitPath(o.name).value;
      SplitSound(o.name);
      BoundOwner(t, o.name, path.0, path.1, s);
    }
  }

  lemma RebuiltSpelled(t: TypeRef, children: seq<TypeRef>)
    requires Rebuilt(t, children).Success? && AllShapesSpelled(children)
    ensures ShapesSpelled(Rebuilt(t, children).value)
  {
  }

  /** Substituting spells the extents of array shapes again, whatever they were before. */
  lemma {:induction false} ResultSpelled(t: TypeRef, s: Substitutions)
    requires SubstituteType(t, s).Success? && forall k :: k in s ==> ShapesSpelled(s[k])
    ensures ShapesSpelled(SubstituteType(t, s).value)
    decreases t, 0
  {
    if HasReplaced(t, s.Keys) {
      var o :| o in Own(t) && Replaced(o, s.Keys);
      ReplacedSpelled(t, o, s);
    } else if t.kind == TypeKind.Value {
      ValueNode(t, s);
    } else {
      KeptNode(t, s);
      ResultsSpelled(t.children, s);
      if t.kind != Template {
        RebuiltSpelled(t, SubstituteTypes(t.children, s).value);
      }
    }
  }

  lemma {:induction false} ResultsSpelled(ts: seq<TypeRef>, s: Substitutions)
    requires SubstituteTypes(ts, s).Success? && forall k :: k in s ==> ShapesSpelled(s[k])
    ensures AllShapesSpelled(SubstituteTypes(ts, s).value)
    decreases ts, 0
  {
    if ts != [] {
      ResultSpelled(ts[0], s);
      ResultsSpelled(ts[1..], s);
    }
  }

  // Different wrappers print differently.

  predicate IsWrapper(kind: TypeKind) {
    kind == Pointer || kind == Reference || kind == Const || kind == Volatile || kind == Atomic || kind == Device
    || kind == Storage || kind == Shared || kind == Static || kind == PackExpansion
  }

  /** Around the same type two wrappers have the same text only when they are the same. */
  lemma WrappersDiffer(a: TypeRef, b: TypeRef, text: string)
    requires IsWrapper(a.kind) && IsWrapper(b.kind) && |a.children| == |b.children| == 1
    requires TypeText(a.children[0], map[]) == TypeText(b.children[0], map[]) == Success(text)
    requires TypeText(a, map[]) == TypeText(b, map[])
    ensures a.kind == b.kind && (a.kind == Reference ==> a.rvalue == b.rvalue)
  {
    WrapperText(a, text);
    WrapperText(b, text);
    WrapperStart(a, text);
    WrapperStart(b, text);
  }

  lemma WrapperText(t: TypeRef, text: string)
    requires IsWrapper(t.kind) && |t.children| == 1 && TypeText(t.children[0], map[]) == Success(text)
    ensures TypeText(t, map[]) == Success(Surround(t, text, ""))
  {
    assert TypeText(t, map[]) == KindText(t, map[]) == ChildrenText(t, map[]);
  }

  /** How much longer a wrapper's text is, and how it begins. */
  lemma WrapperStart(t: TypeRef, text: string)
    requires IsWrapper(t.kind)
    ensures
      var all, more := Surround(t, text, ""), |Surround(t, text, "")| - |text|;
      match t.kind
      case Pointer => more == 1 && all[0] == '*'
      case Reference => more == (if t.rvalue then 2 else 1) && all[0] == '&'
      case Const => more == 7
      case Volatile => more == 10
      case Atomic => more == 8 && all[0] == 'a'
      case Device => more == 8 && all[0] == 'd'
      case Storage => more == 9
      case Shared => more == 8 && all[..2] == "sh"
      case Static => more == 8 && all[..2] == "st"
      case _ => more == 3
  {
  }
}
