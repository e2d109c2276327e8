/** Which names a substituted type has, and substituting nothing. */
module TypeSubstitution {
  import opened Wrappers
  import opened MachineInt
  import opened ShapeLexer
  import opened ShapeEval
  import opened ShapeSubstitution
  import opened ShapeComposition
  import opened TypeRefs
  import opened TypeTheorems

  // Paths.

  /** The name is an owner and a member, separated by its last `.` or `::`. */
  predicate Splits(name: string, owner: string, member: string) {
    && owner != "" && member != "" && '.' !in member && !HasScope(member)
    && (name == owner + "." + member || (name == owner + "::" + member && member[0] != ':'))
  }

  lemma {:induction false} LastDotIs(s: string)
    ensures -1 <= LastDot(s) < |s|
    ensures LastDot(s) >= 0 ==> s[LastDot(s)] == '.'
    ensures forall i :: LastDot(s) < i < |s| ==> s[i] != '.'
  {
    if s != "" && s[|s| - 1] != '.' {
      LastDotIs(s[..|s| - 1]);
    }
  }

  predicate ScopeAt(s: string, i: int) {
    0 <= i < |s| - 1 && s[i] == ':' && s[i + 1] == ':'
  }

  lemma {:induction false} LastScopeIs(s: string)
    ensures LastScope(s) == -1 || ScopeAt(s, LastScope(s))
    ensures forall i :: LastScope(s) < i ==> !ScopeAt(s, i)
  {
    if |s| >= 2 && !ScopeAt(s, |s| - 2) {
      var front := s[..|s| - 1];
      LastScopeIs(front);
      forall i | LastScope(s) < i ensures !ScopeAt(s, i) {
        assert !ScopeAt(front, i);
      }
    }
  }

  lemma SplitSound(name: string)
    ensures SplitPath(name).Some? ==> Splits(name, SplitPath(name).value.0, SplitPath(name).value.1)
  {
    LastDotIs(name);
    LastScopeIs(name);
    if SplitPath(name).Some? {
      var at, member := |SplitPath(name).value.0|, SplitPath(name).value.1;
      var width := |name| - at - |member|;
      forall i | 0 <= i < |member| ensures member[i] != '.' && !ScopeAt(member, i) {
        assert member[i] == name[at + width + i];
        assert !ScopeAt(name, at + width + i);
      }
      assert !ScopeAt(name, at + 1);
      assert width == 2 ==> name == name[..at] + "::" + member && name[at + 1] == ':';
      assert width == 1 ==> name == name[..at] + "." + member;
    }
  }

  lemma Joined(name: string, owner: string, separator: string, member: string)
    requires name == owner + separator + member
    ensures var from := |owner| + |separator|;
      && |name| == from + |member| && name[..|owner|] == owner && name[from..] == member
      && (forall i :: 0 <= i < |separator| ==> name[|owner| + i] == separator[i])
      && (forall i :: from <= i < |name| ==> name[i] == member[i - from])
  {
  }

  /** No separator follows the one before the member. */
  lemma NoLaterSeparator(name: string, from: nat, member: string)
    requires |name| == from + |member| && '.' !in member && !HasScope(member)
    requires forall i :: from <= i < |name| ==> name[i] == member[i - from]
    ensures LastDot(name) < from && LastScope(name) < from
  {
    LastDotIs(name);
    LastScopeIs(name);
    forall i | from <= i < |name| ensures name[i] != '.' && !ScopeAt(name, i) {
      assert name[i] == member[i - from] && !ScopeAt(member, i - from);
    }
  }

  lemma SplitAtDot(name: string, owner: string, member: string)
    requires name == owner + "." + member && '.' !in member && !HasScope(member)
    ensures LastDot(name) == |owner| && LastScope(name) <= LastDot(name)
    ensures name[..|owner|] == owner && name[|owner| + 1..] == member
  {
    LastDotIs(name);
    Joined(name, owner, ".", member);
    NoLaterSeparator(name, |owner| + 1, member);
    assert name[|owner|] == '.';
  }

  lemma SplitAtScope(name: string, owner: string, member: string)
    requires name == owner + "::" + member && '.' !in member && !HasScope(member) && member != "" && member[0] != ':'
    ensures LastScope(name) == |owner| && LastDot(name) < LastScope(name)
    ensures name[..|owner|] == owner && name[|owner| + 2..] == member
  {
    Joined(name, owner, "::", member);
    assert name[|owner|] == ':' && name[|owner| + 1] == ':';
    NoLaterSeparator(name, |owner| + 2, member);
    ScopeHere(name, |owner|);
  }

  lemma ScopeHere(name: string, at: nat)
    requires ScopeAt(name, at) && at + 2 < |name| && name[at + 2] != ':'
    requires LastDot(name) < at + 2 && LastScope(name) < at + 2
    ensures LastScope(name) == at && LastDot(name) < at
  {
    LastDotIs(name);
    LastScopeIs(name);
    assert !ScopeAt(name, at + 1);
  }

  lemma SplitComplete(name: string, owner: string, member: string)
    requires Splits(name, owner, member)
    ensures SplitPath(name) == Some((owner, member))
  {
    if name == owner + "." + member {
      SplitAtDot(name, owner, member);
    } else {
      SplitAtScope(name, owner, member);
    }
    assert |name| > |owner| + 1;
  }

  /** A path is split at its last separator. */
  lemma SplitIff(name: string, owner: string, member: string)
    ensures SplitPath(name) == Some((owner, member)) <==> Splits(name, owner, member)
  {
    SplitSound(name);
    if Splits(name, owner, member) {
      SplitComplete(name, owner, member);
    }
  }

  // Names.

  /** A name in a type: by itself, as a path, or as the head of a template with arguments. */
  datatype Occurrence = Alone(name: string) | Path(name: string) | Head(name: string)

  function Own(t: TypeRef): set<Occurrence> {
    match t.kind
    case Named => {Alone(Trim(t.name))}
    case Qualified => {Path(Trim(t.name))}
    case Template => if t.children == [] then {Alone(Trim(t.name))} else {Head(Trim(t.name))}
    case _ => {}
  }

  predicate IsBound(name: string, bound: set<string>) {
    name != "" && name in bound
  }

  predicate OwnerBound(name: string, bound: set<string>) {
    SplitPath(name).Some? && SplitPath(name).value.0 in bound
  }

  /** The whole node is replaced when its name is bound, or the owner of its path is. */
  predicate Replaced(o: Occurrence, bound: set<string>) {
    !o.Head? && (IsBound(o.name, bound) || (o.Path? && OwnerBound(o.name, bound)))
  }

  predicate HasReplaced(t: TypeRef, bound: set<string>) {
    exists o :: o in Own(t) && Replaced(o, bound)
  }

  /** The names of a type, without what a replaced node holds. */
  function Occurrences(t: TypeRef, bound: set<string>): set<Occurrence>
    decreases t, 0
  {
    if t.kind == TypeKind.Value || HasReplaced(t, bound) then Own(t)
    else Own(t) + AllOccurrences(t.children, bound)
  }

  function AllOccurrences(ts: seq<TypeRef>, bound: set<string>): set<Occurrence>
    decreases ts, 0
  {
    if ts == [] then {} else Occurrences(ts[0], bound) + AllOccurrences(ts[1..], bound)
  }

  function Spelled(os: set<Occurrence>): set<string> {
    (set o | o in os :: o.name) - {""}
  }

  function Names(t: TypeRef): set<string> {
    Spelled(Occurrences(t, {}))
  }

  /** What a name of a type becomes: the names of what it, or the owner of its path, is bound to. */
  function Standing(o: Occurrence, s: Substitutions): set<string> {
    if IsBound(o.name, s.Keys) then (if o.Head? then {HeadName(s[o.name])} - {""} else Names(s[o.name]))
    else if o.Path? && OwnerBound(o.name, s.Keys) then Names(s[SplitPath(o.name).value.0])
    else {o.name} - {""}
  }

  predicate Yields(os: set<Occurrence>, s: Substitutions, name: string) {
    exists o :: o in os && name in Standing(o, s)
  }

  /** A bound name on its own becomes what it is bound to. */
  lemma BoundNameAlone(t: TypeRef, k: string, s: Substitutions)
    requires (Alone(k) in Own(t) || Path(k) in Own(t)) && k != "" && k in s
    ensures SubstituteType(t, s) == Success(s[k])
  {
  }

  /** A path of a bound owner becomes the member of what the owner is bound to. */
  lemma BoundOwner(t: TypeRef, name: string, owner: string, member: string, s: Substitutions)
    requires Path(name) in Own(t) && name !in s && Splits(name, owner, member) && owner in s
    ensures SubstituteType(t, s) == Success(TypeRef(Associated, false, member, "", [s[owner]]))
  {
    SplitComplete(name, owner, member);
  }

  /** A bound template head gets the head name of what it is bound to, and the arguments are substituted. */
  lemma BoundHead(t: TypeRef, k: string, s: Substitutions, i: nat)
    requires Head(k) in Own(t) && k != "" && k in s && SubstituteType(t, s).Success? && i < |t.children|
    ensures
      var r := SubstituteType(t, s).value;
      && r.kind == Template && HeadName(r) == HeadName(s[k]) && |r.children| == |t.children|
      && SubstituteType(t.children[i], s) == Success(r.children[i])
  {
    HeadIsTrimmed(s[k]);
    ChildSubstituted(t.children, s, i);
  }

  lemma {:induction false} ChildSubstituted(ts: seq<TypeRef>, s: Substitutions, i: nat)
    requires SubstituteTypes(ts, s).Success? && i < |ts|
    ensures SubstituteType(ts[i], s) == Success(SubstituteTypes(ts, s).value[i])
    decreases i
  {
    if i > 0 {
      ChildSubstituted(ts[1..], s, i - 1);
    }
  }

  lemma {:induction false} HeadIsTrimmed(t: TypeRef)
    ensures Trim(HeadName(t)) == HeadName(t)
    decreases t
  {
    TrimTwice(t.name);
    TrimTwice(t.value);
    if t.kind == Shaped && t.children != [] {
      HeadIsTrimmed(t.children[0]);
    }
  }

  lemma YieldsJoin(a: set<Occurrence>, b: set<Occurrence>, s: Substitutions, name: string)
    ensures Yields(a + b, s, name) <==> Yields(a, s, name) || Yields(b, s, name)
  {
    if Yields(a, s, name) {
      var o :| o in a && name in Standing(o, s);
      assert o in a + b;
    }
    if Yields(b, s, name) {
      var o :| o in b && name in Standing(o, s);
      assert o in a + b;
    }
  }

  lemma YieldsOne(o: Occurrence, s: Substitutions, name: string)
    ensures Yields({o}, s, name) <==> name in Standing(o, s)
  {
    assert o in {o};
  }

  /** With nothing bound, the names of a node are its own and those of its children. */
  lemma NamesOf(t: TypeRef, name: string)
    ensures name in Names(t)
      <==> name in Spelled(Own(t)) || (t.kind != TypeKind.Value && name in Spelled(AllOccurrences(t.children, {})))
  {
  }

  /** A replaced node is a bound name on its own, or a path of a bound owner. */
  lemma ReplacedNode(t: TypeRef, o: Occurrence, s: Substitutions)
    requires o in Own(t) && Replaced(o, s.Keys)
    ensures SubstituteType(t, s).Success? && Names(SubstituteType(t, s).value) == Standing(o, s)
  {
    if IsBound(o.name, s.Keys) {
      BoundNameAlone(t, o.name, s);
    } else {
      var path := SplitPath(o.name).value;
      SplitSound(o.name);
      BoundOwner(t, o.name, path.0, path.1, s);
      var r := TypeRef(Associated, false, path.1, "", [s[path.0]]);
      assert AllOccurrences(r.children, {}) == Occurrences(s[path.0], {}) by {
        assert r.children[1..] == [];
      }
      assert Occurrences(r, {}) == Occurrences(s[path.0], {});
    }
  }

  /** The name of a node that is not replaced. */
  function NameAfter(t: TypeRef, s: Substitutions): string {
    if Head(LookupKey(t)) in Own(t) && IsBound(LookupKey(t), s.Keys) then HeadName(s[LookupKey(t)]) else t.name
  }

  /** Any other node keeps its kind and its name, unless that is a bound template head. */
  lemma KeptNode(t: TypeRef, s: Substitutions)
    requires SubstituteType(t, s).Success? && !HasReplaced(t, s.Keys) && t.kind != TypeKind.Value
    ensures SubstituteTypes(t.children, s).Success?
    ensures
      var r := SubstituteType(t, s).value;
      && r.kind == t.kind && r.rvalue == t.rvalue && r.children == SubstituteTypes(t.children, s).value
      && r.name == NameAfter(t, s)
  {
    assert LookupKey(t) != "" ==> Own(t) in {{Alone(LookupKey(t))}, {Path(LookupKey(t))}, {Head(LookupKey(t))}};
    assert forall o :: o in Own(t) ==> !Replaced(o, s.Keys);
  }

  lemma OwnAfter(t: TypeRef, s: Substitutions, name: string)
    requires SubstituteType(t, s).Success? && !HasReplaced(t, s.Keys)
    ensures name in Spelled(Own(SubstituteType(t, s).value)) <==> Yields(Own(t), s, name)
  {
    if t.kind == TypeKind.Value {
      assert Own(t) == {};
    } else {
      KeptNode(t, s);
      if Own(t) != {} {
        var o :| o in Own(t);
        assert Own(t) == {o} && o.name == LookupKey(t) && !Replaced(o, s.Keys);
        YieldsOne(o, s, name);
        if o.Head? && IsBound(o.name, s.Keys) {
          HeadIsTrimmed(s[o.name]);
          assert Own(SubstituteType(t, s).value) == {Head(HeadName(s[o.name]))};
        } else {
          assert Own(SubstituteType(t, s).value) == {o};
        }
      }
    }
  }

  /** A name occurs in the substituted type exactly when a name of the type becomes it: an unbound one that
      stays, or one in the binding of a bound one. */
  lemma {:induction false} NamesAfter(t: TypeRef, s: Substitutions, name: string)
    requires SubstituteType(t, s).Success?
    ensures name in Names(SubstituteType(t, s).value) <==> Yields(Occurrences(t, s.Keys), s, name)
    decreases t, 0
  {
    if HasReplaced(t, s.Keys) {
      var o :| o in Own(t) && Replaced(o, s.Keys);
      ReplacedNode(t, o, s);
      assert Own(t) == {o};
      YieldsOne(o, s, name);
    } else {
      OwnAfter(t, s, name);
      NamesOf(SubstituteType(t, s).value, name);
      if t.kind != TypeKind.Value {
        KeptNode(t, s);
        AllNamesAfter(t.children, s, name);
        YieldsJoin(Own(t), AllOccurrences(t.children, s.Keys), s, name);
      }
    }
  }

  lemma {:induction false} AllNamesAfter(ts: seq<TypeRef>, s: Substitutions, name: string)
    requires SubstituteTypes(ts, s).Success?
    ensures name in Spelled(AllOccurrences(SubstituteTypes(ts, s).value, {}))
       <==> Yields(AllOccurrences(ts, s.Keys), s, name)
    decreases ts, 0
  {
    if ts != [] {
      var first, rest := SubstituteType(ts[0], s).value, SubstituteTypes(ts[1..], s).value;
      NamesAfter(ts[0], s, name);
      AllNamesAfter(ts[1..], s, name);
      YieldsJoin(Occurrences(ts[0], s.Keys), AllOccurrences(ts[1..], s.Keys), s, name);
      assert ([first] + rest)[1..] == rest;
    }
  }

  // Nothing.

  /** No node is unknown, and no value is INT64_MIN. */
  predicate Stable(t: TypeRef)
    decreases t, 0
  {
    && t.kind != TypeKind.Unknown
    && (t.kind == TypeKind.Value ==> EvalText(t.value, map[]) != Outcome.Value(INT64_MIN))
    && if t.kind == TypeKind.Value then AllUnknownFree(t.children) else AllStable(t.children)
  }

  predicate AllStable(ts: seq<TypeRef>)
    decreases ts, 0
  {
    ts == [] || (Stable(ts[0]) && AllStable(ts[1..]))
  }

  /** The empty substitution gives an equivalent type, exactly when no node is unknown and no value INT64_MIN. */
  lemma {:induction false} NothingSubstituted(t: TypeRef)
    requires SubstituteType(t, map[]).Success?
    ensures TypeEquivalent(SubstituteType(t, map[]).value, t) <==> Stable(t)
    decreases t, 0
  {
    if t.kind == TypeKind.Value {
      SubstituteNothing(t.value);
      TypesReflexive(t.children);
    } else {
      NothingInChildren(t.children);
      NothingInFrame(t, SubstituteTypes(t.children, map[]).value);
    }
  }

  lemma NothingInFrame(t: TypeRef, children: seq<TypeRef>)
    requires t.kind != TypeKind.Value && Rebuilt(t, children).Success?
    ensures var r := Rebuilt(t, children).value;
      r.children == children && (SameFrame(r, t) <==> t.kind != TypeKind.Unknown)
  {
  }

  lemma {:induction false} NothingInChildren(ts: seq<TypeRef>)
    requires SubstituteTypes(ts, map[]).Success?
    ensures TypesEquivalent(SubstituteTypes(ts, map[]).value, ts) <==> AllStable(ts)
    decreases ts, 0
  {
    if ts != [] {
      NothingSubstituted(ts[0]);
      NothingInChildren(ts[1..]);
    }
  }
}
