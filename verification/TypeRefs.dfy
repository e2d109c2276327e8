/** Structured type references: printing, substitution and equivalence. */
module TypeRefs {
  import opened Wrappers
  import opened ShapeLexer
  import opened ShapeSubstitution

  datatype TypeKind =
    | Unknown | Named | Qualified | Value | Template | Associated | Pointer | Reference | Const
    | Volatile | Atomic | Device | Storage | Shared | Static | FixedArray | Function
    | PackExpansion | Shaped | AssociatedTemplate | NativeTransform

  /** A type tree; source locations are left out. */
  datatype TypeRef = TypeRef(kind: TypeKind, rvalue: bool, name: string, value: string, children: seq<TypeRef>)

  const MALFORMED := "malformed structured type node"

  function LookupKey(t: TypeRef): string {
    if t.kind == Named || t.kind == Qualified || t.kind == Template then Trim(t.name) else ""
  }

  function HeadName(t: TypeRef): string {
    match t.kind
    case Named | Qualified | Template | Associated | AssociatedTemplate | NativeTransform => Trim(t.name)
    case Value => Trim(t.value)
    case Function => "fn"
    case Pointer => "*"
    case Reference => "&"
    case Const => "const"
    case Volatile => "volatile"
    case Atomic => "atomic"
    case Device => "device"
    case Storage => "storage"
    case Shared => "shared"
    case Static => "static"
    case FixedArray => "array"
    case Shaped => if t.children == [] then "" else HeadName(t.children[0])
    case PackExpansion => "..."
    case Unknown => ""
  }

  /** Is there a `::` in the text? */
  predicate HasScope(s: string) {
    exists i :: 0 <= i < |s| - 1 && s[i] == ':' && s[i + 1] == ':'
  }

  function Join(parts: seq<string>): string {
    if parts == [] then "" else if |parts| == 1 then parts[0] else parts[0] + ", " + Join(parts[1..])
  }

  /** What kinds with one fixed pattern print around the text of their first child. */
  function Surround(t: TypeRef, first: string, rest: string): string {
    match t.kind
    case Pointer => "*" + first
    case Reference => (if t.rvalue then "&&" else "&") + first
    case Const | Volatile | Atomic | Device | Storage | Shared | Static => HeadName(t) + "[" + first + "]"
    case Associated => first + "." + Trim(t.name)
    case AssociatedTemplate => first + "." + Trim(t.name) + "[" + rest + "]"
    case NativeTransform => Trim(t.name) + "(" + first + ")"
    case FixedArray | Shaped => first + "[" + rest + "]"
    case PackExpansion => first + "..."
    case _ => ""
  }

  /** Kinds that also print the children after the first. */
  predicate PrintsRest(kind: TypeKind) {
    kind == AssociatedTemplate || HasShape(kind)
  }

  predicate HasShape(kind: TypeKind) {
    kind == FixedArray || kind == Shaped
  }

  /** Kinds whose printing needs exactly one child. */
  predicate NeedsOneChild(kind: TypeKind) {
    kind == Associated || kind == NativeTransform || kind == PackExpansion
  }

  /** `substitute_type_ref_text`; a malformed node is a compile error. */
  function TypeText(t: TypeRef, substitutions: Bindings): Result<string>
    decreases t, 2
  {
    var key := LookupKey(t);
    if key == "" || key !in substitutions then KindText(t, substitutions)
    else if t.kind != Template || t.children == [] then Success(substitutions[key])
    else
      var args :- Texts(t.children, substitutions);
      Success(substitutions[key] + "[" + Join(args) + "]")
  }

  /** The text of a node whose name is not substituted. */
  function KindText(t: TypeRef, substitutions: Bindings): Result<string>
    decreases t, 1
  {
    match t.kind
    case Unknown => Success("")
    case Named | Qualified => Success(Trim(t.name))
    case Value => Success(Substitute(t.value, substitutions))
    case Template =>
      var args :- Texts(t.children, substitutions);
      Success(if HasScope(t.name) then Trim(t.name) + "<" + Join(args) + ">"
              else Trim(t.name) + "[" + Join(args) + "]")
    case Function =>
      var parts :- Texts(t.children, substitutions);
      Success("fn(" + (if parts == [] then "" else Join(parts[1..])) + ") -> "
              + (if parts == [] then "void" else parts[0]))
    case _ => ChildrenText(t, substitutions)
  }

  /** The text of a kind that wraps its first child and perhaps lists the others. */
  function ChildrenText(t: TypeRef, substitutions: Bindings): Result<string>
    decreases t, 0
  {
    if t.children == [] || (NeedsOneChild(t.kind) && |t.children| != 1) then Failure(MALFORMED)
    else
      var first :- TypeText(t.children[0], substitutions);
      if !PrintsRest(t.kind) then Success(Surround(t, first, ""))
      else
        var rest :- Texts(t.children[1..], substitutions);
        Success(Surround(t, first, Join(rest)))
  }

  function Texts(ts: seq<TypeRef>, substitutions: Bindings): (r: Result<seq<string>>)
    ensures r.Success? ==> |r.value| == |ts|
    decreases ts, 0
  {
    if ts == [] then Success([])
    else
      var first :- TypeText(ts[0], substitutions);
      var rest :- Texts(ts[1..], substitutions);
      Success([first] + rest)
  }

  function LastScope(s: string): int {
    if |s| < 2 then -1
    else if s[|s| - 2] == ':' && s[|s| - 1] == ':' then |s| - 2
    else LastScope(s[..|s| - 1])
  }

  function LastDot(s: string): int {
    if s == "" then -1 else if s[|s| - 1] == '.' then |s| - 1 else LastDot(s[..|s| - 1])
  }

  function SplitPath(name: string): Option<(string, string)> {
    var dot, scope := LastDot(name), LastScope(name);
    var separator := if scope > dot then scope else dot;
    var width := if scope > dot then 2 else 1;
    if separator <= 0 || separator + width >= |name| then None
    else Some((name[..separator], name[separator + width..]))
  }

  /** `substituted_associated_path`: a qualified name whose owner, the part before the last `.` or
      `::`, is substituted. */
  function AssociatedPath(t: TypeRef, owners: set<string>): (r: Option<(string, string)>)
    ensures r.Some? ==> r.value.0 in owners
  {
    if t.kind != Qualified then None
    else
      var path := SplitPath(Trim(t.name));
      if path.Some? && path.value.0 in owners then path else None
  }

  type Substitutions = map<string, TypeRef>

  /** `substitution_texts`: the texts of the substituted types, if all of them print. */
  function SubstitutionTexts(substitutions: Substitutions): Result<Bindings> {
    if exists k :: k in substitutions && TypeText(substitutions[k], map[]).Failure? then Failure(MALFORMED)
    else Success(map k | k in substitutions :: TypeText(substitutions[k], map[]).value)
  }

  /** `substitute_type_ref`. */
  function SubstituteType(t: TypeRef, substitutions: Substitutions): Result<TypeRef>
    decreases t, 1
  {
    var key := LookupKey(t);
    if key == "" || key !in substitutions then SubstituteInside(t, substitutions)
    else if t.kind != Template || t.children == [] then Success(substitutions[key])
    else
      var args :- SubstituteTypes(t.children, substitutions);
      Success(t.(name := HeadName(substitutions[key]), children := args))
  }

  /** Substitution into a node whose own name is not substituted. */
  function SubstituteInside(t: TypeRef, substitutions: Substitutions): Result<TypeRef>
    decreases t, 0
  {
    var path := AssociatedPath(t, substitutions.Keys);
    if path.Some? then
      Success(TypeRef(Associated, false, path.value.1, "", [substitutions[path.value.0]]))
    else if t.kind == Value then
      var texts :- SubstitutionTexts(substitutions);
      Success(t.(value := Substitute(t.value, texts)))
    else
      var children :- SubstituteTypes(t.children, substitutions);
      Rebuilt(t, children)
  }

  /** A node with new children; array shapes spell their extents again. */
  function Rebuilt(t: TypeRef, children: seq<TypeRef>): Result<TypeRef> {
    if HasShape(t.kind) && |children| > 1 then
      var shape :- Texts(children[1..], map[]);
      Success(t.(children := children, value := Join(shape)))
    else Success(t.(children := children))
  }

  function SubstituteTypes(ts: seq<TypeRef>, substitutions: Substitutions): (r: Result<seq<TypeRef>>)
    ensures r.Success? ==> |r.value| == |ts|
    decreases ts, 0
  {
    if ts == [] then Success([])
    else
      var first :- SubstituteType(ts[0], substitutions);
      var rest :- SubstituteTypes(ts[1..], substitutions);
      Success([first] + rest)
  }

  /** `type_ref_equivalent`. */
  predicate TypeEquivalent(l: TypeRef, r: TypeRef)
    decreases l, 0
  {
    SameFrame(l, r) && TypesEquivalent(l.children, r.children)
  }

  /** Everything equivalence compares at one node, apart from the children. */
  predicate SameFrame(l: TypeRef, r: TypeRef) {
    && l.kind == r.kind && l.rvalue == r.rvalue
    && l.kind != Unknown
    && (LeadsWithName(l.kind) ==> HeadName(l) == HeadName(r))
    && (l.kind == Value ==> Equivalent(l.value, r.value))
  }

  predicate TypesEquivalent(l: seq<TypeRef>, r: seq<TypeRef>)
    decreases l, 0
  {
    |l| == |r| && (l == [] || (TypeEquivalent(l[0], r[0]) && TypesEquivalent(l[1..], r[1..])))
  }

  predicate LeadsWithName(kind: TypeKind) {
    kind == Named || kind == Qualified || kind == Template || kind == Associated
    || kind == AssociatedTemplate || kind == NativeTransform
  }

  predicate UnknownFree(t: TypeRef)
    decreases t, 0
  {
    t.kind != Unknown && AllUnknownFree(t.children)
  }

  predicate AllUnknownFree(ts: seq<TypeRef>)
    decreases ts, 0
  {
    ts == [] || (UnknownFree(ts[0]) && AllUnknownFree(ts[1..]))
  }

  /** The loop over the children stops at the first pair that differs. */
  method CompareTypes(l: TypeRef, r: TypeRef) returns (same: bool)
    ensures same == TypeEquivalent(l, r)
    decreases l
  {
    if l.kind != r.kind || l.rvalue != r.rvalue || |l.children| != |r.children| {
      return false;
    }
    if l.kind == Unknown || (LeadsWithName(l.kind) && HeadName(l) != HeadName(r)) {
      return false;
    }
    if l.kind == Value && !Equivalent(l.value, r.value) {
      return false;
    }
    var i := 0;
    assert l.children[0..] == l.children && r.children[0..] == r.children;
    while i < |l.children|
      invariant 0 <= i <= |l.children|
      invariant TypesEquivalent(l.children, r.children) == TypesEquivalent(l.children[i..], r.children[i..])
    {
      assert l.children[i..][1..] == l.children[i + 1..] && r.children[i..][1..] == r.children[i + 1..];
      var equal := CompareTypes(l.children[i], r.children[i]);
      if !equal {
        return false;
      }
      i := i + 1;
    }
    return true;
  }

  method SubstituteChildren(t: TypeRef, substitutions: Substitutions) returns (r: Result<seq<TypeRef>>)
    ensures r == SubstituteTypes(t.children, substitutions)
    decreases t, 0
  {
    var children := t.children;
    var i := 0;
    assert t.children[0..] == t.children;
    NoneBefore(SubstituteTypes(t.children, substitutions));
    while i < |children|
      invariant 0 <= i <= |children| == |t.children|
      invariant children[i..] == t.children[i..]
      invariant SubstituteTypes(t.children, substitutions)
             == Prepend(children[..i], SubstituteTypes(t.children[i..], substitutions))
    {
      SubstituteFirst(t.children[i..], substitutions);
      assert t.children[i..][1..] == t.children[i + 1..];
      var child := ReplaceType(t.children[i], substitutions);
      if child.Failure? {
        return Failure(child.error);
      }
      ghost var done := children[..i];
      PrependOne(done, child.value, SubstituteTypes(t.children[i + 1..], substitutions));
      children := children[i := child.value];
      i := i + 1;
      assert children[..i] == done + [child.value];
    }
    assert children[..i] + [] == children;
    return Success(children);
  }

  method ReplaceType(t: TypeRef, substitutions: Substitutions) returns (r: Result<TypeRef>)
    ensures r == SubstituteType(t, substitutions)
    decreases t, 1
  {
    var key := LookupKey(t);
    if key != "" && key in substitutions {
      if t.kind == Template && t.children != [] {
        var args :- SubstituteChildren(t, substitutions);
        return Success(t.(name := HeadName(substitutions[key]), children := args));
      }
      return Success(substitutions[key]);
    }
    var path := AssociatedPath(t, substitutions.Keys);
    if path.Some? {
      return Success(TypeRef(Associated, false, path.value.1, "", [substitutions[path.value.0]]));
    }
    if t.kind == Value {
      var texts :- SubstitutionTexts(substitutions);
      return Success(t.(value := Substitute(t.value, texts)));
    }
    var children :- SubstituteChildren(t, substitutions);
    r := Rebuilt(t, children);
  }

  function Prepend(done: seq<TypeRef>, rest: Result<seq<TypeRef>>): Result<seq<TypeRef>> {
    if rest.Success? then Success(done + rest.value) else rest
  }

  lemma SubstituteFirst(ts: seq<TypeRef>, substitutions: Substitutions)
    requires ts != []
    ensures SubstituteTypes(ts, substitutions)
         == match SubstituteType(ts[0], substitutions)
            case Failure(error) => Failure(error)
            case Success(first) => Prepend([first], SubstituteTypes(ts[1..], substitutions))
  {
  }

  lemma NoneBefore(rest: Result<seq<TypeRef>>)
    ensures Prepend([], rest) == rest
  {
    assert rest.Success? ==> [] + rest.value == rest.value;
  }

  lemma PrependOne(done: seq<TypeRef>, t: TypeRef, rest: Result<seq<TypeRef>>)
    ensures Prepend(done, Prepend([t], rest)) == Prepend(done + [t], rest)
  {
    assert rest.Success? ==> done + ([t] + rest.value) == (done + [t]) + rest.value;
  }
}
