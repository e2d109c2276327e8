/** Shapes of nested array literals, the fixed array types inferred from them, and peeling such a
    type one level at a time. */
module ArrayShapes {
  import opened MachineInt
  import opened RowMajor
  import opened Wrappers
  import opened ArrayViews
  import opened ViewChains
  import ShapeLexer
  import opened ShapeEval
  import opened ShapeSubstitution
  import opened TypeRefs

  /** A literal: a list of literals, or any other expression, known by its value. */
  datatype Literal = Item(item: int, location: int) | List(items: seq<Literal>, location: int)

  datatype ShapeResult = Rect(shape: seq<nat>) | Ragged(location: int)

  /** `literal_shape`. */
  function ShapeOf(e: Literal): ShapeResult
    decreases e, 1
  {
    if e.Item? then Rect([])
    else if e.items == [] then Rect([0])
    else match ShapeOf(e.items[0])
      case Ragged(location) => Ragged(location)
      case Rect(first) => match FirstMismatch(e.items, 1, first)
        case Some(location) => Ragged(location)
        case None => Rect([|e.items|] + first)
  }

  /** The location reported for the first item from `from` on that does not have the shape. */
  function FirstMismatch(items: seq<Literal>, from: nat, shape: seq<nat>): Option<int>
    requires from <= |items|
    decreases items, 0, |items| - from
  {
    if from == |items| then None
    else match ShapeOf(items[from])
      case Ragged(location) => Some(location)
      case Rect(other) => if other == shape then FirstMismatch(items, from + 1, shape) else Some(items[from].location)
  }

  method LiteralShape(e: Literal) returns (r: ShapeResult)
    ensures r == ShapeOf(e)
    decreases e
  {
    if !e.List? {
      return Rect([]);
    }
    if e.items == [] {
      return Rect([0]);
    }
    var childShape: Option<seq<nat>> := None;
    var i := 0;
    while i < |e.items|
      invariant 0 <= i <= |e.items|
      invariant childShape.Some? <==> i > 0
      invariant i > 0 ==> ShapeOf(e.items[0]) == Rect(childShape.value)
      invariant i > 0 ==> FirstMismatch(e.items, 1, childShape.value) == FirstMismatch(e.items, i, childShape.value)
    {
      var child := LiteralShape(e.items[i]);
      if child.Ragged? {
        return child;
      }
      if childShape.None? {
        childShape := Some(child.shape);
      } else if childShape.value != child.shape {
        return Ragged(e.items[i].location);
      }
      i := i + 1;
    }
    return Rect([|e.items|] + childShape.value);
  }

  /** A literal is rectangular with a shape: every list on a level has that level's extent. An
      empty list ends the shape. */
  predicate Rectangular(e: Literal, shape: seq<nat>)
    decreases shape
  {
    if shape == [] then e.Item?
    else
      && e.List? && |e.items| == shape[0]
      && (e.items == [] ==> |shape| == 1)
      && forall i :: 0 <= i < |e.items| ==> Rectangular(e.items[i], shape[1..])
  }

  lemma {:induction false} MismatchMeans(items: seq<Literal>, from: nat, shape: seq<nat>)
    requires from <= |items|
    ensures FirstMismatch(items, from, shape) == None
        <==> forall i :: from <= i < |items| ==> ShapeOf(items[i]) == Rect(shape)
    decreases |items| - from
  {
    if from < |items| {
      MismatchMeans(items, from + 1, shape);
    }
  }

  /** A literal is accepted with a shape exactly when it is rectangular with that shape. */
  lemma {:induction false} AcceptedIffRectangular(e: Literal, shape: seq<nat>)
    ensures ShapeOf(e) == Rect(shape) <==> Rectangular(e, shape)
    decreases e
  {
    if e.List? && e.items != [] {
      if shape != [] {
        forall i | 0 <= i < |e.items|
          ensures ShapeOf(e.items[i]) == Rect(shape[1..]) <==> Rectangular(e.items[i], shape[1..])
        {
          AcceptedIffRectangular(e.items[i], shape[1..]);
        }
        MismatchMeans(e.items, 1, shape[1..]);
      }
      if ShapeOf(e) == Rect(shape) {
        assert shape[1..] == ShapeOf(e.items[0]).shape;
      }
      assert shape != [] ==> [shape[0]] + shape[1..] == shape;
    }
  }

  /** The literal at the end of a path of item positions. */
  predicate IsPath(e: Literal, path: seq<nat>)
    decreases path
  {
    path == [] || (e.List? && path[0] < |e.items| && IsPath(e.items[path[0]], path[1..]))
  }

  function At(e: Literal, path: seq<nat>): Literal
    requires IsPath(e, path)
    decreases path
  {
    if path == [] then e else At(e.items[path[0]], path[1..])
  }

  /** The item is the first of its list whose shape differs from those before it. */
  predicate FirstToDiffer(items: seq<Literal>, i: nat, shape: seq<nat>, other: seq<nat>) {
    && 0 < i < |items| && other != shape && Rectangular(items[i], other)
    && forall k :: 0 <= k < i ==> Rectangular(items[k], shape)
  }

  lemma {:induction false} MismatchIsFirst(items: seq<Literal>, from: nat, shape: seq<nat>) returns (i: nat)
    requires from <= |items| && FirstMismatch(items, from, shape).Some?
    ensures from <= i < |items| && forall k :: from <= k < i ==> Rectangular(items[k], shape)
    ensures ShapeOf(items[i]) != Rect(shape)
    ensures FirstMismatch(items, from, shape).value
         == if ShapeOf(items[i]).Ragged? then ShapeOf(items[i]).location else items[i].location
    decreases |items| - from
  {
    i := from;
    if ShapeOf(items[from]) == Rect(shape) {
      AcceptedIffRectangular(items[from], shape);
      i := MismatchIsFirst(items, from + 1, shape);
    }
  }

  /** The location of a ragged literal is that of an item, at some depth, that is the first of its list to differ
      from the items before it. */
  lemma {:induction false} RaggedItem(e: Literal) returns (path: seq<nat>, i: nat, shape: seq<nat>, other: seq<nat>)
    requires ShapeOf(e).Ragged?
    ensures IsPath(e, path) && At(e, path).List? && FirstToDiffer(At(e, path).items, i, shape, other)
    ensures At(e, path).items[i].location == ShapeOf(e).location
    decreases e
  {
    var first, k := ShapeOf(e.items[0]), 0;
    if first.Rect? {
      k := MismatchIsFirst(e.items, 1, first.shape);
    }
    if ShapeOf(e.items[k]).Ragged? {
      path, i, shape, other := RaggedItem(e.items[k]);
      path := [k] + path;
    } else {
      path, i, shape, other := [], k, first.shape, ShapeOf(e.items[k]).shape;
      AcceptedIffRectangular(e.items[0], shape);
      AcceptedIffRectangular(e.items[k], other);
    }
  }

  function Leaves(e: Literal): seq<int>
    decreases e, 0
  {
    if e.Item? then [e.item] else LeavesOf(e.items)
  }

  function LeavesOf(items: seq<Literal>): seq<int>
    decreases items, 0
  {
    if items == [] then [] else Leaves(items[0]) + LeavesOf(items[1..])
  }

  /** The leaf found by walking the coordinates level by level. */
  function Walk(e: Literal, coords: seq<nat>, shape: seq<nat>): int
    requires Rectangular(e, shape) && InRange(coords, shape)
    decreases shape
  {
    if shape == [] then e.item else Walk(e.items[coords[0]], coords[1..], shape[1..])
  }

  lemma {:induction false} LeavesCount(items: seq<Literal>, each: nat)
    requires forall i :: 0 <= i < |items| ==> |Leaves(items[i])| == each
    ensures |LeavesOf(items)| == Times(|items|, each)
    decreases |items|
  {
    if items != [] {
      LeavesCount(items[1..], each);
    }
  }

  lemma {:induction false} LeavesIndex(items: seq<Literal>, each: nat, i: nat, r: nat)
    requires forall k :: 0 <= k < |items| ==> |Leaves(items[k])| == each
    requires i < |items| && r < each
    ensures Times(i, each) + r < |LeavesOf(items)|
    ensures LeavesOf(items)[Times(i, each) + r] == Leaves(items[i])[r]
    decreases |items|
  {
    if i != 0 {
      LeavesIndex(items[1..], each, i - 1, r);
    }
  }

  lemma {:induction false} LeafCount(e: Literal, shape: seq<nat>)
    requires Rectangular(e, shape)
    ensures |Leaves(e)| == Product(shape)
    decreases shape
  {
    if shape != [] {
      forall i | 0 <= i < |e.items| ensures |Leaves(e.items[i])| == Product(shape[1..]) {
        LeafCount(e.items[i], shape[1..]);
      }
      LeavesCount(e.items, Product(shape[1..]));
      ProductFront(shape);
    }
  }

  lemma {:induction false} RankFront(coords: seq<nat>, shape: seq<nat>)
    requires |coords| == |shape| > 0
    ensures Rank(coords, shape) == Times(coords[0], Product(shape[1..])) + Rank(coords[1..], shape[1..])
    decreases |shape|
  {
    if |shape| == 1 {
      assert Init(coords) == [] && Init(shape) == [] && shape[1..] == [] && coords[1..] == [];
      TimesOne(coords[0]);
    } else {
      RankFront(Init(coords), Init(shape));
      assert Init(coords)[1..] == Init(coords[1..]) && Init(shape)[1..] == Init(shape[1..]);
      var p, r := Product(Init(shape[1..])), Rank(Init(coords[1..]), Init(shape[1..]));
      TimesDistributes(Times(coords[0], p), r, Last(shape));
      TimesAssociates(coords[0], p, Last(shape));
    }
  }

  /** The row-major flattening holds each leaf at the rank of its coordinates ... */
  lemma {:induction false} LeafAtRank(e: Literal, coords: seq<nat>, shape: seq<nat>)
    requires Rectangular(e, shape) && InRange(coords, shape)
    ensures Rank(coords, shape) < |Leaves(e)|
    ensures Leaves(e)[Rank(coords, shape)] == Walk(e, coords, shape)
    decreases shape
  {
    if shape != [] {
      var i, each := coords[0], Product(shape[1..]);
      forall k | 0 <= k < |e.items| ensures |Leaves(e.items[k])| == each {
        LeafCount(e.items[k], shape[1..]);
      }
      LeafAtRank(e.items[i], coords[1..], shape[1..]);
      RankFront(coords, shape);
      LeavesIndex(e.items, each, i, Rank(coords[1..], shape[1..]));
    }
  }

  /** ... which is where a view with contiguous strides reads it. */
  lemma ViewReadsLeaf(e: Literal, coords: seq<nat>, shape: seq<nat>)
    requires ShapeOf(e) == Rect(shape) && InRange(coords, shape)
    ensures Rectangular(e, shape)
    ensures ContiguousView(shape).Position(coords) < |Leaves(e)|
    ensures Leaves(e)[ContiguousView(shape).Position(coords)] == Walk(e, coords, shape)
  {
    AcceptedIffRectangular(e, shape);
    LeafAtRank(e, coords, shape);
    ContiguousPosition(shape, coords);
  }

  /** `shape_value_ref`: an extent as a type argument. */
  function Dim(extent: nat): TypeRef {
    TypeRef(TypeKind.Value, false, "", IntegerText(extent), [])
  }

  function Dims(shape: seq<nat>): seq<TypeRef> {
    seq(|shape|, i requires 0 <= i < |shape| => Dim(shape[i]))
  }

  function DimTexts(shape: seq<nat>): seq<string> {
    seq(|shape|, i requires 0 <= i < |shape| => IntegerText(shape[i]))
  }

  /** `array[element]`, the declared type of an array whose shape is inferred. */
  function ArrayOf(element: TypeRef): TypeRef {
    TypeRef(Template, false, "array", "", [element])
  }

  /** `shaped_array_type_ref`: the declared type with the inferred extents. */
  function ShapedArray(declared: TypeRef, shape: seq<nat>): TypeRef {
    TypeRef(FixedArray, false, "", Join(DimTexts(shape)), [declared] + Dims(shape))
  }

  datatype Inference = NotApplicable | EmptyLiteral | RaggedLiteral(location: int)
    | Inferred(typeRef: TypeRef, shape: seq<nat>)

  predicate IsArrayStorage(t: TypeRef) {
    t.kind == Template && t.name == "array" && |t.children| == 1
  }

  /** `infer_array_literal_shape_type`. */
  method InferArrayLiteral(declared: TypeRef, value: Literal) returns (r: Inference)
    ensures r.Inferred? <==> IsArrayStorage(declared) && value.List? && value.items != [] && ShapeOf(value).Rect?
    ensures r.Inferred? ==> r.shape == ShapeOf(value).shape && r.typeRef == ShapedArray(declared, r.shape)
    ensures r.RaggedLiteral? ==> ShapeOf(value) == Ragged(r.location)
    ensures r.NotApplicable? <==> !IsArrayStorage(declared) || !value.List?
    ensures r.EmptyLiteral? <==> IsArrayStorage(declared) && value.List? && value.items == []
  {
    if !IsArrayStorage(declared) || !value.List? {
      return NotApplicable;
    }
    if value.items == [] {
      return EmptyLiteral;
    }
    var shape := LiteralShape(value);
    if shape.Ragged? {
      return RaggedLiteral(shape.location);
    }
    return Inferred(ShapedArray(declared, shape.shape), shape.shape);
  }

  /** `has_type_ref`. */
  predicate HasType(t: TypeRef) {
    t.kind != Unknown || ShapeLexer.Trim(t.name) != "" || ShapeLexer.Trim(t.value) != "" || t.children != []
  }

  /** `explicit_array_shape_refs`: the extents of a fixed array over `array[element]`. */
  function ShapeRefs(t: TypeRef): seq<TypeRef> {
    if t.kind != FixedArray || |t.children| < 2 || !IsArrayStorage(t.children[0]) then []
    else if exists i :: 1 <= i < |t.children| && !HasType(t.children[i]) then []
    else t.children[1..]
  }

  /** `explicit_array_element_type_ref`; an untyped node stands for none. */
  function ElementType(t: TypeRef): TypeRef {
    if t.kind != FixedArray || t.children == [] || !IsArrayStorage(t.children[0])
    then TypeRef(Unknown, false, "", "", [])
    else t.children[0].children[0]
  }

  /** An extent as a number, when it is a constant. */
  function ExtentOf(dim: TypeRef): Option<nat> {
    var extent := EvalText(dim.value, map[]);
    if dim.kind != TypeKind.Value || dim.value == "" || !extent.Value? || extent.value < 0 then None
    else Some(extent.value)
  }

  /** `explicit_array_shape`: all extents as numbers. */
  function ExplicitShape(dims: seq<TypeRef>): Option<seq<nat>> {
    if exists i :: 0 <= i < |dims| && ExtentOf(dims[i]) == None then None
    else Some(seq(|dims|, i requires 0 <= i < |dims| && ExtentOf(dims[i]).Some? => ExtentOf(dims[i]).value))
  }

  /** `fixed_array_child_type_ref`: the type of one item of an array of this type. */
  method ChildType(t: TypeRef) returns (child: Result<TypeRef>)
    ensures child == ChildTypeOf(t)
  {
    var shape := ShapeRefs(t);
    var element := ElementType(t);
    if |shape| <= 1 || !HasType(element) {
      return Success(element);
    }
    var children, value := [ArrayOf(element)], "";
    ghost var texts: seq<string>, rest := [], shape[1..];
    ghost var all := Texts(rest, map[]);
    ghost var later := all;
    AfterNothing(all);
    var index := 1;
    while index < |shape|
      invariant 1 <= index <= |shape| && rest == shape[index..]
      invariant children == [ArrayOf(element)] + shape[1..index]
      invariant AreTexts(rest, later) && all == AfterTexts(texts, later)
      invariant |texts| == index - 1 && value == Join(texts)
    {
      var text := TypeText(shape[index], map[]);
      later := NextText(texts, rest, text, later);
      if text.Failure? {
        return Failure(text.error);
      }
      children := children + [shape[index]];
      if index > 1 {
        value := value + ", ";
      }
      value := value + text.value;
      texts := texts + [text.value];
      rest := rest[1..];
      index := index + 1;
    }
    assert Texts(rest, map[]) == Success([]) && all == Success(texts + []) && texts + [] == texts
      && shape[1..index] == shape[1..];
    return Success(TypeRef(FixedArray, false, "", value, children));
  }

  ghost predicate AreTexts(types: seq<TypeRef>, texts: Result<seq<string>>) {
    forall ts {:trigger Texts(ts, map[])} :: ts == types ==> Texts(ts, map[]) == texts
  }

  /** One more text: it is added to the ones before, or fails them all. */
  lemma NextText(texts: seq<string>, rest: seq<TypeRef>, text: Result<string>, all: Result<seq<string>>)
    returns (later: Result<seq<string>>)
    requires rest != [] && text == TypeText(rest[0], map[]) && AreTexts(rest, all)
    ensures text.Failure? ==> AfterTexts(texts, all) == Failure(text.error)
    ensures text.Success? ==>
      && AreTexts(rest[1..], later) && AfterTexts(texts, all) == AfterTexts(texts + [text.value], later)
      && Join(texts + [text.value]) == (if texts == [] then "" else Join(texts) + ", ") + text.value
  {
    later := Texts(rest[1..], map[]);
    assert all == Texts(rest, map[]);
    if text.Success? {
      AfterAfter(texts, text.value, later);
      JoinAppend(texts, text.value);
    }
  }

  function ChildTypeOf(t: TypeRef): Result<TypeRef> {
    var shape, element := ShapeRefs(t), ElementType(t);
    if |shape| <= 1 || !HasType(element) then Success(element)
    else
      var texts :- Texts(shape[1..], map[]);
      Success(TypeRef(FixedArray, false, "", Join(texts), [ArrayOf(element)] + shape[1..]))
  }

  function AfterTexts(done: seq<string>, rest: Result<seq<string>>): Result<seq<string>> {
    if rest.Success? then Success(done + rest.value) else rest
  }

  lemma AfterNothing(rest: Result<seq<string>>)
    ensures AfterTexts([], rest) == rest
  {
    assert rest.Success? ==> [] + rest.value == rest.value;
  }

  lemma AfterAfter(done: seq<string>, text: string, rest: Result<seq<string>>)
    ensures AfterTexts(done, AfterTexts([text], rest)) == AfterTexts(done + [text], rest)
  {
    assert rest.Success? ==> done + ([text] + rest.value) == (done + [text]) + rest.value;
  }

  lemma {:induction false} JoinAppend(parts: seq<string>, last: string)
    ensures Join(parts + [last]) == if parts == [] then last else Join(parts) + ", " + last
  {
    if |parts| > 1 {
      var more := parts + [last];
      assert more[0] == parts[0] && more[1..] == parts[1..] + [last];
      JoinAppend(parts[1..], last);
      Regroup(parts[0], ", ", Join(parts[1..]), ", " + last);
    } else if |parts| == 1 {
      assert (parts + [last])[1..] == [last];
    }
  }

  lemma Regroup(a: string, b: string, c: string, d: string)
    ensures a + b + c + d == a + b + (c + d)
  {
  }

  predicate Int64Shape(shape: seq<nat>) {
    forall i :: 0 <= i < |shape| ==> shape[i] <= INT64_MAX
  }

  lemma ExtentText(n: nat)
    requires n <= INT64_MAX
    ensures IntegerText(n) != "" && EvalText(IntegerText(n), map[]) == ShapeEval.Value(n)
    ensures Substitute(IntegerText(n), map[]) == IntegerText(n)
  {
    IntegerTextEval(n, map[]);
    IntegerTextParses(n);
    DigitsRoundTrip(n);
    ConstantSubstitute(IntegerText(n), map[]);
  }

  lemma DimEvaluates(n: nat)
    requires n <= INT64_MAX
    ensures ExtentOf(Dim(n)) == Some(n)
  {
    ExtentText(n);
  }

  lemma DimPrints(n: nat)
    requires n <= INT64_MAX
    ensures TypeText(Dim(n), map[]) == Success(IntegerText(n))
  {
    ExtentText(n);
    ValuePrints(Dim(n), IntegerText(n));
  }

  lemma ValuePrints(t: TypeRef, text: string)
    requires t.kind == TypeKind.Value && t.value == text && Substitute(text, map[]) == text
    ensures TypeText(t, map[]) == Success(text)
  {
  }

  lemma ExplicitPointwise(dims: seq<TypeRef>, shape: seq<nat>)
    requires |dims| == |shape|
    requires forall i :: 0 <= i < |dims| ==> ExtentOf(dims[i]) == Some(shape[i])
    ensures ExplicitShape(dims) == Some(shape)
  {
    assert ExplicitShape(dims).Some?;
    assert ExplicitShape(dims).value == shape;
  }

  lemma {:induction false} TextsPointwise(ts: seq<TypeRef>, texts: seq<string>)
    requires |ts| == |texts|
    requires forall i :: 0 <= i < |ts| ==> TypeText(ts[i], map[]) == Success(texts[i])
    ensures Texts(ts, map[]) == Success(texts)
    decreases |ts|
  {
    if ts != [] {
      TextsPointwise(ts[1..], texts[1..]);
      assert [texts[0]] + texts[1..] == texts;
    }
  }

  lemma DimsEvaluate(shape: seq<nat>)
    requires Int64Shape(shape)
    ensures ExplicitShape(Dims(shape)) == Some(shape)
  {
    forall i | 0 <= i < |shape| ensures ExtentOf(Dims(shape)[i]) == Some(shape[i]) {
      DimEvaluates(shape[i]);
    }
    ExplicitPointwise(Dims(shape), shape);
  }

  lemma DimsPrint(shape: seq<nat>)
    requires Int64Shape(shape)
    ensures Texts(Dims(shape), map[]) == Success(DimTexts(shape))
  {
    forall i | 0 <= i < |shape| ensures TypeText(Dims(shape)[i], map[]) == Success(DimTexts(shape)[i]) {
      DimPrints(shape[i]);
    }
    TextsPointwise(Dims(shape), DimTexts(shape));
  }

  lemma ShapedArrayParts(element: TypeRef, shape: seq<nat>)
    requires Int64Shape(shape) && shape != []
    ensures ShapeRefs(ShapedArray(ArrayOf(element), shape)) == Dims(shape)
    ensures ElementType(ShapedArray(ArrayOf(element), shape)) == element
  {
    var t := ShapedArray(ArrayOf(element), shape);
    forall i | 1 <= i < |t.children| ensures HasType(t.children[i]) {
      assert t.children[i] == Dims(shape)[i - 1];
    }
  }

  /** The inferred type spells the shape it was inferred from. */
  lemma InferredShapeIsExplicit(element: TypeRef, shape: seq<nat>)
    requires Int64Shape(shape) && shape != []
    ensures ExplicitShape(ShapeRefs(ShapedArray(ArrayOf(element), shape))) == Some(shape)
  {
    ShapedArrayParts(element, shape);
    DimsEvaluate(shape);
  }

  /** Peeling one level off an inferred type gives the inferred type of the remaining extents, and
      the element type after the last. */
  lemma PeelOnce(element: TypeRef, shape: seq<nat>)
    requires Int64Shape(shape) && shape != [] && HasType(element)
    ensures ChildTypeOf(ShapedArray(ArrayOf(element), shape))
         == Success(if |shape| == 1 then element else ShapedArray(ArrayOf(element), shape[1..]))
  {
    ShapedArrayParts(element, shape);
    if |shape| > 1 {
      DimsPrint(shape[1..]);
      assert Dims(shape)[1..] == Dims(shape[1..]);
    }
  }

  function Peel(t: TypeRef, depth: nat): Result<TypeRef>
    decreases depth
  {
    if depth == 0 then Success(t)
    else
      var child :- ChildTypeOf(t);
      Peel(child, depth - 1)
  }

  lemma {:induction false} NestedIsRectangular(e: Literal, shape: seq<nat>, path: seq<nat>)
    requires Rectangular(e, shape) && IsPath(e, path)
    ensures |path| <= |shape| && Rectangular(At(e, path), shape[|path|..])
    decreases path
  {
    if path != [] {
      NestedIsRectangular(e.items[path[0]], shape[1..], path[1..]);
      assert shape[1..][|path| - 1..] == shape[|path|..];
    } else {
      assert shape[0..] == shape;
    }
  }

  lemma {:induction false} PeelMany(element: TypeRef, shape: seq<nat>, depth: nat)
    requires Int64Shape(shape) && shape != [] && HasType(element) && depth <= |shape|
    ensures Peel(ShapedArray(ArrayOf(element), shape), depth)
         == Success(if depth == |shape| then element else ShapedArray(ArrayOf(element), shape[depth..]))
    decreases depth
  {
    if depth == 0 {
      assert shape[0..] == shape;
    } else {
      PeelOnce(element, shape);
      if |shape| > 1 {
        PeelMany(element, shape[1..], depth - 1);
        assert shape[1..][depth - 1..] == shape[depth..];
      }
    }
  }

  /** Every nested literal of an accepted literal has exactly the extents that peeling the inferred
      type as many levels gives, down to the items, whose type is the element type. */
  lemma PeelingFollowsLiteral(e: Literal, shape: seq<nat>, element: TypeRef, path: seq<nat>)
    requires Rectangular(e, shape) && Int64Shape(shape) && shape != [] && HasType(element)
    requires IsPath(e, path)
    ensures |path| <= |shape| && Rectangular(At(e, path), shape[|path|..])
    ensures Peel(ShapedArray(ArrayOf(element), shape), |path|)
         == Success(if |path| == |shape| then element else ShapedArray(ArrayOf(element), shape[|path|..]))
  {
    NestedIsRectangular(e, shape, path);
    PeelMany(element, shape, |path|);
  }
}
