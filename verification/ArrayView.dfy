/** The strided n-dimensional views of the generated runtime: construction over a nested array,
    slicing, flat and coordinate indexing, iteration. Addresses are positions in the buffer that
    the `data` pointer refers to.

    A view here has exact strides and an exact offset; `Stored` is what its `std::size_t` fields
    hold. Every method takes the stored view and, as a ghost, an exact view it stores. */
module ArrayViews {
  import opened MachineInt
  import opened RowMajor
  import opened Wrappers
  import opened AxisOps

  function WrapAll(s: seq<nat>): seq<nat> {
    seq(|s|, i requires 0 <= i < |s| => Wrap(s[i]))
  }

  datatype ArrayView = ArrayView(shape: seq<nat>, strides: seq<nat>, offset: nat) {
    predicate Valid() {
      |shape| == |strides| && SmallExtents(shape)
    }

    function Stored(): ArrayView {
      ArrayView(shape, WrapAll(strides), Wrap(offset))
    }

    /** Where the element with these coordinates lies, before wrapping. */
    function Position(coords: seq<nat>): nat
      requires |coords| <= |strides|
    {
      offset + Dot(coords, strides)
    }

    method At(coords: seq<nat>, ghost exact: ArrayView) returns (address: nat)
      requires |coords| <= |strides| && this == exact.Stored()
      ensures address == Wrap(exact.Position(coords))
    {
      var source := offset;
      var axis := 0;
      while axis < |coords|
        invariant 0 <= axis <= |coords|
        invariant source == Wrap(exact.offset + Dot(coords[..axis], exact.strides))
      {
        assert Init(coords[..axis + 1]) == coords[..axis];
        source := MulAddSize(source, coords[axis], strides[axis],
                             exact.offset + Dot(coords[..axis], exact.strides), exact.strides[axis]);
        axis := axis + 1;
      }
      assert coords[..axis] == coords;
      address := source;
    }

    method FlatIndex(flat: nat, ghost exact: ArrayView) returns (address: nat)
      requires |shape| == |strides| && this == exact.Stored()
      ensures address == Wrap(exact.Position(Unrank(flat, shape)))
    {
      var source := offset;
      var rest := flat;
      var dim := |shape|;
      ghost var coords := Unrank(flat, shape);
      assert shape[..dim] == shape;
      while dim > 0
        invariant 0 <= dim <= |shape|
        invariant Digits(rest, dim, coords) && Summed(source, dim, coords, exact)
      {
        source, rest := AddDigit(source, rest, dim, coords, exact);
        dim := dim - 1;
      }
      DotFromStart(coords, exact.strides);
      address := source;
    }

    /** The digits that are left are the first `dim` coordinates. */
    ghost predicate Digits(rest: nat, dim: nat, coords: seq<nat>) {
      dim <= |shape| && |coords| == |shape| && Unrank(rest, shape[..dim]) == coords[..dim]
    }

    /** The address has the axes from `dim` on. */
    ghost predicate Summed(source: nat, dim: nat, coords: seq<nat>, exact: ArrayView) {
      dim <= |coords| == |exact.strides| && source == Wrap(exact.offset + DotFrom(coords, exact.strides, dim))
    }

    method AddDigit(source: nat, rest: nat, dim: nat, ghost coords: seq<nat>, ghost exact: ArrayView)
      returns (sum: nat, left: nat)
      requires |shape| == |strides| && this == exact.Stored() && dim > 0
      requires Digits(rest, dim, coords) && Summed(source, dim, coords, exact)
      ensures Digits(left, dim - 1, coords) && Summed(sum, dim - 1, coords, exact)
    {
      var axis := dim - 1;
      var coord;
      coord, left := NextDigit(rest, shape, dim, coords);
      sum := MulAddSize(source, coord, strides[axis],
                        exact.offset + DotFrom(coords, exact.strides, dim), exact.strides[axis]);
    }

    function Elements(): nat {
      if shape == [] then 0 else Product(shape)
    }

    method Size() returns (size: nat)
      ensures size == Wrap(Elements())
    {
      var total := 1;
      for i := 0 to |shape|
        invariant total == Wrap(Product(shape[..i]))
      {
        assert Init(shape[..i + 1]) == shape[..i];
        TimesCommutes(shape[i], Product(shape[..i]));
        total := MulSize(shape[i], total, Product(shape[..i]));
      }
      assert shape[..|shape|] == shape;
      size := if shape == [] then 0 else total;
    }

    /** What a range-for loop over the view reads, in order. */
    method Iterate(ghost exact: ArrayView) returns (visited: seq<nat>)
      requires Valid() && this == exact.Stored() && Elements() < TWO64
      ensures |visited| == Elements()
      ensures forall k :: 0 <= k < |visited| ==> visited[k] == Wrap(exact.Position(Unrank(k, shape)))
    {
      visited := [];
      var index := 0;
      var end := Size();
      while index != end
        invariant 0 <= index <= end && |visited| == index
        invariant forall k :: 0 <= k < index ==> visited[k] == Wrap(exact.Position(Unrank(k, shape)))
        decreases end - index
      {
        var address := FlatIndex(index, exact);
        visited := visited + [address];
        index := index + 1;
      }
    }
  }

  /** The next mixed-radix digit of a flat index and what is left of the index. */
  method NextDigit(flat: nat, shape: seq<nat>, dim: nat, ghost coords: seq<nat>) returns (coord: nat, rest: nat)
    requires 0 < dim <= |shape| == |coords|
    requires Unrank(flat, shape[..dim]) == coords[..dim]
    ensures coord == coords[dim - 1]
    ensures Unrank(rest, shape[..dim - 1]) == coords[..dim - 1]
  {
    var extent := shape[dim - 1];
    assert Init(shape[..dim]) == shape[..dim - 1];
    assert coords[..dim] == coords[..dim - 1] + [coords[dim - 1]];
    if extent != 0 {
      QuotientIsDivision(flat, extent);
    }
    coord := if extent == 0 then 0 else flat % extent;
    rest := if extent == 0 then 0 else flat / extent;
  }

  /** The part of a dot product from axis `from` on. */
  ghost function DotFrom(coords: seq<nat>, strides: seq<nat>, from: nat): nat
    requires from <= |coords| <= |strides|
    decreases |coords| - from
  {
    if from == |coords| then 0 else DotFrom(coords, strides, from + 1) + Times(coords[from], strides[from])
  }

  lemma {:induction false} DotFromAppend(coords: seq<nat>, strides: seq<nat>, from: nat)
    requires coords != [] && from < |coords| <= |strides|
    ensures DotFrom(coords, strides, from)
         == DotFrom(Init(coords), strides, from) + Times(Last(coords), strides[|coords| - 1])
    decreases |coords| - from
  {
    if from < |coords| - 1 {
      DotFromAppend(coords, strides, from + 1);
    }
  }

  lemma {:induction false} DotFromStart(coords: seq<nat>, strides: seq<nat>)
    requires |coords| <= |strides|
    ensures DotFrom(coords, strides, 0) == Dot(coords, strides)
  {
    if coords != [] {
      DotFromStart(Init(coords), strides);
      DotFromAppend(coords, strides, 0);
    }
  }

  function ContiguousView(shape: seq<nat>): ArrayView {
    ArrayView(shape, ContiguousStrideList(shape), 0)
  }

  lemma ContiguousStep(shape: seq<nat>, axis: nat)
    requires 0 < axis < |shape|
    ensures Times(shape[axis], ContiguousStride(shape, axis)) == ContiguousStride(shape, axis - 1)
  {
    ProductFront(shape[axis..]);
    assert shape[axis..][1..] == shape[axis + 1..];
  }

  method ContiguousStrides(shape: seq<nat>) returns (strides: seq<nat>)
    ensures strides == ContiguousView(shape).Stored().strides
  {
    strides := seq(|shape|, _ => 1);
    var dim := |shape|;
    assert shape[|shape|..] == [];
    while dim > 1
      invariant 0 <= dim <= |shape| && |strides| == |shape|
      invariant dim == 0 ==> shape == []
      invariant forall k :: 0 <= k < |shape| && dim - 1 <= k ==> strides[k] == Wrap(ContiguousStride(shape, k))
    {
      ContiguousStep(shape, dim - 1);
      var stride := MulSize(shape[dim - 1], strides[dim - 1], ContiguousStride(shape, dim - 1));
      strides := strides[dim - 2 := stride];
      dim := dim - 1;
    }
  }

  method MakeArrayView(shape: seq<nat>) returns (view: ArrayView)
    ensures view == ContiguousView(shape).Stored()
  {
    var strides := ContiguousStrides(shape);
    view := ArrayView(shape, strides, 0);
  }

  /** Strides and offset that a list of axis operations gives a view. */
  function OpsStrides(ops: seq<AxisOp>, strides: seq<nat>): (out: seq<nat>)
    requires Consumed(ops) <= |strides|
    ensures |out| == |OpsShape(ops)|
  {
    if ops == [] then []
    else if Last(ops).Pick? then OpsStrides(Init(ops), strides)
    else if Last(ops).Insert? then OpsStrides(Init(ops), strides) + [0]
    else OpsStrides(Init(ops), strides) + [Times(Last(ops).step, strides[Consumed(Init(ops))])]
  }

  function OpsOffset(ops: seq<AxisOp>, strides: seq<nat>): nat
    requires Consumed(ops) <= |strides|
  {
    if ops == [] then 0
    else if Last(ops).Insert? then OpsOffset(Init(ops), strides)
    else
      var at := if Last(ops).Pick? then Last(ops).at else Last(ops).start;
      OpsOffset(Init(ops), strides) + Times(at, strides[Consumed(Init(ops))])
  }

  function Applied(view: ArrayView, ops: seq<AxisOp>): ArrayView
    requires Consumed(ops) <= |view.strides|
  {
    ArrayView(OpsShape(ops), OpsStrides(ops, view.strides), view.offset + OpsOffset(ops, view.strides))
  }

  lemma WrapAllAppend(s: seq<nat>, x: nat)
    ensures WrapAll(s + [x]) == WrapAll(s) + [Wrap(x)]
  {
  }

  lemma ConsumedAppend(ops: seq<AxisOp>, op: AxisOp)
    ensures Consumed(ops + [op]) == Consumed(ops) + (if op.Insert? then 0 else 1)
  {
    assert Init(ops + [op]) == ops;
  }

  lemma OffsetAppend(ops: seq<AxisOp>, op: AxisOp, strides: seq<nat>)
    requires if op.Insert? then Consumed(ops) <= |strides| else Consumed(ops) < |strides|
    ensures Consumed(ops + [op]) <= |strides|
    ensures OpsOffset(ops + [op], strides)
         == OpsOffset(ops, strides) +
            (if op.Pick? then Times(op.at, strides[Consumed(ops)])
             else if op.Take? then Times(op.start, strides[Consumed(ops)])
             else 0)
  {
    assert Init(ops + [op]) == ops;
  }

  lemma AxesAppend(ops: seq<AxisOp>, op: AxisOp, strides: seq<nat>)
    requires if op.Insert? then Consumed(ops) <= |strides| else Consumed(ops) < |strides|
    ensures Consumed(ops + [op]) <= |strides|
    ensures OpsShape(ops + [op])
         == if op.Pick? then OpsShape(ops) else OpsShape(ops) + [if op.Take? then op.count else 1]
    ensures OpsStrides(ops + [op], strides)
         == if op.Pick? then OpsStrides(ops, strides)
            else if op.Take? then OpsStrides(ops, strides) + [Times(op.step, strides[Consumed(ops)])]
            else OpsStrides(ops, strides) + [0]
  {
    assert Init(ops + [op]) == ops;
  }

  /** `out` is what the operations make of the view so far. */
  ghost predicate BuiltFrom(out: ArrayView, exact: ArrayView, ops: seq<AxisOp>) {
    && exact.Valid()
    && Consumed(ops) <= |exact.strides|
    && out.shape == OpsShape(ops)
    && out.strides == WrapAll(OpsStrides(ops, exact.strides))
    && IsWordOf(out.offset, exact.offset + OpsOffset(ops, exact.strides))
  }

  /** The word is what the exact number is stored as, for proofs that pass this on without looking into it. */
  ghost predicate IsWordOf(word: nat, exact: nat) {
    forall e: nat {:trigger Wrap(e)} :: e == exact ==> word == Wrap(e)
  }

  /** `BuiltFrom`, as a premise that proofs pass on without looking into it. */
  ghost predicate Builds(out: ArrayView, exact: ArrayView, ops: seq<AxisOp>) {
    forall o {:trigger BuiltFrom(o, exact, ops)} :: o == out ==> BuiltFrom(o, exact, ops)
  }

  /** What one more operation adds to the view. */
  lemma BuildsOne(out: ArrayView, exact: ArrayView, ops: seq<AxisOp>, op: AxisOp, extended: ArrayView)
    requires Builds(out, exact, ops)
    requires if op.Insert? then Consumed(ops) <= |exact.strides| else Consumed(ops) < |exact.strides|
    requires
      var stride := if op.Insert? then 0 else exact.strides[Consumed(ops)];
      var at := if op.Pick? then op.at else if op.Take? then op.start else 0;
      && extended.shape == out.shape + (if op.Pick? then [] else [if op.Take? then op.count else 1])
      && extended.strides
         == out.strides + (if op.Pick? then [] else [if op.Take? then Wrap(Times(op.step, stride)) else 0])
      && IsWordOf(extended.offset, exact.offset + OpsOffset(ops, exact.strides) + Times(at, stride))
    ensures Builds(extended, exact, ops + [op])
  {
    assert BuiltFrom(out, exact, ops);
    AxesAppend(ops, op, exact.strides);
    OffsetAppend(ops, op, exact.strides);
    var stride := if op.Insert? then 0 else exact.strides[Consumed(ops)];
    WrapAllAppend(OpsStrides(ops, exact.strides), if op.Take? then Times(op.step, stride) else 0);
    assert out.shape + [] == out.shape && out.strides + [] == out.strides;
    assert BuiltFrom(extended, exact, ops + [op]);
  }

  lemma BuiltSoFar(out: ArrayView, exact: ArrayView, ops: seq<AxisOp>)
    requires Builds(out, exact, ops)
    ensures Consumed(ops) <= |exact.strides| == |exact.shape|
    ensures IsWordOf(out.offset, exact.offset + OpsOffset(ops, exact.strides))
  {
    assert BuiltFrom(out, exact, ops);
  }

  method InsertAxis(out: ArrayView, ghost exact: ArrayView, ghost ops: seq<AxisOp>) returns (extended: ArrayView)
    requires Builds(out, exact, ops)
    ensures Builds(extended, exact, ops + [Insert])
  {
    BuiltSoFar(out, exact, ops);
    extended := out.(shape := out.shape + [1], strides := out.strides + [0]);
    BuildsOne(out, exact, ops, Insert, extended);
  }

  method PickAxis(out: ArrayView, view: ArrayView, axis: nat, at: nat,
                  ghost exact: ArrayView, ghost ops: seq<AxisOp>) returns (extended: ArrayView)
    requires view == exact.Stored() && Builds(out, exact, ops) && Consumed(ops) == axis < |view.shape|
    ensures Builds(extended, exact, ops + [Pick(at)])
  {
    BuiltSoFar(out, exact, ops);
    ghost var total := exact.offset + OpsOffset(ops, exact.strides);
    var offset := MulAddSize(out.offset, at, view.strides[axis], total, exact.strides[axis]);
    extended := out.(offset := offset);
    BuildsOne(out, exact, ops, Pick(at), extended);
  }

  method TakeAxis(out: ArrayView, view: ArrayView, axis: nat, op: AxisOp,
                  ghost exact: ArrayView, ghost ops: seq<AxisOp>) returns (extended: ArrayView)
    requires view == exact.Stored() && Builds(out, exact, ops) && Consumed(ops) == axis < |view.shape|
    requires op.Take?
    ensures Builds(extended, exact, ops + [op])
  {
    BuiltSoFar(out, exact, ops);
    ghost var total := exact.offset + OpsOffset(ops, exact.strides);
    var offset := MulAddSize(out.offset, op.start, view.strides[axis], total, exact.strides[axis]);
    var stride := MulSize(op.step, view.strides[axis], exact.strides[axis]);
    extended := ArrayView(out.shape + [op.count], out.strides + [stride], offset);
    BuildsOne(out, exact, ops, op, extended);
  }

  method AppendFullAxis(out: ArrayView, view: ArrayView, axis: nat, ghost exact: ArrayView, ghost ops: seq<AxisOp>)
    returns (extended: ArrayView, next: nat)
    requires view == exact.Stored() && Builds(out, exact, ops) && Consumed(ops) == axis < |view.shape|
    ensures Builds(extended, exact, ops + [Keep(view.shape[axis])]) && next == axis + 1
  {
    BuiltSoFar(out, exact, ops);
    TimesOne(exact.strides[axis]);
    extended := out.(shape := out.shape + [view.shape[axis]], strides := out.strides + [view.strides[axis]]);
    BuildsOne(out, exact, ops, Keep(view.shape[axis]), extended);
    next := axis + 1;
  }

  lemma KeepsFront(shape: seq<nat>, axis: nat, upTo: nat, ops: seq<AxisOp>)
    requires axis < upTo <= |shape|
    ensures (ops + [Keep(shape[axis])]) + Keeps(shape[axis + 1..upTo]) == ops + Keeps(shape[axis..upTo])
  {
    assert shape[axis..upTo][1..] == shape[axis + 1..upTo];
  }

  /** Appends the axes from `axis` up to `upTo` unchanged. */
  method AppendFullAxes(out: ArrayView, view: ArrayView, axis: nat, upTo: nat,
                        ghost exact: ArrayView, ghost ops: seq<AxisOp>)
    returns (extended: ArrayView, next: nat)
    requires view == exact.Stored() && Builds(out, exact, ops) && Consumed(ops) == axis <= upTo <= |view.shape|
    ensures next == upTo
    ensures
      var more := ops + Keeps(view.shape[axis..upTo]);
      Consumed(more) == upTo && Builds(extended, exact, more)
  {
    extended, next := out, axis;
    ghost var done := ops;
    while next < upTo
      invariant axis <= next <= upTo
      invariant Consumed(done) == next
      invariant Builds(extended, exact, done)
      invariant done + Keeps(view.shape[next..upTo]) == ops + Keeps(view.shape[axis..upTo])
    {
      KeepsFront(view.shape, next, upTo, done);
      ConsumedAppend(done, Keep(view.shape[next]));
      ghost var keep := Keep(view.shape[next]);
      extended, next := AppendFullAxis(extended, view, next, exact, done);
      done := done + [keep];
    }
    assert done == done + Keeps(view.shape[next..upTo]);
  }

  /** How many axes an ellipsis stands for. */
  method ComputeFill(shape: seq<nat>, specs: seq<SliceSpec>) returns (fill: nat)
    ensures fill == EllipsisFill(shape, specs)
  {
    var consumed := 0;
    for k := 0 to |specs|
      invariant consumed + Explicit(specs[k..]) == Explicit(specs)
    {
      assert specs[k..][1..] == specs[k + 1..];
      if !specs[k].Ellipsis? && !specs[k].NewAxis? {
        consumed := consumed + 1;
      }
    }
    fill := if |shape| > consumed then |shape| - consumed else 0;
  }

  /** Bounds, step and extent of one axis under a range spec. */
  method RangeAxis(slice: Slice, extent: nat) returns (result: Result<AxisOp>)
    ensures result == Resolve(Range(slice), extent)
  {
    var rawStep := if slice.hasStep then slice.step else 1;
    if rawStep <= 0 {
      return Failure(STEP_ERROR);
    }
    var start := if slice.hasStart then Bound(slice.start, extent) else 0;
    var end := if slice.hasEnd then Bound(slice.end, extent) else extent;
    var count := 0;
    if end > start {
      var total := ((end - start) + rawStep - 1) % TWO64;
      QuotientIsDivision(total, rawStep);
      count := total / rawStep;
    }
    result := Success(Take(start, end, rawStep, count));
  }

  /** What one spec does, when it is applied. */
  function SpecOps(shape: seq<nat>, axis: nat, spec: SliceSpec, fill: nat): seq<AxisOp>
    requires axis <= |shape|
  {
    match spec
    case NewAxis => [Insert]
    case Ellipsis => Keeps(shape[axis..if axis + fill < |shape| then axis + fill else |shape|])
    case _ => if axis < |shape| && Resolve(spec, shape[axis]).Success? then [Resolve(spec, shape[axis]).value] else []
  }

  /** One spec of the slice, other than an index or range past the last axis. */
  method ApplySpec(out: ArrayView, view: ArrayView, axis: nat, fill: nat, specs: seq<SliceSpec>,
                   ghost exact: ArrayView, ghost ops: seq<AxisOp>)
    returns (extended: Result<ArrayView>, next: nat)
    requires view == exact.Stored() && Builds(out, exact, ops) && Consumed(ops) == axis <= |view.shape|
    requires specs != [] && (IsExplicit(specs[0]) ==> axis < |view.shape|)
    ensures extended.Failure? ==> Plan(view.shape, axis, specs, fill) == Failure(extended.error)
    ensures extended.Success? ==>
      var more := SpecOps(view.shape, axis, specs[0], fill);
      && Builds(extended.value, exact, ops + more) && Consumed(ops + more) == next <= |view.shape|
      && Plan(view.shape, axis, specs, fill) == Before(more, Plan(view.shape, next, specs[1..], fill))
  {
    next := axis;
    var built := out;
    match specs[0] {
      case NewAxis =>
        ConsumedAppend(ops, Insert);
        built := InsertAxis(out, exact, ops);
      case Ellipsis =>
        var upTo := if axis + fill < |view.shape| then axis + fill else |view.shape|;
        built, next := AppendFullAxes(out, view, axis, upTo, exact, ops);
      case Index(index) =>
        ConsumedAppend(ops, Pick(Wrap(index)));
        built := PickAxis(out, view, axis, Wrap(index), exact, ops);
        next := axis + 1;
      case Range(slice) =>
        var taken := RangeAxis(slice, view.shape[axis]);
        if taken.Failure? {
          return Failure(taken.error), axis;
        }
        ConsumedAppend(ops, taken.value);
        built := TakeAxis(out, view, axis, taken.value, exact, ops);
        next := axis + 1;
    }
    extended := Success(built);
  }

  /** The specs in order; an index or range past the last axis ends the loop. */
  method ApplySpecs(view: ArrayView, specs: seq<SliceSpec>, fill: nat, ghost exact: ArrayView)
    returns (built: Result<ArrayView>, axis: nat)
    requires view == exact.Stored() && exact.Valid()
    ensures built.Failure? ==> Plan(view.shape, 0, specs, fill) == Failure(built.error)
    ensures built.Success? ==>
      axis <= |view.shape| && IsPartOf(built.value, exact, Plan(view.shape, 0, specs, fill), view.shape, axis)
  {
    var out := ArrayView([], [], view.offset);
    axis := 0;
    ghost var ops: seq<AxisOp> := [];
    ghost var rest := Plan(view.shape, 0, specs, fill);
    BeforeNothing(rest);
    var k := 0;
    while k < |specs|
      invariant 0 <= k <= |specs|
      invariant Consumed(ops) == axis <= |view.shape|
      invariant Builds(out, exact, ops)
      invariant rest == Plan(view.shape, axis, specs[k..], fill)
      invariant Plan(view.shape, 0, specs, fill) == Before(ops, rest)
      decreases |specs| - k
    {
      if IsExplicit(specs[k]) && axis >= |view.shape| { break; }
      assert specs[k..][1..] == specs[k + 1..];
      ghost var more := SpecOps(view.shape, axis, specs[k], fill);
      var extended;
      extended, axis := ApplySpec(out, view, axis, fill, specs[k..], exact, ops);
      if extended.Failure? {
        return extended, axis;
      }
      out := extended.value;
      rest := Plan(view.shape, axis, specs[k + 1..], fill);
      BeforeBefore(ops, more, rest);
      ops := ops + more;
      k := k + 1;
    }
    assert rest == Success(Keeps(view.shape[axis..]));
    IsPart(out, exact, ops, view.shape, axis);
    built := Success(out);
  }

  /** The view built so far is all of a plan but the axes from `axis` on, which are kept whole. */
  ghost predicate IsPartOf(out: ArrayView, exact: ArrayView, plan: Result<seq<AxisOp>>, shape: seq<nat>, axis: nat)
    requires axis <= |shape|
  {
    && plan.Success? && |plan.value| >= |shape| - axis
    && var done := plan.value[..|plan.value| - (|shape| - axis)];
       plan.value == done + Keeps(shape[axis..]) && Builds(out, exact, done) && Consumed(done) == axis
  }

  lemma IsPart(out: ArrayView, exact: ArrayView, ops: seq<AxisOp>, shape: seq<nat>, axis: nat)
    requires axis <= |shape| && Builds(out, exact, ops) && Consumed(ops) == axis
    ensures IsPartOf(out, exact, Success(ops + Keeps(shape[axis..])), shape, axis)
  {
    var plan := ops + Keeps(shape[axis..]);
    assert plan[..|plan| - (|shape| - axis)] == ops;
  }

  /** `array_view_slice`: an offset, extent and stride per kept axis, computed spec by spec. */
  method ArrayViewSlice(view: ArrayView, specs: seq<SliceSpec>, ghost exact: ArrayView)
    returns (result: Result<ArrayView>)
    requires view == exact.Stored() && exact.Valid()
    ensures SlicePlan(view.shape, specs).Failure? ==> result == Failure(SlicePlan(view.shape, specs).error)
    ensures SlicePlan(view.shape, specs).Success? ==>
      var ops := SlicePlan(view.shape, specs).value;
      Consumed(ops) == |view.shape| && result == Success(Applied(exact, ops).Stored())
  {
    var fill := ComputeFill(view.shape, specs);
    var built, axis := ApplySpecs(view, specs, fill, exact);
    if built.Failure? {
      return built;
    }
    ghost var ops := PartBefore(built.value, exact, SlicePlan(view.shape, specs), view.shape, axis);
    var out, _ := AppendFullAxes(built.value, view, axis, |view.shape|, exact, ops);
    BuiltIsApplied(out, exact, ops + Keeps(view.shape[axis..|view.shape|]));
    result := Success(out);
  }

  /** What has been built when the loop ends, and the axes that are left. */
  lemma PartBefore(out: ArrayView, exact: ArrayView, plan: Result<seq<AxisOp>>, shape: seq<nat>, axis: nat)
    returns (ops: seq<AxisOp>)
    requires axis <= |shape| && IsPartOf(out, exact, plan, shape, axis)
    ensures Builds(out, exact, ops) && Consumed(ops) == axis
    ensures plan == Success(ops + Keeps(shape[axis..|shape|]))
  {
    ops := plan.value[..|plan.value| - (|shape| - axis)];
    assert shape[axis..|shape|] == shape[axis..];
  }

  lemma BuiltIsApplied(out: ArrayView, exact: ArrayView, ops: seq<AxisOp>)
    requires Builds(out, exact, ops) && Consumed(ops) <= |exact.strides|
    ensures out == Applied(exact, ops).Stored()
  {
    assert BuiltFrom(out, exact, ops);
  }

  lemma BeforeNothing(rest: Result<seq<AxisOp>>)
    ensures Before([], rest) == rest
  {
    if rest.Success? {
      assert [] + rest.value == rest.value;
    }
  }

  lemma BeforeBefore(a: seq<AxisOp>, b: seq<AxisOp>, rest: Result<seq<AxisOp>>)
    ensures Before(a, Before(b, rest)) == Before(a + b, rest)
  {
    if rest.Success? {
      assert a + (b + rest.value) == (a + b) + rest.value;
    }
  }
}
