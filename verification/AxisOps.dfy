/** The meaning of a slice: what happens to each source axis, independent of strides. */
module AxisOps {
  import opened MachineInt
  import opened RowMajor
  import opened Wrappers

  type int64 = x: int | IsInt64(x) witness 0

  datatype Slice = Slice(hasStart: bool, hasEnd: bool, hasStep: bool, start: int64, end: int64, step: int64)

  datatype SliceSpec = Index(index: int64) | Range(slice: Slice) | Ellipsis | NewAxis

  /** `Pick` fixes a source axis, `Take` keeps the `count` coordinates start, start + step, ...
      below end, `Insert` adds an axis of extent 1 that has no source axis. */
  datatype AxisOp = Pick(at: nat) | Take(start: nat, end: nat, step: nat, count: nat) | Insert

  const STEP_ERROR := "array slice step must be positive"

  function Keep(extent: nat): AxisOp {
    Take(0, extent, 1, extent)
  }

  /** A bound counts from the end when negative and is clamped to the axis. */
  function Bound(value: int, extent: nat): nat {
    var v := if value < 0 then value + extent else value;
    if v < 0 then 0 else if v > extent then extent else v
  }

  /** The operation an index or range spec performs on the axis it binds to. */
  function Resolve(spec: SliceSpec, extent: nat): Result<AxisOp>
    requires IsExplicit(spec)
  {
    match spec
    case Index(i) => Success(Pick(Wrap(i)))
    case Range(slice) =>
      var step := if slice.hasStep then slice.step else 1;
      if step <= 0 then Failure(STEP_ERROR)
      else
        var start := if slice.hasStart then Bound(slice.start, extent) else 0;
        var end := if slice.hasEnd then Bound(slice.end, extent) else extent;
        Success(Take(start, end, step, Extent(start, end, step)))
  }

  /** Number of coordinates a `Take` keeps, computed in 64 bits as the generated code does. */
  function Extent(start: nat, end: nat, step: nat): nat
    requires step > 0
  {
    if end <= start then 0 else Quotient(Wrap((end - start) + step - 1), step)
  }

  /** The k-th coordinate that a `Take` keeps. */
  function Nth(start: nat, k: nat, step: nat): nat {
    start + Times(k, step)
  }

  predicate Hits(x: nat, start: nat, end: nat, step: nat)
    requires step > 0
  {
    start <= x < end && Remainder(x - start, step) == 0
  }

  predicate IsExplicit(spec: SliceSpec) {
    spec.Index? || spec.Range?
  }

  function Explicit(specs: seq<SliceSpec>): nat {
    if specs == [] then 0 else (if IsExplicit(specs[0]) then 1 else 0) + Explicit(specs[1..])
  }

  function Indices(specs: seq<SliceSpec>): nat {
    if specs == [] then 0 else (if specs[0].Index? then 1 else 0) + Indices(specs[1..])
  }

  function NewAxes(specs: seq<SliceSpec>): nat {
    if specs == [] then 0 else (if specs[0].NewAxis? then 1 else 0) + NewAxes(specs[1..])
  }

  function EllipsisFill(shape: seq<nat>, specs: seq<SliceSpec>): nat {
    if |shape| > Explicit(specs) then |shape| - Explicit(specs) else 0
  }

  function Keeps(extents: seq<nat>): (ops: seq<AxisOp>)
    ensures |ops| == |extents|
  {
    if extents == [] then [] else [Keep(extents[0])] + Keeps(extents[1..])
  }

  function Before(ops: seq<AxisOp>, rest: Result<seq<AxisOp>>): Result<seq<AxisOp>> {
    if rest.Success? then Success(ops + rest.value) else rest
  }

  /** The axis operations of `specs[..]` from source axis `axis` on: specs past the last axis end
      the plan, axes without a spec are kept whole. */
  function Plan(shape: seq<nat>, axis: nat, specs: seq<SliceSpec>, fill: nat): Result<seq<AxisOp>>
    requires axis <= |shape|
    decreases specs
  {
    if specs == [] then Success(Keeps(shape[axis..]))
    else match specs[0]
      case NewAxis => Before([Insert], Plan(shape, axis, specs[1..], fill))
      case Ellipsis =>
        var upTo := if axis + fill < |shape| then axis + fill else |shape|;
        Before(Keeps(shape[axis..upTo]), Plan(shape, upTo, specs[1..], fill))
      case _ =>
        if axis == |shape| then Success([])
        else
          var op :- Resolve(specs[0], shape[axis]);
          Before([op], Plan(shape, axis + 1, specs[1..], fill))
  }

  /** What a slice of a view with this shape does to its axes. */
  function SlicePlan(shape: seq<nat>, specs: seq<SliceSpec>): Result<seq<AxisOp>> {
    Plan(shape, 0, specs, EllipsisFill(shape, specs))
  }

  /** How many source axes a list of operations uses up. */
  function Consumed(ops: seq<AxisOp>): nat {
    if ops == [] then 0 else Consumed(Init(ops)) + (if Last(ops).Insert? then 0 else 1)
  }

  predicate PositiveSteps(ops: seq<AxisOp>) {
    forall op :: op in ops && op.Take? ==> 0 < op.step <= INT64_MAX
  }

  function OpsShape(ops: seq<AxisOp>): seq<nat>
  {
    if ops == [] then []
    else
      var init := OpsShape(Init(ops));
      match Last(ops)
      case Pick(_) => init
      case Take(_, _, _, count) => init + [count]
      case Insert => init + [1]
  }

  /** The source coordinate that a coordinate of the slice stands for. */
  function OpsMap(ops: seq<AxisOp>, coords: seq<nat>): (source: seq<nat>)
    requires |coords| == |OpsShape(ops)|
    ensures |source| == Consumed(ops)
  {
    if ops == [] then []
    else match Last(ops)
      case Pick(at) => OpsMap(Init(ops), coords) + [at]
      case Take(start, _, step, _) => OpsMap(Init(ops), Init(coords)) + [Nth(start, Last(coords), step)]
      case Insert => OpsMap(Init(ops), Init(coords))
  }

  /** Operations that fit a shape: they use every axis, picks are in range, takes stay inside. */
  predicate Fits(ops: seq<AxisOp>, shape: seq<nat>)
    requires PositiveSteps(ops)
  {
    if ops == [] then shape == []
    else if Last(ops).Insert? then Fits(Init(ops), shape)
    else
      && shape != []
      && Fits(Init(ops), Init(shape))
      && match Last(ops) {
           case Pick(at) => at < Last(shape)
           case Take(start, end, step, count) => end <= Last(shape) && count == Extent(start, end, step)
         }
  }

  /** The source coordinates a slice selects, said per axis. */
  predicate Selects(ops: seq<AxisOp>, source: seq<nat>)
    requires PositiveSteps(ops)
  {
    if ops == [] then source == []
    else if Last(ops).Insert? then Selects(Init(ops), source)
    else
      && source != []
      && Selects(Init(ops), Init(source))
      && match Last(ops) {
           case Pick(at) => Last(source) == at
           case Take(start, end, step, _) => Hits(Last(source), start, end, step)
         }
  }

  predicate SmallExtents(shape: seq<nat>) {
    forall i :: 0 <= i < |shape| ==> shape[i] <= INT64_MAX
  }

  /** The clamped extent formula counts exactly the k with start + k * step < end: its 64-bit sum
      never wraps. */
  lemma ExtentCounts(start: nat, end: nat, step: nat, k: nat)
    requires 0 < step <= INT64_MAX && end <= INT64_MAX
    ensures k < Extent(start, end, step) <==> Nth(start, k, step) < end
  {
    if start < end {
      CeilingQuotient((end - start) + step - 1, step, k);
    }
  }

  lemma CeilingQuotient(n: nat, step: nat, k: nat)
    requires step > 0
    ensures k < Quotient(n, step) <==> Times(k, step) + step <= n
  {
    var q := Quotient(n, step);
    QuotientSplits(n, step);
    if k < q {
      TimesMonotone(k + 1, q, step);
    } else {
      TimesMonotone(q, k, step);
    }
  }

  lemma ConsumedIsRank(ops: seq<AxisOp>, shape: seq<nat>)
    requires PositiveSteps(ops) && Fits(ops, shape)
    ensures Consumed(ops) == |shape|
  {
    if ops != [] && !Last(ops).Insert? {
      ConsumedIsRank(Init(ops), Init(shape));
    }
  }

  /** Coordinates that fitting operations select lie inside the source ... */
  lemma {:induction false} SelectedInRange(ops: seq<AxisOp>, shape: seq<nat>, source: seq<nat>)
    requires PositiveSteps(ops) && Fits(ops, shape) && Selects(ops, source)
    ensures InRange(source, shape)
  {
    if ops != [] {
      if Last(ops).Insert? {
        SelectedInRange(Init(ops), shape, source);
      } else {
        SelectedInRange(Init(ops), Init(shape), Init(source));
      }
    }
  }

  /** ... and are the ones that in-range coordinates of the slice stand for. */
  lemma {:induction false} MapSelects(ops: seq<AxisOp>, shape: seq<nat>, coords: seq<nat>)
    requires PositiveSteps(ops) && Fits(ops, shape) && SmallExtents(shape)
    requires InRange(coords, OpsShape(ops))
    ensures Selects(ops, OpsMap(ops, coords))
  {
    if ops != [] {
      match Last(ops)
      case Pick(at) =>
        MapSelects(Init(ops), Init(shape), coords);
        assert Init(OpsMap(ops, coords)) == OpsMap(Init(ops), coords);
      case Take(start, end, step, _) =>
        MapSelects(Init(ops), Init(shape), Init(coords));
        NthHits(start, end, step, Last(coords));
        assert Init(OpsMap(ops, coords)) == OpsMap(Init(ops), Init(coords));
      case Insert =>
        MapSelects(Init(ops), shape, Init(coords));
    }
  }

  lemma NthHits(start: nat, end: nat, step: nat, k: nat)
    requires 0 < step <= INT64_MAX && end <= INT64_MAX
    requires k < Extent(start, end, step)
    ensures Hits(Nth(start, k, step), start, end, step)
  {
    ExtentCounts(start, end, step, k);
    QuotientIsUnique(k, 0, step);
  }

  lemma HitIsNth(x: nat, start: nat, end: nat, step: nat) returns (k: nat)
    requires 0 < step <= INT64_MAX && end <= INT64_MAX
    requires Hits(x, start, end, step)
    ensures k < Extent(start, end, step) && Nth(start, k, step) == x
  {
    k := Quotient(x - start, step);
    QuotientSplits(x - start, step);
    ExtentCounts(start, end, step, k);
  }

  lemma NthInjective(start: nat, a: nat, b: nat, step: nat)
    requires step > 0 && Nth(start, a, step) == Nth(start, b, step)
    ensures a == b
  {
    QuotientIsUnique(a, 0, step);
    QuotientIsUnique(b, 0, step);
  }

  /** Different in-range coordinates of the slice stand for different source coordinates. */
  lemma {:induction false} MapInjective(ops: seq<AxisOp>, a: seq<nat>, b: seq<nat>)
    requires PositiveSteps(ops)
    requires InRange(a, OpsShape(ops)) && InRange(b, OpsShape(ops))
    requires OpsMap(ops, a) == OpsMap(ops, b)
    ensures a == b
  {
    if ops != [] {
      match Last(ops)
      case Pick(at) =>
        assert Init(OpsMap(ops, a)) == OpsMap(Init(ops), a);
        assert Init(OpsMap(ops, b)) == OpsMap(Init(ops), b);
        MapInjective(Init(ops), a, b);
      case Take(start, end, step, _) =>
        assert Init(OpsMap(ops, a)) == OpsMap(Init(ops), Init(a));
        assert Init(OpsMap(ops, b)) == OpsMap(Init(ops), Init(b));
        assert Last(OpsMap(ops, a)) == Last(OpsMap(ops, b));
        NthInjective(start, Last(a), Last(b), step);
        MapInjective(Init(ops), Init(a), Init(b));
      case Insert =>
        MapInjective(Init(ops), Init(a), Init(b));
    }
  }

  /** Every selected source coordinate is reached from some in-range coordinate of the slice. */
  lemma {:induction false} MapOnto(ops: seq<AxisOp>, shape: seq<nat>, source: seq<nat>) returns (coords: seq<nat>)
    requires PositiveSteps(ops) && Fits(ops, shape) && SmallExtents(shape)
    requires Selects(ops, source)
    ensures InRange(coords, OpsShape(ops)) && OpsMap(ops, coords) == source
  {
    if ops == [] {
      coords := [];
    } else {
      match Last(ops)
      case Pick(at) =>
        coords := MapOnto(Init(ops), Init(shape), Init(source));
        assert source == Init(source) + [at];
      case Take(start, end, step, _) =>
        var init := MapOnto(Init(ops), Init(shape), Init(source));
        var k := HitIsNth(Last(source), start, end, step);
        coords := init + [k];
        assert Init(coords) == init;
        assert source == Init(source) + [Nth(start, k, step)];
      case Insert =>
        var init := MapOnto(Init(ops), shape, source);
        coords := init + [0];
        assert Init(coords) == init;
    }
  }

  lemma TimesBounds(a: nat, b: nat, x: nat, y: nat)
    requires a <= b && x <= y
    ensures Times(a, x) <= Times(b, y)
  {
    TimesMonotone(a, b, x);
    TimesMonotoneRight(b, x, y);
  }

  /** A slice never has more elements than its source. */
  lemma {:induction false} SliceIsNoLarger(ops: seq<AxisOp>, shape: seq<nat>)
    requires PositiveSteps(ops) && Fits(ops, shape) && SmallExtents(shape)
    ensures Product(OpsShape(ops)) <= Product(shape)
  {
    if ops != [] {
      var out := OpsShape(ops);
      match Last(ops)
      case Pick(at) =>
        SliceIsNoLarger(Init(ops), Init(shape));
        TimesBounds(Product(out), Product(Init(shape)), 1, Last(shape));
        TimesOne(Product(out));
      case Take(start, end, step, _) =>
        SliceIsNoLarger(Init(ops), Init(shape));
        assert Init(out) == OpsShape(Init(ops));
        TakeIsNoLarger(start, end, step);
        TimesBounds(Product(Init(out)), Product(Init(shape)), Last(out), Last(shape));
      case Insert =>
        SliceIsNoLarger(Init(ops), shape);
        assert Init(out) == OpsShape(Init(ops));
        TimesOne(Product(Init(out)));
    }
  }

  lemma TakeIsNoLarger(start: nat, end: nat, step: nat)
    requires 0 < step <= INT64_MAX && end <= INT64_MAX
    ensures Extent(start, end, step) <= end
  {
    ExtentCounts(start, end, step, end);
    TimesMonotoneRight(end, 1, step);
    TimesOne(end);
  }

  lemma {:induction false} SmallSlice(ops: seq<AxisOp>, shape: seq<nat>)
    requires PositiveSteps(ops) && Fits(ops, shape) && SmallExtents(shape)
    ensures SmallExtents(OpsShape(ops))
  {
    if ops != [] {
      match Last(ops)
      case Pick(at) =>
        SmallSlice(Init(ops), Init(shape));
      case Take(start, end, step, _) =>
        SmallSlice(Init(ops), Init(shape));
        TakeIsNoLarger(start, end, step);
      case Insert =>
        SmallSlice(Init(ops), shape);
    }
  }

  /** Every index spec lies inside the axis it binds to. */
  predicate IndicesInRange(shape: seq<nat>, axis: nat, specs: seq<SliceSpec>, fill: nat)
    requires axis <= |shape|
    decreases specs
  {
    if specs == [] then true
    else match specs[0]
      case NewAxis => IndicesInRange(shape, axis, specs[1..], fill)
      case Ellipsis =>
        var upTo := if axis + fill < |shape| then axis + fill else |shape|;
        IndicesInRange(shape, upTo, specs[1..], fill)
      case Index(i) =>
        axis == |shape| || (0 <= i < shape[axis] && IndicesInRange(shape, axis + 1, specs[1..], fill))
      case Range(_) =>
        axis == |shape| || IndicesInRange(shape, axis + 1, specs[1..], fill)
  }

  lemma {:induction false} FitsConcat(a: seq<AxisOp>, b: seq<AxisOp>, s: seq<nat>, t: seq<nat>)
    requires PositiveSteps(a) && PositiveSteps(b) && Fits(a, s) && Fits(b, t)
    ensures PositiveSteps(a + b) && Fits(a + b, s + t)
  {
    if b == [] {
      assert a + b == a && s + t == s;
    } else {
      assert Init(a + b) == a + Init(b);
      if Last(b).Insert? {
        FitsConcat(a, Init(b), s, t);
      } else {
        FitsConcat(a, Init(b), s, Init(t));
        assert Init(s + t) == s + Init(t);
      }
    }
  }

  lemma FitsOne(op: AxisOp, extent: nat)
    requires op.Pick? ==> op.at < extent
    requires op.Take? ==> 0 < op.step <= INT64_MAX && op.end <= extent && op.count == Extent(op.start, op.end, op.step)
    requires !op.Insert?
    ensures PositiveSteps([op]) && Fits([op], [extent])
  {
    assert Init([op]) == [] && Init([extent]) == [];
  }

  lemma WholeAxis(extent: nat)
    requires extent <= INT64_MAX
    ensures Extent(0, extent, 1) == extent
  {
    ExtentCounts(0, extent, 1, extent);
    TimesOne(extent);
    if extent > 0 {
      ExtentCounts(0, extent, 1, extent - 1);
      TimesOne(extent - 1);
    }
  }

  lemma {:induction false} FitsKeeps(extents: seq<nat>)
    requires SmallExtents(extents)
    ensures PositiveSteps(Keeps(extents)) && Fits(Keeps(extents), extents)
  {
    if extents != [] {
      FitsKeeps(extents[1..]);
      WholeAxis(extents[0]);
      FitsOne(Keep(extents[0]), extents[0]);
      FitsConcat([Keep(extents[0])], Keeps(extents[1..]), [extents[0]], extents[1..]);
      assert [extents[0]] + extents[1..] == extents;
    }
  }

  /** A plan always uses every axis exactly once, in order, and stays inside each of them, as soon
      as the scalar indices are in range; its steps are always positive. */
  lemma {:induction false} PlanFits(shape: seq<nat>, axis: nat, specs: seq<SliceSpec>, fill: nat)
    requires axis <= |shape| && SmallExtents(shape)
    requires IndicesInRange(shape, axis, specs, fill)
    requires Plan(shape, axis, specs, fill).Success?
    ensures
      var ops := Plan(shape, axis, specs, fill).value;
      PositiveSteps(ops) && Fits(ops, shape[axis..])
    decreases specs
  {
    if specs == [] {
      FitsKeeps(shape[axis..]);
    } else if specs[0].NewAxis? {
      PlanFits(shape, axis, specs[1..], fill);
      assert Fits([Insert], shape[axis..axis]) by { assert Init([Insert]) == []; }
      FitsFrom([Insert], Plan(shape, axis, specs[1..], fill).value, shape, axis, axis);
    } else if specs[0].Ellipsis? {
      var upTo := if axis + fill < |shape| then axis + fill else |shape|;
      PlanFits(shape, upTo, specs[1..], fill);
      FitsKeeps(shape[axis..upTo]);
      FitsFrom(Keeps(shape[axis..upTo]), Plan(shape, upTo, specs[1..], fill).value, shape, axis, upTo);
    } else if axis < |shape| {
      PlanFits(shape, axis + 1, specs[1..], fill);
      var op := Plan(shape, axis, specs, fill).value[0];
      FitsOne(op, shape[axis]);
      assert shape[axis..axis + 1] == [shape[axis]];
      FitsFrom([op], Plan(shape, axis + 1, specs[1..], fill).value, shape, axis, axis + 1);
    }
  }

  lemma FitsFrom(head: seq<AxisOp>, tail: seq<AxisOp>, shape: seq<nat>, axis: nat, next: nat)
    requires axis <= next <= |shape|
    requires PositiveSteps(head) && Fits(head, shape[axis..next])
    requires PositiveSteps(tail) && Fits(tail, shape[next..])
    ensures PositiveSteps(head + tail) && Fits(head + tail, shape[axis..])
  {
    FitsConcat(head, tail, shape[axis..next], shape[next..]);
    assert shape[axis..next] + shape[next..] == shape[axis..];
  }

  /** Specs without an ellipsis, resolved one after the other against exactly their axes. */
  function Bind(axes: seq<nat>, specs: seq<SliceSpec>): Result<seq<AxisOp>>
    requires Explicit(specs) == |axes| && Ellipsis !in specs
  {
    if specs == [] then Success([])
    else if specs[0].NewAxis? then Before([Insert], Bind(axes, specs[1..]))
    else
      var op :- Resolve(specs[0], axes[0]);
      Before([op], Bind(axes[1..], specs[1..]))
  }

  function Then(a: Result<seq<AxisOp>>, b: Result<seq<AxisOp>>): Result<seq<AxisOp>> {
    if a.Success? then Before(a.value, b) else a
  }

  lemma {:induction false} PlanOfPrefix(shape: seq<nat>, axis: nat, next: nat, axes: seq<nat>,
                                        pre: seq<SliceSpec>, tail: seq<SliceSpec>, fill: nat)
    requires Ellipsis !in pre && axis + Explicit(pre) == next <= |shape|
    requires axes == shape[axis..next]
    ensures Plan(shape, axis, pre + tail, fill) == Then(Bind(axes, pre), Plan(shape, next, tail, fill))
    decreases pre
  {
    if pre == [] {
      assert pre + tail == tail;
      var rest := Plan(shape, axis, tail, fill);
      assert rest.Success? ==> [] + rest.value == rest.value;
    } else {
      assert (pre + tail)[1..] == pre[1..] + tail;
      var rest := Plan(shape, next, tail, fill);
      if pre[0].NewAxis? {
        PlanOfPrefix(shape, axis, next, axes, pre[1..], tail, fill);
        BeforeThen(Insert, Bind(axes, pre[1..]), rest);
      } else {
        PlanOfPrefix(shape, axis + 1, next, axes[1..], pre[1..], tail, fill);
        var op := Resolve(pre[0], shape[axis]);
        if op.Success? {
          BeforeThen(op.value, Bind(axes[1..], pre[1..]), rest);
        }
      }
    }
  }

  lemma BeforeThen(op: AxisOp, a: Result<seq<AxisOp>>, b: Result<seq<AxisOp>>)
    ensures Before([op], Then(a, b)) == Then(Before([op], a), b)
  {
    if a.Success? && b.Success? {
      assert [op] + (a.value + b.value) == ([op] + a.value) + b.value;
    }
  }

  lemma {:induction false} ExplicitSplits(a: seq<SliceSpec>, b: seq<SliceSpec>)
    ensures Explicit(a + b) == Explicit(a) + Explicit(b)
  {
    if a == [] {
      assert a + b == b;
    } else {
      assert (a + b)[1..] == a[1..] + b;
      ExplicitSplits(a[1..], b);
    }
  }

  /** The one ellipsis stands for the axes in the middle: the specs before it bind to the leading
      axes and the specs after it to the trailing axes. */
  lemma EllipsisBindsTrailingAxes(shape: seq<nat>, pre: seq<SliceSpec>, post: seq<SliceSpec>, p: nat, q: nat)
    requires Ellipsis !in pre && Ellipsis !in post
    requires p == Explicit(pre) && q == |shape| - Explicit(post) && p <= q
    ensures SlicePlan(shape, pre + ([Ellipsis] + post))
         == Then(Bind(shape[..p], pre), Before(Keeps(shape[p..q]), Bind(shape[q..], post)))
  {
    var tail := [Ellipsis] + post;
    FillAroundEllipsis(shape, pre, post);
    PlanOfPrefix(shape, 0, p, shape[..p], pre, tail, q - p);
    PlanOfEllipsis(shape, p, q, post);
  }

  lemma FillAroundEllipsis(shape: seq<nat>, pre: seq<SliceSpec>, post: seq<SliceSpec>)
    requires Explicit(pre) + Explicit(post) <= |shape|
    ensures EllipsisFill(shape, pre + ([Ellipsis] + post)) == |shape| - Explicit(pre) - Explicit(post)
  {
    ExplicitSplits(pre, [Ellipsis] + post);
    assert ([Ellipsis] + post)[1..] == post;
  }

  lemma PlanOfEllipsis(shape: seq<nat>, p: nat, q: nat, post: seq<SliceSpec>)
    requires Ellipsis !in post && p <= q && q + Explicit(post) == |shape|
    ensures Plan(shape, p, [Ellipsis] + post, q - p) == Before(Keeps(shape[p..q]), Bind(shape[q..], post))
  {
    assert ([Ellipsis] + post)[1..] == post;
    PlanOfLastSpecs(shape, q, post, q - p);
  }

  lemma PlanOfLastSpecs(shape: seq<nat>, axis: nat, specs: seq<SliceSpec>, fill: nat)
    requires Ellipsis !in specs && axis + Explicit(specs) == |shape|
    ensures Plan(shape, axis, specs, fill) == Bind(shape[axis..], specs)
  {
    assert specs + [] == specs;
    PlanOfPrefix(shape, axis, |shape|, shape[axis..], specs, [], fill);
    var all := Bind(shape[axis..], specs);
    assert all.Success? ==> all.value + [] == all.value;
  }

  /** Without an ellipsis the specs bind to the leading axes and the others are kept. */
  lemma NoEllipsisBindsLeadingAxes(shape: seq<nat>, specs: seq<SliceSpec>)
    requires Ellipsis !in specs && Explicit(specs) <= |shape|
    ensures
      var p := Explicit(specs);
      SlicePlan(shape, specs) == Then(Bind(shape[..p], specs), Success(Keeps(shape[p..])))
  {
    assert specs + [] == specs;
    var p := Explicit(specs);
    PlanOfPrefix(shape, 0, p, shape[..p], specs, [], EllipsisFill(shape, specs));
  }

  lemma {:induction false} ShapeConcat(a: seq<AxisOp>, b: seq<AxisOp>)
    ensures OpsShape(a + b) == OpsShape(a) + OpsShape(b)
  {
    if b == [] {
      assert a + b == a;
    } else {
      assert Init(a + b) == a + Init(b);
      ShapeConcat(a, Init(b));
    }
  }

  lemma {:induction false} KeepsShape(extents: seq<nat>)
    ensures OpsShape(Keeps(extents)) == extents
  {
    if extents != [] {
      KeepsShape(extents[1..]);
      var first := [Keep(extents[0])];
      assert OpsShape(first) == [extents[0]] by { assert Init(first) == [] && OpsShape([]) == []; }
      ShapeConcat(first, Keeps(extents[1..]));
    }
  }

  lemma {:induction false} BindRank(axes: seq<nat>, specs: seq<SliceSpec>)
    requires Explicit(specs) == |axes| && Ellipsis !in specs
    requires Bind(axes, specs).Success?
    ensures |OpsShape(Bind(axes, specs).value)| + Indices(specs) == |axes| + NewAxes(specs)
  {
    if specs != [] {
      var ops := Bind(axes, specs).value;
      BindRank(if specs[0].NewAxis? then axes else axes[1..], specs[1..]);
      assert |OpsShape([ops[0]])| == (if ops[0].Pick? then 0 else 1) by { assert Init([ops[0]]) == []; }
      ShapeConcat([ops[0]], ops[1..]);
    }
  }

  lemma CountsSplit(a: seq<SliceSpec>, b: seq<SliceSpec>)
    ensures Indices(a + b) == Indices(a) + Indices(b) && NewAxes(a + b) == NewAxes(a) + NewAxes(b)
  {
    if a == [] {
      assert a + b == b;
    } else {
      assert (a + b)[1..] == a[1..] + b;
      CountsSplit(a[1..], b);
    }
  }

  lemma RankOfParts(a: seq<AxisOp>, middle: seq<nat>, b: seq<AxisOp>)
    ensures |OpsShape(a + (Keeps(middle) + b))| == |OpsShape(a)| + |middle| + |OpsShape(b)|
  {
    KeepsShape(middle);
    ShapeConcat(Keeps(middle), b);
    ShapeConcat(a, Keeps(middle) + b);
  }

  /** With one ellipsis and no more indices and ranges than axes, the rank of the slice is the
      source rank less the scalar indices plus the new axes ... */
  lemma EllipsisSliceRank(shape: seq<nat>, pre: seq<SliceSpec>, post: seq<SliceSpec>)
    requires Ellipsis !in pre && Ellipsis !in post
    requires Explicit(pre) + Explicit(post) <= |shape|
    requires SlicePlan(shape, pre + ([Ellipsis] + post)).Success?
    ensures
      var specs := pre + ([Ellipsis] + post);
      |OpsShape(SlicePlan(shape, specs).value)| + Indices(specs) == |shape| + NewAxes(specs)
  {
    var p, q := Explicit(pre), |shape| - Explicit(post);
    EllipsisBindsTrailingAxes(shape, pre, post, p, q);
    BindRank(shape[..p], pre);
    BindRank(shape[q..], post);
    RankOfParts(Bind(shape[..p], pre).value, shape[p..q], Bind(shape[q..], post).value);
    CountsSplit([Ellipsis], post);
    CountsSplit(pre, [Ellipsis] + post);
  }

  /** ... and likewise without an ellipsis. */
  lemma PlainSliceRank(shape: seq<nat>, specs: seq<SliceSpec>)
    requires Ellipsis !in specs && Explicit(specs) <= |shape|
    requires SlicePlan(shape, specs).Success?
    ensures
      |OpsShape(SlicePlan(shape, specs).value)| + Indices(specs) == |shape| + NewAxes(specs)
  {
    var p := Explicit(specs);
    NoEllipsisBindsLeadingAxes(shape, specs);
    BindRank(shape[..p], specs);
    KeepsShape(shape[p..]);
    ShapeConcat(Bind(shape[..p], specs).value, Keeps(shape[p..]));
  }
}
