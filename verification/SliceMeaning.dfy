/** What a slice keeps, said of the coordinates of the source: without the clamped bounds, the operations
    and the strides that compute it. */
module SliceMeaning {
  import opened MachineInt
  import opened RowMajor
  import opened Wrappers
  import opened AxisOps
  import opened ArrayViews
  import opened ViewChains

  /** A coordinate of an axis lies between the bounds that are given; a negative bound counts from the end
      of the axis. */
  predicate Within(slice: Slice, extent: nat, x: nat) {
    && x < extent
    && (slice.hasStart ==> slice.start <= if slice.start < 0 then x - extent else x)
    && (slice.hasEnd ==> (if slice.end < 0 then x - extent else x) < slice.end)
  }

  predicate IsFirst(slice: Slice, extent: nat, x: nat) {
    Within(slice, extent, x) && forall y: nat :: y < x ==> !Within(slice, extent, y)
  }

  function StepOf(slice: Slice): int {
    if slice.hasStep then slice.step else 1
  }

  /** A whole number of steps from the first coordinate between the bounds. */
  ghost predicate OnStep(slice: Slice, extent: nat, x: nat)
    requires StepOf(slice) > 0
  {
    exists first: nat, k: nat :: IsFirst(slice, extent, first) && x == first + Times(k, StepOf(slice))
  }

  /** The coordinate is the index, or the range keeps it. */
  ghost predicate Wants(spec: SliceSpec, extent: nat, x: nat)
    requires IsExplicit(spec) && (spec.Range? ==> StepOf(spec.slice) > 0)
  {
    match spec
    case Index(i) => x == i
    case Range(slice) => Within(slice, extent, x) && OnStep(slice, extent, x)
  }

  /** A range fails exactly for a step that is not positive, and otherwise hits what it should keep. */
  lemma RangeHits(slice: Slice, extent: nat, x: nat)
    ensures Resolve(Range(slice), extent).Failure? <==> StepOf(slice) <= 0
    ensures StepOf(slice) > 0 ==>
      var op := Resolve(Range(slice), extent).value;
      op.Take? && op.step == StepOf(slice) && (Hits(x, op.start, op.end, op.step) <==> Wants(Range(slice), extent, x))
  {
    if StepOf(slice) > 0 {
      var op := Resolve(Range(slice), extent).value;
      forall y: nat ensures Within(slice, extent, y) <==> op.start <= y < op.end {
      }
      if Within(slice, extent, x) {
        assert IsFirst(slice, extent, op.start);
        StepsFrom(x, op.start, op.step);
        OnlyFirst(slice, extent, op.start, x);
      }
    }
  }

  lemma OnlyFirst(slice: Slice, extent: nat, first: nat, x: nat)
    requires StepOf(slice) > 0 && IsFirst(slice, extent, first)
    ensures OnStep(slice, extent, x) <==> exists k: nat :: x == first + Times(k, StepOf(slice))
  {
    if OnStep(slice, extent, x) {
      var other: nat, k: nat :| IsFirst(slice, extent, other) && x == other + Times(k, StepOf(slice));
      assert !(other < first) && !(first < other);
      assert x == first + Times(k, StepOf(slice));
    }
    forall k: nat | x == first + Times(k, StepOf(slice)) ensures OnStep(slice, extent, x) {
    }
  }

  lemma StepsFrom(x: nat, first: nat, step: nat)
    requires first <= x && step > 0
    ensures Remainder(x - first, step) == 0 <==> exists k: nat :: x == first + Times(k, step)
  {
    var k := Quotient(x - first, step);
    QuotientSplits(x - first, step);
    if Remainder(x - first, step) == 0 {
      assert x == first + Times(k, step);
    }
    forall k: nat | x == first + Times(k, step) ensures Remainder(x - first, step) == 0 {
      QuotientIsUnique(k, 0, step);
    }
  }

  // Several axes.

  /** The indices and ranges among the specs. */
  function Explicits(specs: seq<SliceSpec>): (out: seq<SliceSpec>)
    ensures |out| == Explicit(specs) && forall spec :: spec in out ==> IsExplicit(spec)
  {
    if specs == [] then []
    else if IsExplicit(specs[0]) then [specs[0]] + Explicits(specs[1..])
    else Explicits(specs[1..])
  }

  /** Steps are positive, and indices in range. */
  predicate Bounded(specs: seq<SliceSpec>, axes: seq<nat>)
    requires |specs| == |axes|
  {
    forall i :: 0 <= i < |specs| ==>
      && IsExplicit(specs[i]) && (specs[i].Range? ==> StepOf(specs[i].slice) > 0)
      && (specs[i].Index? ==> 0 <= specs[i].index < axes[i])
  }

  ghost predicate WantsAll(specs: seq<SliceSpec>, axes: seq<nat>, source: seq<nat>)
    requires |specs| == |axes| && Bounded(specs, axes)
  {
    |source| == |axes| && forall i :: 0 <= i < |specs| ==> Wants(specs[i], axes[i], source[i])
  }

  lemma {:induction false} SelectsJoined(a: seq<AxisOp>, b: seq<AxisOp>, s: seq<nat>, t: seq<nat>)
    requires PositiveSteps(a) && PositiveSteps(b) && |s| == Consumed(a) && |t| == Consumed(b)
    ensures PositiveSteps(a + b) && (Selects(a + b, s + t) <==> Selects(a, s) && Selects(b, t))
    decreases |b|
  {
    if b == [] {
      assert a + b == a && s + t == s;
    } else {
      assert Init(a + b) == a + Init(b) && Last(a + b) == Last(b);
      if Last(b).Insert? {
        SelectsJoined(a, Init(b), s, t);
      } else {
        assert Init(s + t) == s + Init(t) && Last(s + t) == Last(t);
        SelectsJoined(a, Init(b), s, Init(t));
      }
    }
  }

  lemma SelectsOne(op: AxisOp, x: nat)
    requires PositiveSteps([op]) && !op.Insert?
    ensures Consumed([op]) == 1
    ensures Selects([op], [x]) <==> if op.Pick? then x == op.at else Hits(x, op.start, op.end, op.step)
  {
    assert Init([op]) == [] && Init([x]) == [];
  }

  lemma InsertSelects()
    ensures Consumed([Insert]) == 0 && Selects([Insert], [])
  {
    assert Init([Insert]) == [];
  }

  lemma {:induction false} ConsumedJoined(a: seq<AxisOp>, b: seq<AxisOp>)
    ensures Consumed(a + b) == Consumed(a) + Consumed(b)
    decreases |b|
  {
    if b == [] {
      assert a + b == a;
    } else {
      assert Init(a + b) == a + Init(b) && Last(a + b) == Last(b);
      ConsumedJoined(a, Init(b));
    }
  }

  /** Specs that are resolved one after the other select what each of them wants of its axis. */
  lemma {:induction false} BoundSelects(axes: seq<nat>, specs: seq<SliceSpec>, source: seq<nat>)
    requires Explicit(specs) == |axes| == |source| && Ellipsis !in specs && Bounded(Explicits(specs), axes)
    ensures Bind(axes, specs).Success?
    ensures
      var ops := Bind(axes, specs).value;
      && PositiveSteps(ops) && Consumed(ops) == |axes|
      && (Selects(ops, source) <==> WantsAll(Explicits(specs), axes, source))
    decreases |specs|
  {
    if specs != [] {
      var all := Explicits(specs);
      if specs[0].NewAxis? {
        BoundSelects(axes, specs[1..], source);
        var rest := Bind(axes, specs[1..]).value;
        InsertSelects();
        ConsumedJoined([Insert], rest);
        SelectsJoined([Insert], rest, [], source);
        assert [] + source == source;
      } else {
        assert all[1..] == Explicits(specs[1..]);
        BoundedRest(all, axes);
        BoundSelects(axes[1..], specs[1..], source[1..]);
        var op := ResolvesWanted(specs[0], axes[0], source[0]);
        var rest := Bind(axes[1..], specs[1..]).value;
        SelectsOne(op, source[0]);
        ConsumedJoined([op], rest);
        SelectsJoined([op], rest, [source[0]], source[1..]);
        assert [source[0]] + source[1..] == source;
        WantsAllStep(all, axes, source);
      }
    }
  }

  lemma BoundedRest(specs: seq<SliceSpec>, axes: seq<nat>)
    requires |specs| == |axes| && specs != [] && Bounded(specs, axes)
    ensures Bounded(specs[1..], axes[1..])
  {
  }

  lemma WantsAllStep(specs: seq<SliceSpec>, axes: seq<nat>, source: seq<nat>)
    requires |specs| == |axes| == |source| && specs != [] && Bounded(specs, axes) && Bounded(specs[1..], axes[1..])
    ensures WantsAll(specs, axes, source)
       <==> Wants(specs[0], axes[0], source[0]) && WantsAll(specs[1..], axes[1..], source[1..])
  {
    var s, a, x := specs[1..], axes[1..], source[1..];
    forall i | 1 <= i < |specs| ensures Wants(specs[i], axes[i], source[i]) <==> Wants(s[i - 1], a[i - 1], x[i - 1]) {
    }
    if WantsAll(specs, axes, source) {
      forall i | 0 <= i < |s| ensures Wants(s[i], a[i], x[i]) {
        assert Wants(specs[i + 1], axes[i + 1], source[i + 1]);
      }
    }
  }

  lemma ResolvesWanted(spec: SliceSpec, extent: nat, x: nat) returns (op: AxisOp)
    requires IsExplicit(spec) && (spec.Range? ==> StepOf(spec.slice) > 0) && (spec.Index? ==> 0 <= spec.index < extent)
    ensures Resolve(spec, extent) == Success(op) && !op.Insert? && PositiveSteps([op])
    ensures Wants(spec, extent, x) <==> if op.Pick? then x == op.at else Hits(x, op.start, op.end, op.step)
  {
    op := Resolve(spec, extent).value;
    if spec.Range? {
      RangeHits(spec.slice, extent, x);
    }
  }

  lemma {:induction false} KeptSelects(extents: seq<nat>, source: seq<nat>)
    requires |source| == |extents|
    ensures PositiveSteps(Keeps(extents)) && Consumed(Keeps(extents)) == |extents|
    ensures Selects(Keeps(extents), source) <==> InRange(source, extents)
    decreases |extents|
  {
    if extents != [] {
      var op, rest := Keep(extents[0]), Keeps(extents[1..]);
      KeptSelects(extents[1..], source[1..]);
      SelectsOne(op, source[0]);
      ConsumedJoined([op], rest);
      SelectsJoined([op], rest, [source[0]], source[1..]);
      assert [source[0]] + source[1..] == source;
      StepsFrom(source[0], 0, 1);
      TimesOne(source[0]);
      InRangeStep(extents, source);
    }
  }

  lemma InRangeStep(extents: seq<nat>, source: seq<nat>)
    requires |source| == |extents| && extents != []
    ensures InRange(source, extents) <==> source[0] < extents[0] && InRange(source[1..], extents[1..])
  {
    if InRange(source[1..], extents[1..]) && source[0] < extents[0] {
      forall i | 0 <= i < |source| ensures source[i] < extents[i] {
        assert i > 0 ==> source[1..][i - 1] < extents[1..][i - 1];
      }
    }
  }

  /** A slice that can be applied has positive steps and indices in range on the axes it binds to. */
  lemma {:induction false} PlannedIsBounded(shape: seq<nat>, axis: nat, next: nat, axes: seq<nat>,
                                            pre: seq<SliceSpec>, tail: seq<SliceSpec>, fill: nat)
    requires Ellipsis !in pre && axis + Explicit(pre) == next <= |shape| && axes == shape[axis..next]
    requires Plan(shape, axis, pre + tail, fill).Success? && IndicesInRange(shape, axis, pre + tail, fill)
    ensures Bounded(Explicits(pre), axes)
    ensures Plan(shape, next, tail, fill).Success? && IndicesInRange(shape, next, tail, fill)
    decreases |pre|
  {
    if pre == [] {
      assert pre + tail == tail;
    } else {
      assert (pre + tail)[0] == pre[0] && (pre + tail)[1..] == pre[1..] + tail;
      if pre[0].NewAxis? {
        PlannedIsBounded(shape, axis, next, axes, pre[1..], tail, fill);
      } else {
        PlannedIsBounded(shape, axis + 1, next, axes[1..], pre[1..], tail, fill);
        var all := Explicits(pre);
        assert all == [pre[0]] + Explicits(pre[1..]);
        if pre[0].Range? {
          RangeHits(pre[0].slice, axes[0], 0);
        }
        forall i | 0 <= i < |all|
          ensures IsExplicit(all[i]) && (all[i].Range? ==> StepOf(all[i].slice) > 0)
            && (all[i].Index? ==> 0 <= all[i].index < axes[i])
        {
          if i > 0 {
            assert all[i] == Explicits(pre[1..])[i - 1] && axes[i] == axes[1..][i - 1];
          }
        }
      }
    }
  }

  /** What the specs before and after an ellipsis keep of an array: the first ones bind to its first axes,
      the last ones to its last, and every coordinate of the axes between is kept. */
  ghost predicate Wanted(shape: seq<nat>, first: seq<SliceSpec>, last: seq<SliceSpec>, source: seq<nat>)
    requires |first| + |last| <= |shape|
    requires Bounded(first, shape[..|first|]) && Bounded(last, shape[|shape| - |last|..])
  {
    && InRange(source, shape)
    && WantsAll(first, shape[..|first|], source[..|first|])
    && WantsAll(last, shape[|shape| - |last|..], source[|shape| - |last|..])
  }

  lemma WantedIsInRange(specs: seq<SliceSpec>, axes: seq<nat>, source: seq<nat>)
    requires |specs| == |axes| && Bounded(specs, axes) && WantsAll(specs, axes, source)
    ensures InRange(source, axes)
  {
    forall i | 0 <= i < |source| ensures source[i] < axes[i] {
      assert Wants(specs[i], axes[i], source[i]);
    }
  }

  lemma InRangeParts(shape: seq<nat>, source: seq<nat>, p: nat, q: nat)
    requires p <= q <= |shape| == |source|
    ensures InRange(source, shape)
       <==> InRange(source[..p], shape[..p]) && InRange(source[p..q], shape[p..q]) && InRange(source[q..], shape[q..])
  {
    if InRange(source[..p], shape[..p]) && InRange(source[p..q], shape[p..q]) && InRange(source[q..], shape[q..]) {
      forall i | 0 <= i < |source| ensures source[i] < shape[i] {
        if i < p {
          assert source[..p][i] < shape[..p][i];
        } else if i < q {
          assert source[p..q][i - p] < shape[p..q][i - p];
        } else {
          assert source[q..][i - q] < shape[q..][i - q];
        }
      }
    }
  }

  /** Whether operations select a source, as a fact that proofs pass on without looking into it. */
  ghost predicate SelectsIff(ops: seq<AxisOp>, source: seq<nat>, holds: bool) {
    forall o {:trigger Selects(o, source)} :: o == ops ==> PositiveSteps(o) && (Selects(o, source) <==> holds)
  }

  lemma JoinIff(a: seq<AxisOp>, b: seq<AxisOp>, s: seq<nat>, t: seq<nat>, left: bool, right: bool)
    requires PositiveSteps(a) && PositiveSteps(b) && |s| == Consumed(a) && |t| == Consumed(b)
    requires SelectsIff(a, s, left) && SelectsIff(b, t, right)
    ensures PositiveSteps(a + b) && Consumed(a + b) == |s + t| && SelectsIff(a + b, s + t, left && right)
  {
    SelectsJoined(a, b, s, t);
    ConsumedJoined(a, b);
    assert Selects(a, s) == left && Selects(b, t) == right;
  }

  lemma KeptIff(extents: seq<nat>, source: seq<nat>)
    requires |source| == |extents|
    ensures PositiveSteps(Keeps(extents)) && Consumed(Keeps(extents)) == |extents|
    ensures SelectsIff(Keeps(extents), source, InRange(source, extents))
  {
    KeptSelects(extents, source);
  }

  lemma ThreeParts(a: seq<AxisOp>, middle: seq<nat>, b: seq<AxisOp>, x: seq<nat>, y: seq<nat>, z: seq<nat>,
                   first: bool, last: bool)
    requires PositiveSteps(a) && PositiveSteps(b) && |x| == Consumed(a) && |y| == |middle| && |z| == Consumed(b)
    requires SelectsIff(a, x, first) && SelectsIff(b, z, last)
    ensures
      var ops := a + (Keeps(middle) + b);
      PositiveSteps(ops) && SelectsIff(ops, x + (y + z), first && InRange(y, middle) && last)
  {
    KeptIff(middle, y);
    JoinIff(Keeps(middle), b, y, z, InRange(y, middle), last);
    JoinIff(a, Keeps(middle) + b, x, y + z, first, InRange(y, middle) && last);
  }

  lemma SourceParts(source: seq<nat>, p: nat, q: nat)
    requires p <= q <= |source|
    ensures source[..p] + (source[p..q] + source[q..]) == source
  {
  }

  /** Operations on the first axes, axes that are kept, and operations on the last axes. */
  lemma PartsSelect(a: seq<AxisOp>, b: seq<AxisOp>, first: seq<SliceSpec>, last: seq<SliceSpec>, shape: seq<nat>,
                    source: seq<nat>)
    requires |first| + |last| <= |shape| == |source| && PositiveSteps(a) && PositiveSteps(b)
    requires Consumed(a) == |first| && Consumed(b) == |last|
    requires Bounded(first, shape[..|first|]) && Bounded(last, shape[|shape| - |last|..])
    requires SelectsIff(a, source[..|first|], WantsAll(first, shape[..|first|], source[..|first|]))
    requires SelectsIff(b, source[|shape| - |last|..],
                        WantsAll(last, shape[|shape| - |last|..], source[|shape| - |last|..]))
    ensures
      var ops := a + (Keeps(shape[|first|..|shape| - |last|]) + b);
      PositiveSteps(ops) && SelectsIff(ops, source, Wanted(shape, first, last, source))
  {
    var p, q := |first|, |shape| - |last|;
    var wantsFirst := WantsAll(first, shape[..p], source[..p]);
    var wantsLast := WantsAll(last, shape[q..], source[q..]);
    SourceParts(source, p, q);
    ThreeParts(a, shape[p..q], b, source[..p], source[p..q], source[q..], wantsFirst, wantsLast);
    InRangeParts(shape, source, p, q);
    if wantsFirst {
      WantedIsInRange(first, shape[..p], source[..p]);
    }
    if wantsLast {
      WantedIsInRange(last, shape[q..], source[q..]);
    }
  }

  lemma BoundIff(axes: seq<nat>, specs: seq<SliceSpec>, source: seq<nat>) returns (ops: seq<AxisOp>)
    requires Explicit(specs) == |axes| == |source| && Ellipsis !in specs && Bounded(Explicits(specs), axes)
    ensures Bind(axes, specs) == Success(ops) && PositiveSteps(ops) && Consumed(ops) == |axes|
    ensures SelectsIff(ops, source, WantsAll(Explicits(specs), axes, source))
  {
    BoundSelects(axes, specs, source);
    ops := Bind(axes, specs).value;
  }

  /** Specs with an ellipsis. */
  function Around(pre: seq<SliceSpec>, post: seq<SliceSpec>): seq<SliceSpec> {
    pre + ([Ellipsis] + post)
  }

  lemma EllipsisSelects(view: ArrayView, pre: seq<SliceSpec>, post: seq<SliceSpec>, source: seq<nat>)
    requires Ellipsis !in pre && Ellipsis !in post && Explicit(pre) + Explicit(post) <= |view.shape| == |source|
    requires CanSlice(view, Around(pre, post))
    ensures
      var shape, first, last := view.shape, Explicits(pre), Explicits(post);
      && Bounded(first, shape[..|first|]) && Bounded(last, shape[|shape| - |last|..])
      && SelectsIff(OpsOf(view, Around(pre, post)), source, Wanted(shape, first, last, source))
  {
    var shape, first, last := view.shape, Explicits(pre), Explicits(post);
    EllipsisIsBounded(view, pre, post);
    var a := BoundIff(shape[..|first|], pre, source[..|first|]);
    var b := BoundIff(shape[|shape| - |last|..], post, source[|shape| - |last|..]);
    EllipsisPlan(shape, pre, post, a, b);
    PlanSelects(view, Around(pre, post), a, b, first, last, source);
  }

  lemma PlanSelects(view: ArrayView, specs: seq<SliceSpec>, a: seq<AxisOp>, b: seq<AxisOp>,
                    first: seq<SliceSpec>, last: seq<SliceSpec>, source: seq<nat>)
    requires CanSlice(view, specs) && |first| + |last| <= |view.shape| == |source|
    requires PositiveSteps(a) && PositiveSteps(b) && Consumed(a) == |first| && Consumed(b) == |last|
    requires var shape, q := view.shape, |view.shape| - |last|;
      && SlicePlan(shape, specs) == Success(a + (Keeps(shape[|first|..q]) + b))
      && Bounded(first, shape[..|first|]) && Bounded(last, shape[q..])
      && SelectsIff(a, source[..|first|], WantsAll(first, shape[..|first|], source[..|first|]))
      && SelectsIff(b, source[q..], WantsAll(last, shape[q..], source[q..]))
    ensures SelectsIff(OpsOf(view, specs), source, Wanted(view.shape, first, last, source))
  {
    PartsSelect(a, b, first, last, view.shape, source);
  }

  lemma EllipsisPlan(shape: seq<nat>, pre: seq<SliceSpec>, post: seq<SliceSpec>, a: seq<AxisOp>, b: seq<AxisOp>)
    requires Ellipsis !in pre && Ellipsis !in post && Explicit(pre) + Explicit(post) <= |shape|
    requires Bind(shape[..Explicit(pre)], pre) == Success(a)
    requires Bind(shape[|shape| - Explicit(post)..], post) == Success(b)
    ensures SlicePlan(shape, Around(pre, post))
         == Success(a + (Keeps(shape[Explicit(pre)..|shape| - Explicit(post)]) + b))
  {
    EllipsisBindsTrailingAxes(shape, pre, post, Explicit(pre), |shape| - Explicit(post));
  }

  lemma EllipsisIsBounded(view: ArrayView, pre: seq<SliceSpec>, post: seq<SliceSpec>)
    requires Ellipsis !in pre && Ellipsis !in post && Explicit(pre) + Explicit(post) <= |view.shape|
    requires CanSlice(view, Around(pre, post))
    ensures
      var shape, first, last := view.shape, Explicits(pre), Explicits(post);
      Bounded(first, shape[..|first|]) && Bounded(last, shape[|shape| - |last|..])
  {
    var shape, p := view.shape, Explicit(pre);
    FillAroundEllipsis(shape, pre, post);
    PlannedIsBounded(shape, 0, p, shape[..p], pre, [Ellipsis] + post, EllipsisFill(shape, Around(pre, post)));
    LastIsBounded(shape, p, |shape| - Explicit(post), post);
  }

  lemma LastIsBounded(shape: seq<nat>, p: nat, q: nat, post: seq<SliceSpec>)
    requires Ellipsis !in post && p <= q && q + Explicit(post) == |shape|
    requires Plan(shape, p, [Ellipsis] + post, q - p).Success? && IndicesInRange(shape, p, [Ellipsis] + post, q - p)
    ensures Bounded(Explicits(post), shape[q..])
  {
    assert ([Ellipsis] + post)[1..] == post && post + [] == post;
    PlannedIsBounded(shape, q, |shape|, shape[q..], post, [], q - p);
  }

  lemma PlainSelects(view: ArrayView, specs: seq<SliceSpec>, source: seq<nat>)
    requires Ellipsis !in specs && Explicit(specs) <= |view.shape| == |source| && CanSlice(view, specs)
    ensures
      var shape, first := view.shape, Explicits(specs);
      && Bounded(first, shape[..|first|]) && Bounded([], shape[|shape|..])
      && SelectsIff(OpsOf(view, specs), source, Wanted(shape, first, [], source))
  {
    var shape, first := view.shape, Explicits(specs);
    PlainIsBounded(view, specs);
    var ops := BoundIff(shape[..|first|], specs, source[..|first|]);
    PlainOps(view, specs);
    NothingIff(shape, source);
    PartsSelect(ops, [], first, [], shape, source);
  }

  lemma PlainIsBounded(view: ArrayView, specs: seq<SliceSpec>)
    requires Ellipsis !in specs && Explicit(specs) <= |view.shape| && CanSlice(view, specs)
    ensures Bounded(Explicits(specs), view.shape[..Explicit(specs)])
  {
    var shape, p := view.shape, Explicit(specs);
    assert specs + [] == specs;
    PlannedIsBounded(shape, 0, p, shape[..p], specs, [], EllipsisFill(shape, specs));
  }

  lemma NothingIff(shape: seq<nat>, source: seq<nat>)
    requires |shape| == |source|
    ensures Bounded([], shape[|shape|..]) && WantsAll([], shape[|shape|..], source[|shape|..])
    ensures SelectsIff([], source[|shape|..], true)
  {
    assert source[|shape|..] == [] && Selects([], []);
  }

  lemma PlainOps(view: ArrayView, specs: seq<SliceSpec>)
    requires Ellipsis !in specs && Explicit(specs) <= |view.shape| && CanSlice(view, specs)
    requires Bind(view.shape[..Explicit(specs)], specs).Success?
    ensures
      var shape, p := view.shape, Explicit(specs);
      OpsOf(view, specs) == Bind(shape[..p], specs).value + (Keeps(shape[p..|shape| - 0]) + [])
  {
    var shape, p := view.shape, Explicit(specs);
    NoEllipsisBindsLeadingAxes(shape, specs);
    assert Keeps(shape[p..]) + [] == Keeps(shape[p..]) && shape[p..|shape|] == shape[p..];
  }

  // Which slices fail.

  /** Steps that are given are positive. */
  predicate StepsArePositive(specs: seq<SliceSpec>) {
    forall i :: 0 <= i < |specs| && specs[i].Range? ==> StepOf(specs[i].slice) > 0
  }

  lemma {:induction false} BindsIff(axes: seq<nat>, specs: seq<SliceSpec>)
    requires Explicit(specs) == |axes| && Ellipsis !in specs
    ensures Bind(axes, specs).Success? <==> StepsArePositive(specs)
    decreases |specs|
  {
    if specs != [] {
      BindsIff(if specs[0].NewAxis? then axes else axes[1..], specs[1..]);
      assert forall i :: 1 <= i < |specs| ==> specs[i] == specs[1..][i - 1];
    }
  }

  /** A slice fails exactly when a step is not positive. */
  lemma SlicesIff(shape: seq<nat>, pre: seq<SliceSpec>, post: seq<SliceSpec>)
    requires Ellipsis !in pre && Ellipsis !in post && Explicit(pre) + Explicit(post) <= |shape|
    ensures SlicePlan(shape, Around(pre, post)).Success? <==> StepsArePositive(pre) && StepsArePositive(post)
    ensures SlicePlan(shape, pre).Success? <==> StepsArePositive(pre)
  {
    var p, q := Explicit(pre), |shape| - Explicit(post);
    EllipsisBindsTrailingAxes(shape, pre, post, p, q);
    NoEllipsisBindsLeadingAxes(shape, pre);
    BindsIff(shape[..p], pre);
    BindsIff(shape[q..], post);
  }

  // What a slice of an array reads.

  /** Some coordinates of the slice read the element of the array at these coordinates. */
  ghost predicate Reads(shape: seq<nat>, specs: seq<SliceSpec>, source: seq<nat>)
    requires CanSlice(ContiguousView(shape), specs) && |source| == |shape|
  {
    var slice := Sliced(ContiguousView(shape), specs);
    exists coords :: InRange(coords, slice.shape) && slice.Position(coords) == Rank(source, shape)
  }

  lemma ReadsSelected(shape: seq<nat>, specs: seq<SliceSpec>, source: seq<nat>)
    requires CanSlice(ContiguousView(shape), specs) && InRange(source, shape)
    ensures Reads(shape, specs, source) <==> Selects(OpsOf(ContiguousView(shape), specs), source)
  {
    var view := ContiguousView(shape);
    var ops, slice := OpsOf(view, specs), Sliced(view, specs);
    if Reads(shape, specs, source) {
      var coords :| InRange(coords, slice.shape) && slice.Position(coords) == Rank(source, shape);
      SliceRefines(view, specs, coords);
      ContiguousPosition(shape, OpsMap(ops, coords));
      UnrankOfRank(OpsMap(ops, coords), shape);
      UnrankOfRank(source, shape);
    }
    if Selects(ops, source) {
      var coords := MapOnto(ops, shape, source);
      SliceRefines(view, specs, coords);
      ContiguousPosition(shape, source);
    }
  }

  /** A slice of an array, with one ellipsis or none, reads the elements whose coordinates the specs want:
      each index its own, each range those between its bounds that are whole steps from the first, and all
      of the other axes. */
  lemma SliceReads(shape: seq<nat>, pre: seq<SliceSpec>, post: seq<SliceSpec>, source: seq<nat>)
    requires Ellipsis !in pre && Ellipsis !in post && Explicit(pre) + Explicit(post) <= |shape|
    requires InRange(source, shape) && CanSlice(ContiguousView(shape), Around(pre, post))
    ensures
      var first, last := Explicits(pre), Explicits(post);
      && Bounded(first, shape[..|first|]) && Bounded(last, shape[|shape| - |last|..])
      && (Reads(shape, Around(pre, post), source) <==> Wanted(shape, first, last, source))
  {
    EllipsisSelects(ContiguousView(shape), pre, post, source);
    ReadsSelected(shape, Around(pre, post), source);
  }

  lemma PlainSliceReads(shape: seq<nat>, specs: seq<SliceSpec>, source: seq<nat>)
    requires Ellipsis !in specs && Explicit(specs) <= |shape|
    requires InRange(source, shape) && CanSlice(ContiguousView(shape), specs)
    ensures
      var first := Explicits(specs);
      && Bounded(first, shape[..|first|]) && Bounded([], shape[|shape|..])
      && (Reads(shape, specs, source) <==> Wanted(shape, first, [], source))
  {
    PlainSelects(ContiguousView(shape), specs, source);
    ReadsSelected(shape, specs, source);
  }

  // The shape of a slice.

  /** The coordinates of an axis that a range keeps. */
  ghost function Kept(slice: Slice, extent: nat): set<nat>
    requires StepOf(slice) > 0
  {
    set x: nat | x < extent && Wants(Range(slice), extent, x)
  }

  lemma {:induction false} CountNth(start: nat, count: nat, step: nat)
    requires step > 0
    ensures |set k: nat | k < count :: Nth(start, k, step)| == count
    decreases count
  {
    var all := set k: nat | k < count :: Nth(start, k, step);
    if count == 0 {
      assert all == {};
    } else {
      var last, less := Nth(start, count - 1, step), set k: nat | k < count - 1 :: Nth(start, k, step);
      CountNth(start, count - 1, step);
      if last in less {
        var k: nat :| k < count - 1 && Nth(start, k, step) == last;
        NthInjective(start, k, count - 1, step);
      }
      assert all == less + {last};
    }
  }

  /** A range takes as many coordinates as it keeps. */
  lemma RangeCounts(slice: Slice, extent: nat)
    requires StepOf(slice) > 0 && extent <= INT64_MAX
    ensures Resolve(Range(slice), extent).value.count == |Kept(slice, extent)|
  {
    RangeHits(slice, extent, 0);
    var op := Resolve(Range(slice), extent).value;
    var taken := set k: nat | k < op.count :: Nth(op.start, k, op.step);
    CountNth(op.start, op.count, op.step);
    forall x: nat ensures x in taken <==> x in Kept(slice, extent) {
      RangeHits(slice, extent, x);
      if x in taken {
        var k: nat :| k < op.count && Nth(op.start, k, op.step) == x;
        NthHits(op.start, op.end, op.step, k);
      }
      if x in Kept(slice, extent) {
        var k := HitIsNth(x, op.start, op.end, op.step);
      }
    }
    assert taken == Kept(slice, extent);
  }

  /** What the specs leave of their axes: an index none, a new axis the extent 1, and a range as much as it
      keeps. */
  ghost function Extents(specs: seq<SliceSpec>, axes: seq<nat>): seq<nat>
    requires Explicit(specs) == |axes| && Ellipsis !in specs && Bounded(Explicits(specs), axes)
  {
    if specs == [] then []
    else
      match specs[0]
      case NewAxis => [1] + Extents(specs[1..], axes)
      case Index(_) =>
        BoundedTail(specs, axes);
        Extents(specs[1..], axes[1..])
      case Range(slice) =>
        BoundedTail(specs, axes);
        [|Kept(slice, axes[0])|] + Extents(specs[1..], axes[1..])
  }

  lemma BoundedTail(specs: seq<SliceSpec>, axes: seq<nat>)
    requires specs != [] && IsExplicit(specs[0]) && Explicit(specs) == |axes| && Bounded(Explicits(specs), axes)
    ensures Explicit(specs[1..]) == |axes[1..]| && Bounded(Explicits(specs[1..]), axes[1..])
    ensures specs[0].Range? ==> StepOf(specs[0].slice) > 0
  {
    var all := Explicits(specs);
    assert all[0] == specs[0] && all[1..] == Explicits(specs[1..]);
    BoundedRest(all, axes);
  }

  lemma {:induction false} BoundShape(axes: seq<nat>, specs: seq<SliceSpec>)
    requires Explicit(specs) == |axes| && Ellipsis !in specs && Bounded(Explicits(specs), axes) && SmallExtents(axes)
    ensures Bind(axes, specs).Success? && OpsShape(Bind(axes, specs).value) == Extents(specs, axes)
    decreases |specs|
  {
    if specs != [] {
      if specs[0].NewAxis? {
        BoundShape(axes, specs[1..]);
        ShapeOfOne(Insert);
        ShapeConcat([Insert], Bind(axes, specs[1..]).value);
      } else {
        BoundedTail(specs, axes);
        BoundShape(axes[1..], specs[1..]);
        assert Explicits(specs)[0] == specs[0];
        var op := ResolvesWanted(specs[0], axes[0], 0);
        if specs[0].Range? {
          RangeCounts(specs[0].slice, axes[0]);
        }
        ShapeOfOne(op);
        ShapeConcat([op], Bind(axes[1..], specs[1..]).value);
      }
    }
  }

  lemma ShapeOfOne(op: AxisOp)
    ensures OpsShape([op]) == if op.Pick? then [] else if op.Take? then [op.count] else [1]
  {
    assert Init([op]) == [];
  }

  /** The axes of a slice with an ellipsis, in order. */
  lemma SliceShape(view: ArrayView, pre: seq<SliceSpec>, post: seq<SliceSpec>)
    requires Ellipsis !in pre && Ellipsis !in post && Explicit(pre) + Explicit(post) <= |view.shape|
    requires CanSlice(view, Around(pre, post))
    ensures
      var shape, p, q := view.shape, Explicit(pre), |view.shape| - Explicit(post);
      && Bounded(Explicits(pre), shape[..p]) && Bounded(Explicits(post), shape[q..])
      && Sliced(view, Around(pre, post)).shape == Extents(pre, shape[..p]) + (shape[p..q] + Extents(post, shape[q..]))
  {
    var shape, p, q := view.shape, Explicit(pre), |view.shape| - Explicit(post);
    EllipsisIsBounded(view, pre, post);
    BoundShape(shape[..p], pre);
    BoundShape(shape[q..], post);
    EllipsisBindsTrailingAxes(shape, pre, post, p, q);
    var a, b := Bind(shape[..p], pre).value, Bind(shape[q..], post).value;
    KeepsShape(shape[p..q]);
    ShapeConcat(Keeps(shape[p..q]), b);
    ShapeConcat(a, Keeps(shape[p..q]) + b);
  }

  /** The axes of a slice without an ellipsis, in order. */
  lemma PlainSliceShape(view: ArrayView, specs: seq<SliceSpec>)
    requires Ellipsis !in specs && Explicit(specs) <= |view.shape| && CanSlice(view, specs)
    ensures
      var shape, p := view.shape, Explicit(specs);
      Bounded(Explicits(specs), shape[..p]) && Sliced(view, specs).shape == Extents(specs, shape[..p]) + shape[p..]
  {
    var shape, p := view.shape, Explicit(specs);
    PlainIsBounded(view, specs);
    BoundShape(shape[..p], specs);
    PlainOps(view, specs);
    var kept := Keeps(shape[p..|shape| - 0]);
    KeepsShape(shape[p..|shape| - 0]);
    ShapeConcat(kept, []);
    ShapeConcat(Bind(shape[..p], specs).value, kept + []);
    assert shape[p..|shape| - 0] == shape[p..];
  }
}
