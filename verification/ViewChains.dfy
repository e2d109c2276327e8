/** What any finite chain of slices of a nested array reads. */
module ViewChains {
  import opened MachineInt
  import opened RowMajor
  import opened Wrappers
  import opened AxisOps
  import opened ArrayViews

  lemma {:induction false} DotPrefix(coords: seq<nat>, strides: seq<nat>, more: seq<nat>)
    requires |coords| <= |strides|
    ensures Dot(coords, strides + more) == Dot(coords, strides)
  {
    if coords != [] {
      DotPrefix(Init(coords), strides, more);
    }
  }

  lemma DotAppend(coords: seq<nat>, k: nat, strides: seq<nat>)
    requires |coords| < |strides|
    ensures Dot(coords + [k], strides) == Dot(coords, strides) + Times(k, strides[|coords|])
  {
    assert Init(coords + [k]) == coords;
  }

  lemma DotSplit(coords: seq<nat>, strides: seq<nat>, stride: nat)
    requires |coords| == |strides| + 1
    ensures Dot(coords, strides + [stride]) == Dot(Init(coords), strides) + Times(Last(coords), stride)
  {
    DotPrefix(Init(coords), strides, [stride]);
  }

  lemma TakePosition(start: nat, k: nat, step: nat, stride: nat)
    ensures Times(Nth(start, k, step), stride) == Times(start, stride) + Times(k, Times(step, stride))
  {
    TimesDistributes(start, Times(k, step), stride);
    TimesAssociates(k, step, stride);
  }

  /** The strides and offset of a slice address the source coordinate that each coordinate of the
      slice stands for. */
  lemma {:induction false} OpsAddress(ops: seq<AxisOp>, strides: seq<nat>, coords: seq<nat>)
    requires Consumed(ops) <= |strides| && |coords| == |OpsShape(ops)|
    ensures Dot(coords, OpsStrides(ops, strides)) + OpsOffset(ops, strides) == Dot(OpsMap(ops, coords), strides)
  {
    if ops != [] {
      var rest := Init(ops);
      var inner := OpsStrides(rest, strides);
      match Last(ops)
      case Pick(at) =>
        OpsAddress(rest, strides, coords);
        DotAppend(OpsMap(rest, coords), at, strides);
      case Take(start, _, step, _) =>
        var stride := strides[Consumed(rest)];
        OpsAddress(rest, strides, Init(coords));
        DotSplit(coords, inner, Times(step, stride));
        DotAppend(OpsMap(rest, Init(coords)), Nth(start, Last(coords), step), strides);
        TakePosition(start, Last(coords), step, stride);
      case Insert =>
        OpsAddress(rest, strides, Init(coords));
        DotSplit(coords, inner, 0);
        EmptyAxis(Last(coords));
    }
  }

  /** A slice whose steps are positive and whose scalar indices are in range. */
  predicate CanSlice(view: ArrayView, specs: seq<SliceSpec>) {
    && view.Valid()
    && SlicePlan(view.shape, specs).Success?
    && IndicesInRange(view.shape, 0, specs, EllipsisFill(view.shape, specs))
  }

  function OpsOf(view: ArrayView, specs: seq<SliceSpec>): (ops: seq<AxisOp>)
    requires CanSlice(view, specs)
    ensures PositiveSteps(ops) && Fits(ops, view.shape) && Consumed(ops) == |view.shape|
  {
    PlanFits(view.shape, 0, specs, EllipsisFill(view.shape, specs));
    assert view.shape[0..] == view.shape;
    ConsumedIsRank(SlicePlan(view.shape, specs).value, view.shape);
    SlicePlan(view.shape, specs).value
  }

  function Sliced(view: ArrayView, specs: seq<SliceSpec>): (out: ArrayView)
    requires CanSlice(view, specs)
    ensures out.Valid()
  {
    SmallSlice(OpsOf(view, specs), view.shape);
    Applied(view, OpsOf(view, specs))
  }

  /** One slice refines logical indexing: an in-range coordinate of the slice reads the address
      that the source has at the mapped coordinate, which is in range and selected. */
  lemma SliceRefines(view: ArrayView, specs: seq<SliceSpec>, coords: seq<nat>)
    requires CanSlice(view, specs) && InRange(coords, Sliced(view, specs).shape)
    ensures
      var source := OpsMap(OpsOf(view, specs), coords);
      && InRange(source, view.shape)
      && Selects(OpsOf(view, specs), source)
      && Sliced(view, specs).Position(coords) == view.Position(source)
  {
    var ops := OpsOf(view, specs);
    MapSelects(ops, view.shape, coords);
    SelectedInRange(ops, view.shape, OpsMap(ops, coords));
    OpsAddress(ops, view.strides, coords);
  }

  predicate CanSliceAll(view: ArrayView, chain: seq<seq<SliceSpec>>)
    decreases chain
  {
    chain == [] || (CanSlice(view, chain[0]) && CanSliceAll(Sliced(view, chain[0]), chain[1..]))
  }

  function SlicedAll(view: ArrayView, chain: seq<seq<SliceSpec>>): ArrayView
    requires CanSliceAll(view, chain)
    decreases chain
  {
    if chain == [] then view else SlicedAll(Sliced(view, chain[0]), chain[1..])
  }

  /** The coordinate of the original view that a coordinate of the last slice stands for. */
  function SourceOf(view: ArrayView, chain: seq<seq<SliceSpec>>, coords: seq<nat>): (source: seq<nat>)
    requires CanSliceAll(view, chain) && |coords| == |SlicedAll(view, chain).shape|
    ensures |source| == |view.shape|
    decreases chain
  {
    if chain == [] then coords
    else OpsMap(OpsOf(view, chain[0]), SourceOf(Sliced(view, chain[0]), chain[1..], coords))
  }

  lemma {:induction false} ChainRefines(view: ArrayView, chain: seq<seq<SliceSpec>>, coords: seq<nat>)
    requires view.Valid() && CanSliceAll(view, chain) && InRange(coords, SlicedAll(view, chain).shape)
    ensures SlicedAll(view, chain).Valid()
    ensures InRange(SourceOf(view, chain, coords), view.shape)
    ensures SlicedAll(view, chain).Position(coords) == view.Position(SourceOf(view, chain, coords))
    decreases chain
  {
    if chain != [] {
      ChainRefines(Sliced(view, chain[0]), chain[1..], coords);
      SliceRefines(view, chain[0], SourceOf(Sliced(view, chain[0]), chain[1..], coords));
    }
  }

  lemma {:induction false} ChainInjective(view: ArrayView, chain: seq<seq<SliceSpec>>, a: seq<nat>, b: seq<nat>)
    requires view.Valid() && CanSliceAll(view, chain)
    requires InRange(a, SlicedAll(view, chain).shape) && InRange(b, SlicedAll(view, chain).shape)
    requires SourceOf(view, chain, a) == SourceOf(view, chain, b)
    ensures a == b
    decreases chain
  {
    if chain != [] {
      var next := Sliced(view, chain[0]);
      ChainRefines(next, chain[1..], a);
      ChainRefines(next, chain[1..], b);
      MapInjective(OpsOf(view, chain[0]), SourceOf(next, chain[1..], a), SourceOf(next, chain[1..], b));
      ChainInjective(next, chain[1..], a, b);
    }
  }

  lemma {:induction false} ChainIsNoLarger(view: ArrayView, chain: seq<seq<SliceSpec>>)
    requires view.Valid() && CanSliceAll(view, chain)
    ensures SlicedAll(view, chain).Valid()
    ensures Product(SlicedAll(view, chain).shape) <= Product(view.shape)
    decreases chain
  {
    if chain != [] {
      ChainIsNoLarger(Sliced(view, chain[0]), chain[1..]);
      SliceIsNoLarger(OpsOf(view, chain[0]), view.shape);
    }
  }

  lemma ContiguousPosition(shape: seq<nat>, coords: seq<nat>)
    requires |coords| == |shape|
    ensures ContiguousView(shape).Position(coords) == Rank(coords, shape)
  {
    DotContiguous(coords, shape);
  }

  /** The coordinate of the nested array that flat index `flat` of the last slice stands for. */
  function Chosen(shape: seq<nat>, chain: seq<seq<SliceSpec>>, flat: nat): seq<nat>
    requires CanSliceAll(ContiguousView(shape), chain)
  {
    SourceOf(ContiguousView(shape), chain, Unrank(flat, SlicedAll(ContiguousView(shape), chain).shape))
  }

  lemma ChosenInRange(shape: seq<nat>, chain: seq<seq<SliceSpec>>, flat: nat)
    requires SmallExtents(shape) && CanSliceAll(ContiguousView(shape), chain)
    requires flat < SlicedAll(ContiguousView(shape), chain).Elements()
    ensures InRange(Chosen(shape, chain, flat), shape)
    ensures
      var view := SlicedAll(ContiguousView(shape), chain);
      view.Valid() && view.Position(Unrank(flat, view.shape)) == Rank(Chosen(shape, chain, flat), shape)
  {
    var view := SlicedAll(ContiguousView(shape), chain);
    UnrankInRange(flat, view.shape);
    ChainRefines(ContiguousView(shape), chain, Unrank(flat, view.shape));
    ContiguousPosition(shape, Chosen(shape, chain, flat));
  }

  /** The address that flat index `flat` of the last slice reads: inside the buffer, and the address
      computation does not wrap. */
  lemma ChainAddress(shape: seq<nat>, chain: seq<seq<SliceSpec>>, flat: nat)
    requires SmallExtents(shape) && Product(shape) <= TWO64
    requires CanSliceAll(ContiguousView(shape), chain)
    requires flat < SlicedAll(ContiguousView(shape), chain).Elements()
    ensures InRange(Chosen(shape, chain, flat), shape)
    ensures
      var view := SlicedAll(ContiguousView(shape), chain);
      && view.Valid()
      && Wrap(view.Position(Unrank(flat, view.shape))) == Rank(Chosen(shape, chain, flat), shape) < Product(shape)
  {
    ChosenInRange(shape, chain, flat);
    RankBelowProduct(Chosen(shape, chain, flat), shape);
  }

  lemma RankInjective(a: seq<nat>, b: seq<nat>, shape: seq<nat>)
    requires InRange(a, shape) && InRange(b, shape) && Rank(a, shape) == Rank(b, shape)
    ensures a == b
  {
    UnrankOfRank(a, shape);
    UnrankOfRank(b, shape);
  }

  /** Two different flat indices of the last slice never read the same element. */
  lemma ChainDistinct(shape: seq<nat>, chain: seq<seq<SliceSpec>>, f: nat, g: nat)
    requires SmallExtents(shape) && Product(shape) <= TWO64
    requires CanSliceAll(ContiguousView(shape), chain)
    requires f < g < SlicedAll(ContiguousView(shape), chain).Elements()
    ensures
      var view := SlicedAll(ContiguousView(shape), chain);
      && view.Valid()
      && Wrap(view.Position(Unrank(f, view.shape))) != Wrap(view.Position(Unrank(g, view.shape)))
  {
    var base := ContiguousView(shape);
    var view := SlicedAll(base, chain);
    ChainAddress(shape, chain, f);
    ChainAddress(shape, chain, g);
    if Rank(Chosen(shape, chain, f), shape) == Rank(Chosen(shape, chain, g), shape) {
      RankInjective(Chosen(shape, chain, f), Chosen(shape, chain, g), shape);
      UnrankInRange(f, view.shape);
      UnrankInRange(g, view.shape);
      ChainInjective(base, chain, Unrank(f, view.shape), Unrank(g, view.shape));
      RankOfUnrank(f, view.shape);
      RankOfUnrank(g, view.shape);
    }
  }

  /** Flat and coordinate indexing agree on every view: the flat index of a coordinate is its
      row-major position. */
  lemma FlatIsRowMajor(view: ArrayView, coords: seq<nat>)
    requires view.Valid() && InRange(coords, view.shape) && view.shape != []
    ensures Rank(coords, view.shape) < view.Elements()
    ensures view.Position(Unrank(Rank(coords, view.shape), view.shape)) == view.Position(coords)
  {
    RankBelowProduct(coords, view.shape);
    UnrankOfRank(coords, view.shape);
  }

  /** On a contiguous view flat indexing is the identity on addresses. */
  lemma ContiguousFlatIsIdentity(shape: seq<nat>, flat: nat)
    requires flat < ContiguousView(shape).Elements()
    ensures ContiguousView(shape).Position(Unrank(flat, shape)) == flat
  {
    ContiguousPosition(shape, Unrank(flat, shape));
    RankOfUnrank(flat, shape);
  }

  method SliceChain(shape: seq<nat>, chain: seq<seq<SliceSpec>>) returns (view: ArrayView)
    requires SmallExtents(shape) && CanSliceAll(ContiguousView(shape), chain)
    ensures view == SlicedAll(ContiguousView(shape), chain).Stored()
  {
    view := MakeArrayView(shape);
    ghost var exact := ContiguousView(shape);
    for k := 0 to |chain|
      invariant exact.Valid() && view == exact.Stored()
      invariant CanSliceAll(exact, chain[k..])
      invariant SlicedAll(exact, chain[k..]) == SlicedAll(ContiguousView(shape), chain)
    {
      assert chain[k..][1..] == chain[k + 1..];
      var sliced := ArrayViewSlice(view, chain[k], exact);
      view := sliced.value;
      exact := Sliced(exact, chain[k]);
    }
  }

  /** Building a view of a nested array, slicing it any number of times and iterating over the
      result reads only elements of the array, each selected one exactly once. */
  method ReadThrough(shape: seq<nat>, chain: seq<seq<SliceSpec>>) returns (visited: seq<nat>)
    requires SmallExtents(shape) && Product(shape) < TWO64
    requires CanSliceAll(ContiguousView(shape), chain)
    ensures |visited| == SlicedAll(ContiguousView(shape), chain).Elements()
    ensures forall k :: 0 <= k < |visited| ==> visited[k] < Product(shape)
    ensures forall j, k :: 0 <= j < k < |visited| ==> visited[j] != visited[k]
    ensures forall coords | InRange(coords, SlicedAll(ContiguousView(shape), chain).shape) && coords != [] ::
      Rank(SourceOf(ContiguousView(shape), chain, coords), shape) in visited
  {
    ghost var exact := SlicedAll(ContiguousView(shape), chain);
    ChainIsNoLarger(ContiguousView(shape), chain);
    var view := SliceChain(shape, chain);
    visited := view.Iterate(exact);
    forall k | 0 <= k < |visited| ensures visited[k] < Product(shape) {
      ChainAddress(shape, chain, k);
    }
    forall j, k | 0 <= j < k < |visited| ensures visited[j] != visited[k] {
      ChainDistinct(shape, chain, j, k);
    }
    forall coords | InRange(coords, exact.shape) && coords != []
      ensures Rank(SourceOf(ContiguousView(shape), chain, coords), shape) in visited
    {
      FlatIsRowMajor(exact, coords);
      var flat := Rank(coords, exact.shape);
      ChainAddress(shape, chain, flat);
      UnrankOfRank(coords, exact.shape);
      assert visited[flat] in visited;
    }
  }
}
