/** The low-level span lowering of `a[start:end:step]`, next to the generic view slice. */
module StridedSpans {
  import opened MachineInt
  import opened RowMajor
  import opened Wrappers
  import opened AxisOps
  import opened ArrayViews
  import opened ViewChains

  /** The types C++ arithmetic on the operands is done in; narrower ones are promoted to `Int32`. */
  datatype CType = Int32 | UInt32 | Int64 | UInt64

  /** An index expression: `Slice(start, end)`, or `Slice(start, Slice(end, step))`. */
  datatype IndexExpr = Missing | Value(value: int, ctype: CType) | SliceExpr(children: seq<IndexExpr>)

  datatype SliceParts = SliceParts(start: IndexExpr, end: IndexExpr, step: Option<IndexExpr>)

  function PartsOf(expr: IndexExpr): Option<SliceParts> {
    if !expr.SliceExpr? || |expr.children| != 2 then None
    else
      var tail := expr.children[1];
      if tail.SliceExpr? && |tail.children| == 2
      then Some(SliceParts(expr.children[0], tail.children[0], Some(tail.children[1])))
      else Some(SliceParts(expr.children[0], tail, None))
  }

  /** A C++ integer converted to `int64_t`. */
  function ToInt64(value: int): int64 {
    var low := Wrap(value);
    if low > INT64_MAX then low - TWO64 else low
  }

  function ValueOr(expr: IndexExpr, default: int64): int64 {
    if expr.Value? then ToInt64(expr.value) else default
  }

  /** `lower_slice_value_expr`: the `Slice` that the view path passes to `array_view_slice`. */
  function SliceValue(expr: IndexExpr): Option<Slice> {
    if !expr.SliceExpr? || |expr.children| != 2 then None
    else
      var start, tail := expr.children[0], expr.children[1];
      var nested := tail.SliceExpr? && |tail.children| == 2;
      var end := if nested then tail.children[0] else tail;
      var hasStep := nested && !tail.children[1].Missing?;
      Some(Slice(!start.Missing?, !end.Missing?, hasStep, ValueOr(start, 0), ValueOr(end, 0),
                 if hasStep then ValueOr(tail.children[1], 0) else 1))
  }

  /** The same from the parts that the span path reads. */
  function ViewSlice(parts: SliceParts): Slice {
    var hasStep := parts.step.Some? && !parts.step.value.Missing?;
    Slice(!parts.start.Missing?, !parts.end.Missing?, hasStep, ValueOr(parts.start, 0), ValueOr(parts.end, 0),
          if hasStep then ValueOr(parts.step.value, 0) else 1)
  }

  /** Both paths read the same parts of a slice expression. */
  lemma PartsReadAlike(expr: IndexExpr)
    ensures SliceValue(expr) == if PartsOf(expr).Some? then Some(ViewSlice(PartsOf(expr).value)) else None
  {
  }

  /** `count` elements at `base`, `base + stride`, ...; a `std::span` has stride 1. */
  datatype StridedSpan = StridedSpan(base: nat, count: nat, stride: nat) {
    function ElementAt(index: nat): nat {
      base + Times(index, stride)
    }

    /** What a range-for loop over the span reads: it stops on pointer inequality. */
    method Iterate() returns (visited: seq<nat>)
      requires stride > 0
      ensures |visited| == count
      ensures forall k :: 0 <= k < count ==> visited[k] == ElementAt(k)
    {
      visited := [];
      var current := base;
      TimesIsProduct(count, stride);
      var end := base + count * stride;
      while current != end
        invariant |visited| <= count && current == ElementAt(|visited|)
        invariant forall k :: 0 <= k < |visited| ==> visited[k] == ElementAt(k)
        decreases count - |visited|
      {
        SameElement(|visited|, count);
        visited := visited + [current];
        TimesDistributes(|visited| - 1, 1, stride);
        TimesOne(stride);
        current := current + stride;
      }
      SameElement(|visited|, count);
    }

    lemma SameElement(j: nat, k: nat)
      requires stride > 0
      ensures ElementAt(j) == ElementAt(k) <==> j == k
    {
      QuotientIsUnique(j, 0, stride);
      QuotientIsUnique(k, 0, stride);
    }
  }

  // The emitted C++ arithmetic.

  /** A C++ value and the type it is computed in. */
  datatype Operand = Operand(value: int, ctype: CType)

  predicate IsSigned(t: CType) {
    t == Int32 || t == Int64
  }

  function MaxOf(t: CType): int {
    match t
    case Int32 => 0x7fff_ffff
    case UInt32 => 0xffff_ffff
    case Int64 => INT64_MAX
    case UInt64 => TWO64 - 1
  }

  function MinOf(t: CType): int {
    if IsSigned(t) then -MaxOf(t) - 1 else 0
  }

  /** The type two operands are converted to. */
  function Common(a: CType, b: CType): CType {
    if a == UInt64 || b == UInt64 then UInt64
    else if a == Int64 || b == Int64 then Int64
    else if a == UInt32 || b == UInt32 then UInt32
    else Int32
  }

  /** The result of an operation: undefined when a signed type overflows, wrapped when it is unsigned. */
  function Computed(exact: int, t: CType): Option<Operand> {
    if !IsSigned(t) then Some(Operand(exact % (MaxOf(t) + 1), t))
    else if MinOf(t) <= exact <= MaxOf(t) then Some(Operand(exact, t))
    else None
  }

  /** An operand converted to a type that holds at least its own non-negative values. */
  function Converted(x: Operand, t: CType): int {
    if IsSigned(t) then x.value else x.value % (MaxOf(t) + 1)
  }

  function Plus(a: Operand, b: Operand): Option<Operand> {
    var t := Common(a.ctype, b.ctype);
    Computed(Converted(a, t) + Converted(b, t), t)
  }

  function Minus(a: Operand, b: Operand): Option<Operand> {
    var t := Common(a.ctype, b.ctype);
    Computed(Converted(a, t) - Converted(b, t), t)
  }

  /** `end - start + step - 1`, operation by operation; literals are `int`. */
  function EmittedTotal(start: Operand, end: Operand, step: Operand): Option<Operand> {
    match Minus(end, start)
    case None => None
    case Some(length) =>
      match Plus(length, step)
      case None => None
      case Some(sum) => Minus(sum, Operand(1, Int32))
  }

  function SpanOperand(expr: IndexExpr, default: Operand): Operand {
    if expr.Value? then Operand(expr.value, expr.ctype) else default
  }

  /** Bounds and step that the span lowering writes into the emitted expression. */
  function StartOperand(parts: SliceParts): Operand {
    SpanOperand(parts.start, Operand(0, Int32))
  }

  function EndOperand(parts: SliceParts, size: int64): Operand {
    SpanOperand(parts.end, Operand(size, UInt64))
  }

  function StepOperand(parts: SliceParts): Operand {
    if parts.step.Some? then SpanOperand(parts.step.value, Operand(1, Int32)) else Operand(1, Int32)
  }

  function SpanStart(parts: SliceParts): int {
    StartOperand(parts).value
  }

  function SpanEnd(parts: SliceParts, size: int64): int {
    EndOperand(parts, size).value
  }

  function SpanStep(parts: SliceParts): int {
    StepOperand(parts).value
  }

  predicate HasItsType(x: Operand) {
    MinOf(x.ctype) <= x.value <= MaxOf(x.ctype)
  }

  /** A slice written with bounds and step, whose bounds lie inside the base in order. */
  predicate InBounds(parts: SliceParts, size: int64) {
    && !parts.start.SliceExpr? && !parts.end.SliceExpr? && (parts.step.Some? ==> !parts.step.value.SliceExpr?)
    && HasItsType(StartOperand(parts)) && HasItsType(EndOperand(parts, size)) && HasItsType(StepOperand(parts))
    && 0 <= SpanStart(parts) <= SpanEnd(parts, size) <= size
    && SpanStep(parts) > 0
  }

  /** The type the emitted count is computed in. */
  function SpanType(parts: SliceParts, size: int64): CType {
    Common(Common(EndOperand(parts, size).ctype, StartOperand(parts).ctype), StepOperand(parts).ctype)
  }

  /** Does `end - start + step` fit that type? Unsigned arithmetic has room for one more, as 1 is
      subtracted again. Without a step nothing is added. */
  predicate SumFits(parts: SliceParts, size: int64) {
    var t := SpanType(parts, size);
    var most := if IsSigned(t) then MaxOf(t) else MaxOf(t) + 1;
    parts.step.Some? ==> SpanEnd(parts, size) - SpanStart(parts) + SpanStep(parts) <= most
  }

  /** The emitted expression's value: nothing where it is undefined. */
  function EmittedSpan(parts: SliceParts, size: int64): Option<StridedSpan>
    requires InBounds(parts, size)
  {
    var start, step := SpanStart(parts), SpanStep(parts);
    if parts.step.None? then Some(StridedSpan(start, SpanEnd(parts, size) - start, 1))
    else
      match EmittedTotal(StartOperand(parts), EndOperand(parts, size), StepOperand(parts))
      case None => None
      case Some(total) => if total.value < 0 then None else Some(StridedSpan(start, Quotient(total.value, step), step))
  }

  /** The total is the exact one, a wrapped one, or undefined. */
  lemma TotalCases(parts: SliceParts, size: int64)
    requires InBounds(parts, size)
    ensures
      var exact := SpanEnd(parts, size) - SpanStart(parts) + SpanStep(parts) - 1;
      var t := SpanType(parts, size);
      var total := EmittedTotal(StartOperand(parts), EndOperand(parts, size), StepOperand(parts));
      && (total.None? <==> IsSigned(t) && exact + 1 > MaxOf(t))
      && (total.Some? ==> total.value.value == if exact <= MaxOf(t) then exact else exact - MaxOf(t) - 1)
      && SpanStep(parts) <= MaxOf(t)
      && (total.Some? && IsSigned(t) ==> exact + 1 <= MaxOf(t))
  {
    var start, end, step := StartOperand(parts), EndOperand(parts, size), StepOperand(parts);
    LengthIsExact(start, end);
    var length := Minus(end, start).value;
    SumCases(length, step);
  }

  lemma LengthIsExact(start: Operand, end: Operand)
    requires HasItsType(start) && HasItsType(end) && 0 <= start.value <= end.value
    ensures Minus(end, start) == Some(Operand(end.value - start.value, Common(end.ctype, start.ctype)))
    ensures end.value - start.value <= MaxOf(Common(end.ctype, start.ctype))
  {
    CommonHolds(end, start.ctype);
    CommonHolds(start, end.ctype);
  }

  lemma CommonHolds(x: Operand, other: CType)
    requires HasItsType(x) && x.value >= 0
    ensures x.value <= MaxOf(Common(x.ctype, other)) && Common(x.ctype, other) == Common(other, x.ctype)
    ensures Converted(x, Common(x.ctype, other)) == x.value
  {
  }

  lemma SumCases(length: Operand, step: Operand)
    requires HasItsType(length) && HasItsType(step) && length.value >= 0 && step.value > 0
    ensures
      var t := Common(length.ctype, step.ctype);
      var exact := length.value + step.value - 1;
      var sum := Plus(length, step);
      var total := if sum.Some? then Minus(sum.value, Operand(1, Int32)) else None;
      && (total.None? <==> IsSigned(t) && exact + 1 > MaxOf(t))
      && (total.Some? ==> total.value.value == if exact <= MaxOf(t) then exact else exact - MaxOf(t) - 1)
      && step.value <= MaxOf(t)
  {
    var t := Common(length.ctype, step.ctype);
    CommonHolds(length, step.ctype);
    CommonHolds(step, length.ctype);
    ComputedOnce(length.value + step.value, t);
    var sum := Plus(length, step);
    if sum.Some? {
      TakeOne(sum.value.value, t);
    }
  }

  /** The sum of two values of a type, or its difference with 1, leaves the type at most once. */
  lemma ComputedOnce(exact: int, t: CType)
    requires 0 <= exact <= 2 * MaxOf(t)
    ensures Computed(exact, t).None? <==> IsSigned(t) && exact > MaxOf(t)
    ensures Computed(exact, t).Some? ==>
      Computed(exact, t).value == Operand(if exact <= MaxOf(t) then exact else exact - MaxOf(t) - 1, t)
  {
    WrapOnce(exact, MaxOf(t) + 1);
  }

  lemma WrapOnce(x: int, m: nat)
    requires 0 <= x < 2 * m
    ensures x % m == if x < m then x else x - m
  {
    if x >= m {
      assert x % m == (x - m) % m by {
        DivisionSplits(x - m, m, 0, x - m);
        DivisionSplits(x, m, 1, x - m);
      }
    }
  }

  lemma TakeOne(sum: int, t: CType)
    requires 0 <= sum <= MaxOf(t) && (IsSigned(t) ==> sum > 0)
    ensures Minus(Operand(sum, t), Operand(1, Int32)) == Some(Operand(if sum == 0 then MaxOf(t) else sum - 1, t))
  {
    var one := Operand(1, Int32);
    assert Common(t, Int32) == t && Converted(one, t) == 1;
    assert Converted(Operand(sum, t), t) == sum;
    if sum == 0 {
      MinusOneWraps(MaxOf(t) + 1);
    }
  }

  lemma MinusOneWraps(m: nat)
    requires m > 0
    ensures -1 % m == m - 1
  {
  }

  /** Does the count stop exactly at the end? */
  ghost predicate CountsTo(span: StridedSpan, end: int) {
    forall k: nat :: k < span.count <==> span.ElementAt(k) < end
  }

  /** The emitted count is defined and counts the elements before the end exactly when the sum fits. */
  lemma CountIsRightIffSumFits(parts: SliceParts, size: int64)
    requires InBounds(parts, size)
    ensures
      SumFits(parts, size) <==>
      var span := EmittedSpan(parts, size); span.Some? && CountsTo(span.value, SpanEnd(parts, size))
  {
    var start, end, step := SpanStart(parts), SpanEnd(parts, size), SpanStep(parts);
    var span := EmittedSpan(parts, size);
    if parts.step.None? {
      forall k: nat ensures k < span.value.count <==> span.value.ElementAt(k) < end {
        TimesOne(k);
      }
    } else {
      TotalCases(parts, size);
      var exact := end - start + step - 1;
      if SumFits(parts, size) {
        forall k: nat ensures k < span.value.count <==> span.value.ElementAt(k) < end {
          CountOf(start, end, step, k);
        }
      } else if span.Some? {
        WrappedCountIsShort(exact, MaxOf(SpanType(parts, size)), step);
        CountOf(start, end, step, span.value.count);
        assert span.value.ElementAt(span.value.count) < end;
      }
    }
  }

  lemma CountOf(start: nat, end: nat, step: nat, k: nat)
    requires start <= end && step > 0
    ensures k < Quotient(end - start + step - 1, step) <==> start + Times(k, step) < end
  {
    CeilingQuotient(end - start + step - 1, step, k);
  }

  /** A total that wrapped counts too few elements. */
  lemma WrappedCountIsShort(exact: nat, max: nat, step: nat)
    requires exact > max >= step > 0
    ensures Quotient(exact - max - 1, step) < Quotient(exact, step)
  {
    QuotientGrows(exact - max - 1, exact - step, step);
    assert Quotient(exact, step) == 1 + Quotient(exact - step, step);
  }

  lemma {:induction false} QuotientGrows(a: nat, b: nat, d: nat)
    requires a <= b && d > 0
    ensures Quotient(a, d) <= Quotient(b, d)
    decreases b
  {
    if a >= d {
      QuotientGrows(a - d, b - d, d);
    }
  }

  /** With the end left out the count is computed in 64 unsigned bits, and is right for every step that
      an `int64_t` holds. */
  lemma SizeEndAlwaysFits(parts: SliceParts, size: int64)
    requires InBounds(parts, size) && parts.end.Missing? && SpanStep(parts) <= INT64_MAX
    ensures SumFits(parts, size)
  {
    assert IsInt64(size);
  }

  /** A step can be too large: the largest step of a signed type overflows as soon as there is an
      element, and the largest of an unsigned one wraps as soon as there are two. */
  lemma LargestStepOverflows(size: int64, start: int, end: int, t: CType)
    requires 0 <= start <= end <= size && end <= MaxOf(t)
    ensures
      var parts := SliceParts(Value(start, t), Value(end, t), Some(Value(MaxOf(t), t)));
      && InBounds(parts, size)
      && (IsSigned(t) ==> (EmittedSpan(parts, size).None? <==> start < end))
      && (!IsSigned(t) ==> (SumFits(parts, size) <==> end <= start + 1))
  {
    var parts := SliceParts(Value(start, t), Value(end, t), Some(Value(MaxOf(t), t)));
    TotalCases(parts, size);
  }

  /** The emitted `StridedSpan{...}` or, without a step, the emitted `std::span(...)`, computed one
      C++ operation after the other. */
  method LowerSpan(expr: IndexExpr, size: int64) returns (span: Option<StridedSpan>)
    requires PartsOf(expr).Some? && InBounds(PartsOf(expr).value, size)
    ensures
      var parts := PartsOf(expr).value;
      && span == EmittedSpan(parts, size)
      && (span.Some? && CountsTo(span.value, SpanEnd(parts, size)) <==> SumFits(parts, size))
      && (span.None? <==> IsSigned(SpanType(parts, size)) && !SumFits(parts, size))
  {
    var parts := PartsOf(expr).value;
    CountIsRightIffSumFits(parts, size);
    var start, end, step := StartOperand(parts), EndOperand(parts, size), StepOperand(parts);
    if parts.step.None? {
      return Some(StridedSpan(start.value, end.value - start.value, 1));
    }
    TotalCases(parts, size);
    var length := Minus(end, start);
    if length.None? {
      return None;
    }
    var sum := Plus(length.value, step);
    if sum.None? {
      return None;
    }
    var total := Minus(sum.value, Operand(1, Int32));
    if total.None? {
      return None;
    }
    QuotientIsDivision(total.value.value, step.value);
    return Some(StridedSpan(start.value, total.value.value / step.value, step.value));
  }

  lemma ToInt64Keeps(value: int)
    requires 0 <= value < TWO64
    ensures ToInt64(value) == if value <= INT64_MAX then value else value - TWO64
  {
  }

  /** The slice expression resolves to exactly the span's bounds: nothing is counted from the end or
      clamped. A step past `INT64_MAX` becomes negative and is an error of the view path. */
  lemma PartsResolve(expr: IndexExpr, size: int64)
    requires PartsOf(expr).Some? && InBounds(PartsOf(expr).value, size)
    ensures size >= 0 && SliceValue(expr).Some?
    ensures
      var parts := PartsOf(expr).value;
      var start, end, step := SpanStart(parts), SpanEnd(parts, size), SpanStep(parts);
      Resolve(Range(SliceValue(expr).value), size)
      == if step <= INT64_MAX then Success(Take(start, end, step, Extent(start, end, step))) else Failure(STEP_ERROR)
  {
    var parts := PartsOf(expr).value;
    PartsReadAlike(expr);
    assert IsInt64(size);
    ToInt64Keeps(SpanStart(parts));
    ToInt64Keeps(SpanEnd(parts, size));
    ToInt64Keeps(SpanStep(parts));
  }

  lemma RangePlan(size: nat, slice: Slice)
    requires size <= INT64_MAX && Resolve(Range(slice), size).Success?
    ensures CanSlice(ContiguousView([size]), [Range(slice)])
    ensures OpsOf(ContiguousView([size]), [Range(slice)]) == [Resolve(Range(slice), size).value]
  {
    var specs := [Range(slice)];
    assert specs[1..] == [];
    assert Plan([size], 1, [], 0) == Success([]);
  }

  lemma LineSlice(size: nat, op: AxisOp, k: nat)
    requires op.Take?
    ensures Consumed([op]) == 1
    ensures
      var view := Applied(ContiguousView([size]), [op]);
      view.shape == [op.count] && |view.strides| == 1 && view.Position([k]) == op.start + Times(k, op.step)
  {
    var strides := ContiguousView([size]).strides;
    assert strides == [1] by { assert [size][1..] == []; }
    OneOp(op, strides);
    TimesOne(op.start);
    TimesOne(op.step);
    DotOne(k, op.step);
  }

  lemma OneOp(op: AxisOp, strides: seq<nat>)
    requires op.Take? && |strides| == 1
    ensures Consumed([op]) == 1 && OpsShape([op]) == [op.count]
    ensures OpsOffset([op], strides) == Times(op.start, strides[0])
    ensures OpsStrides([op], strides) == [Times(op.step, strides[0])]
  {
    assert Init([op]) == [];
  }

  lemma DotOne(k: nat, stride: nat)
    ensures Dot([k], [stride]) == Times(k, stride)
  {
    assert Init([k]) == [];
  }

  lemma CountIsUnique(a: nat, b: nat, start: nat, end: nat, step: nat)
    requires step > 0
    requires forall k: nat :: k < a <==> Nth(start, k, step) < end
    requires forall k: nat :: k < b <==> Nth(start, k, step) < end
    ensures a == b
  {
    assert a < b <==> Nth(start, a, step) < end;
    assert b < a <==> Nth(start, b, step) < end;
  }

  /** The slice of the view path does not fail, and has the span's length and its elements. */
  ghost predicate SameAsView(expr: IndexExpr, size: int64, span: StridedSpan)
    requires size >= 0 && SliceValue(expr).Some?
  {
    var slice := SliceValue(expr).value;
    CanSlice(ContiguousView([size]), [Range(slice)]) &&
    var view := Sliced(ContiguousView([size]), [Range(slice)]);
    view.shape == [span.count] && forall k: nat :: k < span.count ==> view.Position([k]) == span.ElementAt(k)
  }

  lemma ViewOfParts(expr: IndexExpr, size: int64)
    requires PartsOf(expr).Some? && InBounds(PartsOf(expr).value, size)
    ensures size >= 0 && SliceValue(expr).Some?
    ensures CanSlice(ContiguousView([size]), [Range(SliceValue(expr).value)])
       <==> SpanStep(PartsOf(expr).value) <= INT64_MAX
    ensures
      var parts := PartsOf(expr).value;
      var start, end, step := SpanStart(parts), SpanEnd(parts, size), SpanStep(parts);
      step <= INT64_MAX ==>
        var view := Sliced(ContiguousView([size]), [Range(SliceValue(expr).value)]);
        && view.shape == [Extent(start, end, step)] && |view.strides| == 1
        && forall k: nat :: view.Position([k]) == Nth(start, k, step)
  {
    var parts := PartsOf(expr).value;
    var start, end, step := SpanStart(parts), SpanEnd(parts, size), SpanStep(parts);
    PartsResolve(expr, size);
    assert IsInt64(size);
    if step <= INT64_MAX {
      RangePlan(size, SliceValue(expr).value);
      var op := Take(start, end, step, Extent(start, end, step));
      forall k: nat ensures Applied(ContiguousView([size]), [op]).shape == [op.count]
        && |Applied(ContiguousView([size]), [op]).strides| == 1
        && Applied(ContiguousView([size]), [op]).Position([k]) == Nth(start, k, step)
      {
        LineSlice(size, op, k);
      }
    } else {
      RangeFails(size, SliceValue(expr).value);
    }
  }

  lemma RangeFails(size: nat, slice: Slice)
    requires size <= INT64_MAX && Resolve(Range(slice), size).Failure?
    ensures !CanSlice(ContiguousView([size]), [Range(slice)])
  {
    var specs := [Range(slice)];
    assert specs[1..] == [];
  }

  /** The two slice paths agree for bounds inside the base, in length and in every element, exactly
      when the sum in the emitted count fits the type it is computed in and the step an `int64_t`. */
  lemma SpanAgreesWithViewIff(expr: IndexExpr, size: int64)
    requires PartsOf(expr).Some? && InBounds(PartsOf(expr).value, size)
    ensures size >= 0 && SliceValue(expr).Some?
    ensures
      var parts := PartsOf(expr).value;
      SumFits(parts, size) && SpanStep(parts) <= INT64_MAX <==>
      EmittedSpan(parts, size).Some? && SameAsView(expr, size, EmittedSpan(parts, size).value)
  {
    var parts := PartsOf(expr).value;
    CountIsRightIffSumFits(parts, size);
    ViewOfParts(expr, size);
    if EmittedSpan(parts, size).Some? && SpanStep(parts) <= INT64_MAX {
      var span := EmittedSpan(parts, size).value;
      CountsToIsExtent(parts, size, span);
      SameAsViewIsExtent(expr, size, span);
    }
  }

  lemma CountsToIsExtent(parts: SliceParts, size: int64, span: StridedSpan)
    requires InBounds(parts, size) && span.base == SpanStart(parts) && span.stride == SpanStep(parts) <= INT64_MAX
    ensures CountsTo(span, SpanEnd(parts, size))
      <==> span.count == Extent(SpanStart(parts), SpanEnd(parts, size), SpanStep(parts))
  {
    var start, end, step := SpanStart(parts), SpanEnd(parts, size), SpanStep(parts);
    var count := Extent(start, end, step);
    assert IsInt64(size);
    forall k: nat ensures k < count <==> Nth(start, k, step) < end {
      ExtentCounts(start, end, step, k);
    }
    forall k: nat ensures span.ElementAt(k) == Nth(start, k, step) {
    }
    if CountsTo(span, end) {
      CountIsUnique(span.count, count, start, end, step);
    }
  }

  lemma SameAsViewIsExtent(expr: IndexExpr, size: int64, span: StridedSpan)
    requires PartsOf(expr).Some? && InBounds(PartsOf(expr).value, size)
    requires
      var parts := PartsOf(expr).value;
      span.base == SpanStart(parts) && span.stride == SpanStep(parts) <= INT64_MAX
    ensures size >= 0 && SliceValue(expr).Some?
    ensures
      var parts := PartsOf(expr).value;
      SameAsView(expr, size, span) <==> span.count == Extent(SpanStart(parts), SpanEnd(parts, size), SpanStep(parts))
  {
    var parts := PartsOf(expr).value;
    ViewOfParts(expr, size);
    forall k: nat ensures span.ElementAt(k) == Nth(SpanStart(parts), k, SpanStep(parts)) {
    }
  }
}
