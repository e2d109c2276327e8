/** Decoding what was encoded gives the value back, exactly within the limits of the decoder. */
module CodecRoundTrip {
  import opened MachineInt
  import opened Wrappers
  import opened Wire
  import opened WireStreams
  import opened Schema
  import opened Codec

  // Values within the limits of a decoder. The depth is that of the message around an item.

  predicate ItemFits(s: Schema, ty: Type, v: Value, limits: Limits, depth: nat)
    requires Typed(s, ty, v)
    decreases v, 0
  {
    if IsText(ty) then |v.bytes| <= limits.maxStringBytes
    else ty.StructType? ==>
      depth + 1 <= limits.maxDepth && SlotsFit(s, FieldsAt(s, ty.index), v.slots, 0, limits, depth + 1)
  }

  predicate SlotsFit(s: Schema, fields: seq<Field>, slots: seq<Slot>, k: nat, limits: Limits, depth: nat)
    requires SlotsTyped(s, fields, slots)
    decreases slots, 2
  {
    forall i :: k <= i < |slots| ==> SlotFits(s, fields[i], slots[i], limits, depth)
  }

  predicate SlotFits(s: Schema, f: Field, slot: Slot, limits: Limits, depth: nat)
    requires SlotTyped(s, f, slot)
    decreases slot, 1
  {
    ItemsFit(s, TypeOf(s, f.typeName), slot.items, limits, depth)
  }

  predicate ItemsFit(s: Schema, ty: Type, items: seq<Value>, limits: Limits, depth: nat)
    requires ItemsTyped(s, ty, items)
    decreases items, 1
  {
    items == [] || (ItemFits(s, ty, items[0], limits, depth) && ItemsFit(s, ty, items[1..], limits, depth))
  }

  // Proofs about the loop over fields are about a function `run` of the point the loop is at, which only
  // the lemmas on single steps know to be the decoder.

  /** The reader of one message. */
  datatype Decoder = Decoder(s: Schema, index: nat, limits: Limits, depth: nat)

  /** Where it is: the bytes left, the fields so far and the messages counted. */
  datatype Point = Point(bytes: seq<Byte>, slots: seq<Slot>, nodes: nat)

  predicate AtPoint(d: Decoder, p: Point) {
    d.index < |d.s.structs| && |p.slots| == |FieldsAt(d.s, d.index)|
  }

  function Run(d: Decoder, p: Point): Result<Decoded> {
    if AtPoint(d, p) then DecodeFields(d.s, d.index, p.bytes, p.slots, d.limits, d.depth, p.nodes) else Failure("")
  }

  ghost predicate IsRun(d: Decoder, run: Point -> Result<Decoded>) {
    forall p {:trigger Run(d, p)} :: run(p) == Run(d, p)
  }

  lemma RunOf(d: Decoder) returns (run: Point -> Result<Decoded>)
    ensures IsRun(d, run)
  {
    run := p => Run(d, p);
  }

  /** What one turn of the decoder's loop does. */
  function StepOf(d: Decoder, p: Point): Result<Point>
    requires AtPoint(d, p) && p.bytes != []
  {
    var fields := FieldsAt(d.s, d.index);
    var key :- TakeKey(p.bytes);
    var at := FieldWithTag(fields, key.value.tag, 0);
    if at == |fields| then
      var rest :- Skipped(key.rest, key.value.fieldType);
      Success(Point(rest, p.slots, p.nodes))
    else
      var item :- DecodeItem(d.s, TypeOf(d.s, fields[at].typeName), key.value.fieldType, key.rest, d.limits, d.depth,
                             p.nodes);
      Success(Point(item.rest, p.slots[at := Store(fields[at], p.slots[at], item.value)], item.nodes))
  }

  ghost predicate IsStep(d: Decoder, step: Point -> Result<Point>) {
    forall p {:trigger StepOf(d, p)} :: AtPoint(d, p) && p.bytes != [] ==> step(p) == StepOf(d, p)
  }

  lemma StepsOf(d: Decoder) returns (step: Point -> Result<Point>)
    ensures IsStep(d, step)
  {
    step := p => if AtPoint(d, p) && p.bytes != [] then StepOf(d, p) else Failure("");
  }

  lemma RunStep(d: Decoder, run: Point -> Result<Decoded>, step: Point -> Result<Point>, p: Point)
    requires IsRun(d, run) && IsStep(d, step) && AtPoint(d, p)
    ensures run(p) == if p.bytes == [] then Success(Decoded(Message(p.slots), p.nodes))
                      else if step(p).Success? then run(step(p).value)
                      else Failure(step(p).error)
  {
    assert run(p) == Run(d, p);
    if p.bytes != [] {
      assert step(p) == StepOf(d, p);
      if StepOf(d, p).Success? {
        var next := StepOf(d, p).value;
        assert run(next) == Run(d, next);
      }
    }
  }

  /** What reading one item gives, or that it fails. */
  ghost predicate Reads(d: Decoder, ty: Type, bytes: seq<Byte>, nodes: nat, item: Option<Item>) {
    forall b :: b == bytes ==>
      var r := DecodeItem(d.s, ty, WireTypeOf(ty), b, d.limits, d.depth, nodes);
      if item.Some? then r == Success(item.value) else r.Failure?
  }

  /** What reading a whole message gives, or that it fails. */
  ghost predicate ReadsMessage(d: Decoder, bytes: seq<Byte>, nodes: nat, result: Option<Decoded>) {
    forall b :: b == bytes ==>
      var r := DecodeMessage(d.s, d.index, b, d.limits, d.depth, nodes);
      if result.Some? then r == Success(result.value) else r.Failure?
  }

  ghost predicate Accepted(s: Schema) {
    forall t :: t == s ==> WellFormed(t)
  }

  // The tag of a field finds the field.

  lemma {:induction false} FieldFound(s: Schema, fields: seq<Field>, at: nat, k: nat)
    requires FieldsValid(s, fields) && k <= at < |fields|
    ensures fields[at].tag > 0 && FieldWithTag(fields, fields[at].tag, k) == at
    decreases at - k
  {
    assert FieldValid(s, fields, at);
    if k < at {
      FieldFound(s, fields, at, k + 1);
    }
  }

  /** Every tag finds its own field exactly when no two fields share one. */
  lemma TagsFindFields(fields: seq<Field>)
    requires forall i :: 0 <= i < |fields| ==> fields[i].tag > 0
    ensures (forall j :: 0 <= j < |fields| ==> FieldWithTag(fields, fields[j].tag, 0) == j)
       <==> (forall i, j :: 0 <= i < j < |fields| ==> fields[i].tag != fields[j].tag)
  {
    forall j | 0 <= j < |fields| ensures FieldWithTag(fields, fields[j].tag, 0) <= j
      && fields[FieldWithTag(fields, fields[j].tag, 0)].tag == fields[j].tag
    {
      FirstWithTag(fields, j, 0);
    }
  }

  lemma {:induction false} FirstWithTag(fields: seq<Field>, j: nat, k: nat)
    requires k <= j < |fields| && fields[j].tag > 0
    ensures var at := FieldWithTag(fields, fields[j].tag, k); at <= j && fields[at].tag == fields[j].tag
    decreases j - k
  {
    if fields[k].tag != fields[j].tag {
      FirstWithTag(fields, j, k + 1);
    }
  }

  /** A field at the front: its key, then its item. */
  lemma FieldStep(d: Decoder, run: Point -> Result<Decoded>, at: nat, body: seq<Byte>, p: Point, item: Option<Item>)
    requires Accepted(d.s) && IsRun(d, run) && AtPoint(d, p) && at < |p.slots|
    requires 0 < FieldsAt(d.s, d.index)[at].tag <= MAX_TAG
    requires var f := FieldsAt(d.s, d.index)[at];
      var ty := TypeOf(d.s, f.typeName);
      p.bytes == KeyOf(f.tag, ty) + body && Reads(d, ty, body, p.nodes, item)
    ensures
      var f := FieldsAt(d.s, d.index)[at];
      if item.Some? then
        run(p) == run(Point(item.value.rest, p.slots[at := Store(f, p.slots[at], item.value.value)], item.value.nodes))
      else run(p).Failure?
  {
    var f := FieldsAt(d.s, d.index)[at];
    var ty := TypeOf(d.s, f.typeName);
    KeyRoundTrip(f.tag, WireTypeOf(ty), body);
    assert WellFormed(d.s);
    assert FieldsValid(d.s, d.s.structs[d.index].fields);
    FieldFound(d.s, FieldsAt(d.s, d.index), at, 0);
    FieldUnfolds(d, at, body, p);
    assert run(p) == Run(d, p);
    if item.Some? {
      var next := Point(item.value.rest, p.slots[at := Store(f, p.slots[at], item.value.value)], item.value.nodes);
      assert run(next) == Run(d, next);
    }
  }

  lemma FieldUnfolds(d: Decoder, at: nat, body: seq<Byte>, p: Point)
    requires AtPoint(d, p) && at < |p.slots| && p.bytes != []
    requires var f := FieldsAt(d.s, d.index)[at]; var ty := TypeOf(d.s, f.typeName);
      f.tag > 0 && TakeKey(p.bytes) == Success(Got(Key(f.tag, WireTypeOf(ty)), body))
        && FieldWithTag(FieldsAt(d.s, d.index), f.tag, 0) == at
    ensures
      var f := FieldsAt(d.s, d.index)[at];
      var ty := TypeOf(d.s, f.typeName);
      var item := DecodeItem(d.s, ty, WireTypeOf(ty), body, d.limits, d.depth, p.nodes);
      Run(d, p) == if item.Failure? then Failure(item.error)
                   else Run(d, Point(item.value.rest, p.slots[at := Store(f, p.slots[at], item.value.value)],
                                     item.value.nodes))
  {
  }

  lemma EndOfFields(d: Decoder, run: Point -> Result<Decoded>, p: Point)
    requires IsRun(d, run) && AtPoint(d, p) && p.bytes == []
    ensures run(p) == Success(Decoded(Message(p.slots), p.nodes))
  {
    assert run(p) == Run(d, p);
  }

  // Items.

  lemma VarintItem(d: Decoder, ty: Type, bytes: seq<Byte>, u: nat, rest: seq<Byte>, nodes: nat)
    requires WireTypeOf(ty) == VARINT && TakeVarint(bytes) == Success(Got(u, rest)) && (ty.U32Type? ==> u <= UINT32_MAX)
    ensures Reads(d, ty, bytes, nodes, Some(Item(Scalar(FromVarint(ty, u)), rest, nodes)))
  {
  }

  lemma FixedItem(d: Decoder, bytes: seq<Byte>, u: nat, rest: seq<Byte>, nodes: nat)
    requires TakeFixed(bytes, 8) == Success(Got(u, rest))
    ensures Reads(d, F64Type, bytes, nodes, Some(Item(Scalar(u), rest, nodes)))
  {
  }

  /** A scalar is read from the 64 bits it is written as. */
  lemma BitsRoundTrip(s: Schema, ty: Type, v: Value)
    requires Typed(s, ty, v) && WireTypeOf(ty) == VARINT
    ensures BitsOf(ty, v.n) < TWO64 && (ty.U32Type? ==> BitsOf(ty, v.n) <= UINT32_MAX)
      && FromVarint(ty, BitsOf(ty, v.n)) == v.n
  {
    if ty.I64Type? {
      ZigZagRoundTrip(v.n);
    }
  }

  lemma ScalarRoundTrip(d: Decoder, ty: Type, v: Value, rest: seq<Byte>, nodes: nat)
    requires Typed(d.s, ty, v) && !IsText(ty) && !ty.StructType?
    ensures Reads(d, ty, Payload(d.s, ty, v) + rest, nodes, Some(Item(v, rest, nodes)))
  {
    if ty.F64Type? {
      FixedRoundTrip(v.n, rest);
      FixedItem(d, LittleEndian(v.n, 8) + rest, v.n, rest, nodes);
    } else {
      BitsRoundTrip(d.s, ty, v);
      var u := BitsOf(ty, v.n);
      VarintRoundTrip(u, rest);
      VarintItem(d, ty, Varint(u) + rest, u, rest, nodes);
    }
  }

  lemma TextRoundTrip(d: Decoder, ty: Type, v: Value, rest: seq<Byte>, nodes: nat)
    requires Typed(d.s, ty, v) && IsText(ty) && |v.bytes| < TWO64
    ensures Reads(d, ty, Payload(d.s, ty, v) + rest, nodes,
                  if |v.bytes| <= d.limits.maxStringBytes then Some(Item(v, rest, nodes)) else None)
  {
    DelimitedRoundTrip(v.bytes, rest);
  }

  lemma NestedUnfolds(d: Decoder, index: nat, bytes: seq<Byte>, payload: seq<Byte>, rest: seq<Byte>, nodes: nat,
                      r: Result<Decoded>)
    requires TakeDelimited(bytes) == Success(Got(payload, rest))
    requires r == DecodeMessage(d.s, index, payload, d.limits, d.depth + 1, nodes)
    ensures DecodeItem(d.s, StructType(index), DELIMITED, bytes, d.limits, d.depth, nodes)
         == if r.Success? then Success(Item(r.value.value, rest, r.value.nodes)) else Failure(r.error)
  {
  }

  lemma NestedItem(d: Decoder, index: nat, bytes: seq<Byte>, payload: seq<Byte>, rest: seq<Byte>, nodes: nat,
                   result: Option<Decoded>)
    requires TakeDelimited(bytes) == Success(Got(payload, rest))
    requires ReadsMessage(Decoder(d.s, index, d.limits, d.depth + 1), payload, nodes, result)
    ensures Reads(d, StructType(index), bytes, nodes,
                  if result.Some? then Some(Item(result.value.value, rest, result.value.nodes)) else None)
  {
    NestedUnfolds(d, index, bytes, payload, rest, nodes,
                  DecodeMessage(d.s, index, payload, d.limits, d.depth + 1, nodes));
  }

  /** The nodes after an item, if it is within the limits. */
  function ItemResult(d: Decoder, ty: Type, v: Value, rest: seq<Byte>, nodes: nat): Option<Item>
    requires Typed(d.s, ty, v)
  {
    var after := nodes + CountNodes(d.s, ty, v);
    if ItemFits(d.s, ty, v, d.limits, d.depth) && after <= d.limits.maxNodes then Some(Item(v, rest, after)) else None
  }

  function MessageResult(d: Decoder, slots: seq<Slot>, nodes: nat): Option<Decoded>
    requires d.index < |d.s.structs| && SlotsTyped(d.s, FieldsAt(d.s, d.index), slots)
  {
    var fields := FieldsAt(d.s, d.index);
    var after := nodes + 1 + CountSlots(d.s, fields, slots, 0);
    if d.depth <= d.limits.maxDepth && SlotsFit(d.s, fields, slots, 0, d.limits, d.depth) && after <= d.limits.maxNodes
    then Some(Decoded(Message(slots), after)) else None
  }

  /** An item is read back exactly within the limits. */
  lemma {:induction false} ItemRoundTrip(d: Decoder, ty: Type, v: Value, rest: seq<Byte>, nodes: nat)
    requires Accepted(d.s) && Typed(d.s, ty, v) && TagsFit(d.s, ty, v)
    requires |Payload(d.s, ty, v)| < TWO64 && nodes <= d.limits.maxNodes
    ensures Reads(d, ty, Payload(d.s, ty, v) + rest, nodes, ItemResult(d, ty, v, rest, nodes))
    decreases v, 0
  {
    if IsText(ty) {
      TextRoundTrip(d, ty, v, rest, nodes);
    } else if ty.StructType? {
      var nested := Decoder(d.s, ty.index, d.limits, d.depth + 1);
      var bytes := EncodeSlots(d.s, FieldsAt(d.s, ty.index), v.slots, 0);
      DelimitedRoundTrip(bytes, rest);
      MessageRoundTrip(nested, v.slots, nodes);
      NestedItem(d, ty.index, Delimited(bytes) + rest, bytes, rest, nodes, MessageResult(nested, v.slots, nodes));
      NestedResult(d, ty.index, v, rest, nodes);
    } else {
      ScalarRoundTrip(d, ty, v, rest, nodes);
    }
  }

  lemma NestedResult(d: Decoder, index: nat, v: Value, rest: seq<Byte>, nodes: nat)
    requires Typed(d.s, StructType(index), v)
    ensures
      var result := MessageResult(Decoder(d.s, index, d.limits, d.depth + 1), v.slots, nodes);
      ItemResult(d, StructType(index), v, rest, nodes)
      == if result.Some? then Some(Item(result.value.value, rest, result.value.nodes)) else None
  {
  }

  /** What decoding the slots gives, as `SlotsRoundTrip` says it. */
  ghost predicate SlotsRead(d: Decoder, run: Point -> Result<Decoded>, p: Point, all: seq<Slot>, k: nat)
    requires d.index < |d.s.structs| && SlotsTyped(d.s, FieldsAt(d.s, d.index), all) && k <= |all|
  {
    var fields := FieldsAt(d.s, d.index);
    var after := p.nodes + CountSlots(d.s, fields, all, k);
    if SlotsFit(d.s, fields, all, k, d.limits, d.depth) && after <= d.limits.maxNodes
    then run(p) == Success(Decoded(Message(all), after)) else run(p).Failure?
  }

  /** What decoding a message gives, as a premise that proofs pass on without looking into it. */
  ghost predicate Gives(d: Decoder, bytes: seq<Byte>, nodes: nat, r: Result<Decoded>) {
    forall b {:trigger DecodeMessage(d.s, d.index, b, d.limits, d.depth, nodes)} ::
      b == bytes ==> DecodeMessage(d.s, d.index, b, d.limits, d.depth, nodes) == r
  }

  lemma MessageIsRun(d: Decoder, run: Point -> Result<Decoded>, bytes: seq<Byte>, nodes: nat)
    requires IsRun(d, run) && d.index < |d.s.structs|
    ensures
      var error := Entered(d.limits, d.depth, nodes);
      Gives(d, bytes, nodes, if error.Some? then Failure(error.value)
                             else run(Point(bytes, InitialSlots(d.s, FieldsAt(d.s, d.index)), nodes + 1)))
  {
    var p := Point(bytes, InitialSlots(d.s, FieldsAt(d.s, d.index)), nodes + 1);
    assert run(p) == Run(d, p);
  }

  lemma GivenIsRead(d: Decoder, bytes: seq<Byte>, nodes: nat, r: Result<Decoded>, result: Option<Decoded>)
    requires Gives(d, bytes, nodes, r) && if result.Some? then r == Success(result.value) else r.Failure?
    ensures ReadsMessage(d, bytes, nodes, result)
  {
    assert DecodeMessage(d.s, d.index, bytes, d.limits, d.depth, nodes) == r;
  }

  lemma MessageStart(d: Decoder, run: Point -> Result<Decoded>, bytes: seq<Byte>, slots: seq<Slot>, nodes: nat)
    requires IsRun(d, run) && d.index < |d.s.structs| && SlotsTyped(d.s, FieldsAt(d.s, d.index), slots)
    requires Entered(d.limits, d.depth, nodes).None? ==>
      SlotsRead(d, run, Point(bytes, InitialSlots(d.s, FieldsAt(d.s, d.index)), nodes + 1), slots, 0)
    ensures ReadsMessage(d, bytes, nodes, MessageResult(d, slots, nodes))
  {
    var error := Entered(d.limits, d.depth, nodes);
    var p := Point(bytes, InitialSlots(d.s, FieldsAt(d.s, d.index)), nodes + 1);
    MessageIsRun(d, run, bytes, nodes);
    GivenIsRead(d, bytes, nodes, if error.Some? then Failure(error.value) else run(p), MessageResult(d, slots, nodes));
  }

  lemma {:induction false} MessageRoundTrip(d: Decoder, slots: seq<Slot>, nodes: nat)
    requires Accepted(d.s) && d.index < |d.s.structs| && SlotsTyped(d.s, FieldsAt(d.s, d.index), slots)
    requires SlotTagsFit(d.s, FieldsAt(d.s, d.index), slots)
    requires |EncodeSlots(d.s, FieldsAt(d.s, d.index), slots, 0)| < TWO64 && nodes <= d.limits.maxNodes
    ensures ReadsMessage(d, EncodeSlots(d.s, FieldsAt(d.s, d.index), slots, 0), nodes, MessageResult(d, slots, nodes))
    decreases slots, 3
  {
    var fields := FieldsAt(d.s, d.index);
    var initial := InitialSlots(d.s, fields);
    var run := RunOf(d);
    if Entered(d.limits, d.depth, nodes).None? {
      assert slots[..0] + initial[0..] == initial;
      SlotsRoundTrip(d, run, fields, slots, 0, initial, initial, nodes + 1);
    }
    MessageStart(d, run, EncodeSlots(d.s, fields, slots, 0), slots, nodes);
  }

  /** The fields from the `k`th on, when those before are decoded. */
  lemma {:induction false} SlotsRoundTrip(d: Decoder, run: Point -> Result<Decoded>, fields: seq<Field>,
                                          all: seq<Slot>, k: nat, slots: seq<Slot>, initial: seq<Slot>, nodes: nat)
    requires Accepted(d.s) && IsRun(d, run) && d.index < |d.s.structs| && fields == FieldsAt(d.s, d.index)
    requires SlotsTyped(d.s, fields, all) && SlotTagsFit(d.s, fields, all) && k <= |all|
    requires |EncodeSlots(d.s, fields, all, k)| < TWO64 && nodes <= d.limits.maxNodes
    requires initial == InitialSlots(d.s, fields) && slots == all[..k] + initial[k..]
    ensures SlotsRead(d, run, Point(EncodeSlots(d.s, fields, all, k), slots, nodes), all, k)
    decreases all, 2, |all| - k
  {
    var p := Point(EncodeSlots(d.s, fields, all, k), slots, nodes);
    if k == |all| {
      assert slots == all;
      EndOfFields(d, run, p);
    } else {
      var rest := EncodeSlots(d.s, fields, all, k + 1);
      var after := nodes + CountSlot(d.s, fields[k], all[k]);
      var next := slots[k := all[k]];
      NextSlot(all, initial, k);
      SlotRoundTrip(d, run, k, all[k], rest, slots, nodes);
      if SlotFits(d.s, fields[k], all[k], d.limits, d.depth) && after <= d.limits.maxNodes {
        SlotsRoundTrip(d, run, fields, all, k + 1, next, initial, after);
      }
      SlotsReadStep(d, run, p, Point(rest, next, after), all, k);
    }
  }

  lemma SlotsReadStep(d: Decoder, run: Point -> Result<Decoded>, p: Point, next: Point, all: seq<Slot>, k: nat)
    requires d.index < |d.s.structs| && SlotsTyped(d.s, FieldsAt(d.s, d.index), all) && k < |all|
    requires
      var f := FieldsAt(d.s, d.index)[k];
      && next.nodes == p.nodes + CountSlot(d.s, f, all[k])
      && if SlotFits(d.s, f, all[k], d.limits, d.depth) && next.nodes <= d.limits.maxNodes
         then run(p) == run(next) && SlotsRead(d, run, next, all, k + 1) else run(p).Failure?
    ensures SlotsRead(d, run, p, all, k)
  {
  }

  lemma NextSlot(all: seq<Slot>, initial: seq<Slot>, k: nat)
    requires |all| == |initial| && k < |all|
    ensures var slots := all[..k] + initial[k..];
      slots[k] == initial[k] && slots[k := all[k]] == all[..k + 1] + initial[k + 1..]
  {
  }

  lemma {:induction false} SlotRoundTrip(d: Decoder, run: Point -> Result<Decoded>, at: nat, slot: Slot,
                                         tail: seq<Byte>, slots: seq<Slot>, nodes: nat)
    requires Accepted(d.s) && IsRun(d, run) && d.index < |d.s.structs| && |slots| == |FieldsAt(d.s, d.index)|
      && at < |slots|
    requires SlotTyped(d.s, FieldsAt(d.s, d.index)[at], slot) && SlotTagFits(d.s, FieldsAt(d.s, d.index)[at], slot)
    requires |EncodeSlot(d.s, FieldsAt(d.s, d.index)[at], slot)| < TWO64 && nodes <= d.limits.maxNodes
    requires slots[at] == InitialSlot(d.s, FieldsAt(d.s, d.index)[at])
    ensures
      var f := FieldsAt(d.s, d.index)[at];
      var p := Point(EncodeSlot(d.s, f, slot) + tail, slots, nodes);
      var after := nodes + CountSlot(d.s, f, slot);
      if SlotFits(d.s, f, slot, d.limits, d.depth) && after <= d.limits.maxNodes
      then run(p) == run(Point(tail, slots[at := slot], after)) else run(p).Failure?
    decreases slot, 1
  {
    var f := FieldsAt(d.s, d.index)[at];
    if Emitted(d.s, f, slot) == [] {
      OmittedSlot(d.s, f, slot, d.limits, d.depth);
      assert EncodeSlot(d.s, f, slot) + tail == tail && slots[at := slot] == slots;
    } else {
      ItemsRoundTrip(d, run, at, slot.items, tail, slots, nodes);
      assert Stored(f, slots[at], slot.items) == slot by {
        if f.repeated {
          assert InitialSlot(d.s, f) == Slot([]);
          assert [] + slot.items == slot.items;
        }
      }
    }
  }

  /** A slot that is not written is what the decoder starts with. */
  lemma OmittedSlot(s: Schema, f: Field, slot: Slot, limits: Limits, depth: nat)
    requires SlotTyped(s, f, slot) && Emitted(s, f, slot) == []
    ensures slot == InitialSlot(s, f) && EncodeSlot(s, f, slot) == [] && CountSlot(s, f, slot) == 0
      && SlotFits(s, f, slot, limits, depth)
  {
    var ty := TypeOf(s, f.typeName);
    if slot.items != [] {
      assert slot.items[1..] == [];
    }
  }

  /** What a slot holds after items were decoded into it. */
  function Stored(f: Field, slot: Slot, items: seq<Value>): Slot {
    if items == [] then slot else if f.repeated then Slot(slot.items + items) else Slot(items)
  }

  lemma {:induction false} ItemsRoundTrip(d: Decoder, run: Point -> Result<Decoded>, at: nat, items: seq<Value>,
                                          tail: seq<Byte>, slots: seq<Slot>, nodes: nat)
    requires Accepted(d.s) && IsRun(d, run) && d.index < |d.s.structs| && |slots| == |FieldsAt(d.s, d.index)|
      && at < |slots|
    requires FieldsAt(d.s, d.index)[at].repeated || |items| <= 1
    requires var f := FieldsAt(d.s, d.index)[at];
      var ty := TypeOf(d.s, f.typeName);
      ItemsTyped(d.s, ty, items) && ItemTagsFit(d.s, f.tag, ty, items) && |EncodeItems(d.s, f.tag, ty, items)| < TWO64
    requires nodes <= d.limits.maxNodes
    ensures
      var f := FieldsAt(d.s, d.index)[at];
      var ty := TypeOf(d.s, f.typeName);
      var p := Point(EncodeItems(d.s, f.tag, ty, items) + tail, slots, nodes);
      var after := nodes + CountItems(d.s, ty, items);
      if ItemsFit(d.s, ty, items, d.limits, d.depth) && after <= d.limits.maxNodes
      then run(p) == run(Point(tail, slots[at := Stored(f, slots[at], items)], after)) else run(p).Failure?
    decreases items, 1
  {
    var f := FieldsAt(d.s, d.index)[at];
    var ty := TypeOf(d.s, f.typeName);
    var p := Point(EncodeItems(d.s, f.tag, ty, items) + tail, slots, nodes);
    if items == [] {
      assert p.bytes == tail && slots[at := slots[at]] == slots;
    } else {
      var rest := EncodeItems(d.s, f.tag, ty, items[1..]) + tail;
      var body := Payload(d.s, ty, items[0]) + rest;
      assert p.bytes == KeyOf(f.tag, ty) + body;
      ItemRoundTrip(d, ty, items[0], rest, nodes);
      var item := ItemResult(d, ty, items[0], rest, nodes);
      FieldStep(d, run, at, body, p, item);
      if item.Some? {
        var once := slots[at := Store(f, slots[at], items[0])];
        ItemsRoundTrip(d, run, at, items[1..], tail, once, item.value.nodes);
        StoredOneByOne(f, slots, at, items);
      }
    }
  }

  lemma StoredOneByOne(f: Field, slots: seq<Slot>, at: nat, items: seq<Value>)
    requires at < |slots| && items != [] && (f.repeated || |items| <= 1)
    ensures
      var once := slots[at := Store(f, slots[at], items[0])];
      once[at := Stored(f, once[at], items[1..])] == slots[at := Stored(f, slots[at], items)]
  {
    var once := slots[at := Store(f, slots[at], items[0])];
    assert items == [items[0]] + items[1..];
    assert f.repeated ==> slots[at].items + [items[0]] + items[1..] == slots[at].items + items;
    assert Stored(f, once[at], items[1..]) == Stored(f, slots[at], items);
  }

  /** The bounds a decoder puts on a message. */
  predicate WithinLimits(s: Schema, index: nat, v: Value, limits: Limits)
    requires index < |s.structs| && Typed(s, StructType(index), v)
  {
    && |Encode(s, index, v)| <= limits.maxFrameBytes
    && SlotsFit(s, FieldsAt(s, index), v.slots, 0, limits, 0)
    && CountNodes(s, StructType(index), v) <= limits.maxNodes
  }

  /** The round trip, for every accepted schema and every value that can be encoded. */
  lemma RoundTrip(s: Schema, index: nat, v: Value, limits: Limits)
    requires WellFormed(s) && index < |s.structs| && Typed(s, StructType(index), v) && TagsFit(s, StructType(index), v)
    requires limits.maxFrameBytes < TWO64
    ensures
      var r := Decode(s, index, Encode(s, index, v), limits);
      if WithinLimits(s, index, v, limits) then r == Success(v) else r.Failure?
  {
    var bytes := Encode(s, index, v);
    if |bytes| <= limits.maxFrameBytes {
      var d := Decoder(s, index, limits, 0);
      MessageRoundTrip(d, v.slots, 0);
      RootResult(d, bytes, MessageResult(d, v.slots, 0));
    }
  }

  lemma RootResult(d: Decoder, bytes: seq<Byte>, result: Option<Decoded>)
    requires d.depth == 0 && ReadsMessage(d, bytes, 0, result) && |bytes| <= d.limits.maxFrameBytes
    ensures var r := Decode(d.s, d.index, bytes, d.limits);
      if result.Some? then r == Success(result.value.value) else r.Failure?
  {
    assert DecodeMessage(d.s, d.index, bytes, d.limits, d.depth, 0)
      == DecodeMessage(d.s, d.index, bytes, d.limits, 0, 0);
  }

  // Which values can be encoded.

  predicate SmallTags(s: Schema) {
    forall k, f :: 0 <= k < |s.structs| && 0 <= f < |s.structs[k].fields| ==> 0 < s.structs[k].fields[f].tag <= MAX_TAG
  }

  /** With tags that fit a key, every value of the schema can be encoded. */
  lemma {:induction false} SmallTagsFit(s: Schema, ty: Type, v: Value)
    requires SmallTags(s) && Typed(s, ty, v)
    ensures TagsFit(s, ty, v)
    decreases v, 0
  {
    if ty.StructType? {
      var fields := FieldsAt(s, ty.index);
      forall i | 0 <= i < |v.slots| ensures SlotTagFits(s, fields[i], v.slots[i]) {
        SmallSlotFits(s, fields[i], v.slots[i]);
      }
    }
  }

  lemma {:induction false} SmallSlotFits(s: Schema, f: Field, slot: Slot)
    requires SmallTags(s) && 0 < f.tag <= MAX_TAG && SlotTyped(s, f, slot)
    ensures SlotTagFits(s, f, slot)
    decreases slot, 1
  {
    SmallItemsFit(s, f.tag, TypeOf(s, f.typeName), slot.items);
  }

  lemma {:induction false} SmallItemsFit(s: Schema, tag: int, ty: Type, items: seq<Value>)
    requires SmallTags(s) && 0 < tag <= MAX_TAG && ItemsTyped(s, ty, items)
    ensures ItemTagsFit(s, tag, ty, items)
    decreases items, 1
  {
    if items != [] {
      SmallTagsFit(s, ty, items[0]);
      SmallItemsFit(s, tag, ty, items[1..]);
    }
  }
}
