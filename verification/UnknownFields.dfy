/** Fields with tags the schema does not have are skipped, wherever they stand in a message. */
module UnknownFields {
  import opened MachineInt
  import opened Wrappers
  import opened Wire
  import opened WireStreams
  import opened Schema
  import opened Codec
  import opened CodecRoundTrip

  /** One well-formed field whose tag no field of the message has. */
  predicate IsUnknown(fields: seq<Field>, bytes: seq<Byte>) {
    && TakeKey(bytes).Success?
    && var key := TakeKey(bytes).value;
       FieldWithTag(fields, key.value.tag, 0) == |fields| && Skipped(key.rest, key.value.fieldType) == Success([])
  }

  lemma ItemLocal(d: Decoder, ty: Type, fieldType: nat, bytes: seq<Byte>, nodes: nat, more: seq<Byte>)
    requires DecodeItem(d.s, ty, fieldType, bytes, d.limits, d.depth, nodes).Success?
    ensures
      var item := DecodeItem(d.s, ty, fieldType, bytes, d.limits, d.depth, nodes).value;
      DecodeItem(d.s, ty, fieldType, bytes + more, d.limits, d.depth, nodes) == Success(item.(rest := item.rest + more))
  {
    if ty.F64Type? {
      TakeFixedLocal(bytes, 8, more);
    } else if IsText(ty) || ty.StructType? {
      TakeDelimitedLocal(bytes, more);
    } else {
      TakeVarintLocal(bytes, 0, more);
    }
  }

  lemma StepLocalOf(d: Decoder, p: Point, more: seq<Byte>)
    requires AtPoint(d, p) && p.bytes != [] && StepOf(d, p).Success?
    ensures var next := StepOf(d, p).value;
      && AtPoint(d, next) && |next.bytes| < |p.bytes|
      && StepOf(d, p.(bytes := p.bytes + more)) == Success(next.(bytes := next.bytes + more))
  {
    TakeKeyLocal(p.bytes, more);
    var key := TakeKey(p.bytes).value;
    var fields := FieldsAt(d.s, d.index);
    var at := FieldWithTag(fields, key.value.tag, 0);
    if at == |fields| {
      SkippedLocal(key.rest, key.value.fieldType, more);
    } else {
      ItemLocal(d, TypeOf(d.s, fields[at].typeName), key.value.fieldType, key.rest, p.nodes, more);
    }
  }

  /** A turn that succeeds looks at nothing past its own field. */
  lemma StepLocal(d: Decoder, step: Point -> Result<Point>, p: Point, more: seq<Byte>)
    requires IsStep(d, step) && AtPoint(d, p) && p.bytes != [] && step(p).Success?
    ensures var next := step(p).value;
      && AtPoint(d, next) && |next.bytes| < |p.bytes|
      && step(p.(bytes := p.bytes + more)) == Success(next.(bytes := next.bytes + more))
  {
    var longer := p.(bytes := p.bytes + more);
    assert step(p) == StepOf(d, p) && step(longer) == StepOf(d, longer);
    StepLocalOf(d, p, more);
  }

  /** Whole fields followed by more bytes: the fields are decoded, and then the bytes. */
  lemma {:induction false} RunLocal(d: Decoder, run: Point -> Result<Decoded>, step: Point -> Result<Point>, p: Point,
                                    more: seq<Byte>)
    requires IsRun(d, run) && IsStep(d, step) && AtPoint(d, p) && run(p).Success?
    ensures run(p).value.value.Message? && |run(p).value.value.slots| == |p.slots|
    ensures run(p.(bytes := p.bytes + more)) == run(Point(more, run(p).value.value.slots, run(p).value.nodes))
    decreases |p.bytes|
  {
    RunStep(d, run, step, p);
    if p.bytes == [] {
      assert p.bytes + more == more;
    } else {
      StepLocal(d, step, p, more);
      RunStep(d, run, step, p.(bytes := p.bytes + more));
      RunLocal(d, run, step, step(p).value, more);
    }
  }

  lemma UnknownStep(d: Decoder, run: Point -> Result<Decoded>, p: Point, unknown: seq<Byte>)
    requires IsRun(d, run) && AtPoint(d, p) && IsUnknown(FieldsAt(d.s, d.index), unknown)
    ensures run(p.(bytes := unknown + p.bytes)) == run(p)
  {
    var step := StepsOf(d);
    var front := p.(bytes := unknown);
    assert step(front) == StepOf(d, front) == Success(p.(bytes := []));
    StepLocal(d, step, front, p.bytes);
    RunStep(d, run, step, p.(bytes := unknown + p.bytes));
    assert [] + p.bytes == p.bytes;
  }

  /** `IsUnknown`, as a premise that proofs pass on without looking into it. */
  ghost predicate Skippable(fields: seq<Field>, bytes: seq<Byte>) {
    forall b {:trigger IsUnknown(fields, b)} :: b == bytes ==> IsUnknown(fields, b)
  }

  lemma UnknownSkipped(d: Decoder, run: Point -> Result<Decoded>, unknown: seq<Byte>, p: Point)
    requires IsRun(d, run) && AtPoint(d, p) && Skippable(FieldsAt(d.s, d.index), unknown)
    ensures run(Point(unknown + p.bytes, p.slots, p.nodes)) == run(p)
  {
    assert IsUnknown(FieldsAt(d.s, d.index), unknown);
    UnknownStep(d, run, p, unknown);
  }

  lemma RunIgnores(d: Decoder, run: Point -> Result<Decoded>, p: Point, unknown: seq<Byte>, after: seq<Byte>)
    requires IsRun(d, run) && AtPoint(d, p) && run(p).Success? && Skippable(FieldsAt(d.s, d.index), unknown)
    ensures run(p.(bytes := p.bytes + unknown + after)) == run(p.(bytes := p.bytes + after))
  {
    var step := StepsOf(d);
    RunLocal(d, run, step, p, after);
    RunLocal(d, run, step, p, unknown + after);
    assert p.bytes + unknown + after == p.bytes + (unknown + after);
    UnknownSkipped(d, run, unknown, Point(after, run(p).value.value.slots, run(p).value.nodes));
  }

  /** An unknown field after whole fields does not change what the message is decoded to, or that it
      fails, also inside other messages and before fields that are malformed. */
  lemma UnknownFieldIgnored(d: Decoder, before: seq<Byte>, unknown: seq<Byte>, after: seq<Byte>, nodes: nat)
    requires d.index < |d.s.structs| && IsUnknown(FieldsAt(d.s, d.index), unknown)
    requires DecodeMessage(d.s, d.index, before, d.limits, d.depth, nodes).Success?
    ensures DecodeMessage(d.s, d.index, before + unknown + after, d.limits, d.depth, nodes)
         == DecodeMessage(d.s, d.index, before + after, d.limits, d.depth, nodes)
  {
    var run := RunOf(d);
    MessageIsRun(d, run, before, nodes);
    MessageIsRun(d, run, before + unknown + after, nodes);
    MessageIsRun(d, run, before + after, nodes);
    RunIgnores(d, run, Point(before, InitialSlots(d.s, FieldsAt(d.s, d.index)), nodes + 1), unknown, after);
  }

  /** Anything a writer writes for another tag is an unknown field. */
  lemma WrittenIsUnknown(fields: seq<Field>, tag: nat, value: nat, payload: seq<Byte>)
    requires 0 < tag <= MAX_TAG && value < TWO64 && |payload| < TWO64 && FieldWithTag(fields, tag, 0) == |fields|
    ensures IsUnknown(fields, KeyBytes(tag, VARINT) + Varint(value))
    ensures IsUnknown(fields, KeyBytes(tag, FIXED64) + LittleEndian(value, 8))
    ensures IsUnknown(fields, KeyBytes(tag, DELIMITED) + Delimited(payload))
  {
    KeyRoundTrip(tag, VARINT, Varint(value));
    VarintRoundTrip(value, []);
    assert Varint(value) + [] == Varint(value);
    KeyRoundTrip(tag, FIXED64, LittleEndian(value, 8));
    KeyRoundTrip(tag, DELIMITED, Delimited(payload));
    DelimitedRoundTrip(payload, []);
    assert Delimited(payload) + [] == Delimited(payload);
  }

  /** A schema may have any tag past what a key holds, but no value with that field can be written. */
  lemma AcceptedTagCannotBeWritten(tag: int)
    requires tag > MAX_TAG
    ensures
      var s := Schema("dudu.macro.ast", 1, [], [Struct("Node", [Field("flag", tag, "bool", false, false)])]);
      var v := Message([Slot([Scalar(1)])]);
      WellFormed(s) && Typed(s, StructType(0), v) && !TagsFit(s, StructType(0), v)
  {
    var f := Field("flag", tag, "bool", false, false);
    var s := Schema("dudu.macro.ast", 1, [], [Struct("Node", [f])]);
    assert TypeNames(s) == ["Node"];
    assert FieldValid(s, s.structs[0].fields, 0);
    assert TypeOf(s, "bool") == BoolType;
    assert SlotTyped(s, f, Slot([Scalar(1)]));
    LargeTagUnfit(s, f, Slot([Scalar(1)]));
    assert !SlotTagFits(s, s.structs[0].fields[0], Slot([Scalar(1)]));
  }

  /** In any schema, a field with such a tag can only be written when it is left out. */
  lemma LargeTagUnfit(s: Schema, f: Field, slot: Slot)
    requires SlotTyped(s, f, slot) && f.tag > MAX_TAG
    ensures SlotTagFits(s, f, slot) <==> Emitted(s, f, slot) == []
  {
  }
}
