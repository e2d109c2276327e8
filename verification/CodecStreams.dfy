/** The encoder and the decoder as they run, on a writer and a reader. */
module CodecStreams {
  import opened MachineInt
  import opened Wrappers
  import opened Wire
  import opened WireStreams
  import opened Schema
  import opened Codec
  import opened CodecRoundTrip

  /** A negative tag is as unfit for a key as 0 is. */
  function KeyTag(tag: int): nat {
    if tag < 0 then 0 else tag
  }

  /** `encode_into`. Writing fails exactly when a tag that has to be written does not fit a key. */
  method EncodeInto(s: Schema, index: nat, v: Value, writer: Writer) returns (ok: bool)
    requires index < |s.structs| && Typed(s, StructType(index), v)
    modifies writer
    ensures ok == TagsFit(s, StructType(index), v)
    ensures ok ==> writer.bytes == old(writer.bytes) + Encode(s, index, v)
    decreases v, 1
  {
    var fields := FieldsAt(s, index);
    ghost var rest := EncodeSlots(s, fields, v.slots, 0);
    ghost var whole := writer.bytes + rest;
    for k := 0 to |fields|
      invariant forall i :: 0 <= i < k ==> SlotTagFits(s, fields[i], v.slots[i])
      invariant rest == EncodeSlots(s, fields, v.slots, k) && writer.bytes + rest == whole
    {
      ghost var before, slot := writer.bytes, EncodeSlot(s, fields[k], v.slots[k]);
      SlotsStep(s, fields, v.slots, k);
      rest := EncodeSlots(s, fields, v.slots, k + 1);
      ok := EncodeField(s, fields[k], v.slots[k], writer);
      if !ok {
        return;
      }
      Regroup(before, slot, rest);
    }
    return true;
  }

  lemma SlotsStep(s: Schema, fields: seq<Field>, slots: seq<Slot>, k: nat)
    requires SlotsTyped(s, fields, slots) && k < |slots|
    ensures EncodeSlots(s, fields, slots, k)
         == EncodeSlot(s, fields[k], slots[k]) + EncodeSlots(s, fields, slots, k + 1)
  {
  }

  method EncodeField(s: Schema, f: Field, slot: Slot, writer: Writer) returns (ok: bool)
    requires SlotTyped(s, f, slot)
    modifies writer
    ensures ok == SlotTagFits(s, f, slot)
    ensures ok ==> writer.bytes == old(writer.bytes) + EncodeSlot(s, f, slot)
    decreases slot, 2
  {
    var ty := TypeOf(s, f.typeName);
    if f.repeated {
      ok := EncodeItemsInto(s, f.tag, ty, slot.items, writer);
    } else if f.optional {
      if slot.items != [] {
        ok := EncodeItemsInto(s, f.tag, ty, slot.items, writer);
      } else {
        ok := true;
      }
    } else if IsText(ty) {
      SingleText(s, f, slot);
      if slot.items[0].bytes != [] {
        ok := EncodeItemsInto(s, f.tag, ty, slot.items, writer);
      } else {
        ok := true;
      }
    } else {
      ok := EncodeItemsInto(s, f.tag, ty, slot.items, writer);
    }
  }

  lemma SingleText(s: Schema, f: Field, slot: Slot)
    requires SlotTyped(s, f, slot) && IsSingle(f) && IsText(TypeOf(s, f.typeName))
    ensures |slot.items| == 1 && slot.items[0].Text?
    ensures Emitted(s, f, slot) == [] <==> slot.items[0].bytes == []
  {
    assert Typed(s, TypeOf(s, f.typeName), slot.items[0]);
    assert slot.items == [slot.items[0]];
  }

  lemma ItemsStep(s: Schema, tag: int, ty: Type, items: seq<Value>)
    requires ItemsTyped(s, ty, items) && items != []
    ensures EncodeItems(s, tag, ty, items)
         == KeyOf(tag, ty) + Payload(s, ty, items[0]) + EncodeItems(s, tag, ty, items[1..])
    ensures ItemTagsFit(s, tag, ty, items)
         == (0 < tag <= MAX_TAG && TagsFit(s, ty, items[0]) && ItemTagsFit(s, tag, ty, items[1..]))
  {
  }

  method EncodeItemsInto(s: Schema, tag: int, ty: Type, items: seq<Value>, writer: Writer) returns (ok: bool)
    requires ItemsTyped(s, ty, items)
    modifies writer
    ensures ok == ItemTagsFit(s, tag, ty, items)
    ensures ok ==> writer.bytes == old(writer.bytes) + EncodeItems(s, tag, ty, items)
    decreases items, 1
  {
    ghost var later, bytes, fits := items, EncodeItems(s, tag, ty, items), ItemTagsFit(s, tag, ty, items);
    ghost var whole, fit := writer.bytes + bytes, fits;
    for k := 0 to |items|
      invariant later == items[k..] && ItemsTyped(s, ty, later)
      invariant fits == ItemTagsFit(s, tag, ty, later) && fits == fit
      invariant bytes == EncodeItems(s, tag, ty, later) && writer.bytes + bytes == whole
    {
      ItemsStep(s, tag, ty, later);
      assert later[0] == items[k] && later[1..] == items[k + 1..];
      ghost var before := writer.bytes;
      ok := EncodeItem(s, tag, ty, items[k], writer);
      if !ok {
        return;
      }
      later := later[1..];
      bytes := EncodeItems(s, tag, ty, later);
      Regroup(before, KeyOf(tag, ty) + Payload(s, ty, items[k]), bytes);
    }
    return true;
  }

  lemma Regroup(a: seq<Byte>, b: seq<Byte>, c: seq<Byte>)
    ensures a + (b + c) == a + b + c
  {
  }

  method EncodeItem(s: Schema, tag: int, ty: Type, v: Value, writer: Writer) returns (ok: bool)
    requires Typed(s, ty, v)
    modifies writer
    ensures ok == (0 < tag <= MAX_TAG && TagsFit(s, ty, v))
    ensures ok ==> writer.bytes == old(writer.bytes) + (KeyOf(tag, ty) + Payload(s, ty, v))
    decreases v, 2
  {
    if ty.I64Type? {
      ok := writer.WriteSigned(KeyTag(tag), v.n);
    } else if ty.F64Type? {
      ok := writer.WriteDouble(KeyTag(tag), v.n);
    } else if IsText(ty) {
      ok := writer.WriteBytes(KeyTag(tag), v.bytes);
    } else if ty.StructType? {
      var nested := new Writer();
      ok := EncodeInto(s, ty.index, v, nested);
      if ok {
        assert nested.bytes == Encode(s, ty.index, v);
        ok := writer.WriteBytes(KeyTag(tag), nested.bytes);
      }
    } else {
      ok := writer.WriteVarint(KeyTag(tag), v.n);
    }
  }

  /** The decoding function of a message type. */
  method DecodeFrom(s: Schema, index: nat, bytes: seq<Byte>, state: ReaderState, depth: nat) returns (r: Result<Value>)
    requires index < |s.structs|
    modifies state
    ensures DecodeMessage(s, index, bytes, state.limits, depth, old(state.nodes))
         == if r.Success? then Success(Decoded(r.value, state.nodes)) else Failure(r.error)
    decreases |bytes|, 4
  {
    var error := state.Enter(depth);
    if error.Some? {
      return Failure(error.value);
    }
    ghost var run := RunOf(Decoder(s, index, state.limits, depth));
    MessageIsRun(Decoder(s, index, state.limits, depth), run, bytes, old(state.nodes));
    r := DecodeFieldsFrom(s, index, bytes, state, depth, run);
  }

  /** The loop of the decoding function. */
  method DecodeFieldsFrom(s: Schema, index: nat, bytes: seq<Byte>, state: ReaderState, depth: nat,
                          ghost run: Point -> Result<Decoded>)
    returns (r: Result<Value>)
    requires index < |s.structs| && IsRun(Decoder(s, index, state.limits, depth), run)
    modifies state
    ensures run(Point(bytes, InitialSlots(s, FieldsAt(s, index)), old(state.nodes)))
         == if r.Success? then Success(Decoded(r.value, state.nodes)) else Failure(r.error)
    decreases |bytes|, 3
  {
    ghost var d := Decoder(s, index, state.limits, depth);
    var reader := new Reader(bytes);
    var slots := InitialSlots(s, FieldsAt(s, index));
    ghost var step := StepsOf(d);
    ghost var start := Point(bytes, slots, state.nodes);
    while reader.cursor < |reader.bytes|
      invariant reader.Valid() && reader.bytes == bytes && |slots| == |FieldsAt(s, index)|
      invariant run(start) == run(Point(reader.Rest(), slots, state.nodes))
      decreases |bytes| - reader.cursor
    {
      RunStep(d, run, step, Point(reader.Rest(), slots, state.nodes));
      var next := DecodeField(s, index, slots, reader, state, depth, step);
      if next.Failure? {
        return Failure(next.error);
      }
      slots := next.value;
    }
    RunStep(d, run, step, Point(reader.Rest(), slots, state.nodes));
    return Success(Message(slots));
  }

  /** One turn of the loop: a key and the `case` of its tag. */
  method DecodeField(s: Schema, index: nat, slots: seq<Slot>, reader: Reader, state: ReaderState, depth: nat,
                     ghost step: Point -> Result<Point>)
    returns (r: Result<seq<Slot>>)
    requires index < |s.structs| && |slots| == |FieldsAt(s, index)| && reader.Valid() && reader.cursor < |reader.bytes|
    requires IsStep(Decoder(s, index, state.limits, depth), step)
    modifies reader, state
    ensures reader.Valid() && (r.Success? ==> |r.value| == |slots| && reader.cursor > old(reader.cursor))
    ensures
      step(old(Point(reader.Rest(), slots, state.nodes)))
      == if r.Success? then Success(Point(reader.Rest(), r.value, state.nodes)) else Failure(r.error)
    decreases |reader.bytes| - reader.cursor, 2
  {
    ghost var d, here := Decoder(s, index, state.limits, depth), Point(reader.Rest(), slots, state.nodes);
    assert step(here) == StepOf(d, here);
    var fields := FieldsAt(s, index);
    var key := reader.Next();
    if key.Failure? {
      return Failure(key.error);
    }
    var at := FieldWithTag(fields, key.value.value.tag, 0);
    if at == |fields| {
      var error := reader.Skip(key.value.value.fieldType);
      return if error.Some? then Failure(error.value) else Success(slots);
    }
    var item := DecodeItemFrom(s, TypeOf(s, fields[at].typeName), key.value.value.fieldType, reader, state, depth);
    if item.Failure? {
      return Failure(item.error);
    }
    return Success(slots[at := Store(fields[at], slots[at], item.value)]);
  }

  method DecodeItemFrom(s: Schema, ty: Type, fieldType: nat, reader: Reader, state: ReaderState, depth: nat)
    returns (r: Result<Value>)
    requires reader.Valid()
    modifies reader, state
    ensures reader.Valid()
    ensures old(DecodeItem(s, ty, fieldType, reader.Rest(), state.limits, depth, state.nodes))
         == if r.Success? then Success(Item(r.value, reader.Rest(), state.nodes)) else Failure(r.error)
    decreases |reader.bytes| - reader.cursor, 1
  {
    if fieldType != WireTypeOf(ty) {
      return Failure(WRONG_TYPE);
    }
    if ty.F64Type? {
      var bits := reader.ReadFixed64();
      return if bits.Success? then Success(Scalar(bits.value)) else Failure(bits.error);
    } else if IsText(ty) {
      var text := reader.ReadLengthDelimited();
      if text.Failure? {
        return Failure(text.error);
      }
      return if |text.value| > state.limits.maxStringBytes then Failure(TOO_LONG) else Success(Text(text.value));
    } else if ty.StructType? {
      var payload := reader.ReadLengthDelimited();
      if payload.Failure? {
        return Failure(payload.error);
      }
      if ty.index >= |s.structs| {
        return Failure(UNKNOWN_MESSAGE);
      }
      r := DecodeFrom(s, ty.index, payload.value, state, depth + 1);
    } else {
      var u := reader.ReadRawVarint();
      if u.Failure? {
        return Failure(u.error);
      }
      if ty.U32Type? && u.value > UINT32_MAX {
        return Failure("macro protocol u32 overflow");
      }
      return Success(Scalar(FromVarint(ty, u.value)));
    }
  }

  method DecodeRoot(s: Schema, index: nat, bytes: seq<Byte>, limits: Limits) returns (r: Result<Value>)
    requires index < |s.structs|
    ensures r == Decode(s, index, bytes, limits)
  {
    if |bytes| > limits.maxFrameBytes {
      return Failure("macro protocol payload exceeds size limit");
    }
    var state := new ReaderState(limits);
    r := DecodeFrom(s, index, bytes, state, 0);
  }
}
