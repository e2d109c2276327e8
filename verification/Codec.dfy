/** The generated encoder and decoder, for any schema. */
module Codec {
  import opened MachineInt
  import opened Wrappers
  import opened Wire
  import opened WireStreams
  import opened Schema

  /** A double is its bit pattern. A message has a slot for each field: the items of a repeated field,
      or at most one item; a missing item is what the field was initialized to. */
  datatype Value = Scalar(n: int) | Text(bytes: seq<Byte>) | Message(slots: seq<Slot>)

  datatype Slot = Slot(items: seq<Value>)

  function FieldsAt(s: Schema, index: nat): seq<Field>
    requires index < |s.structs|
  {
    s.structs[index].fields
  }

  predicate IsSingle(f: Field) {
    !f.optional && !f.repeated
  }

  predicate IsText(ty: Type) {
    ty.StringType? || ty.BytesType?
  }

  // Values of a schema.

  predicate Typed(s: Schema, ty: Type, v: Value)
    decreases v, 0
  {
    match ty
    case BoolType => v.Scalar? && 0 <= v.n <= 1
    case U32Type | EnumType => v.Scalar? && 0 <= v.n <= UINT32_MAX
    case U64Type | F64Type => v.Scalar? && 0 <= v.n < TWO64
    case I64Type => v.Scalar? && IsInt64(v.n)
    case StringType | BytesType => v.Text?
    case StructType(index) => index < |s.structs| && v.Message? && SlotsTyped(s, FieldsAt(s, index), v.slots)
  }

  predicate SlotsTyped(s: Schema, fields: seq<Field>, slots: seq<Slot>)
    decreases slots, 2
  {
    |fields| == |slots| && forall i :: 0 <= i < |slots| ==> SlotTyped(s, fields[i], slots[i])
  }

  predicate SlotTyped(s: Schema, f: Field, slot: Slot)
    decreases slot, 1
  {
    && (f.repeated || |slot.items| <= 1)
    && (IsSingle(f) ==> |slot.items| == 1)
    && ItemsTyped(s, TypeOf(s, f.typeName), slot.items)
  }

  predicate ItemsTyped(s: Schema, ty: Type, items: seq<Value>)
    decreases items, 1
  {
    items == [] || (Typed(s, ty, items[0]) && ItemsTyped(s, ty, items[1..]))
  }

  // Encoding.

  function WireTypeOf(ty: Type): nat {
    match ty
    case BoolType | U32Type | U64Type | EnumType | I64Type => VARINT
    case F64Type => FIXED64
    case StringType | BytesType | StructType(_) => DELIMITED
  }

  /** A field of a single string or byte value is left out when the value is empty. */
  function Emitted(s: Schema, f: Field, slot: Slot): seq<Value> {
    if IsSingle(f) && IsText(TypeOf(s, f.typeName)) && slot.items == [Text([])] then [] else slot.items
  }

  /** The 64 bits a scalar is written as. */
  function BitsOf(ty: Type, n: int): nat
    requires if ty.I64Type? then IsInt64(n) else n >= 0
  {
    if ty.I64Type? then ZigZag(n) else n
  }

  function Payload(s: Schema, ty: Type, v: Value): seq<Byte>
    requires Typed(s, ty, v)
    decreases v, 0
  {
    match ty
    case BoolType | U32Type | U64Type | EnumType | I64Type => Varint(BitsOf(ty, v.n))
    case F64Type => LittleEndian(v.n, 8)
    case StringType | BytesType => Delimited(v.bytes)
    case StructType(index) => Delimited(EncodeSlots(s, FieldsAt(s, index), v.slots, 0))
  }

  /** The fields of a message from the `k`th on. */
  function EncodeSlots(s: Schema, fields: seq<Field>, slots: seq<Slot>, k: nat): seq<Byte>
    requires SlotsTyped(s, fields, slots) && k <= |slots|
    decreases slots, 2, |slots| - k
  {
    if k == |slots| then [] else EncodeSlot(s, fields[k], slots[k]) + EncodeSlots(s, fields, slots, k + 1)
  }

  function EncodeSlot(s: Schema, f: Field, slot: Slot): seq<Byte>
    requires SlotTyped(s, f, slot)
    decreases slot, 1
  {
    if Emitted(s, f, slot) == [] then [] else EncodeItems(s, f.tag, TypeOf(s, f.typeName), slot.items)
  }

  function EncodeItems(s: Schema, tag: int, ty: Type, items: seq<Value>): seq<Byte>
    requires ItemsTyped(s, ty, items)
    decreases items, 1
  {
    if items == [] then []
    else KeyOf(tag, ty) + Payload(s, ty, items[0]) + EncodeItems(s, tag, ty, items[1..])
  }

  function KeyOf(tag: int, ty: Type): seq<Byte> {
    KeyBytes(if tag < 0 then 0 else tag, WireTypeOf(ty))
  }

  /** Every tag that encoding writes fits a key. */
  predicate TagsFit(s: Schema, ty: Type, v: Value)
    requires Typed(s, ty, v)
    decreases v, 0
  {
    ty.StructType? ==> SlotTagsFit(s, FieldsAt(s, ty.index), v.slots)
  }

  predicate SlotTagsFit(s: Schema, fields: seq<Field>, slots: seq<Slot>)
    requires SlotsTyped(s, fields, slots)
    decreases slots, 2
  {
    forall i :: 0 <= i < |slots| ==> SlotTagFits(s, fields[i], slots[i])
  }

  predicate SlotTagFits(s: Schema, f: Field, slot: Slot)
    requires SlotTyped(s, f, slot)
    decreases slot, 1
  {
    Emitted(s, f, slot) == [] || ItemTagsFit(s, f.tag, TypeOf(s, f.typeName), slot.items)
  }

  predicate ItemTagsFit(s: Schema, tag: int, ty: Type, items: seq<Value>)
    requires ItemsTyped(s, ty, items)
    decreases items, 1
  {
    items == [] || (0 < tag <= MAX_TAG && TagsFit(s, ty, items[0]) && ItemTagsFit(s, tag, ty, items[1..]))
  }

  // Decoding.

  datatype Decoded = Decoded(value: Value, nodes: nat)

  datatype Item = Item(value: Value, rest: seq<Byte>, nodes: nat)

  /** What a field holds before anything is decoded into it. A message is built from its own defaults,
      which an empty slot stands for. */
  function InitialSlot(s: Schema, f: Field): Slot {
    if !IsSingle(f) then Slot([])
    else
      match TypeOf(s, f.typeName)
      case StructType(_) => Slot([])
      case StringType | BytesType => Slot([Text([])])
      case _ => Slot([Scalar(0)])
  }

  function InitialSlots(s: Schema, fields: seq<Field>): (slots: seq<Slot>)
    ensures |slots| == |fields|
  {
    seq(|fields|, i requires 0 <= i < |fields| => InitialSlot(s, fields[i]))
  }

  /** The `case` of a tag. */
  function FieldWithTag(fields: seq<Field>, tag: nat, k: nat): (at: nat)
    requires k <= |fields|
    ensures at <= |fields|
    decreases |fields| - k
  {
    if k == |fields| || fields[k].tag == tag then k else FieldWithTag(fields, tag, k + 1)
  }

  function Store(f: Field, slot: Slot, v: Value): Slot {
    if f.repeated then Slot(slot.items + [v]) else Slot([v])
  }

  const UNKNOWN_MESSAGE := "unknown message"

  /** Constructing a reader, then the loop over its fields. */
  function DecodeMessage(s: Schema, index: nat, bytes: seq<Byte>, limits: Limits, depth: nat,
                         nodes: nat): Result<Decoded>
    decreases |bytes|, 3
  {
    if index >= |s.structs| then Failure(UNKNOWN_MESSAGE)
    else if Entered(limits, depth, nodes).Some? then Failure(Entered(limits, depth, nodes).value)
    else DecodeFields(s, index, bytes, InitialSlots(s, FieldsAt(s, index)), limits, depth, nodes + 1)
  }

  function DecodeFields(s: Schema, index: nat, bytes: seq<Byte>, slots: seq<Slot>, limits: Limits, depth: nat,
                        nodes: nat): Result<Decoded>
    requires index < |s.structs| && |slots| == |FieldsAt(s, index)|
    decreases |bytes|, 2
  {
    if bytes == [] then Success(Decoded(Message(slots), nodes))
    else
      var key :- TakeKey(bytes);
      var fields := FieldsAt(s, index);
      var at := FieldWithTag(fields, key.value.tag, 0);
      if at == |fields| then
        var rest :- Skipped(key.rest, key.value.fieldType);
        DecodeFields(s, index, rest, slots, limits, depth, nodes)
      else
        var item :- DecodeItem(s, TypeOf(s, fields[at].typeName), key.value.fieldType, key.rest, limits, depth, nodes);
        DecodeFields(s, index, item.rest, slots[at := Store(fields[at], slots[at], item.value)], limits, depth,
                     item.nodes)
  }

  /** The expression that reads a value of a type. */
  function DecodeItem(s: Schema, ty: Type, fieldType: nat, bytes: seq<Byte>, limits: Limits, depth: nat,
                      nodes: nat): (r: Result<Item>)
    ensures r.Success? ==> |r.value.rest| <= |bytes|
    decreases |bytes|, 1
  {
    if fieldType != WireTypeOf(ty) then Failure(WRONG_TYPE)
    else
      match ty
      case F64Type =>
        var got :- TakeFixed(bytes, 8);
        Success(Item(Scalar(got.value), got.rest, nodes))
      case StringType | BytesType =>
        var got :- TakeDelimited(bytes);
        if |got.value| > limits.maxStringBytes then Failure(TOO_LONG)
        else Success(Item(Text(got.value), got.rest, nodes))
      case StructType(index) =>
        var got :- TakeDelimited(bytes);
        var nested :- DecodeMessage(s, index, got.value, limits, depth + 1, nodes);
        Success(Item(nested.value, got.rest, nested.nodes))
      case _ =>
        var got :- TakeVarint(bytes);
        if ty.U32Type? && got.value > UINT32_MAX then Failure("macro protocol u32 overflow")
        else Success(Item(Scalar(FromVarint(ty, got.value)), got.rest, nodes))
  }

  /** A scalar from its 64 bits. */
  function FromVarint(ty: Type, u: nat): int {
    match ty
    case BoolType => if u != 0 then 1 else 0
    case EnumType => u % 0x1_0000_0000
    case I64Type => UnZigZag(u % TWO64)
    case _ => u
  }

  function Encode(s: Schema, index: nat, v: Value): seq<Byte>
    requires index < |s.structs| && Typed(s, StructType(index), v)
  {
    EncodeSlots(s, FieldsAt(s, index), v.slots, 0)
  }

  function Decode(s: Schema, index: nat, bytes: seq<Byte>, limits: Limits): Result<Value> {
    if |bytes| > limits.maxFrameBytes then Failure("macro protocol payload exceeds size limit")
    else
      var got :- DecodeMessage(s, index, bytes, limits, 0, 0);
      Success(got.value)
  }

  /** `count_nodes`: the messages in a value. */
  function CountNodes(s: Schema, ty: Type, v: Value): nat
    requires Typed(s, ty, v)
    decreases v, 0
  {
    if ty.StructType? then 1 + CountSlots(s, FieldsAt(s, ty.index), v.slots, 0) else 0
  }

  function CountSlots(s: Schema, fields: seq<Field>, slots: seq<Slot>, k: nat): nat
    requires SlotsTyped(s, fields, slots) && k <= |slots|
    decreases slots, 2, |slots| - k
  {
    if k == |slots| then 0 else CountSlot(s, fields[k], slots[k]) + CountSlots(s, fields, slots, k + 1)
  }

  function CountSlot(s: Schema, f: Field, slot: Slot): nat
    requires SlotTyped(s, f, slot)
    decreases slot, 1
  {
    CountItems(s, TypeOf(s, f.typeName), slot.items)
  }

  function CountItems(s: Schema, ty: Type, items: seq<Value>): nat
    requires ItemsTyped(s, ty, items)
    decreases items, 1
  {
    if items == [] then 0 else CountNodes(s, ty, items[0]) + CountItems(s, ty, items[1..])
  }
}
