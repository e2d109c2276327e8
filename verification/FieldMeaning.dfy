/** What each slot of a decoded message holds, from the fields that were written for it. */
module FieldMeaning {
  import MachineInt
  import opened Wrappers
  import opened Wire
  import opened WireStreams
  import opened Schema
  import opened Codec
  import opened FieldTrees

  /** The values that were written for a slot, in order. */
  function ItemsAt(s: Schema, index: nat, entries: seq<Entry>, at: nat): seq<Value>
    requires Written(s, index, entries)
    decreases |entries|
  {
    if entries == [] then []
    else
      (if !entries[0].Unknown? && entries[0].at == at then [ValueOf(s, index, entries[0])] else [])
      + ItemsAt(s, index, entries[1..], at)
  }

  /** A repeated field holds all of its items, and any other field the last of its items. */
  predicate Holds(f: Field, before: Slot, items: seq<Value>, after: Slot) {
    if f.repeated then after.items == before.items + items
    else if items == [] then after == before
    else after.items == [items[|items| - 1]]
  }

  lemma {:induction false} SlotAfter(s: Schema, index: nat, entries: seq<Entry>, slots: seq<Slot>, at: nat)
    requires Written(s, index, entries) && |slots| == |FieldsAt(s, index)| && at < |slots|
    ensures Holds(FieldsAt(s, index)[at], slots[at], ItemsAt(s, index, entries, at),
                  Applied(s, index, entries, slots)[at])
    decreases |entries|
  {
    if entries != [] {
      var e, f := entries[0], FieldsAt(s, index)[at];
      if e.Unknown? {
        SlotAfter(s, index, entries[1..], slots, at);
      } else {
        assert OneWritten(s, index, e);
        var next := slots[e.at := Store(FieldsAt(s, index)[e.at], slots[e.at], ValueOf(s, index, e))];
        SlotAfter(s, index, entries[1..], next, at);
      }
    }
  }

  /** What the slot of a field without items is: empty, except that a single scalar is 0 and a single
      string or byte value is empty. */
  predicate IsInitial(s: Schema, f: Field, slot: Slot) {
    if f.optional || f.repeated then slot.items == []
    else
      match TypeOf(s, f.typeName)
      case StructType(_) => slot.items == []
      case StringType | BytesType => slot.items == [Text([])]
      case BoolType | U32Type | U64Type | I64Type | F64Type | EnumType => slot.items == [Scalar(0)]
  }

  lemma InitialSlotIs(s: Schema, f: Field)
    ensures IsInitial(s, f, InitialSlot(s, f))
  {
  }

  /** A decoded message holds, in the slot of each field, all the items of a repeated field, the last item of
      any other, and without items what the field is initialized to. */
  lemma DecodedSlot(s: Schema, index: nat, entries: seq<Entry>, limits: Limits, at: nat)
    requires WellFormed(s) && Written(s, index, entries) && limits.maxFrameBytes < MachineInt.TWO64
    requires at < |FieldsAt(s, index)| && Decode(s, index, Bytes(s, index, entries), limits).Success?
    ensures
      var v := Decode(s, index, Bytes(s, index, entries), limits).value;
      var f, items := FieldsAt(s, index)[at], ItemsAt(s, index, entries, at);
      && v.Message? && |v.slots| == |FieldsAt(s, index)|
      && if items == [] then IsInitial(s, f, v.slots[at])
         else if f.repeated then v.slots[at].items == items
         else v.slots[at].items == [items[|items| - 1]]
  {
    var f, slots := FieldsAt(s, index)[at], InitialSlots(s, FieldsAt(s, index));
    DecodesTree(s, index, entries, limits);
    SlotAfter(s, index, entries, slots, at);
    InitialSlotIs(s, f);
  }

  /** Nothing is written for a field exactly when it has no items, or is a single text that is empty. */
  lemma NothingWritten(s: Schema, f: Field, slot: Slot)
    requires SlotTyped(s, f, slot)
    ensures EncodeSlot(s, f, slot) == [] <==>
      slot.items == [] || (!f.optional && !f.repeated && slot.items == [Text([])])
  {
    if slot.items == [Text([])] {
      assert Typed(s, TypeOf(s, f.typeName), slot.items[0]);
    }
  }
}
