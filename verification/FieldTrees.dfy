/** What any sequence of fields decodes to: fields in any order, repeated or missing, and unknown ones
    anywhere, also inside nested messages. */
module FieldTrees {
  import opened MachineInt
  import opened Wrappers
  import opened Wire
  import opened WireStreams
  import opened Schema
  import opened Codec
  import opened CodecRoundTrip
  import opened UnknownFields

  /** One field of a message as it was written: one the schema does not have, a scalar or text for the
      field at a position, or the fields of a nested message. */
  datatype Entry =
    | Unknown(bytes: seq<Byte>)
    | Plain(at: nat, value: Value)
    | Nested(at: nat, entries: seq<Entry>)

  function TypeAt(s: Schema, index: nat, at: nat): Type
    requires index < |s.structs| && at < |FieldsAt(s, index)|
  {
    TypeOf(s, FieldsAt(s, index)[at].typeName)
  }

  /** Fields that a writer could have written for the message, apart from the unknown ones. */
  ghost predicate Written(s: Schema, index: nat, entries: seq<Entry>)
    decreases entries, 1
  {
    index < |s.structs| && (entries == [] || (OneWritten(s, index, entries[0]) && Written(s, index, entries[1..])))
  }

  ghost predicate OneWritten(s: Schema, index: nat, e: Entry)
    requires index < |s.structs|
    decreases e, 0
  {
    match e
    case Unknown(bytes) => Skippable(FieldsAt(s, index), bytes)
    case Plain(at, value) =>
      && KnownAt(s, index, at)
      && !TypeAt(s, index, at).StructType? && Typed(s, TypeAt(s, index, at), value)
    case Nested(at, entries) =>
      && KnownAt(s, index, at)
      && TypeAt(s, index, at).StructType? && Written(s, TypeAt(s, index, at).index, entries)
  }

  predicate KnownAt(s: Schema, index: nat, at: nat)
    requires index < |s.structs|
  {
    at < |FieldsAt(s, index)| && 0 < FieldsAt(s, index)[at].tag <= MAX_TAG
  }

  function Bytes(s: Schema, index: nat, entries: seq<Entry>): seq<Byte>
    requires Written(s, index, entries)
    decreases entries, 1
  {
    if entries == [] then [] else OneBytes(s, index, entries[0]) + Bytes(s, index, entries[1..])
  }

  function OneBytes(s: Schema, index: nat, e: Entry): seq<Byte>
    requires index < |s.structs| && OneWritten(s, index, e)
    decreases e, 0
  {
    match e
    case Unknown(bytes) => bytes
    case _ => KeyOf(FieldsAt(s, index)[e.at].tag, TypeAt(s, index, e.at)) + PayloadOf(s, index, e)
  }

  function PayloadOf(s: Schema, index: nat, e: Entry): seq<Byte>
    requires index < |s.structs| && OneWritten(s, index, e) && !e.Unknown?
    decreases e, 0, 0
  {
    match e
    case Plain(at, value) => Payload(s, TypeAt(s, index, at), value)
    case Nested(at, entries) => Delimited(Bytes(s, TypeAt(s, index, at).index, entries))
  }

  // What the fields mean.

  /** The slots after the fields, one by one. */
  function Applied(s: Schema, index: nat, entries: seq<Entry>, slots: seq<Slot>): (after: seq<Slot>)
    requires Written(s, index, entries) && |slots| == |FieldsAt(s, index)|
    ensures |after| == |slots|
    decreases entries, 1
  {
    if entries == [] then slots
    else if entries[0].Unknown? then Applied(s, index, entries[1..], slots)
    else
      assert OneWritten(s, index, entries[0]);
      var at := entries[0].at;
      var next := slots[at := Store(FieldsAt(s, index)[at], slots[at], ValueOf(s, index, entries[0]))];
      Applied(s, index, entries[1..], next)
  }

  function ValueOf(s: Schema, index: nat, e: Entry): Value
    requires index < |s.structs| && OneWritten(s, index, e) && !e.Unknown?
    decreases e, 0
  {
    match e
    case Plain(_, value) => value
    case Nested(at, entries) => MessageOf(s, TypeAt(s, index, at).index, entries)
  }

  function MessageOf(s: Schema, index: nat, entries: seq<Entry>): Value
    requires Written(s, index, entries)
    decreases entries, 2
  {
    Message(Applied(s, index, entries, InitialSlots(s, FieldsAt(s, index))))
  }

  function Nodes(entries: seq<Entry>): nat
    decreases entries, 1
  {
    if entries == [] then 0 else OneNodes(entries[0]) + Nodes(entries[1..])
  }

  function OneNodes(e: Entry): nat
    decreases e, 0
  {
    if e.Nested? then 1 + Nodes(e.entries) else 0
  }

  /** Texts and nesting are within the limits. The depth is that of the message. */
  predicate Fits(entries: seq<Entry>, limits: Limits, depth: nat)
    decreases entries, 1
  {
    entries == [] || (OneFits(entries[0], limits, depth) && Fits(entries[1..], limits, depth))
  }

  predicate OneFits(e: Entry, limits: Limits, depth: nat)
    decreases e, 0
  {
    match e
    case Unknown(_) => true
    case Plain(_, value) => value.Text? ==> |value.bytes| <= limits.maxStringBytes
    case Nested(_, entries) => depth + 1 <= limits.maxDepth && Fits(entries, limits, depth + 1)
  }

  // Decoding.

  function EntryResult(d: Decoder, e: Entry, rest: seq<Byte>, nodes: nat): Option<Item>
    requires d.index < |d.s.structs| && OneWritten(d.s, d.index, e) && !e.Unknown?
  {
    var after := nodes + OneNodes(e);
    if OneFits(e, d.limits, d.depth) && after <= d.limits.maxNodes
    then Some(Item(ValueOf(d.s, d.index, e), rest, after)) else None
  }

  function TreeResult(d: Decoder, entries: seq<Entry>, nodes: nat): Option<Decoded>
    requires Written(d.s, d.index, entries)
  {
    var after := nodes + 1 + Nodes(entries);
    if d.depth <= d.limits.maxDepth && Fits(entries, d.limits, d.depth) && after <= d.limits.maxNodes
    then Some(Decoded(MessageOf(d.s, d.index, entries), after)) else None
  }

  /** What the loop does with fields that are all that is left. */
  ghost predicate FieldsRead(d: Decoder, run: Point -> Result<Decoded>, entries: seq<Entry>, slots: seq<Slot>,
                             nodes: nat)
    requires Written(d.s, d.index, entries) && |slots| == |FieldsAt(d.s, d.index)|
  {
    var p := Point(Bytes(d.s, d.index, entries), slots, nodes);
    var after := nodes + Nodes(entries);
    if Fits(entries, d.limits, d.depth) && after <= d.limits.maxNodes
    then run(p) == Success(Decoded(Message(Applied(d.s, d.index, entries, slots)), after)) else run(p).Failure?
  }

  lemma {:induction false} EntryRead(d: Decoder, e: Entry, rest: seq<Byte>, nodes: nat)
    requires Accepted(d.s) && d.index < |d.s.structs| && OneWritten(d.s, d.index, e) && !e.Unknown?
    requires |PayloadOf(d.s, d.index, e)| < TWO64 && nodes <= d.limits.maxNodes
    ensures Reads(d, TypeAt(d.s, d.index, e.at), PayloadOf(d.s, d.index, e) + rest, nodes,
                  EntryResult(d, e, rest, nodes))
    decreases e, 0
  {
    var ty := TypeAt(d.s, d.index, e.at);
    if e.Nested? {
      var nested := Decoder(d.s, ty.index, d.limits, d.depth + 1);
      var bytes := Bytes(d.s, ty.index, e.entries);
      DelimitedRoundTrip(bytes, rest);
      TreeRead(nested, e.entries, nodes);
      NestedItem(d, ty.index, Delimited(bytes) + rest, bytes, rest, nodes, TreeResult(nested, e.entries, nodes));
      NestedEntry(d, e, rest, nodes);
    } else if IsText(ty) {
      TextRoundTrip(d, ty, e.value, rest, nodes);
    } else {
      ScalarRoundTrip(d, ty, e.value, rest, nodes);
    }
  }

  lemma NestedEntry(d: Decoder, e: Entry, rest: seq<Byte>, nodes: nat)
    requires d.index < |d.s.structs| && OneWritten(d.s, d.index, e) && e.Nested?
    ensures
      var nested := Decoder(d.s, TypeAt(d.s, d.index, e.at).index, d.limits, d.depth + 1);
      var result := TreeResult(nested, e.entries, nodes);
      EntryResult(d, e, rest, nodes)
      == if result.Some? then Some(Item(result.value.value, rest, result.value.nodes)) else None
  {
  }

  lemma {:induction false} TreeRead(d: Decoder, entries: seq<Entry>, nodes: nat)
    requires Accepted(d.s) && Written(d.s, d.index, entries)
    requires |Bytes(d.s, d.index, entries)| < TWO64 && nodes <= d.limits.maxNodes
    ensures ReadsMessage(d, Bytes(d.s, d.index, entries), nodes, TreeResult(d, entries, nodes))
    decreases entries, 2
  {
    var run := RunOf(d);
    if Entered(d.limits, d.depth, nodes).None? {
      AllRead(d, run, entries, InitialSlots(d.s, FieldsAt(d.s, d.index)), nodes + 1);
    }
    TreeStart(d, run, entries, nodes);
  }

  lemma TreeStart(d: Decoder, run: Point -> Result<Decoded>, entries: seq<Entry>, nodes: nat)
    requires IsRun(d, run) && Written(d.s, d.index, entries)
    requires Entered(d.limits, d.depth, nodes).None? ==>
      FieldsRead(d, run, entries, InitialSlots(d.s, FieldsAt(d.s, d.index)), nodes + 1)
    ensures ReadsMessage(d, Bytes(d.s, d.index, entries), nodes, TreeResult(d, entries, nodes))
  {
    var bytes, error := Bytes(d.s, d.index, entries), Entered(d.limits, d.depth, nodes);
    var p := Point(bytes, InitialSlots(d.s, FieldsAt(d.s, d.index)), nodes + 1);
    MessageIsRun(d, run, bytes, nodes);
    GivenIsRead(d, bytes, nodes, if error.Some? then Failure(error.value) else run(p), TreeResult(d, entries, nodes));
  }

  lemma {:induction false} AllRead(d: Decoder, run: Point -> Result<Decoded>, entries: seq<Entry>, slots: seq<Slot>,
                                   nodes: nat)
    requires Accepted(d.s) && IsRun(d, run) && Written(d.s, d.index, entries) && |slots| == |FieldsAt(d.s, d.index)|
    requires |Bytes(d.s, d.index, entries)| < TWO64 && nodes <= d.limits.maxNodes
    ensures FieldsRead(d, run, entries, slots, nodes)
    decreases entries, 1
  {
    var p := Point(Bytes(d.s, d.index, entries), slots, nodes);
    if entries == [] {
      EndOfFields(d, run, p);
    } else {
      var e, rest := entries[0], Bytes(d.s, d.index, entries[1..]);
      if e.Unknown? {
        UnknownSkipped(d, run, e.bytes, Point(rest, slots, nodes));
        AllRead(d, run, entries[1..], slots, nodes);
        assert p == Point(e.bytes + rest, slots, nodes);
        assert Nodes(entries) == Nodes(entries[1..]);
        assert Fits(entries, d.limits, d.depth) == Fits(entries[1..], d.limits, d.depth);
        assert Applied(d.s, d.index, entries, slots) == Applied(d.s, d.index, entries[1..], slots);
      } else {
        var body := PayloadOf(d.s, d.index, e) + rest;
        var item := EntryResult(d, e, rest, nodes);
        EntryRead(d, e, rest, nodes);
        assert p.bytes == KeyOf(FieldsAt(d.s, d.index)[e.at].tag, TypeAt(d.s, d.index, e.at)) + body;
        FieldStep(d, run, e.at, body, p, item);
        if item.Some? {
          var next := slots[e.at := Store(FieldsAt(d.s, d.index)[e.at], slots[e.at], item.value.value)];
          AllRead(d, run, entries[1..], next, item.value.nodes);
        }
      }
    }
  }

  /** The decoder is the fold of its fields: whatever their order, later items of a single field replace
      earlier ones, items of a repeated field are collected, and unknown fields do nothing. It fails
      exactly past its limits. */
  lemma DecodesTree(s: Schema, index: nat, entries: seq<Entry>, limits: Limits)
    requires WellFormed(s) && Written(s, index, entries) && limits.maxFrameBytes < TWO64
    ensures
      var bytes := Bytes(s, index, entries);
      var r := Decode(s, index, bytes, limits);
      if |bytes| <= limits.maxFrameBytes && Fits(entries, limits, 0) && 1 + Nodes(entries) <= limits.maxNodes
      then r == Success(MessageOf(s, index, entries)) else r.Failure?
  {
    var d := Decoder(s, index, limits, 0);
    var bytes := Bytes(s, index, entries);
    if |bytes| <= limits.maxFrameBytes {
      TreeRead(d, entries, 0);
      RootResult(d, bytes, TreeResult(d, entries, 0));
    }
  }

  // Unknown fields do not matter.

  /** Without unknown fields, at any depth. */
  function Known(entries: seq<Entry>): seq<Entry>
    decreases entries, 1
  {
    if entries == [] then []
    else if entries[0].Unknown? then Known(entries[1..])
    else [OneKnown(entries[0])] + Known(entries[1..])
  }

  function OneKnown(e: Entry): Entry
    decreases e, 0
  {
    if e.Nested? then Nested(e.at, Known(e.entries)) else e
  }

  lemma {:induction false} VarintGrows(a: nat, b: nat)
    requires a <= b
    ensures |Varint(a)| <= |Varint(b)|
  {
    if a >= 0x80 {
      VarintGrows(a / 0x80, b / 0x80);
    }
  }

  /** The known fields alone cost as many nodes and fit the same limits, and are no longer. */
  lemma {:induction false} KnownCosts(s: Schema, index: nat, entries: seq<Entry>, limits: Limits, depth: nat)
    requires Written(s, index, entries)
    ensures Written(s, index, Known(entries)) && |Bytes(s, index, Known(entries))| <= |Bytes(s, index, entries)|
    ensures Nodes(Known(entries)) == Nodes(entries)
    ensures Fits(Known(entries), limits, depth) == Fits(entries, limits, depth)
    decreases entries, 1
  {
    if entries != [] {
      KnownCosts(s, index, entries[1..], limits, depth);
      if !entries[0].Unknown? {
        OneKnownCosts(s, index, entries[0], limits, depth);
        assert Known(entries)[1..] == Known(entries[1..]);
      }
    }
  }

  lemma {:induction false} OneKnownCosts(s: Schema, index: nat, e: Entry, limits: Limits, depth: nat)
    requires index < |s.structs| && OneWritten(s, index, e) && !e.Unknown?
    ensures OneWritten(s, index, OneKnown(e)) && |OneBytes(s, index, OneKnown(e))| <= |OneBytes(s, index, e)|
    ensures OneNodes(OneKnown(e)) == OneNodes(e)
    ensures OneFits(OneKnown(e), limits, depth) == OneFits(e, limits, depth)
    decreases e, 0
  {
    if e.Nested? {
      var nested := TypeAt(s, index, e.at).index;
      KnownCosts(s, nested, e.entries, limits, depth + 1);
      VarintGrows(|Bytes(s, nested, Known(e.entries))|, |Bytes(s, nested, e.entries)|);
    }
  }

  /** They mean the same. */
  lemma {:induction false} KnownMeans(s: Schema, index: nat, entries: seq<Entry>, slots: seq<Slot>)
    requires Written(s, index, entries) && Written(s, index, Known(entries)) && |slots| == |FieldsAt(s, index)|
    ensures Applied(s, index, Known(entries), slots) == Applied(s, index, entries, slots)
    decreases entries, 1
  {
    if entries != [] {
      var e, known := entries[0], Known(entries);
      if e.Unknown? {
        KnownMeans(s, index, entries[1..], slots);
      } else {
        assert known[0] == OneKnown(e) && known[1..] == Known(entries[1..]);
        OneKnownMeans(s, index, e);
        var next := slots[e.at := Store(FieldsAt(s, index)[e.at], slots[e.at], ValueOf(s, index, e))];
        KnownMeans(s, index, entries[1..], next);
        assert Applied(s, index, known, slots) == Applied(s, index, known[1..], next);
      }
    }
  }

  lemma {:induction false} OneKnownMeans(s: Schema, index: nat, e: Entry)
    requires index < |s.structs| && OneWritten(s, index, e) && OneWritten(s, index, OneKnown(e)) && !e.Unknown?
    ensures ValueOf(s, index, OneKnown(e)) == ValueOf(s, index, e)
    decreases e, 0
  {
    if e.Nested? {
      var nested := TypeAt(s, index, e.at).index;
      KnownMeans(s, nested, e.entries, InitialSlots(s, FieldsAt(s, nested)));
    }
  }

  /** Unknown fields, any number of them and anywhere, do not change what is decoded. */
  lemma UnknownFieldsDoNotMatter(s: Schema, index: nat, entries: seq<Entry>, limits: Limits)
    requires WellFormed(s) && Written(s, index, entries)
    requires |Bytes(s, index, entries)| <= limits.maxFrameBytes < TWO64
    ensures Written(s, index, Known(entries))
    ensures
      var padded := Decode(s, index, Bytes(s, index, entries), limits);
      var plain := Decode(s, index, Bytes(s, index, Known(entries)), limits);
      if plain.Success? then padded == plain else padded.Failure?
  {
    KnownCosts(s, index, entries, limits, 0);
    KnownMeans(s, index, entries, InitialSlots(s, FieldsAt(s, index)));
    DecodesTree(s, index, entries, limits);
    DecodesTree(s, index, Known(entries), limits);
  }

  // Encoded values.

  /** The fields that encoding a message writes. */
  function TreeOf(s: Schema, fields: seq<Field>, slots: seq<Slot>, k: nat): seq<Entry>
    requires SlotsTyped(s, fields, slots) && k <= |slots|
    decreases slots, 2, |slots| - k
  {
    if k == |slots| then [] else SlotTree(s, fields[k], k, slots[k]) + TreeOf(s, fields, slots, k + 1)
  }

  function SlotTree(s: Schema, f: Field, at: nat, slot: Slot): seq<Entry>
    requires SlotTyped(s, f, slot)
    decreases slot, 1
  {
    if Emitted(s, f, slot) == [] then [] else ItemTrees(s, TypeOf(s, f.typeName), at, slot.items)
  }

  function ItemTrees(s: Schema, ty: Type, at: nat, items: seq<Value>): seq<Entry>
    requires ItemsTyped(s, ty, items)
    decreases items, 1
  {
    if items == [] then [] else [ItemTree(s, ty, at, items[0])] + ItemTrees(s, ty, at, items[1..])
  }

  function ItemTree(s: Schema, ty: Type, at: nat, v: Value): Entry
    requires Typed(s, ty, v)
    decreases v, 0
  {
    if ty.StructType? then Nested(at, TreeOf(s, FieldsAt(s, ty.index), v.slots, 0)) else Plain(at, v)
  }

  lemma {:induction false} WrittenJoined(s: Schema, index: nat, a: seq<Entry>, b: seq<Entry>)
    requires Written(s, index, a) && Written(s, index, b)
    ensures Written(s, index, a + b) && Bytes(s, index, a + b) == Bytes(s, index, a) + Bytes(s, index, b)
    decreases |a|
  {
    if a == [] {
      assert a + b == b;
    } else {
      WrittenJoined(s, index, a[1..], b);
      assert (a + b)[0] == a[0] && (a + b)[1..] == a[1..] + b;
    }
  }

  /** They are written as the encoding. */
  lemma {:induction false} TreeIsEncoding(s: Schema, index: nat, slots: seq<Slot>, k: nat)
    requires index < |s.structs| && SlotsTyped(s, FieldsAt(s, index), slots)
      && SlotTagsFit(s, FieldsAt(s, index), slots)
    requires k <= |slots|
    ensures
      var fields := FieldsAt(s, index);
      var tree := TreeOf(s, fields, slots, k);
      Written(s, index, tree) && Bytes(s, index, tree) == EncodeSlots(s, fields, slots, k)
    decreases slots, 2, |slots| - k
  {
    if k < |slots| {
      var fields := FieldsAt(s, index);
      var f, slot := fields[k], slots[k];
      var ty := TypeOf(s, f.typeName);
      assert SlotTagFits(s, f, slot);
      TreeIsEncoding(s, index, slots, k + 1);
      if Emitted(s, f, slot) != [] {
        ItemTreesAreEncoding(s, index, k, slot.items);
      }
      WrittenJoined(s, index, SlotTree(s, f, k, slot), TreeOf(s, fields, slots, k + 1));
    }
  }

  lemma {:induction false} ItemTreesAreEncoding(s: Schema, index: nat, at: nat, items: seq<Value>)
    requires index < |s.structs| && at < |FieldsAt(s, index)| && ItemsTyped(s, TypeAt(s, index, at), items)
    requires ItemTagsFit(s, FieldsAt(s, index)[at].tag, TypeAt(s, index, at), items)
    ensures
      var ty := TypeAt(s, index, at);
      var trees := ItemTrees(s, ty, at, items);
      Written(s, index, trees) && Bytes(s, index, trees) == EncodeItems(s, FieldsAt(s, index)[at].tag, ty, items)
    decreases items, 1
  {
    if items != [] {
      var ty := TypeAt(s, index, at);
      var trees := ItemTrees(s, ty, at, items);
      if ty.StructType? {
        TreeIsEncoding(s, ty.index, items[0].slots, 0);
      }
      ItemTreesAreEncoding(s, index, at, items[1..]);
      assert trees[0] == ItemTree(s, ty, at, items[0]) && trees[1..] == ItemTrees(s, ty, at, items[1..]);
      assert OneWritten(s, index, trees[0]);
      assert OneBytes(s, index, trees[0]) == KeyOf(FieldsAt(s, index)[at].tag, ty) + Payload(s, ty, items[0]);
    }
  }

  /** The encoding of a value, with any number of unknown fields before, between and after its fields
      and the items of a repeated field, and inside nested messages. */
  ghost predicate Pads(s: Schema, index: nat, v: Value, entries: seq<Entry>)
    requires index < |s.structs| && Typed(s, StructType(index), v)
  {
    Written(s, index, entries) && Known(entries) == TreeOf(s, FieldsAt(s, index), v.slots, 0)
  }

  /** The round trip with unknown fields anywhere: the value comes back exactly within the limits. */
  lemma PaddedRoundTrip(s: Schema, index: nat, v: Value, entries: seq<Entry>, limits: Limits)
    requires WellFormed(s) && index < |s.structs| && Typed(s, StructType(index), v) && TagsFit(s, StructType(index), v)
    requires Pads(s, index, v, entries) && |Bytes(s, index, entries)| <= limits.maxFrameBytes < TWO64
    ensures |Encode(s, index, v)| <= |Bytes(s, index, entries)|
    ensures
      var r := Decode(s, index, Bytes(s, index, entries), limits);
      if WithinLimits(s, index, v, limits) then r == Success(v) else r.Failure?
  {
    KnownCosts(s, index, entries, limits, 0);
    TreeIsEncoding(s, index, v.slots, 0);
    UnknownFieldsDoNotMatter(s, index, entries, limits);
    RoundTrip(s, index, v, limits);
  }
}
