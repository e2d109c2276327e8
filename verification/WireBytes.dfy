/** The bytes of the wire format, one by one, and what a reader makes of bytes that no writer wrote. */
module WireBytes {
  import opened MachineInt
  import opened Wrappers
  import opened Wire
  import opened WireStreams
  import opened Schema
  import opened Codec
  import opened CodecRoundTrip
  import opened UnknownFields
  import opened FieldTrees

  /** `v >> bits`. */
  function Shifted(v: nat, bits: nat): nat {
    if bits == 0 then v else Shifted(v / 2, bits - 1)
  }

  lemma {:induction false} ShiftTwice(v: nat, a: nat, b: nat)
    ensures Shifted(v, a + b) == Shifted(Shifted(v, a), b)
    decreases a
  {
    if a > 0 {
      ShiftTwice(v / 2, a - 1, b);
    }
  }

  lemma ShiftNext(v: nat, bits: nat)
    ensures Shifted(v, bits + 1) == Shifted(v, bits) / 2
  {
    ShiftTwice(v, bits, 1);
    assert Shifted(Shifted(v, bits), 1) == Shifted(Shifted(v, bits) / 2, 0);
  }

  lemma ShiftByte(v: nat)
    ensures Shifted(v, 7) == v / 0x80 && Shifted(v, 8) == v / 0x100
  {
    assert Shifted(v, 0) == v;
    ShiftNext(v, 0);
    ShiftNext(v, 1);
    ShiftNext(v, 2);
    ShiftNext(v, 3);
    ShiftNext(v, 4);
    ShiftNext(v, 5);
    ShiftNext(v, 6);
    ShiftNext(v, 7);
  }

  /** Byte i has the bits from 7i on, and its high bit says whether more follow. No byte is wasted. */
  lemma {:induction false} VarintBytes(v: nat, i: nat)
    ensures
      var bytes := Varint(v);
      && (i < |bytes| ==> bytes[i] == Shifted(v, 7 * i) % 0x80 + if i + 1 < |bytes| then 0x80 else 0)
      && (i < |bytes| - 1 ==> Shifted(v, 7 * (i + 1)) != 0)
      && (i == |bytes| ==> Shifted(v, 7 * i) == 0)
    decreases v
  {
    ShiftByte(v);
    if v >= 0x80 {
      var low, w := VarintMore(v);
      assert w == v / 0x80;
      ShiftTwice(v, 7, 7 * i);
      if i > 0 {
        ShiftTwice(v, 7, 7 * (i - 1));
        VarintBytes(w, i - 1);
      }
    }
  }

  /** Byte i has the bits from 8i on. */
  lemma {:induction false} LittleEndianBytes(v: nat, size: nat, i: nat)
    requires i < size
    ensures LittleEndian(v, size)[i] == Shifted(v, 8 * i) % 0x100
    decreases size
  {
    if i > 0 {
      ShiftByte(v);
      ShiftTwice(v, 8, 8 * (i - 1));
      LittleEndianBytes(v / 0x100, size - 1, i - 1);
    }
  }

  /** A key holds the tag above three bits: 0 for scalars, 1 for doubles, 2 for texts and messages. */
  lemma KeyIs(tag: nat, ty: Type)
    ensures KeyOf(tag, ty) == Varint(8 * tag + if ty.F64Type? then 1 else if IsText(ty) || ty.StructType? then 2 else 0)
  {
  }

  /** What a key is read as: of the tag 32 bits are kept, and 0 is an error. */
  lemma KeyRead(bytes: seq<Byte>, word: nat, fieldType: nat, rest: seq<Byte>)
    requires fieldType < 8 && TakeVarint(bytes) == Success(Got(8 * word + fieldType, rest))
    ensures
      var tag := word % 0x1_0000_0000;
      if tag == 0 then TakeKey(bytes).Failure? else TakeKey(bytes) == Success(Got(Key(tag, fieldType), rest))
  {
    var key := 8 * word + fieldType;
    assert key / 8 == word && key % 8 == fieldType;
  }

  /** Four bytes are skipped for a field type that no writer writes, and the types 3, 4, 6 and 7 are errors. */
  lemma OtherTypes(fields: seq<Field>, tag: nat, fieldType: nat, bytes: seq<Byte>)
    requires 0 < tag <= MAX_TAG && FieldWithTag(fields, tag, 0) == |fields|
    requires fieldType in {3, 4, 5, 6, 7}
    ensures IsUnknown(fields, KeyBytes(tag, fieldType) + bytes) <==> fieldType == 5 && |bytes| == 4
  {
    KeyRoundTrip(tag, fieldType, bytes);
  }

  /** What a scalar is read as, whatever wrote it. */
  lemma ScalarRead(d: Decoder, ty: Type, bytes: seq<Byte>, u: nat, n: int, rest: seq<Byte>, nodes: nat)
    requires TakeVarint(bytes) == Success(Got(u, rest)) && u < TWO64
    requires IsInt64(n) && u == if n < 0 then -2 * n - 1 else 2 * n
    ensures
      var r := DecodeItem(d.s, ty, VARINT, bytes, d.limits, d.depth, nodes);
      match ty
      case BoolType => r == Success(Item(Scalar(if u == 0 then 0 else 1), rest, nodes))
      case U32Type => if u < 0x1_0000_0000 then r == Success(Item(Scalar(u), rest, nodes)) else r.Failure?
      case U64Type => r == Success(Item(Scalar(u), rest, nodes))
      case EnumType => r == Success(Item(Scalar(u % 0x1_0000_0000), rest, nodes))
      case I64Type => r == Success(Item(Scalar(n), rest, nodes))
      case _ => r.Failure?
  {
    BitsMean(ty, u, n);
  }

  lemma BitsMean(ty: Type, u: nat, n: int)
    requires u < TWO64 && IsInt64(n) && u == if n < 0 then -2 * n - 1 else 2 * n
    ensures FromVarint(ty, u)
         == match ty
            case BoolType => if u == 0 then 0 else 1
            case EnumType => u % 0x1_0000_0000
            case I64Type => n
            case _ => u
  {
    ZigZagRoundTrip(n);
    assert ZigZag(n) == u == u % TWO64;
  }

  // Frames.

  lemma LowByte(low: Byte, rest: nat)
    ensures (low + 0x100 * rest) % 0x100 == low && (low + 0x100 * rest) / 0x100 == rest
  {
  }

  lemma {:induction false} LittleOfFrom(bytes: seq<Byte>)
    ensures LittleEndian(FromLittle(bytes), |bytes|) == bytes
  {
    if bytes != [] {
      LowByte(bytes[0], FromLittle(bytes[1..]));
      LittleOfFrom(bytes[1..]);
      assert LittleEndian(FromLittle(bytes), |bytes|) == [bytes[0]] + bytes[1..];
    }
  }

  lemma {:induction false} FromLittleFits(bytes: seq<Byte>)
    ensures FitsBytes(FromLittle(bytes), |bytes|)
  {
    if bytes != [] {
      FromLittleFits(bytes[1..]);
    }
  }

  lemma FitsWords(v: nat)
    ensures FitsBytes(v, 2) ==> v < 0x1_0000
    ensures FitsBytes(v, 4) ==> v < 0x1_0000_0000
    ensures FitsBytes(v, 8) ==> v < TWO64
  {
    var half := v / 0x1_0000_0000;
    assert FitsBytes(v, 2) == FitsBytes(v / 0x1_0000, 0);
    assert FitsBytes(v, 4) == FitsBytes(v / 0x1_0000, 2) == FitsBytes(half, 0);
    assert FitsBytes(v, 8) == FitsBytes(v / 0x1_0000, 6) == FitsBytes(half, 4);
    assert FitsBytes(half, 4) == FitsBytes(half / 0x1_0000, 2) == FitsBytes(half / 0x1_0000_0000, 0);
  }

  lemma WordAt(bytes: seq<Byte>, at: nat, size: nat) returns (v: nat)
    requires at + size <= |bytes| && (size == 2 || size == 4 || size == 8)
    ensures v == FromLittle(bytes[at..at + size]) && LittleEndian(v, size) == bytes[at..at + size]
    ensures (size == 2 ==> v < 0x1_0000) && (size == 4 ==> v <= UINT32_MAX) && (size == 8 ==> v < TWO64)
  {
    v := FromLittle(bytes[at..at + size]);
    LittleOfFrom(bytes[at..at + size]);
    FromLittleFits(bytes[at..at + size]);
    FitsWords(v);
  }

  lemma FrameParts(bytes: seq<Byte>)
    requires |bytes| >= FRAME_HEADER_BYTES
    ensures bytes[0..4] + bytes[4..6] + bytes[6..8] + bytes[8..16] + bytes[16..20] + bytes[20..] == bytes
  {
  }

  /** A reader accepts exactly the bytes of frames within its limit. */
  lemma FrameIff(bytes: seq<Byte>, maxFrameBytes: nat, frame: Frame)
    ensures DecodeFrame(bytes, maxFrameBytes) == Success(frame)
       <==> IsFrame(frame) && EncodeFrame(frame) == Success(bytes) && |frame.payload| <= maxFrameBytes
  {
    if IsFrame(frame) && EncodeFrame(frame) == Success(bytes) {
      FrameRoundTrip(frame, maxFrameBytes);
    }
    if DecodeFrame(bytes, maxFrameBytes) == Success(frame) {
      FrameParts(bytes);
      var magic := WordAt(bytes, 0, 4);
      var version := WordAt(bytes, 4, 2);
      var kind := WordAt(bytes, 6, 2);
      var request := WordAt(bytes, 8, 8);
      var size := WordAt(bytes, 16, 4);
    }
  }

  // Truncated messages.

  lemma TurnOnField(d: Decoder, at: nat, body: seq<Byte>, p: Point, item: Option<Item>)
    requires Accepted(d.s) && AtPoint(d, p) && at < |p.slots| && 0 < FieldsAt(d.s, d.index)[at].tag <= MAX_TAG
    requires var f := FieldsAt(d.s, d.index)[at];
      var ty := TypeOf(d.s, f.typeName);
      p.bytes == KeyOf(f.tag, ty) + body && Reads(d, ty, body, p.nodes, item)
    ensures p.bytes != [] && StepOf(d, p).Success? ==>
      && item.Some? && StepOf(d, p).value.bytes == item.value.rest && StepOf(d, p).value.nodes == item.value.nodes
      && AtPoint(d, StepOf(d, p).value)
  {
    var f := FieldsAt(d.s, d.index)[at];
    var ty := TypeOf(d.s, f.typeName);
    KeyRoundTrip(f.tag, WireTypeOf(ty), body);
    assert WellFormed(d.s);
    assert FieldsValid(d.s, d.s.structs[d.index].fields);
    FieldFound(d.s, FieldsAt(d.s, d.index), at, 0);
  }

  lemma TurnOnUnknown(d: Decoder, step: Point -> Result<Point>, unknown: seq<Byte>, rest: seq<Byte>, p: Point)
    requires IsStep(d, step) && AtPoint(d, p) && Skippable(FieldsAt(d.s, d.index), unknown) && p.bytes == unknown + rest
    ensures p.bytes != [] && step(p) == Success(p.(bytes := rest))
  {
    assert IsUnknown(FieldsAt(d.s, d.index), unknown);
    var front := p.(bytes := unknown);
    assert step(front) == StepOf(d, front) == Success(p.(bytes := []));
    StepLocal(d, step, front, rest);
    assert [] + rest == rest;
  }

  /** The loop's next turn, on bytes that begin with a whole field, leaves the rest if it does not fail. */
  lemma TurnOnEntry(d: Decoder, step: Point -> Result<Point>, e: Entry, rest: seq<Byte>, p: Point)
    requires Accepted(d.s) && IsStep(d, step) && d.index < |d.s.structs| && OneWritten(d.s, d.index, e)
    requires |OneBytes(d.s, d.index, e)| < TWO64 && p.nodes <= d.limits.maxNodes && AtPoint(d, p)
    requires p.bytes == OneBytes(d.s, d.index, e) + rest && p.bytes != [] && step(p).Success?
    ensures step(p).value.bytes == rest && AtPoint(d, step(p).value) && step(p).value.nodes <= d.limits.maxNodes
  {
    assert step(p) == StepOf(d, p);
    if e.Unknown? {
      TurnOnUnknown(d, step, e.bytes, rest, p);
    } else {
      var item := EntryResult(d, e, rest, p.nodes);
      EntryRead(d, e, rest, p.nodes);
      EntryBytes(d, e, rest, p.bytes);
      TurnOnField(d, e.at, PayloadOf(d.s, d.index, e) + rest, p, item);
      assert item.Some? ==> item.value.rest == rest && item.value.nodes <= d.limits.maxNodes;
    }
  }

  lemma EntryBytes(d: Decoder, e: Entry, rest: seq<Byte>, bytes: seq<Byte>)
    requires d.index < |d.s.structs| && OneWritten(d.s, d.index, e) && !e.Unknown?
    requires bytes == OneBytes(d.s, d.index, e) + rest
    ensures bytes
         == KeyOf(FieldsAt(d.s, d.index)[e.at].tag, TypeAt(d.s, d.index, e.at)) + (PayloadOf(d.s, d.index, e) + rest)
  {
  }

  /** A prefix of some fields that is decoded consists of whole fields. */
  lemma {:induction false} PrefixIsWhole(d: Decoder, run: Point -> Result<Decoded>, step: Point -> Result<Point>,
                                         entries: seq<Entry>, p: Point, more: seq<Byte>)
    returns (k: nat)
    requires Accepted(d.s) && IsRun(d, run) && IsStep(d, step) && Written(d.s, d.index, entries) && AtPoint(d, p)
    requires |Bytes(d.s, d.index, entries)| < TWO64 && p.nodes <= d.limits.maxNodes
    requires Bytes(d.s, d.index, entries) == p.bytes + more && run(p).Success?
    ensures k <= |entries| && Written(d.s, d.index, entries[..k]) && Bytes(d.s, d.index, entries[..k]) == p.bytes
    decreases entries
  {
    if p.bytes == [] {
      k := 0;
    } else {
      var e, rest := entries[0], Bytes(d.s, d.index, entries[1..]);
      var whole := p.(bytes := p.bytes + more);
      RunStep(d, run, step, p);
      StepLocal(d, step, p, more);
      TurnOnEntry(d, step, e, rest, whole);
      var next := step(p).value;
      assert next.bytes + more == rest;
      var j := PrefixIsWhole(d, run, step, entries[1..], next, more);
      k := j + 1;
      WrittenFront(d.s, d.index, entries, j);
      assert p.bytes == OneBytes(d.s, d.index, e) + next.bytes by {
        SameEnd(p.bytes, OneBytes(d.s, d.index, e), next.bytes, more);
      }
    }
  }

  lemma SameEnd(p: seq<Byte>, a: seq<Byte>, b: seq<Byte>, more: seq<Byte>)
    requires p + more == a + (b + more)
    ensures p == a + b
  {
    assert |p| == |a + b|;
    assert p == (p + more)[..|p|];
    assert a + b == (a + (b + more))[..|a + b|];
  }

  lemma WrittenFront(s: Schema, index: nat, entries: seq<Entry>, j: nat)
    requires Written(s, index, entries) && entries != [] && j < |entries| && Written(s, index, entries[1..][..j])
    ensures Written(s, index, entries[..j + 1])
    ensures Bytes(s, index, entries[..j + 1]) == OneBytes(s, index, entries[0]) + Bytes(s, index, entries[1..][..j])
  {
    assert entries[..j + 1][1..] == entries[1..][..j];
  }

  /** A message that is cut off is rejected, unless it is cut between two fields; then the fields before it are
      decoded. */
  lemma TruncatedIsRejected(s: Schema, index: nat, entries: seq<Entry>, limits: Limits, n: nat) returns (k: nat)
    requires WellFormed(s) && Written(s, index, entries) && limits.maxFrameBytes < TWO64
    requires n <= |Bytes(s, index, entries)| < TWO64
    ensures Decode(s, index, Bytes(s, index, entries)[..n], limits).Success? ==>
      && k <= |entries| && Written(s, index, entries[..k]) && n == |Bytes(s, index, entries[..k])|
      && Decode(s, index, Bytes(s, index, entries)[..n], limits)
         == Success(FieldTrees.MessageOf(s, index, entries[..k]))
  {
    var bytes := Bytes(s, index, entries)[..n];
    k := 0;
    if Decode(s, index, bytes, limits).Success? {
      var d := Decoder(s, index, limits, 0);
      var run := RunOf(d);
      var step := StepsOf(d);
      MessageIsRun(d, run, bytes, 0);
      var p := Point(bytes, InitialSlots(s, FieldsAt(s, index)), 1);
      assert run(p).Success?;
      k := PrefixIsWhole(d, run, step, entries, p, Bytes(s, index, entries)[n..]);
      DecodesTree(s, index, entries[..k], limits);
    }
  }

  lemma {:induction false} WrittenRest(s: Schema, index: nat, entries: seq<Entry>, k: nat)
    requires Written(s, index, entries) && k <= |entries|
    ensures Written(s, index, entries[k..])
    decreases k
  {
    if k == 0 {
      assert entries[0..] == entries;
    } else {
      assert entries[1..][k - 1..] == entries[k..];
      WrittenRest(s, index, entries[1..], k - 1);
    }
  }

  /** A field takes at least two bytes. */
  lemma EntryIsLong(s: Schema, index: nat, e: Entry)
    requires index < |s.structs| && OneWritten(s, index, e)
    ensures |OneBytes(s, index, e)| >= 2
  {
    if e.Unknown? {
      assert IsUnknown(FieldsAt(s, index), e.bytes);
    }
  }

  /** A message without its last byte is rejected. */
  lemma LastByteMatters(s: Schema, index: nat, entries: seq<Entry>, limits: Limits)
    requires WellFormed(s) && Written(s, index, entries) && limits.maxFrameBytes < TWO64
    requires 0 < |Bytes(s, index, entries)| < TWO64
    ensures Decode(s, index, Bytes(s, index, entries)[..|Bytes(s, index, entries)| - 1], limits).Failure?
  {
    var n := |Bytes(s, index, entries)| - 1;
    var k := TruncatedIsRejected(s, index, entries, limits, n);
    if Decode(s, index, Bytes(s, index, entries)[..n], limits).Success? {
      WrittenRest(s, index, entries, k);
      assert entries[..k] + entries[k..] == entries;
      WrittenJoined(s, index, entries[..k], entries[k..]);
      if k < |entries| {
        EntryIsLong(s, index, entries[k..][0]);
      }
    }
  }
}
