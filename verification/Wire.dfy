/** The wire format: keys, variable-length integers, fixed words and length-delimited bytes. */
module Wire {
  import opened MachineInt
  import opened Wrappers

  type Byte = n: int | 0 <= n < 256

  const MAX_TAG := 0x1FFF_FFFF

  // Field types, as the low three bits of a key.
  const VARINT := 0
  const FIXED64 := 1
  const DELIMITED := 2
  const FIXED32 := 5

  /** A value and the bytes after it. */
  datatype Got<+T> = Got(value: T, rest: seq<Byte>)

  datatype Key = Key(tag: nat, fieldType: nat)

  const TRUNCATED := "truncated macro protocol payload"

  // Writing.

  /** Seven bits a byte, lowest first; the high bit says that more follow. */
  function Varint(v: nat): (bytes: seq<Byte>)
    ensures bytes != []
  {
    if v < 0x80 then [v] else [v % 0x80 + 0x80] + Varint(v / 0x80)
  }

  function LittleEndian(v: nat, size: nat): (bytes: seq<Byte>)
    ensures |bytes| == size
  {
    if size == 0 then [] else [v % 0x100] + LittleEndian(v / 0x100, size - 1)
  }

  function KeyBytes(tag: nat, fieldType: nat): (bytes: seq<Byte>)
    ensures bytes != []
  {
    Varint(tag * 8 + fieldType)
  }

  function Delimited(payload: seq<Byte>): (bytes: seq<Byte>)
    ensures |bytes| > |payload|
  {
    Varint(|payload|) + payload
  }

  /** `(v << 1) ^ (v >> 63)` on 64 bits: exclusive or with all ones is the complement. */
  function ZigZag(v: int): nat
    requires IsInt64(v)
  {
    var shifted := Wrap(2 * v);
    if v < 0 then TWO64 - 1 - shifted else shifted
  }

  /** `(u >> 1) ^ (~(u & 1) + 1)`, read as a signed word. */
  function UnZigZag(u: nat): int
    requires u < TWO64
  {
    var word := if u % 2 == 1 then TWO64 - 1 - u / 2 else u / 2;
    if word > INT64_MAX then word - TWO64 else word
  }

  // Reading.

  /** The value of the bytes from the `k`th byte of a variable-length integer on, in units of 128^k.
      Of a tenth byte one bit is left; an eleventh is an error. */
  function TakeVarintAt(bytes: seq<Byte>, k: nat): (r: Result<Got<nat>>)
    requires k <= 10
    ensures r.Success? ==> |r.value.rest| < |bytes|
    decreases 10 - k
  {
    if k == 10 then Failure("macro protocol varint overflow")
    else if bytes == [] then Failure(TRUNCATED)
    else
      var low := if k == 9 then bytes[0] % 2 else bytes[0] % 0x80;
      if bytes[0] < 0x80 then Success(Got(low, bytes[1..]))
      else
        var later :- TakeVarintAt(bytes[1..], k + 1);
        Success(Got(low + 0x80 * later.value, later.rest))
  }

  function TakeVarint(bytes: seq<Byte>): (r: Result<Got<nat>>)
    ensures r.Success? ==> |r.value.rest| < |bytes|
  {
    TakeVarintAt(bytes, 0)
  }

  function TakeKey(bytes: seq<Byte>): (r: Result<Got<Key>>)
    ensures r.Success? ==> |r.value.rest| < |bytes|
  {
    var key :- TakeVarint(bytes);
    var tag := key.value / 8 % 0x1_0000_0000;
    if tag == 0 then Failure("macro protocol field tag zero is invalid")
    else Success(Got(Key(tag, key.value % 8), key.rest))
  }

  function FromLittle(bytes: seq<Byte>): nat {
    if bytes == [] then 0 else bytes[0] + 0x100 * FromLittle(bytes[1..])
  }

  function TakeFixed(bytes: seq<Byte>, size: nat): (r: Result<Got<nat>>)
    ensures r.Success? ==> |r.value.rest| <= |bytes|
  {
    if size > |bytes| then Failure(TRUNCATED) else Success(Got(FromLittle(bytes[..size]), bytes[size..]))
  }

  function TakeDelimited(bytes: seq<Byte>): (r: Result<Got<seq<Byte>>>)
    ensures r.Success? ==> |r.value.rest| < |bytes| && |r.value.value| < |bytes|
  {
    var length :- TakeVarint(bytes);
    if length.value > |length.rest| then Failure(TRUNCATED)
    else Success(Got(length.rest[..length.value], length.rest[length.value..]))
  }

  /** The bytes after a field of a type. */
  function Skipped(bytes: seq<Byte>, fieldType: nat): (r: Result<seq<Byte>>)
    ensures r.Success? ==> |r.value| <= |bytes|
  {
    if fieldType == VARINT then
      var got :- TakeVarint(bytes);
      Success(got.rest)
    else if fieldType == FIXED64 then
      if 8 > |bytes| then Failure(TRUNCATED) else Success(bytes[8..])
    else if fieldType == DELIMITED then
      var got :- TakeDelimited(bytes);
      Success(got.rest)
    else if fieldType == FIXED32 then
      if 4 > |bytes| then Failure(TRUNCATED) else Success(bytes[4..])
    else Failure("unsupported macro protocol wire type")
  }

  // What is written is read back.

  /** How much is left for the bytes from the `k`th on: 2^(64 - 7k). */
  function Room(k: nat): nat
    requires k <= 9
    decreases 9 - k
  {
    if k == 9 then 2 else 0x80 * Room(k + 1)
  }

  lemma RoomForAll()
    ensures Room(0) == TWO64
  {
    assert Room(8) == 0x100;
    assert Room(5) == 0x80 * 0x80 * 0x80 * 0x100;
    assert Room(2) == 0x80 * 0x80 * 0x80 * Room(5);
  }

  lemma RoomStep(low: nat, w: nat, k: nat)
    requires k <= 9 && low + 0x80 * w < Room(k)
    ensures k == 9 ==> w == 0 && low < 2
    ensures k < 9 ==> w < Room(k + 1)
  {
  }

  lemma VarintMore(v: nat) returns (low: nat, w: nat)
    requires v >= 0x80
    ensures low < 0x80 && v == low + 0x80 * w && 0 < w < v
    ensures Varint(v) == [low + 0x80] + Varint(w)
  {
    low, w := v % 0x80, v / 0x80;
  }

  lemma TakeLast(v: nat, tail: seq<Byte>, k: nat)
    requires k <= 9 && v < 0x80 && (k == 9 ==> v < 2)
    ensures TakeVarintAt([v] + tail, k) == Success(Got(v, tail))
  {
    assert ([v] + tail)[1..] == tail;
  }

  lemma TakeMore(low: nat, tail: seq<Byte>, k: nat, w: nat, rest: seq<Byte>)
    requires k < 9 && low < 0x80 && TakeVarintAt(tail, k + 1) == Success(Got(w, rest))
    ensures TakeVarintAt([low + 0x80] + tail, k) == Success(Got(low + 0x80 * w, rest))
  {
    assert ([low + 0x80] + tail)[1..] == tail;
  }

  lemma Regroup(a: seq<Byte>, b: seq<Byte>, c: seq<Byte>)
    ensures a + b + c == a + (b + c)
  {
  }

  lemma {:induction false} VarintRoundTripAt(v: nat, k: nat, rest: seq<Byte>)
    requires k <= 9 && v < Room(k)
    ensures TakeVarintAt(Varint(v) + rest, k) == Success(Got(v, rest))
    decreases v
  {
    if v < 0x80 {
      RoomStep(v, 0, k);
      TakeLast(v, rest, k);
    } else {
      var low, w := VarintMore(v);
      RoomStep(low, w, k);
      VarintRoundTripAt(w, k + 1, rest);
      TakeMore(low, Varint(w) + rest, k, w, rest);
      Regroup([low + 0x80], Varint(w), rest);
    }
  }

  /** A 64-bit integer is read back, and the bytes after it are left. */
  lemma VarintRoundTrip(v: nat, rest: seq<Byte>)
    requires v < TWO64
    ensures TakeVarint(Varint(v) + rest) == Success(Got(v, rest))
  {
    RoomForAll();
    VarintRoundTripAt(v, 0, rest);
  }

  lemma KeyRoundTrip(tag: nat, fieldType: nat, rest: seq<Byte>)
    requires 0 < tag <= MAX_TAG && fieldType < 8
    ensures TakeKey(KeyBytes(tag, fieldType) + rest) == Success(Got(Key(tag, fieldType), rest))
  {
    VarintRoundTrip(tag * 8 + fieldType, rest);
    KeyParts(KeyBytes(tag, fieldType) + rest, tag, fieldType, rest);
  }

  lemma KeyParts(bytes: seq<Byte>, tag: nat, fieldType: nat, rest: seq<Byte>)
    requires 0 < tag <= MAX_TAG && fieldType < 8
    requires TakeVarint(bytes) == Success(Got(tag * 8 + fieldType, rest))
    ensures TakeKey(bytes) == Success(Got(Key(tag, fieldType), rest))
  {
    KeyBits(tag, fieldType);
  }

  lemma KeyBits(tag: nat, fieldType: nat)
    requires 0 < tag <= MAX_TAG && fieldType < 8
    ensures var key := tag * 8 + fieldType; key / 8 % 0x1_0000_0000 == tag && key % 8 == fieldType
  {
    var key := tag * 8 + fieldType;
    assert key / 8 == tag;
  }

  lemma ZigZagRoundTrip(v: int)
    requires IsInt64(v)
    ensures ZigZag(v) < TWO64 && UnZigZag(ZigZag(v)) == v
    ensures ZigZag(v) == if v < 0 then -2 * v - 1 else 2 * v
  {
  }

  /** Does the value fit a number of bytes? */
  predicate FitsBytes(v: nat, size: nat) {
    if size == 0 then v == 0 else FitsBytes(v / 0x100, size - 1)
  }

  lemma {:induction false} LittleRoundTrip(v: nat, size: nat)
    requires FitsBytes(v, size)
    ensures FromLittle(LittleEndian(v, size)) == v
  {
    if size > 0 {
      LittleRoundTrip(v / 0x100, size - 1);
      assert LittleEndian(v, size)[1..] == LittleEndian(v / 0x100, size - 1);
    }
  }

  lemma WordsFit(v: nat)
    ensures v < 0x1_0000 ==> FitsBytes(v, 2)
    ensures v < 0x1_0000_0000 ==> FitsBytes(v, 4)
    ensures v < TWO64 ==> FitsBytes(v, 8)
  {
    var half := v / 0x1_0000_0000;
    assert FitsBytes(v, 2) == FitsBytes(v / 0x1_0000, 0);
    assert FitsBytes(v, 4) == FitsBytes(v / 0x1_0000, 2) == FitsBytes(half, 0);
    assert FitsBytes(v, 8) == FitsBytes(v / 0x1_0000, 6) == FitsBytes(half, 4);
    assert FitsBytes(half, 4) == FitsBytes(half / 0x1_0000, 2) == FitsBytes(half / 0x1_0000_0000, 0);
  }

  lemma FixedRoundTrip(v: nat, rest: seq<Byte>)
    requires v < TWO64
    ensures TakeFixed(LittleEndian(v, 8) + rest, 8) == Success(Got(v, rest))
  {
    WordsFit(v);
    LittleRoundTrip(v, 8);
    var bytes := LittleEndian(v, 8) + rest;
    assert bytes[..8] == LittleEndian(v, 8) && bytes[8..] == rest;
  }

  lemma DelimitedRoundTrip(payload: seq<Byte>, rest: seq<Byte>)
    requires |payload| < TWO64
    ensures TakeDelimited(Delimited(payload) + rest) == Success(Got(payload, rest))
  {
    assert Delimited(payload) + rest == Varint(|payload|) + (payload + rest);
    VarintRoundTrip(|payload|, payload + rest);
    assert (payload + rest)[..|payload|] == payload && (payload + rest)[|payload|..] == rest;
  }

  // Reading looks at nothing past what it reads.

  lemma {:induction false} TakeVarintLocal(bytes: seq<Byte>, k: nat, more: seq<Byte>)
    requires k <= 10 && TakeVarintAt(bytes, k).Success?
    ensures var got := TakeVarintAt(bytes, k).value;
      TakeVarintAt(bytes + more, k) == Success(Got(got.value, got.rest + more))
    decreases 10 - k
  {
    assert (bytes + more)[1..] == bytes[1..] + more;
    if bytes[0] >= 0x80 {
      TakeVarintLocal(bytes[1..], k + 1, more);
    }
  }

  lemma TakeKeyLocal(bytes: seq<Byte>, more: seq<Byte>)
    requires TakeKey(bytes).Success?
    ensures var got := TakeKey(bytes).value;
      TakeKey(bytes + more) == Success(Got(got.value, got.rest + more))
  {
    TakeVarintLocal(bytes, 0, more);
  }

  lemma TakeFixedLocal(bytes: seq<Byte>, size: nat, more: seq<Byte>)
    requires TakeFixed(bytes, size).Success?
    ensures var got := TakeFixed(bytes, size).value;
      TakeFixed(bytes + more, size) == Success(Got(got.value, got.rest + more))
  {
    assert (bytes + more)[..size] == bytes[..size] && (bytes + more)[size..] == bytes[size..] + more;
  }

  lemma TakeDelimitedLocal(bytes: seq<Byte>, more: seq<Byte>)
    requires TakeDelimited(bytes).Success?
    ensures var got := TakeDelimited(bytes).value;
      TakeDelimited(bytes + more) == Success(Got(got.value, got.rest + more))
  {
    TakeVarintLocal(bytes, 0, more);
    var length := TakeVarint(bytes).value;
    SplitLonger(length.rest, length.value, more);
  }

  lemma SplitLonger(bytes: seq<Byte>, at: nat, more: seq<Byte>)
    requires at <= |bytes|
    ensures (bytes + more)[..at] == bytes[..at] && (bytes + more)[at..] == bytes[at..] + more
  {
  }

  lemma SkippedLocal(bytes: seq<Byte>, fieldType: nat, more: seq<Byte>)
    requires Skipped(bytes, fieldType).Success?
    ensures var rest := Skipped(bytes, fieldType).value;
      Skipped(bytes + more, fieldType) == Success(rest + more)
  {
    if fieldType == VARINT {
      TakeVarintLocal(bytes, 0, more);
    } else if fieldType == DELIMITED {
      TakeDelimitedLocal(bytes, more);
    } else if fieldType == FIXED64 {
      assert (bytes + more)[8..] == bytes[8..] + more;
    } else {
      assert (bytes + more)[4..] == bytes[4..] + more;
    }
  }

  // Frames.

  const UINT32_MAX := 0xFFFF_FFFF
  const FRAME_MAGIC := 0x5544_5544
  const FRAME_HEADER_BYTES := 20

  datatype Frame = Frame(version: nat, kind: nat, request: nat, payload: seq<Byte>)

  predicate IsFrame(frame: Frame) {
    frame.version < 0x1_0000 && frame.kind < 0x1_0000 && frame.request < TWO64
  }

  function EncodeFrame(frame: Frame): Result<seq<Byte>> {
    if |frame.payload| > UINT32_MAX then Failure("macro protocol frame payload is too large")
    else Success(LittleEndian(FRAME_MAGIC, 4) + LittleEndian(frame.version, 2) + LittleEndian(frame.kind, 2)
                 + LittleEndian(frame.request, 8) + LittleEndian(|frame.payload|, 4) + frame.payload)
  }

  function DecodeFrame(bytes: seq<Byte>, maxFrameBytes: nat): Result<Frame> {
    if |bytes| < FRAME_HEADER_BYTES then Failure("truncated macro protocol frame")
    else if FromLittle(bytes[0..4]) != FRAME_MAGIC then Failure("invalid macro protocol frame magic")
    else
      var size := FromLittle(bytes[16..20]);
      if size > maxFrameBytes then Failure("macro protocol frame exceeds size limit")
      else if |bytes| != FRAME_HEADER_BYTES + size then Failure("macro protocol frame length mismatch")
      else Success(Frame(FromLittle(bytes[4..6]), FromLittle(bytes[6..8]), FromLittle(bytes[8..16]), bytes[20..]))
  }

  lemma FrameWord(bytes: seq<Byte>, at: nat, size: nat, v: nat)
    requires at + size <= |bytes| && bytes[at..at + size] == LittleEndian(v, size)
    requires (size == 2 && v < 0x1_0000) || (size == 4 && v <= UINT32_MAX) || (size == 8 && v < TWO64)
    ensures FromLittle(bytes[at..at + size]) == v
  {
    WordsFit(v);
    LittleRoundTrip(v, size);
  }

  /** The words of an encoded frame. */
  lemma FrameWords(frame: Frame, bytes: seq<Byte>)
    requires IsFrame(frame) && EncodeFrame(frame) == Success(bytes)
    ensures |bytes| == FRAME_HEADER_BYTES + |frame.payload| && bytes[20..] == frame.payload
    ensures FromLittle(bytes[0..4]) == FRAME_MAGIC && FromLittle(bytes[4..6]) == frame.version
    ensures FromLittle(bytes[6..8]) == frame.kind && FromLittle(bytes[8..16]) == frame.request
    ensures FromLittle(bytes[16..20]) == |frame.payload|
  {
    FrameWord(bytes, 0, 4, FRAME_MAGIC);
    FrameWord(bytes, 4, 2, frame.version);
    FrameWord(bytes, 6, 2, frame.kind);
    FrameWord(bytes, 8, 8, frame.request);
    FrameWord(bytes, 16, 4, |frame.payload|);
  }

  /** A frame is read back exactly when its payload is within the limits of both sides. */
  lemma FrameRoundTrip(frame: Frame, maxFrameBytes: nat)
    requires IsFrame(frame)
    ensures EncodeFrame(frame).Success? <==> |frame.payload| <= UINT32_MAX
    ensures EncodeFrame(frame).Success? ==>
      var read := DecodeFrame(EncodeFrame(frame).value, maxFrameBytes);
      if |frame.payload| <= maxFrameBytes then read == Success(frame) else read.Failure?
  {
    if EncodeFrame(frame).Success? {
      FrameWords(frame, EncodeFrame(frame).value);
    }
  }
}
