/** The writer and the reader of the wire format, as objects that advance. */
module WireStreams {
  import opened MachineInt
  import opened Wrappers
  import opened Wire

  /** A word shifted left by 7k bits, before it is cut to 64. */
  function Scaled(k: nat, x: nat): nat {
    if k == 0 then x else Scaled(k - 1, 0x80 * x)
  }

  lemma {:induction false} ScaledSum(k: nat, x: nat, y: nat)
    ensures Scaled(k, x + y) == Scaled(k, x) + Scaled(k, y)
  {
    if k > 0 {
      ScaledSum(k - 1, 0x80 * x, 0x80 * y);
    }
  }

  lemma {:induction false} ScaledFits(k: nat, x: nat)
    requires k <= 9 && x < Room(k)
    ensures Scaled(k, x) < TWO64
  {
    if k == 0 {
      RoomForAll();
    } else {
      ScaledFits(k - 1, 0x80 * x);
    }
  }

  lemma ScaledThrice(k: nat, x: nat)
    ensures Scaled(k + 3, x) == Scaled(k, 0x20_0000 * x)
  {
    assert Scaled(k + 3, x) == Scaled(k + 2, 0x80 * x);
    assert Scaled(k + 2, 0x80 * x) == Scaled(k + 1, 0x4000 * x);
    assert Scaled(k + 1, 0x4000 * x) == Scaled(k, 0x20_0000 * x);
  }

  lemma {:induction false} RoomLeft(k: nat)
    requires k <= 8
    ensures Room(k) >= 0x100
    decreases 8 - k
  {
    if k < 8 {
      RoomLeft(k + 1);
    }
  }

  lemma ScaledTenth(x: nat)
    ensures Wrap(Scaled(9, x)) == Scaled(9, x % 2)
  {
    var y := x / 2;
    ScaledSum(9, 2 * y, x % 2);
    ScaledFits(9, x % 2);
    ScaledThrice(6, 2 * y);
    ScaledThrice(3, 0x40_0000 * y);
    ScaledThrice(0, 0x800_0000_0000 * y);
    assert Scaled(9, x) == TWO64 * y + Scaled(9, x % 2);
  }

  /** What a byte adds to a variable-length integer on 64 bits. */
  lemma LowBits(k: nat, b: Byte)
    requires k <= 9
    ensures Wrap(Scaled(k, b % 0x80)) == Scaled(k, if k == 9 then b % 2 else b % 0x80)
  {
    if k == 9 {
      ScaledTenth(b % 0x80);
    } else {
      RoomLeft(k);
      ScaledFits(k, b % 0x80);
    }
  }

  /** A result as seen by the loop that has summed `value` from the first `k` bytes. */
  function Summed(value: nat, k: nat, later: Result<Got<nat>>): Result<Got<nat>> {
    if later.Success? then Success(Got(value + Scaled(k, later.value.value), later.value.rest))
    else Failure(later.error)
  }

  lemma SumStep(value: nat, k: nat, bytes: seq<Byte>)
    requires k <= 9 && bytes != []
    ensures
      var low := Wrap(Scaled(k, bytes[0] % 0x80));
      Summed(value, k, TakeVarintAt(bytes, k)) ==
      if bytes[0] < 0x80 then Success(Got(value + low, bytes[1..]))
      else Summed(value + low, k + 1, TakeVarintAt(bytes[1..], k + 1))
  {
    LowBits(k, bytes[0]);
    var later := TakeVarintAt(bytes[1..], k + 1);
    if k < 9 && bytes[0] >= 0x80 && later.Success? {
      ScaledSum(k, bytes[0] % 0x80, 0x80 * later.value.value);
      assert Scaled(k + 1, later.value.value) == Scaled(k, 0x80 * later.value.value);
    }
  }

  class Writer {
    var bytes: seq<Byte>

    constructor ()
      ensures bytes == []
    {
      bytes := [];
    }

    method WriteRawVarint(value: nat)
      modifies this
      ensures bytes == old(bytes) + Varint(value)
    {
      var v := value;
      while v >= 0x80
        invariant bytes + Varint(v) == old(bytes) + Varint(value)
        decreases v
      {
        assert Varint(v) == [v % 0x80 + 0x80] + Varint(v / 0x80);
        bytes := bytes + [v % 0x80 + 0x80];
        v := v / 0x80;
      }
      bytes := bytes + [v];
    }

    /** Fails, with nothing written, exactly for tags that a key cannot hold. */
    method WriteKey(tag: nat, fieldType: nat) returns (ok: bool)
      modifies this
      ensures ok == (0 < tag <= MAX_TAG)
      ensures bytes == if ok then old(bytes) + KeyBytes(tag, fieldType) else old(bytes)
    {
      if tag == 0 || tag > MAX_TAG {
        return false;
      }
      WriteRawVarint(tag * 8 + fieldType);
      return true;
    }

    method WriteVarint(tag: nat, value: nat) returns (ok: bool)
      modifies this
      ensures ok == (0 < tag <= MAX_TAG)
      ensures ok ==> bytes == old(bytes) + (KeyBytes(tag, VARINT) + Varint(value))
    {
      ok := WriteKey(tag, VARINT);
      if ok {
        WriteRawVarint(value);
      }
    }

    method WriteSigned(tag: nat, value: int) returns (ok: bool)
      requires IsInt64(value)
      modifies this
      ensures ok == (0 < tag <= MAX_TAG)
      ensures ok ==> bytes == old(bytes) + (KeyBytes(tag, VARINT) + Varint(ZigZag(value)))
    {
      ok := WriteVarint(tag, ZigZag(value));
    }

    /** `bits` is the bit pattern of the double. */
    method WriteDouble(tag: nat, bits: nat) returns (ok: bool)
      modifies this
      ensures ok == (0 < tag <= MAX_TAG)
      ensures ok ==> bytes == old(bytes) + (KeyBytes(tag, FIXED64) + LittleEndian(bits, 8))
    {
      ok := WriteKey(tag, FIXED64);
      if ok {
        ghost var start := bytes;
        assert old(bytes) + (KeyBytes(tag, FIXED64) + LittleEndian(bits, 8)) == start + LittleEndian(bits, 8);
        var word := bits;
        for i := 0 to 8
          invariant bytes + LittleEndian(word, 8 - i) == start + LittleEndian(bits, 8)
        {
          assert LittleEndian(word, 8 - i) == [word % 0x100] + LittleEndian(word / 0x100, 7 - i);
          bytes := bytes + [word % 0x100];
          word := word / 0x100;
        }
      }
    }

    method WriteBytes(tag: nat, value: seq<Byte>) returns (ok: bool)
      modifies this
      ensures ok == (0 < tag <= MAX_TAG)
      ensures ok ==> bytes == old(bytes) + (KeyBytes(tag, DELIMITED) + Delimited(value))
    {
      ok := WriteKey(tag, DELIMITED);
      if ok {
        WriteRawVarint(|value|);
        bytes := bytes + value;
      }
    }
  }

  datatype Limits = Limits(maxFrameBytes: nat, maxStringBytes: nat, maxNodes: nat, maxDepth: nat)

  const TOO_DEEP := "macro protocol nesting limit exceeded"
  const TOO_MANY := "macro protocol node limit exceeded"
  const WRONG_TYPE := "macro protocol field has the wrong wire type"
  const TOO_LONG := "macro protocol string exceeds size limit"

  /** Shared by a reader and the readers of its nested messages. */
  class ReaderState {
    const limits: Limits
    var nodes: nat

    constructor (limits: Limits)
      ensures this.limits == limits && nodes == 0
    {
      this.limits, nodes := limits, 0;
    }

    /** What constructing a reader at a depth does: it counts a node, unless it is too deep. */
    method Enter(depth: nat) returns (error: Option<string>)
      modifies this
      ensures error == Entered(limits, depth, old(nodes))
      ensures error.None? ==> nodes == old(nodes) + 1
    {
      if depth > limits.maxDepth {
        return Some(TOO_DEEP);
      }
      nodes := nodes + 1;
      if nodes > limits.maxNodes {
        return Some(TOO_MANY);
      }
      return None;
    }
  }

  /** The error of a reader at a depth when `nodes` were counted before, if it has one. */
  function Entered(limits: Limits, depth: nat, nodes: nat): Option<string> {
    if depth > limits.maxDepth then Some(TOO_DEEP)
    else if nodes + 1 > limits.maxNodes then Some(TOO_MANY)
    else None
  }

  class Reader {
    const bytes: seq<Byte>
    var cursor: nat

    constructor (bytes: seq<Byte>)
      ensures Valid() && this.bytes == bytes && Rest() == bytes
    {
      this.bytes, cursor := bytes, 0;
    }

    predicate Valid()
      reads this
    {
      cursor <= |bytes|
    }

    function Rest(): seq<Byte>
      reads this
      requires Valid()
    {
      bytes[cursor..]
    }

    method ReadRawVarint() returns (r: Result<nat>)
      requires Valid()
      modifies this
      ensures Valid()
      ensures old(TakeVarint(Rest())) == if r.Success? then Success(Got(r.value, Rest())) else Failure(r.error)
    {
      ghost var whole := TakeVarint(Rest());
      var value: nat, k: nat := 0, 0;
      while k < 10
        invariant Valid() && k <= 10 && whole == Summed(value, k, TakeVarintAt(Rest(), k))
        decreases 10 - k
      {
        if cursor == |bytes| {
          return Failure(TRUNCATED);
        }
        var more;
        value, more := AddByte(value, k);
        if !more {
          return Success(value);
        }
        k := k + 1;
      }
      return Failure("macro protocol varint overflow");
    }

    /** Adds the next byte of a variable-length integer to the value read so far. */
    method AddByte(value: nat, k: nat) returns (sum: nat, more: bool)
      requires Valid() && cursor < |bytes| && k < 10
      modifies this
      ensures Valid()
      ensures old(Summed(value, k, TakeVarintAt(Rest(), k)))
           == if more then Summed(sum, k + 1, TakeVarintAt(Rest(), k + 1)) else Success(Got(sum, Rest()))
    {
      SumStep(value, k, Rest());
      var byte := bytes[cursor];
      assert Rest()[0] == byte && Rest()[1..] == bytes[cursor + 1..];
      cursor := cursor + 1;
      sum := value + Wrap(Scaled(k, byte % 0x80));
      more := byte >= 0x80;
    }

    /** The next key, or `None` at the end. */
    method Next() returns (r: Result<Option<Key>>)
      requires Valid()
      modifies this
      ensures Valid()
      ensures old(Rest()) == [] <==> r == Success(None)
      ensures r == Success(None) ==> Rest() == []
      ensures old(Rest()) != [] ==>
        old(TakeKey(Rest())) == if r.Success? then Success(Got(r.value.value, Rest())) else Failure(r.error)
    {
      if cursor == |bytes| {
        return Success(None);
      }
      var key := ReadRawVarint();
      if key.Failure? {
        return Failure(key.error);
      }
      var tag := key.value / 8 % 0x1_0000_0000;
      if tag == 0 {
        return Failure("macro protocol field tag zero is invalid");
      }
      return Success(Some(Key(tag, key.value % 8)));
    }

    method ReadFixed64() returns (r: Result<nat>)
      requires Valid()
      modifies this
      ensures Valid()
      ensures old(TakeFixed(Rest(), 8)) == if r.Success? then Success(Got(r.value, Rest())) else Failure(r.error)
    {
      if 8 > |bytes| - cursor {
        return Failure(TRUNCATED);
      }
      assert Rest()[..8] == bytes[cursor..cursor + 8] && Rest()[8..] == bytes[cursor + 8..];
      var value := FromLittle(bytes[cursor..cursor + 8]);
      cursor := cursor + 8;
      return Success(value);
    }

    method ReadLengthDelimited() returns (r: Result<seq<Byte>>)
      requires Valid()
      modifies this
      ensures Valid()
      ensures old(TakeDelimited(Rest())) == if r.Success? then Success(Got(r.value, Rest())) else Failure(r.error)
    {
      var length := ReadRawVarint();
      if length.Failure? {
        return Failure(length.error);
      }
      if length.value > |bytes| - cursor {
        return Failure(TRUNCATED);
      }
      assert Rest()[..length.value] == bytes[cursor..cursor + length.value];
      assert Rest()[length.value..] == bytes[cursor + length.value..];
      var value := bytes[cursor..cursor + length.value];
      cursor := cursor + length.value;
      return Success(value);
    }

    method Skip(fieldType: nat) returns (error: Option<string>)
      requires Valid()
      modifies this
      ensures Valid()
      ensures old(Skipped(Rest(), fieldType)) == if error.None? then Success(Rest()) else Failure(error.value)
    {
      if fieldType == VARINT {
        var value := ReadRawVarint();
        return if value.Success? then None else Some(value.error);
      } else if fieldType == FIXED64 {
        if 8 > |bytes| - cursor {
          return Some(TRUNCATED);
        }
        assert Rest()[8..] == bytes[cursor + 8..];
        cursor := cursor + 8;
        return None;
      } else if fieldType == DELIMITED {
        var value := ReadLengthDelimited();
        return if value.Success? then None else Some(value.error);
      } else if fieldType == FIXED32 {
        if 4 > |bytes| - cursor {
          return Some(TRUNCATED);
        }
        assert Rest()[4..] == bytes[cursor + 4..];
        cursor := cursor + 4;
        return None;
      }
      return Some("unsupported macro protocol wire type");
    }
  }
}
