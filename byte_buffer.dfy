/** The part of java.nio.ByteBuffer that message parsing relies on: a backing
    byte array, a cursor (`position`) that relative reads advance, a `limit`
    past which nothing may be read, and the byte order of multi-byte reads.
    The exceptions the JDK throws become explicit error results. */
module ByteBuffers {
  import opened Wrappers

  /** BufferUnderflowException, IllegalArgumentException, IndexOutOfBoundsException. */
  datatype BufferError = BufferUnderflow | IllegalArgument | IndexOutOfBounds

  const Int32Size: nat := 4

  /** The Java int (two's complement) stored in four bytes in the given order. */
  function Int32Of(b0: bv8, b1: bv8, b2: bv8, b3: bv8, bigEndian: bool): (r: int)
    ensures -0x8000_0000 <= r < 0x8000_0000
  {
    var (hi, mh, ml, lo) := if bigEndian then (b0, b1, b2, b3) else (b3, b2, b1, b0);
    var u := 0x100_0000 * (hi as int) + 0x1_0000 * (mh as int) + 0x100 * (ml as int) + (lo as int);
    if u >= 0x8000_0000 then u - 0x1_0000_0000 else u
  }

  function Int32At(bytes: seq<bv8>, index: nat, bigEndian: bool): int
    requires index + Int32Size <= |bytes|
  {
    Int32Of(bytes[index], bytes[index + 1], bytes[index + 2], bytes[index + 3], bigEndian)
  }

  /** A snapshot of a buffer's state, for specifications. */
  datatype BufferView = BufferView(bytes: seq<bv8>, position: nat, limit: nat, bigEndian: bool)
  {
    ghost predicate Valid()
    {
      position <= limit <= |bytes|
    }
  }

  class ByteBuffer {
    const data: array<bv8>
    var position: nat
    var limit: nat
    var bigEndian: bool

    ghost predicate Valid()
      reads this
    {
      position <= limit <= data.Length
    }

    function View(): (v: BufferView)
      reads this, data
    {
      BufferView(data[..], position, limit, bigEndian)
    }

    /** ByteBuffer.wrap: the whole array readable from 0, big-endian, as the JDK creates it. */
    constructor Wrap(bytes: seq<bv8>)
      ensures Valid() && fresh(data)
      ensures View() == BufferView(bytes, 0, |bytes|, true)
    {
      data := new bv8[|bytes|](i requires 0 <= i < |bytes| => bytes[i]);
      position, limit, bigEndian := 0, |bytes|, true;
    }

    /** remaining(): how many bytes lie between the cursor and the limit. */
    function Remaining(): (r: int)
      reads this
      ensures position + r == limit
      ensures Valid() ==> 0 <= r <= data.Length - position
    {
      limit - position
    }

    /** Relative get(): the byte at the cursor, which then moves past it. */
    method Get() returns (r: Result<bv8, BufferError>)
      requires Valid()
      modifies this`position
      ensures Valid()
      ensures old(position) < limit ==> r == Success(data[old(position)]) && position == old(position) + 1
      ensures old(position) >= limit ==> r == Failure(BufferUnderflow) && position == old(position)
    {
      if position >= limit {
        return Failure(BufferUnderflow);
      }
      r := Success(data[position]);
      position := position + 1;
    }

    /** position(int): moves the cursor anywhere up to the limit. */
    method SetPosition(newPosition: int) returns (r: Option<BufferError>)
      requires Valid()
      modifies this`position
      ensures Valid()
      ensures 0 <= newPosition <= limit ==> r == None && position == newPosition
      ensures !(0 <= newPosition <= limit) ==> r == Some(IllegalArgument) && position == old(position)
    {
      if newPosition < 0 || newPosition > limit {
        return Some(IllegalArgument);
      }
      position := newPosition;
      r := None;
    }

    /** Absolute getInt(int): the int at `index`, in the buffer's order; the cursor does not move. */
    method GetInt(index: int) returns (r: Result<int, BufferError>)
      requires Valid()
      ensures 0 <= index && index + Int32Size <= limit ==> r == Success(Int32At(data[..], index, bigEndian))
      ensures !(0 <= index && index + Int32Size <= limit) ==> r == Failure(IndexOutOfBounds)
    {
      if index < 0 || index > limit - Int32Size {
        return Failure(IndexOutOfBounds);
      }
      r := Success(Int32Of(data[index], data[index + 1], data[index + 2], data[index + 3], bigEndian));
    }
  }
}
