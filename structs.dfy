/** The fixed-layout unsigned 32-bit struct used as BPF map key and value: one
    field, written as 4 little-endian bytes. */
module Structs {

  const U32Size: nat := 4

  /** The unsigned 32-bit value, as a 32-bit vector. */
  datatype U32 = U32(val: bv32)

  /** The struct's bytes, least significant byte first. */
  function WriteToBytes(u: U32): (b: seq<bv8>)
    ensures |b| == U32Size
  {
    var v := u.val;
    [(v & 0xFF) as bv8, ((v >> 8) & 0xFF) as bv8, ((v >> 16) & 0xFF) as bv8, (v >> 24) as bv8]
  }

  /** The struct held by exactly `U32Size` little-endian bytes. */
  function ParseU32(b: seq<bv8>): (u: U32)
    requires |b| == U32Size
    ensures (u.val & 0xFF) as bv8 == b[0] && ((u.val >> 8) & 0xFF) as bv8 == b[1]
    ensures ((u.val >> 16) & 0xFF) as bv8 == b[2] && (u.val >> 24) as bv8 == b[3]
  {
    U32((b[0] as bv32) | ((b[1] as bv32) << 8) | ((b[2] as bv32) << 16) | ((b[3] as bv32) << 24))
  }

  /** Parsing the written bytes gives the struct back. */
  lemma ParseWrite(u: U32)
    ensures ParseU32(WriteToBytes(u)) == u
  {
  }

  /** Writing the parsed struct gives the same bytes back. */
  lemma WriteParse(b: seq<bv8>)
    requires |b| == U32Size
    ensures WriteToBytes(ParseU32(b)) == b
  {
  }

  /** 123 and 456 as the test writes them: 7B 00 00 00 and C8 01 00 00. */
  lemma WriteToBytesExamples()
    ensures WriteToBytes(U32(123)) == [0x7B, 0x00, 0x00, 0x00]
    ensures WriteToBytes(U32(456)) == [0xC8, 0x01, 0x00, 0x00]
  {
  }
}
