/** struct inet_diag_msg (Linux include/uapi/linux/inet_diag.h), as it follows a
    netlink message header in a buffer:

      __u8 idiag_family, idiag_state, idiag_timer, idiag_retrans;
      struct inet_diag_sockid id;
      __u32 idiag_expires, idiag_rqueue, idiag_wqueue, idiag_uid, idiag_inode;

    Only the family, the socket id and idiag_uid are decoded. */
module InetDiag {
  import opened Wrappers
  import opened ByteBuffers

  /** Size of struct nlmsghdr, which precedes the message in the buffer. */
  const NlMsgHdrSize: nat := 16
  /** Size of struct inet_diag_sockid. */
  const SockIdSize: nat := 48

  /** Four __u8 fields, the socket id, five __u32 fields. */
  const StructSize: nat := 4 + SockIdSize + 20
  /** Absolute offset of the socket id: past the header and the four __u8 fields. */
  const SockIdOffset: nat := NlMsgHdrSize + 4
  /** Absolute offset of idiag_uid: past the socket id (which ends at offset
      68) and idiag_expires, _rqueue, _wqueue. */
  const UidOffset: nat := NlMsgHdrSize + 4 + SockIdSize + 12

  /** The family-dependent socket id decoder (StructInetDiagSockId.parse), seen
      through the SockIdSize bytes it decodes and the address family: it yields
      the socket id, or None for a family it does not support. */
  type SockIdParser<Id> = (seq<bv8>, bv8) -> Option<Id>

  /** What parse does with a buffer: a message, null, or an exception. */
  datatype Outcome<Id> = Parsed(id: Id, uid: int) | NoResult | Thrown(error: BufferError)

  /** The bytes the socket id decoder sees: SockIdSize bytes at the absolute
      offset SockIdOffset, inside the limit once the size check has passed. */
  function SockIdWindow(v: BufferView): seq<bv8>
    requires v.Valid() && v.limit - v.position >= StructSize
  {
    v.bytes[SockIdOffset..SockIdOffset + SockIdSize]
  }

  /** What the decoder makes of the message at the cursor: the socket id
      window, read for the family byte at the cursor. */
  function DecodedSockId<Id>(v: BufferView, parseSockId: SockIdParser<Id>): Option<Id>
    requires v.Valid() && v.limit - v.position >= StructSize
  {
    parseSockId(SockIdWindow(v), v.bytes[v.position])
  }

  /** The outcome of parsing from `v`, and the cursor position afterwards. */
  function ParseOutcome<Id>(v: BufferView, parseSockId: SockIdParser<Id>): (r: (Outcome<Id>, nat))
    requires v.Valid()
    ensures r.1 <= v.limit
    // Fewer than StructSize bytes: null, cursor unmoved.
    ensures v.limit - v.position < StructSize ==> r == (NoResult, v.position)
    // An unsupported family: null, cursor at the socket id.
    ensures v.limit - v.position >= StructSize && DecodedSockId(v, parseSockId).None?
            ==> r == (NoResult, SockIdOffset)
    // A decoded id: the message, unless the uid read passes the limit.
    ensures v.limit - v.position >= StructSize && DecodedSockId(v, parseSockId).Some?
            ==> r == (if UidOffset + Int32Size <= v.limit
                      then Parsed(DecodedSockId(v, parseSockId).value, Int32At(v.bytes, UidOffset, v.bigEndian))
                      else Thrown(IndexOutOfBounds),
                      SockIdOffset + SockIdSize)
    // Conversely, what each kind of outcome implies.
    ensures r.0.Parsed? ==>
      && v.limit - v.position >= StructSize
      && UidOffset + Int32Size <= v.limit
      && DecodedSockId(v, parseSockId) == Some(r.0.id)
      && r.0.uid == Int32At(v.bytes, UidOffset, v.bigEndian)
      && r.1 == SockIdOffset + SockIdSize
    ensures r.0.Thrown? ==> r.0.error == IndexOutOfBounds && UidOffset + Int32Size > v.limit
  {
    if v.limit - v.position < StructSize then (NoResult, v.position)
    else
      match DecodedSockId(v, parseSockId)
      case None => (NoResult, SockIdOffset)
      case Some(id) =>
        if UidOffset + Int32Size > v.limit then (Thrown(IndexOutOfBounds), SockIdOffset + SockIdSize)
        else (Parsed(id, Int32At(v.bytes, UidOffset, v.bigEndian)), SockIdOffset + SockIdSize)
  }

  /** StructInetDiagSockId.parse as the message parser calls it: decodes the
      SockIdSize bytes at the cursor and, on success, moves the cursor past them. */
  method ParseSockId<Id>(buf: ByteBuffer, family: bv8, parseSockId: SockIdParser<Id>)
    returns (id: Option<Id>, thrown: Option<BufferError>)
    requires buf.Valid()
    modifies buf`position
    ensures buf.Valid()
    ensures old(buf.limit - buf.position) < SockIdSize ==>
      id == None && thrown == Some(BufferUnderflow) && buf.position == old(buf.position)
    ensures old(buf.limit - buf.position) >= SockIdSize ==>
      && thrown == None
      && id == parseSockId(buf.data[old(buf.position)..old(buf.position) + SockIdSize], family)
      && buf.position == if id.Some? then old(buf.position) + SockIdSize else old(buf.position)
  {
    if buf.limit - buf.position < SockIdSize {
      return None, Some(BufferUnderflow);
    }
    id := parseSockId(buf.data[buf.position..buf.position + SockIdSize], family);
    thrown := None;
    if id.Some? {
      buf.position := buf.position + SockIdSize;
    }
  }

  class StructInetDiagMsg<Id> {
    var idiagUid: int
    var id: Option<Id>

    constructor ()
      ensures idiagUid == 0 && id == None
    {
      idiagUid := 0;
      id := None;
    }

    /** Parses the message at the cursor of `buf`, which must sit just past a
        netlink header at the start of the buffer for the absolute offsets to
        point into the message. Returns null when fewer than StructSize bytes
        remain or the family is not supported; `thrown` is the exception the
        buffer raises when the offsets fall outside the limit. */
    static method Parse(buf: ByteBuffer, parseSockId: SockIdParser<Id>)
      returns (msg: StructInetDiagMsg?<Id>, thrown: Option<BufferError>)
      requires buf.Valid()
      modifies buf`position
      ensures buf.Valid()
      ensures var (outcome, position) := ParseOutcome(old(buf.View()), parseSockId);
        && buf.position == position
        && (outcome.NoResult? ==> msg == null && thrown == None)
        && (outcome.Thrown? ==> msg == null && thrown == Some(outcome.error))
        && (outcome.Parsed? ==>
              msg != null && fresh(msg) && thrown == None
              && msg.id == Some(outcome.id) && msg.idiagUid == outcome.uid)
    {
      ghost var v := buf.View();
      if buf.Remaining() < StructSize {
        return null, None;
      }
      var struct := new StructInetDiagMsg<Id>();
      var family := buf.Get();
      assert family == Success(v.bytes[v.position]);
      // Past the size check the limit is at least StructSize, so neither the
      // reposition nor the socket id read can fail.
      thrown := buf.SetPosition(SockIdOffset);
      assert thrown.None?;
      var id;
      id, thrown := ParseSockId(buf, family.value, parseSockId);
      assert thrown.None?;
      struct.id := id;
      if struct.id.None? {
        return null, None;
      }
      var uid := buf.GetInt(UidOffset);
      if uid.Failure? {
        return null, Some(uid.error);
      }
      struct.idiagUid := uid.value;
      return struct, None;
    }
  }

  /** With the cursor just past the netlink header, the size check guards every
      read: the socket id and idiag_uid lie inside the message, so parse never
      throws, and a decoder that yields an id yields a message carrying it and
      the idiag_uid field. */
  lemma HeaderedParseStaysInBounds<Id>(v: BufferView, parseSockId: SockIdParser<Id>)
    requires v.Valid() && v.position == NlMsgHdrSize && v.limit - v.position >= StructSize
    ensures UidOffset + Int32Size <= v.position + StructSize <= v.limit
    ensures !ParseOutcome(v, parseSockId).0.Thrown?
    ensures DecodedSockId(v, parseSockId).Some? ==>
      ParseOutcome(v, parseSockId).0
        == Parsed(DecodedSockId(v, parseSockId).value, Int32At(v.bytes, UidOffset, v.bigEndian))
  {
  }

  /** The offsets are absolute: from any cursor that passes the size check, the
      outcome depends only on the family byte at the cursor, not on where the
      cursor was. */
  lemma OutcomeIndependentOfPosition<Id>(v: BufferView, w: BufferView, parseSockId: SockIdParser<Id>)
    requires v.Valid() && w.Valid()
    requires v.bytes == w.bytes && v.limit == w.limit && v.bigEndian == w.bigEndian
    requires v.limit - v.position >= StructSize && w.limit - w.position >= StructSize
    requires v.bytes[v.position] == w.bytes[w.position]
    ensures ParseOutcome(v, parseSockId).0 == ParseOutcome(w, parseSockId).0
  {
  }

  /** Without a header before the message the size check does not protect the
      absolute reads: a buffer holding exactly one message at position 0
      passes the check, yet idiag_uid's offset lies past the limit. */
  lemma UnheaderedParseThrows()
    ensures var v := BufferView(seq(StructSize, _ => 0), 0, StructSize, false);
      ParseOutcome(v, (window: seq<bv8>, family: bv8) => Some(family)) == (Thrown(IndexOutOfBounds), SockIdOffset + SockIdSize)
  {
  }
}
