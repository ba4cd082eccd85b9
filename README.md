# Netlink inet_diag parsing and BPF map dumps, modelled in Dafny

This project models two small pieces of the Android networking module
utilities (`com.android.net.module.util`):

- **`StructInetDiagMsg.parse`**: reads a `struct inet_diag_msg` (Linux
  sock_diag) out of a `java.nio.ByteBuffer` that holds a netlink message. It
  returns null when fewer than `STRUCT_SIZE` (72) bytes remain. Otherwise it
  reads the address family at the cursor. It then moves the cursor to the
  absolute offset of the socket id (`nlmsghdr` size 16 + 4 = 20) and lets
  `StructInetDiagSockId.parse` decode the 48-byte id. It returns null for an
  unsupported family. Finally it reads `idiag_uid` with an absolute `getInt`
  at offset 16 + 4 + 48 + 12 = 80.
  - The buffer is a class over a byte array with a mutable cursor, a limit and
    a byte order (`ByteBuffers.ByteBuffer`).
  - The parse is an imperative method with early returns.
  - The method is proved against a pure specification, `InetDiag.ParseOutcome`.
- **`BpfDump`**, as its unit test pins it down:
  - A `Struct.U32` is written as four little-endian bytes. Its unsigned
    32-bit value, held in a Java `long`, is a `bv32` here.
  - A key/value pair is encoded as `base64(key) + "," + base64(value)`.
  - Decoding rejects anything that is not such an encoding.
  - A map is dumped as a name line `mapName:`, an indented header line and
    one indented line per entry, each line written to a `PrintWriter`.

Files:
- `wrappers.dfy`: `Option` and `Result`.
- `byte_buffer.dfy`: the ByteBuffer model.
- `inet_diag_msg.dfy`: `StructInetDiagMsg` and its parse.
- `text.dfy`: split, join and line joining on strings.
- `base64.dfy`: padded base64 as in section 4 of RFC 4648.
- `structs.dfy`: `U32` and its byte form.
- `bpf_dump.dfy`: the pair codec and the map dump.
- `bpf_dump_test.dfy`: the test's concrete expectations, proved as lemmas.

Exceptions the JDK would throw are explicit error values:
- `BufferUnderflowException` from `get()`.
- `IllegalArgumentException` from `position(int)`.
- `IndexOutOfBoundsException` from `getInt(int)`.
- The `IllegalArgumentException` of `fromBase64EncodedString`.

This makes the conditions under which the parser throws statable. Once the
size check passes, the limit is at least 72, so the reposition to offset 20
and the 48-byte socket id read cannot fail: `Parse` asserts both. Only the
uid read at offset 80 can still throw, and it does so only when the limit is
below 84. With the cursor just past a 16-byte netlink header that cannot
happen; a 72-byte message at position 0 shows that it can otherwise
(`InetDiag.UnheaderedParseThrows`).

## Model

| member | source | states |
|---|---|---|
| InetDiag.ParseOutcome | common/device/com/android/net/module/util/netlink/StructInetDiagMsg.java:45-70 | fewer than STRUCT_SIZE remaining gives null with the cursor unmoved; once the size check passes, a supported family gives the message with the decoded id and the uid read at absolute offset 80 when offset 80 + 4 is within the limit and IndexOutOfBounds otherwise, the cursor ending past the sock id; conversely a parsed message comes from the sock id decoder applied to the 48 bytes at absolute offset 20 with the family byte at the cursor, its uid is the int at absolute offset 80 in the buffer's order, and the cursor ends past the sock id; an unsupported family gives null with the cursor left at offset 20; the only exception possible is getInt's IndexOutOfBounds, when offset 80 + 4 passes the limit; the cursor never passes the limit |
| InetDiag.ParseSockId | common/device/com/android/net/module/util/netlink/StructInetDiagMsg.java:63-64 | the socket id decoder seen from the caller, under the assumptions listed below: with fewer than 48 bytes remaining it underflows; otherwise it decodes the 48 bytes at the cursor for the family and moves past them only when it yields an id |
| InetDiag.StructInetDiagMsg.Parse | common/device/com/android/net/module/util/netlink/StructInetDiagMsg.java:57-70 | the method's final cursor, its returned message or null, and its exception are exactly those of ParseOutcome on the buffer's prior state; a returned message is freshly allocated with the decoded id and uid |
| InetDiag.StructInetDiagMsg.constructor | common/device/com/android/net/module/util/netlink/StructInetDiagMsg.java:49-51 | a new message has uid 0 and no socket id |
| InetDiag.HeaderedParseStaysInBounds | common/device/com/android/net/module/util/netlink/StructInetDiagMsg.java:45-48 | with the cursor just past the 16-byte netlink header and STRUCT_SIZE bytes remaining, idiag_uid lies inside the message, parse never throws, and a decoder that yields an id gives a message with that id and the int at offset 80 as its uid |
| InetDiag.OutcomeIndependentOfPosition | common/device/com/android/net/module/util/netlink/StructInetDiagMsg.java:62-68 | the offsets are absolute: two cursors that pass the size check and see the same family byte give the same outcome |
| InetDiag.UnheaderedParseThrows | common/device/com/android/net/module/util/netlink/StructInetDiagMsg.java:58-68 | a 72-byte message at position 0 passes the size check yet the uid read at offset 80 throws IndexOutOfBounds |
| ByteBuffers.ByteBuffer.Get | common/device/com/android/net/module/util/netlink/StructInetDiagMsg.java:62 | relative get: the byte at the cursor and the cursor advanced by one, or BufferUnderflow with the cursor unmoved at the limit |
| ByteBuffers.ByteBuffer.SetPosition | common/device/com/android/net/module/util/netlink/StructInetDiagMsg.java:63 | position(int): moves the cursor to any index from 0 to the limit, otherwise IllegalArgument with the cursor unmoved |
| ByteBuffers.ByteBuffer.GetInt | common/device/com/android/net/module/util/netlink/StructInetDiagMsg.java:68 | absolute getInt: the two's complement int in the four bytes at the index in the buffer's order when they lie within the limit, otherwise IndexOutOfBounds |
| ByteBuffers.ByteBuffer.Remaining | common/device/com/android/net/module/util/netlink/StructInetDiagMsg.java:58 | remaining(): the number of bytes from the cursor to the limit, never negative and never past the end of the array for a valid buffer |
| ByteBuffers.ByteBuffer.Wrap | common/device/com/android/net/module/util/netlink/StructInetDiagMsg.java:57 | a wrapped array is readable from 0 to its end in big-endian order |
| ByteBuffers.Int32Of | common/device/com/android/net/module/util/netlink/StructInetDiagMsg.java:68 | four bytes read as an int lie in the 32-bit signed range |
| Structs.WriteToBytes | common/tests/unit/src/com/android/net/module/util/BpfDumpTest.java:57-58 | a U32 is written as exactly four bytes |
| Structs.ParseU32 | common/tests/unit/src/com/android/net/module/util/BpfDumpTest.java:64-67 | four bytes are read as a U32 in little-endian order: byte i of the value is the i-th byte |
| Structs.ParseWrite | common/tests/unit/src/com/android/net/module/util/BpfDumpTest.java:57-58 | reading back the four written bytes gives the original U32 |
| Structs.WriteParse | common/tests/unit/src/com/android/net/module/util/BpfDumpTest.java:57-58 | any four bytes are the written form of the U32 read from them |
| Structs.WriteToBytesExamples | common/tests/unit/src/com/android/net/module/util/BpfDumpTest.java:57-58 | 123 is written as 7B 00 00 00 and 456 as C8 01 00 00 (little-endian) |
| Base64.Encode | common/tests/unit/src/com/android/net/module/util/BpfDumpTest.java:53-56 | the encoding has 4 characters per started group of 3 bytes |
| Base64.EncodeChars | common/tests/unit/src/com/android/net/module/util/BpfDumpTest.java:53-56 | every character of an encoding is from the base64 alphabet or the pad, so never the "," delimiter |
| Base64.Decode | common/tests/unit/src/com/android/net/module/util/BpfDumpTest.java:76-86 | an accepted text has 4 characters per started group of 3 decoded bytes |
| Base64.DecodeEncode | common/tests/unit/src/com/android/net/module/util/BpfDumpTest.java:53-59 | decoding an encoding gives back the bytes |
| Base64.EncodeDecode | common/tests/unit/src/com/android/net/module/util/BpfDumpTest.java:76-86 | every accepted text is the encoding of what it decodes to, so malformed text is rejected |
| Text.Split | common/tests/unit/src/com/android/net/module/util/BpfDumpTest.java:43-45 | splitting gives at least one part |
| Text.SplitPartsFree | common/tests/unit/src/com/android/net/module/util/BpfDumpTest.java:43-45 | no part of a split holds the delimiter |
| Text.SplitCount | common/tests/unit/src/com/android/net/module/util/BpfDumpTest.java:85-86 | there is one more part than there are delimiters |
| Text.SplitJoin | common/tests/unit/src/com/android/net/module/util/BpfDumpTest.java:43-45 | joining delimiter-free parts and splitting again gives the parts back |
| Text.JoinSplit | common/tests/unit/src/com/android/net/module/util/BpfDumpTest.java:43-45 | joining the parts of a split gives back the text |
| Text.SplitUnlines | common/tests/unit/src/com/android/net/module/util/BpfDumpTest.java:103-105 | printing line-feed-free lines and splitting on line feeds gives the lines and one empty tail |
| BpfDump.ToBase64EncodedString | common/tests/unit/src/com/android/net/module/util/BpfDumpTest.java:43-45 | the text splits at the delimiter into exactly the base64 of the key's bytes and the base64 of the value's bytes |
| BpfDump.FromBase64EncodedString | common/tests/unit/src/com/android/net/module/util/BpfDumpTest.java:76-86 | any number of delimiters other than one is rejected with the part count |
| BpfDump.RoundTrip | common/tests/unit/src/com/android/net/module/util/BpfDumpTest.java:62-68 | decoding the encoding of a key/value pair gives back the pair |
| BpfDump.Canonical | common/tests/unit/src/com/android/net/module/util/BpfDumpTest.java:62-68 | an accepted text is exactly the encoding of the pair it decodes to |
| BpfDump.AcceptsExactlyEncodings | common/tests/unit/src/com/android/net/module/util/BpfDumpTest.java:62-86 | a text is accepted if and only if it is the encoding of some key/value pair |
| BpfDump.RejectsInvalidKey | common/tests/unit/src/com/android/net/module/util/BpfDumpTest.java:81-84 | one delimiter with a key part that is not base64 is rejected, whatever the value part |
| BpfDump.RejectsInvalidValue | common/tests/unit/src/com/android/net/module/util/BpfDumpTest.java:79-80 | one delimiter with a valid key part and a value part that is not base64 is rejected |
| BpfDump.RejectsThreeParts | common/tests/unit/src/com/android/net/module/util/BpfDumpTest.java:85-86 | three delimiter-separated parts are rejected as three parts |
| BpfDump.DumpLines | common/tests/unit/src/com/android/net/module/util/BpfDumpTest.java:103-105 | the report has the name line, the header line and one line per entry |
| BpfDump.PrintWriter.constructor | common/tests/unit/src/com/android/net/module/util/BpfDumpTest.java:90-91 | a new writer over a fresh StringWriter holds no text |
| BpfDump.PrintWriter.Println | common/tests/unit/src/com/android/net/module/util/BpfDumpTest.java:89-93 | println appends the line and a line feed to what was written |
| BpfDump.DumpMap | common/tests/unit/src/com/android/net/module/util/BpfDumpTest.java:89-93 | the writer's text grows by exactly the report's lines, each ended by a line feed, in entry order |
| BpfDump.DumpReportLines | common/tests/unit/src/com/android/net/module/util/BpfDumpTest.java:103-105 | split into lines, the dump is the "name:" line, the indented header, one indented formatted line per entry in iteration order, and nothing after the last line feed |
| BpfDump.DumpHasEntryLine | common/tests/unit/src/com/android/net/module/util/BpfDumpTest.java:116-119 | every entry of the map has its formatted line in the dump |
| Text.Decimal | common/tests/unit/src/com/android/net/module/util/BpfDumpTest.java:92 | the decimal text of a value has at least one character |
| Text.DecimalDigits | common/tests/unit/src/com/android/net/module/util/BpfDumpTest.java:92 | the decimal text holds only the digits 0-9 |
| Text.DecimalValue | common/tests/unit/src/com/android/net/module/util/BpfDumpTest.java:92 | reading the decimal text back gives the value, and only 0 is written with a leading zero: digits without sign or leading zeros |
| BpfDumpTest.TestEntryToString | common/tests/unit/src/com/android/net/module/util/BpfDumpTest.java:92 | the test's formatter never produces a line feed |
| BpfDumpTest.EncodeKeyAndValue | common/tests/unit/src/com/android/net/module/util/BpfDumpTest.java:53-56 | 7B 00 00 00 encodes as "ewAAAA==" and C8 01 00 00 as "yAEAAA==" |
| BpfDumpTest.ToBase64EncodedStringExample | common/tests/unit/src/com/android/net/module/util/BpfDumpTest.java:48-60 | key 123 and value 456 encode as "ewAAAA==,yAEAAA==" |
| BpfDumpTest.FromBase64EncodedStringExample | common/tests/unit/src/com/android/net/module/util/BpfDumpTest.java:62-68 | "ewAAAA==,yAEAAA==" decodes to key 123 and value 456 |
| BpfDumpTest.RejectsSinglePartExamples | common/tests/unit/src/com/android/net/module/util/BpfDumpTest.java:77-78 | "Map is null" and a lone valid key part are rejected as one part |
| BpfDumpTest.InvalidStringIsNotBase64 | common/tests/unit/src/com/android/net/module/util/BpfDumpTest.java:46 | "Map is null" holds no delimiter and is not base64 |
| BpfDumpTest.RejectsInvalidPartExamples | common/tests/unit/src/com/android/net/module/util/BpfDumpTest.java:79-84 | the three one-delimiter texts with an invalid part are rejected for that part |
| BpfDumpTest.RejectsThreePartsExample | common/tests/unit/src/com/android/net/module/util/BpfDumpTest.java:85-86 | the valid pair followed by a third part is rejected as three parts |
| BpfDumpTest.TestEntryToStringExamples | common/tests/unit/src/com/android/net/module/util/BpfDumpTest.java:92 | the formatter gives "key=123, val=456" and "key=789, val=123" |
| BpfDumpTest.DumpMapExample | common/tests/unit/src/com/android/net/module/util/BpfDumpTest.java:96-106 | the one-entry map dumps as exactly "mapName:\n  header\n  key=123, val=456\n" |
| BpfDumpTest.DumpMapMultipleEntriesExample | common/tests/unit/src/com/android/net/module/util/BpfDumpTest.java:108-120 | in either iteration order, the two-entry dump has a line for each entry |
| BpfDumpTest.DumpMapNameAndHeaderExample | common/tests/unit/src/com/android/net/module/util/BpfDumpTest.java:116-117 | any dump of the test map has the "mapName:" line and the header line |

## Left out

- `BpfDump.java` is modelled from what `BpfDumpTest.java` asserts, not from
  its own text, with the stricter decoding rules listed below. In particular:
  - the map's null check and its errno handling when iterating fail are not
    modelled;
  - how `dumpMap` reacts to a failing map is not modelled;
  - `DumpMap` takes the map's entries as a sequence in iteration order.
- `BpfDump.DumpMap`: the formatter is a total function and cannot fail; a
  formatter that throws part-way, leaving the lines printed so far in the
  writer, is not modelled.
- `IBpfMap` and `TestBpfMap` are not part of this model. A map is its sequence
  of entries.
- `StructNlMsgHdr` and `StructInetDiagSockId` are not part of this model.
  Their sizes, 16 and 48, are constants. The socket id decoder is a function
  parameter that sees the 48 bytes at the cursor and the family.
  - `InetDiag.ParseSockId`: assumes the decoder underflows when fewer than 48
    bytes remain, leaves the cursor where it was when it returns null, moves
    it past the 48 bytes on success, and leaves the buffer's byte order
    unchanged. `InetDiag.ParseOutcome` relies on the last assumption: it reads
    the uid in the byte order the buffer had on entry. `Parse` never reaches
    the underflow, since the size check leaves at least 52 bytes after
    offset 20.
- `StructInetDiagMsg.toString` is not modelled. It is formatting only.
- `InetDiag.StructInetDiagMsg.Parse`: it allocates the message before the
  family check, as the original does. The contract says nothing about that
  discarded allocation.
- `PrintWriter`: the platform line separator is taken to be `"\n"`, as the
  test expects. Buffering, flushing and I/O errors are not modelled.
- `Text.Split`, `BpfDump.FromBase64EncodedString`,
  `BpfDump.AcceptsExactlyEncodings`: splitting keeps every part, including
  trailing empty ones, so decoding demands exactly one delimiter. If the
  original splits with Java's `String.split`, which drops trailing empty
  parts, it accepts a valid pair followed by one or more delimiters (such as
  `"ewAAAA==,yAEAAA==,"`, read as 123 and 456), while the model rejects it
  with `WrongPartCount`.
- `Base64.Decode`: strict padded base64 as in section 4 of RFC 4648. Padding
  is required and unused pad bits must be zero. It says nothing about how
  leniently the platform decoder treats whitespace, missing padding or
  non-zero pad bits, beyond rejecting the texts the test rejects.
- `Structs.ParseU32` reads only exactly four bytes. A decoded part of another
  length is rejected with its size.
