/** The concrete behaviour that BpfDumpTest pins down, as facts about the model. */
module BpfDumpTest {
  import opened Wrappers
  import opened Structs
  import Base64
  import Text
  import opened BpfDump

  const TestKeyBase64: string := "ewAAAA=="
  const TestValBase64: string := "yAEAAA=="
  const TestKeyValBase64: string := TestKeyBase64 + [Base64Delimiter] + TestValBase64
  const InvalidBase64String: string := "Map is null"

  /** The formatter the test passes to dumpMap: "key=" + key.val + ", val=" + val.val. */
  function TestEntryToString(key: U32, value: U32): (s: string)
    ensures '\n' !in s
  {
    Text.DecimalDigits(key.val as int);
    Text.DecimalDigits(value.val as int);
    "key=" + Text.Decimal(key.val as int) + ", val=" + Text.Decimal(value.val as int)
  }

  lemma EncodeKeyAndValue()
    ensures Base64.Encode([0x7B, 0x00, 0x00, 0x00]) == TestKeyBase64
    ensures Base64.Encode([0xC8, 0x01, 0x00, 0x00]) == TestValBase64
  {
    assert [0x7B, 0x00, 0x00, 0x00][3..] == [0x00 as bv8];
    assert [0xC8, 0x01, 0x00, 0x00][3..] == [0x00 as bv8];
  }

  /** (123, 456) is encoded as "ewAAAA==,yAEAAA==". */
  lemma ToBase64EncodedStringExample()
    ensures ToBase64EncodedString(U32(123), U32(456)) == TestKeyValBase64
  {
    WriteToBytesExamples();
    EncodeKeyAndValue();
  }

  /** "ewAAAA==,yAEAAA==" is decoded as key 123 and value 456. */
  lemma FromBase64EncodedStringExample()
    ensures FromBase64EncodedString(TestKeyValBase64) == Success((U32(123), U32(456)))
  {
    ToBase64EncodedStringExample();
    RoundTrip(U32(123), U32(456));
  }

  /** No delimiter: neither a non-base64 text nor a single valid part is accepted. */
  lemma RejectsSinglePartExamples()
    ensures FromBase64EncodedString(InvalidBase64String) == Failure(WrongPartCount(1))
    ensures FromBase64EncodedString(TestKeyBase64) == Failure(WrongPartCount(1))
  {
    Text.SplitNoDelimiter(InvalidBase64String, Base64Delimiter);
    Text.SplitNoDelimiter(TestKeyBase64, Base64Delimiter);
  }

  lemma InvalidStringIsNotBase64()
    ensures Base64Delimiter !in InvalidBase64String
    ensures Base64.Decode(InvalidBase64String).None?
  {
  }

  /** One delimiter, with the key part, the value part or both not base64. */
  lemma RejectsInvalidPartExamples()
    ensures FromBase64EncodedString(TestKeyBase64 + [Base64Delimiter] + InvalidBase64String) == Failure(InvalidValueBase64)
    ensures FromBase64EncodedString(InvalidBase64String + [Base64Delimiter] + TestValBase64) == Failure(InvalidKeyBase64)
    ensures FromBase64EncodedString(InvalidBase64String + [Base64Delimiter] + InvalidBase64String) == Failure(InvalidKeyBase64)
  {
    InvalidStringIsNotBase64();
    EncodeKeyAndValue();
    NoDelimiterInBase64([0x7B, 0x00, 0x00, 0x00]);
    NoDelimiterInBase64([0xC8, 0x01, 0x00, 0x00]);
    Base64.DecodeEncode([0x7B, 0x00, 0x00, 0x00]);
    RejectsInvalidValue(TestKeyBase64, InvalidBase64String);
    RejectsInvalidKey(InvalidBase64String, TestValBase64);
    RejectsInvalidKey(InvalidBase64String, InvalidBase64String);
  }

  /** Three valid parts are rejected for their number. */
  lemma RejectsThreePartsExample()
    ensures FromBase64EncodedString(TestKeyValBase64 + [Base64Delimiter] + TestKeyBase64) == Failure(WrongPartCount(3))
  {
    EncodeKeyAndValue();
    NoDelimiterInBase64([0x7B, 0x00, 0x00, 0x00]);
    NoDelimiterInBase64([0xC8, 0x01, 0x00, 0x00]);
    RejectsThreeParts(TestKeyBase64, TestValBase64, TestKeyBase64);
  }

  lemma TestEntryToStringExamples()
    ensures TestEntryToString(U32(123), U32(456)) == "key=123, val=456"
    ensures TestEntryToString(U32(789), U32(123)) == "key=789, val=123"
  {
    assert Text.Decimal(123) == "123";
    assert Text.Decimal(456) == "456";
    assert Text.Decimal(789) == "789";
  }

  /** The report lines of the one-entry map. */
  lemma DumpMapExampleLines()
    ensures DumpLines([(U32(123), U32(456))], "mapName", "header", TestEntryToString)
         == ["mapName:", "  header", "  key=123, val=456"]
  {
    TestEntryToStringExamples();
    var lines := DumpLines([(U32(123), U32(456))], "mapName", "header", TestEntryToString);
    assert lines[0] == "mapName" + ":" == "mapName:";
    assert lines[1] == "  " + "header" == "  header";
    assert lines[2] == "  " + TestEntryToString(U32(123), U32(456)) == "  key=123, val=456";
  }

  /** A one-entry map is dumped as exactly "mapName:\n  header\n  key=123, val=456\n". */
  lemma DumpMapExample()
    ensures Text.Unlines(DumpLines([(U32(123), U32(456))], "mapName", "header", TestEntryToString))
         == "mapName:\n" + "  header\n" + "  key=123, val=456\n"
  {
    DumpMapExampleLines();
    Text.UnlinesThree("mapName:", "  header", "  key=123, val=456");
    assert "mapName:" + "\n" == "mapName:\n";
    assert "  header" + "\n" == "  header\n";
    assert "  key=123, val=456" + "\n" == "  key=123, val=456\n";
  }

  /** An entry of the test map has its formatted line in the dump. */
  lemma DumpHasTestEntryLine(entries: seq<(U32, U32)>, key: U32, value: U32)
    requires (key, value) in multiset(entries)
    ensures "  " + TestEntryToString(key, value) in Text.Split(Text.Unlines(DumpLines(entries, "mapName", "header", TestEntryToString)), '\n')
  {
    assert (key, value) in entries;
    DumpHasEntryLine(entries, "mapName", "header", TestEntryToString, (key, value));
  }

  /** Whatever order the map iterates its two entries in, the dump has a line
      for each entry. */
  lemma DumpMapMultipleEntriesExample(entries: seq<(U32, U32)>)
    requires multiset(entries) == multiset{(U32(123), U32(456)), (U32(789), U32(123))}
    ensures "  " + "key=123, val=456" in Text.Split(Text.Unlines(DumpLines(entries, "mapName", "header", TestEntryToString)), '\n')
    ensures "  " + "key=789, val=123" in Text.Split(Text.Unlines(DumpLines(entries, "mapName", "header", TestEntryToString)), '\n')
  {
    TestEntryToStringExamples();
    DumpHasTestEntryLine(entries, U32(123), U32(456));
    DumpHasTestEntryLine(entries, U32(789), U32(123));
  }

  /** Whatever the entries, the dump has the name line and the header line. */
  lemma DumpMapNameAndHeaderExample(entries: seq<(U32, U32)>)
    ensures "mapName:" in Text.Split(Text.Unlines(DumpLines(entries, "mapName", "header", TestEntryToString)), '\n')
    ensures "  header" in Text.Split(Text.Unlines(DumpLines(entries, "mapName", "header", TestEntryToString)), '\n')
  {
    DumpReportLines(entries, "mapName", "header", TestEntryToString);
    var lines := Text.Split(Text.Unlines(DumpLines(entries, "mapName", "header", TestEntryToString)), '\n');
    assert lines[0] == "mapName" + ":" == "mapName:";
    assert lines[1] == "  " + "header" == "  header";
  }
}
