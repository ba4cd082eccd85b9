/** The BPF map dump utilities: the two-part base64 text form of a key/value
    pair and the line-based report of a whole map. */
module BpfDump {
  import opened Wrappers
  import opened Structs
  import Base64
  import Text

  /** Separates the key's text from the value's text; it is not a base64 character. */
  const Base64Delimiter: char := ','

  /** Why a text is not the encoding of a key/value pair (each is thrown as an
      IllegalArgumentException by the original). */
  datatype DecodeError =
    | WrongPartCount(parts: nat)
    | InvalidKeyBase64
    | InvalidValueBase64
    | WrongKeySize(size: nat)
    | WrongValueSize(size: nat)

  lemma NoDelimiterInBase64(b: seq<bv8>)
    ensures Base64Delimiter !in Base64.Encode(b)
  {
    var s := Base64.Encode(b);
    Base64.EncodeChars(b);
    assert !Base64.IsAlphabetChar(Base64Delimiter);
    forall i | 0 <= i < |s| ensures s[i] != Base64Delimiter {
      assert Base64.IsAlphabetChar(s[i]) || s[i] == Base64.Pad;
    }
  }

  /** base64(key bytes) + "," + base64(value bytes). */
  function ToBase64EncodedString(key: U32, value: U32): (s: string)
    ensures Text.Split(s, Base64Delimiter) == [Base64.Encode(WriteToBytes(key)), Base64.Encode(WriteToBytes(value))]
  {
    var k, v := Base64.Encode(WriteToBytes(key)), Base64.Encode(WriteToBytes(value));
    NoDelimiterInBase64(WriteToBytes(key));
    NoDelimiterInBase64(WriteToBytes(value));
    Text.SplitJoin([k, v], Base64Delimiter);
    assert Text.Join([k, v], Base64Delimiter) == k + [Base64Delimiter] + v;
    k + [Base64Delimiter] + v
  }

  /** The key and value whose encoding is `s`: exactly two delimiter-separated
      parts, each valid base64 of exactly one struct's bytes. */
  function FromBase64EncodedString(s: string): (r: Result<(U32, U32), DecodeError>)
    ensures Text.Count(s, Base64Delimiter) != 1 ==> r == Failure(WrongPartCount(Text.Count(s, Base64Delimiter) + 1))
  {
    Text.SplitCount(s, Base64Delimiter);
    var parts := Text.Split(s, Base64Delimiter);
    if |parts| != 2 then Failure(WrongPartCount(|parts|))
    else
      match (Base64.Decode(parts[0]), Base64.Decode(parts[1]))
      case (None, _) => Failure(InvalidKeyBase64)
      case (_, None) => Failure(InvalidValueBase64)
      case (Some(kb), Some(vb)) =>
        if |kb| != U32Size then Failure(WrongKeySize(|kb|))
        else if |vb| != U32Size then Failure(WrongValueSize(|vb|))
        else Success((ParseU32(kb), ParseU32(vb)))
  }

  /** Decoding recovers every encoded pair. */
  lemma RoundTrip(key: U32, value: U32)
    ensures FromBase64EncodedString(ToBase64EncodedString(key, value)) == Success((key, value))
  {
    Base64.DecodeEncode(WriteToBytes(key));
    Base64.DecodeEncode(WriteToBytes(value));
    ParseWrite(key);
    ParseWrite(value);
  }

  /** Only encodings are accepted: a text that decodes is the encoding of its result. */
  lemma Canonical(s: string)
    requires FromBase64EncodedString(s).Success?
    ensures var kv := FromBase64EncodedString(s).value; s == ToBase64EncodedString(kv.0, kv.1)
  {
    var parts := Text.Split(s, Base64Delimiter);
    var kb, vb := Base64.Decode(parts[0]).value, Base64.Decode(parts[1]).value;
    Base64.EncodeDecode(parts[0]);
    Base64.EncodeDecode(parts[1]);
    WriteParse(kb);
    WriteParse(vb);
    Text.JoinSplit(s, Base64Delimiter);
    assert Text.Join(parts, Base64Delimiter) == parts[0] + [Base64Delimiter] + parts[1];
  }

  /** The accepted texts are exactly the encodings of key/value pairs. */
  lemma AcceptsExactlyEncodings(s: string)
    ensures FromBase64EncodedString(s).Success? <==> exists key, value :: s == ToBase64EncodedString(key, value)
  {
    if FromBase64EncodedString(s).Success? {
      Canonical(s);
    }
    if exists key, value :: s == ToBase64EncodedString(key, value) {
      var key, value :| s == ToBase64EncodedString(key, value);
      RoundTrip(key, value);
    }
  }

  /** A text with exactly one delimiter whose key part is not base64 is rejected
      for the key, whatever the value part. */
  lemma RejectsInvalidKey(k: string, v: string)
    requires Base64Delimiter !in k && Base64Delimiter !in v
    requires Base64.Decode(k).None?
    ensures FromBase64EncodedString(k + [Base64Delimiter] + v) == Failure(InvalidKeyBase64)
  {
    Text.SplitAround(k, Base64Delimiter, v);
    Text.SplitNoDelimiter(k, Base64Delimiter);
    Text.SplitNoDelimiter(v, Base64Delimiter);
  }

  /** A text with exactly one delimiter and a valid key part whose value part is
      not base64 is rejected for the value. */
  lemma RejectsInvalidValue(k: string, v: string)
    requires Base64Delimiter !in k && Base64Delimiter !in v
    requires Base64.Decode(k).Some? && Base64.Decode(v).None?
    ensures FromBase64EncodedString(k + [Base64Delimiter] + v) == Failure(InvalidValueBase64)
  {
    Text.SplitAround(k, Base64Delimiter, v);
    Text.SplitNoDelimiter(k, Base64Delimiter);
    Text.SplitNoDelimiter(v, Base64Delimiter);
  }

  /** Three delimiter-separated parts are rejected, even when each is valid base64. */
  lemma RejectsThreeParts(a: string, b: string, c: string)
    requires Base64Delimiter !in a && Base64Delimiter !in b && Base64Delimiter !in c
    ensures FromBase64EncodedString(a + [Base64Delimiter] + b + [Base64Delimiter] + c) == Failure(WrongPartCount(3))
  {
    var d := Base64Delimiter;
    assert a + [d] + b + [d] + c == a + [d] + (b + [d] + c);
    Text.SplitAround(a, d, b + [d] + c);
    Text.SplitAround(b, d, c);
    Text.SplitNoDelimiter(a, d);
    Text.SplitNoDelimiter(b, d);
    Text.SplitNoDelimiter(c, d);
  }

  /** The report of a map, line by line: the map's name and a colon, the header
      indented by two spaces, then one indented formatted line per entry in
      iteration order. */
  function DumpLines<K, V>(entries: seq<(K, V)>, mapName: string, header: string,
                           entryToString: (K, V) -> string): (lines: seq<string>)
    ensures |lines| == |entries| + 2
  {
    [mapName + ":", "  " + header]
      + seq(|entries|, i requires 0 <= i < |entries| => "  " + entryToString(entries[i].0, entries[i].1))
  }

  /** The text sink the report is printed to; `text` is everything written so far. */
  class PrintWriter {
    var text: string

    constructor ()
      ensures text == []
    {
      text := [];
    }

    method Println(line: string)
      modifies this
      ensures text == old(text) + line + "\n"
    {
      text := text + line + "\n";
    }
  }

  /** Prints the report of `entries` (the map's entries in its iteration order). */
  method DumpMap<K, V>(entries: seq<(K, V)>, pw: PrintWriter, mapName: string, header: string,
                       entryToString: (K, V) -> string)
    modifies pw
    ensures pw.text == old(pw.text) + Text.Unlines(DumpLines(entries, mapName, header, entryToString))
  {
    pw.Println(mapName + ":");
    pw.Println("  " + header);
    assert DumpLines(entries[..0], mapName, header, entryToString) == [mapName + ":", "  " + header];
    assert Text.Unlines([mapName + ":", "  " + header]) == mapName + ":" + "\n" + ("  " + header + "\n" + []) by {
      assert [mapName + ":", "  " + header][1..] == ["  " + header];
      assert Text.Unlines(["  " + header]) == "  " + header + "\n" + Text.Unlines([]);
    }
    for i := 0 to |entries|
      invariant pw.text == old(pw.text) + Text.Unlines(DumpLines(entries[..i], mapName, header, entryToString))
    {
      var line := "  " + entryToString(entries[i].0, entries[i].1);
      pw.Println(line);
      assert DumpLines(entries[..i + 1], mapName, header, entryToString)
          == DumpLines(entries[..i], mapName, header, entryToString) + [line];
      Text.UnlinesSnoc(DumpLines(entries[..i], mapName, header, entryToString), line);
    }
    assert entries[..|entries|] == entries;
  }

  /** When no name, header or formatted entry holds a line feed, the report is
      exactly: the name line, the header line, one line per entry in iteration
      order, and nothing after the final line feed. */
  lemma DumpReportLines<K, V>(entries: seq<(K, V)>, mapName: string, header: string,
                              entryToString: (K, V) -> string)
    requires '\n' !in mapName && '\n' !in header
    requires forall i :: 0 <= i < |entries| ==> '\n' !in entryToString(entries[i].0, entries[i].1)
    ensures var lines := Text.Split(Text.Unlines(DumpLines(entries, mapName, header, entryToString)), '\n');
      && |lines| == |entries| + 3
      && lines[0] == mapName + ":"
      && lines[1] == "  " + header
      && (forall i :: 0 <= i < |entries| ==> lines[i + 2] == "  " + entryToString(entries[i].0, entries[i].1))
      && lines[|entries| + 2] == []
  {
    var lines := DumpLines(entries, mapName, header, entryToString);
    forall i | 0 <= i < |lines| ensures '\n' !in lines[i] {
      if i >= 2 {
        assert lines[i] == "  " + entryToString(entries[i - 2].0, entries[i - 2].1);
      }
    }
    Text.SplitUnlines(lines);
  }

  /** Every entry of the map, wherever the iteration puts it, has its formatted
      line in the report. */
  lemma DumpHasEntryLine<K, V>(entries: seq<(K, V)>, mapName: string, header: string,
                               entryToString: (K, V) -> string, entry: (K, V))
    requires '\n' !in mapName && '\n' !in header
    requires forall i :: 0 <= i < |entries| ==> '\n' !in entryToString(entries[i].0, entries[i].1)
    requires entry in entries
    ensures "  " + entryToString(entry.0, entry.1) in Text.Split(Text.Unlines(DumpLines(entries, mapName, header, entryToString)), '\n')
  {
    DumpReportLines(entries, mapName, header, entryToString);
    var i :| 0 <= i < |entries| && entries[i] == entry;
    var lines := Text.Split(Text.Unlines(DumpLines(entries, mapName, header, entryToString)), '\n');
    assert lines[i + 2] == "  " + entryToString(entry.0, entry.1);
  }
}
