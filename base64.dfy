/** Standard padded base64 (RFC 4648, section 4) over bytes: every 3 bytes
    become 4 characters of the 64-character alphabet, and a final group of 1
    or 2 bytes is padded with "==" or "=". Decoding is strict: the length must
    be a multiple of 4, padding may only close the last group, and the unused
    low bits of the last character before padding must be zero (RFC 4648,
    section 3.5), so that every accepted text is the encoding of exactly one
    byte string. */
module Base64 {
  import opened Wrappers

  const Pad: char := '='

  /** A position in the 64-character alphabet. */
  type Index = i: int | 0 <= i < 64

  /** The alphabet character at position `i` (RFC 4648, table 1). */
  function CharAt(i: Index): (c: char)
  {
    if i < 26 then (65 + i) as char          // 'A'..'Z'
    else if i < 52 then (97 + i - 26) as char // 'a'..'z'
    else if i < 62 then (48 + i - 52) as char // '0'..'9'
    else if i == 62 then '+'
    else '/'
  }

  /** The alphabet position of `c`; None for any other character, the padding
      character included. */
  function IndexOf(c: char): (r: Option<Index>)
  {
    if 'A' <= c <= 'Z' then Some(c as int - 65)
    else if 'a' <= c <= 'z' then Some(c as int - 97 + 26)
    else if '0' <= c <= '9' then Some(c as int - 48 + 52)
    else if c == '+' then Some(62)
    else if c == '/' then Some(63)
    else None
  }

  lemma IndexOfCharAt(i: Index)
    ensures IndexOf(CharAt(i)) == Some(i)
  {
  }

  lemma CharAtIndexOf(c: char)
    requires IndexOf(c).Some?
    ensures CharAt(IndexOf(c).value) == c
  {
  }

  function CharOf(v: bv6): char
  {
    CharAt(v as int)
  }

  function ValueOf(c: char): Option<bv6>
  {
    match IndexOf(c)
    case Some(i) => Some(i as bv6)
    case None => None
  }

  predicate IsAlphabetChar(c: char)
  {
    IndexOf(c).Some?
  }

  lemma ValueOfCharOf(v: bv6)
    ensures ValueOf(CharOf(v)) == Some(v)
  {
    IndexOfCharAt(v as int);
  }

  lemma Bv6OfIndex(i: Index)
    ensures (i as bv6) as int == i
  {
  }

  lemma CharOfValueOf(c: char)
    requires ValueOf(c).Some?
    ensures CharOf(ValueOf(c).value) == c
  {
    CharAtIndexOf(c);
    Bv6OfIndex(IndexOf(c).value);
  }

  /** The four 6-bit values of three bytes, most significant bits first. */
  function Split24(b0: bv8, b1: bv8, b2: bv8): (v: (bv6, bv6, bv6, bv6))
  {
    var n: bv24 := (b0 as bv24 << 16) | (b1 as bv24 << 8) | (b2 as bv24);
    ((n >> 18) as bv6, ((n >> 12) & 0x3F) as bv6, ((n >> 6) & 0x3F) as bv6, (n & 0x3F) as bv6)
  }

  /** The three bytes of four 6-bit values. */
  function Join24(v0: bv6, v1: bv6, v2: bv6, v3: bv6): (b: (bv8, bv8, bv8))
  {
    var n: bv24 := (v0 as bv24 << 18) | (v1 as bv24 << 12) | (v2 as bv24 << 6) | (v3 as bv24);
    ((n >> 16) as bv8, ((n >> 8) & 0xFF) as bv8, (n & 0xFF) as bv8)
  }

  lemma Join24Split24(b0: bv8, b1: bv8, b2: bv8)
    ensures var v := Split24(b0, b1, b2); Join24(v.0, v.1, v.2, v.3) == (b0, b1, b2)
  {
  }

  lemma Split24Join24(v0: bv6, v1: bv6, v2: bv6, v3: bv6)
    ensures var b := Join24(v0, v1, v2, v3); Split24(b.0, b.1, b.2) == (v0, v1, v2, v3)
  {
  }

  /** Three bytes as four characters. */
  function EncodeGroup(b0: bv8, b1: bv8, b2: bv8): (s: string)
    ensures |s| == 4 && forall i :: 0 <= i < 4 ==> IsAlphabetChar(s[i])
  {
    var v := Split24(b0, b1, b2);
    [CharOf(v.0), CharOf(v.1), CharOf(v.2), CharOf(v.3)]
  }

  /** The two 6-bit values that carry one final byte (the low 4 bits of the second are zero). */
  function Split8(b0: bv8): (v: (bv6, bv6))
  {
    ((b0 >> 2) as bv6, ((b0 & 0x3) as bv6) << 4)
  }

  function Join8(v0: bv6, v1: bv6): (b0: bv8)
  {
    ((v0 as bv8) << 2) | ((v1 >> 4) as bv8)
  }

  /** The three 6-bit values that carry two final bytes (the low 2 bits of the third are zero). */
  function Split16(b0: bv8, b1: bv8): (v: (bv6, bv6, bv6))
  {
    var n: bv16 := (b0 as bv16 << 8) | (b1 as bv16);
    ((n >> 10) as bv6, ((n >> 4) & 0x3F) as bv6, ((n & 0xF) as bv6) << 2)
  }

  function Join16(v0: bv6, v1: bv6, v2: bv6): (b: (bv8, bv8))
  {
    var n: bv18 := (v0 as bv18 << 12) | (v1 as bv18 << 6) | (v2 as bv18);
    ((n >> 10) as bv8, ((n >> 2) & 0xFF) as bv8)
  }

  lemma Join8Split8(b0: bv8)
    ensures Split8(b0).1 & 0xF == 0 && Join8(Split8(b0).0, Split8(b0).1) == b0
  {
  }

  lemma Split8Join8(v0: bv6, v1: bv6)
    requires v1 & 0xF == 0
    ensures Split8(Join8(v0, v1)) == (v0, v1)
  {
  }

  lemma Join16Split16(b0: bv8, b1: bv8)
    ensures var v := Split16(b0, b1); v.2 & 0x3 == 0 && Join16(v.0, v.1, v.2) == (b0, b1)
  {
  }

  lemma Split16Join16(v0: bv6, v1: bv6, v2: bv6)
    requires v2 & 0x3 == 0
    ensures var b := Join16(v0, v1, v2); Split16(b.0, b.1) == (v0, v1, v2)
  {
  }

  /** A final single byte: two characters and "==". */
  function EncodeLastOne(b0: bv8): (s: string)
    ensures |s| == 4 && IsAlphabetChar(s[0]) && IsAlphabetChar(s[1]) && s[2] == s[3] == Pad
  {
    var v := Split8(b0);
    [CharOf(v.0), CharOf(v.1), Pad, Pad]
  }

  /** A final pair of bytes: three characters and "=". */
  function EncodeLastTwo(b0: bv8, b1: bv8): (s: string)
    ensures |s| == 4 && IsAlphabetChar(s[0]) && IsAlphabetChar(s[1]) && IsAlphabetChar(s[2]) && s[3] == Pad
  {
    var v := Split16(b0, b1);
    [CharOf(v.0), CharOf(v.1), CharOf(v.2), Pad]
  }

  /** Length of the padded text of `n` bytes: four characters per started group of three. */
  function EncodedLength(n: nat): nat
  {
    4 * ((n + 2) / 3)
  }

  /** Standard padded base64 text of `b`. */
  function Encode(b: seq<bv8>): (s: string)
    ensures |s| == EncodedLength(|b|)
    decreases |b|
  {
    if |b| == 0 then []
    else if |b| == 1 then EncodeLastOne(b[0])
    else if |b| == 2 then EncodeLastTwo(b[0], b[1])
    else
      EncodeGroup(b[0], b[1], b[2]) + Encode(b[3..])
  }

  /** An encoding holds only alphabet characters and the padding character. */
  lemma {:induction false} EncodeChars(b: seq<bv8>)
    ensures forall i :: 0 <= i < |Encode(b)| ==> IsAlphabetChar(Encode(b)[i]) || Encode(b)[i] == Pad
    decreases |b|
  {
    if |b| > 2 {
      EncodeChars(b[3..]);
      var g, rest := EncodeGroup(b[0], b[1], b[2]), Encode(b[3..]);
      assert Encode(b) == g + rest;
      forall i | 0 <= i < |g + rest|
        ensures IsAlphabetChar((g + rest)[i]) || (g + rest)[i] == Pad
      {
        if i >= |g| {
          assert (g + rest)[i] == rest[i - |g|];
        }
      }
    }
  }

  /** One to three bytes fill one group of four characters. */
  lemma OneGroup(n: nat)
    requires 1 <= n <= 3
    ensures EncodedLength(n) == 4
  {
  }

  /** One more group of four characters holds three more bytes. */
  lemma GroupsStep(n: nat)
    ensures EncodedLength(n + 3) == 4 + EncodedLength(n)
  {
  }

  /** Four alphabet characters as three bytes; None if any is not in the alphabet. */
  function DecodeGroup(c0: char, c1: char, c2: char, c3: char): (r: Option<seq<bv8>>)
    ensures r.Some? ==> |r.value| == 3
  {
    match (ValueOf(c0), ValueOf(c1), ValueOf(c2), ValueOf(c3))
    case (Some(v0), Some(v1), Some(v2), Some(v3)) =>
      var b := Join24(v0, v1, v2, v3);
      Some([b.0, b.1, b.2])
    case _ => None
  }

  /** The last group of a text: a full group, or one closed by "=" or "==". */
  function DecodeLast(c0: char, c1: char, c2: char, c3: char): (r: Option<seq<bv8>>)
    ensures r.Some? ==> 1 <= |r.value| <= 3
    ensures r.Some? ==> (|r.value| == 3 <==> c3 != Pad)
  {
    if c2 == Pad && c3 == Pad then
      match (ValueOf(c0), ValueOf(c1))
      case (Some(v0), Some(v1)) =>
        if v1 & 0xF != 0 then None
        else Some([Join8(v0, v1)])
      case _ => None
    else if c3 == Pad then
      match (ValueOf(c0), ValueOf(c1), ValueOf(c2))
      case (Some(v0), Some(v1), Some(v2)) =>
        if v2 & 0x3 != 0 then None
        else
          var b := Join16(v0, v1, v2);
          Some([b.0, b.1])
      case _ => None
    else DecodeGroup(c0, c1, c2, c3)
  }

  /** The bytes whose standard padded base64 text is `s`; None when `s` is not
      such a text. */
  function Decode(s: string): (r: Option<seq<bv8>>)
    ensures r.Some? ==> |s| == EncodedLength(|r.value|)
    decreases |s|
  {
    if |s| == 0 then Some([])
    else if |s| < 4 then None
    else if |s| == 4 then
      var r := DecodeLast(s[0], s[1], s[2], s[3]);
      if r.Some? then OneGroup(|r.value|); r else r
    else
      match DecodeGroup(s[0], s[1], s[2], s[3])
      case None => None
      case Some(g) =>
        match Decode(s[4..])
        case None => None
        case Some(rest) =>
          GroupsStep(|rest|);
          assert |g + rest| == |rest| + 3;
          Some(g + rest)
  }

  lemma GroupRoundTrip(b0: bv8, b1: bv8, b2: bv8)
    ensures var s := EncodeGroup(b0, b1, b2); DecodeGroup(s[0], s[1], s[2], s[3]) == Some([b0, b1, b2])
  {
    var v := Split24(b0, b1, b2);
    ValueOfCharOf(v.0);
    ValueOfCharOf(v.1);
    ValueOfCharOf(v.2);
    ValueOfCharOf(v.3);
    Join24Split24(b0, b1, b2);
  }

  lemma LastOneRoundTrip(b0: bv8)
    ensures var s := EncodeLastOne(b0); DecodeLast(s[0], s[1], s[2], s[3]) == Some([b0])
  {
    var v := Split8(b0);
    ValueOfCharOf(v.0);
    ValueOfCharOf(v.1);
    Join8Split8(b0);
  }

  lemma LastTwoRoundTrip(b0: bv8, b1: bv8)
    ensures var s := EncodeLastTwo(b0, b1); DecodeLast(s[0], s[1], s[2], s[3]) == Some([b0, b1])
  {
    var v := Split16(b0, b1);
    ValueOfCharOf(v.0);
    ValueOfCharOf(v.1);
    ValueOfCharOf(v.2);
    Join16Split16(b0, b1);
  }

  /** Three bytes alone are one full group, decoded back by the last-group rule. */
  lemma DecodeEncodeThree(b: seq<bv8>)
    requires |b| == 3
    ensures Decode(Encode(b)) == Some(b)
  {
    GroupRoundTrip(b[0], b[1], b[2]);
    var g := EncodeGroup(b[0], b[1], b[2]);
    assert b[3..] == [];
    assert Encode(b) == g + [];
    assert g + [] == g;
    assert g[3] != Pad;
    assert [b[0], b[1], b[2]] == b;
  }

  lemma FirstThree(b: seq<bv8>)
    requires |b| >= 3
    ensures [b[0], b[1], b[2]] + b[3..] == b
  {
  }

  lemma FirstFour(s: string)
    requires |s| >= 4
    ensures [s[0], s[1], s[2], s[3]] + s[4..] == s
  {
  }

  /** The bytes of a group followed by the rest. */
  lemma AfterGroup(g: seq<bv8>, rest: seq<bv8>)
    requires |g| == 3
    ensures (g + rest)[0] == g[0] && (g + rest)[1] == g[1] && (g + rest)[2] == g[2]
    ensures (g + rest)[3..] == rest
  {
  }

  /** Encode unfolded once on more than three bytes. */
  lemma EncodeFirstGroup(b: seq<bv8>)
    requires |b| > 3
    ensures Encode(b) == EncodeGroup(b[0], b[1], b[2]) + Encode(b[3..])
  {
  }

  /** Decode unfolded once on a text of more than one group. */
  lemma DecodeFirstGroup(s: string)
    requires |s| > 4
    requires DecodeGroup(s[0], s[1], s[2], s[3]).Some? && Decode(s[4..]).Some?
    ensures Decode(s) == Some(DecodeGroup(s[0], s[1], s[2], s[3]).value + Decode(s[4..]).value)
  {
  }

  /** A leading full group decodes back in front of the rest. */
  lemma DecodeEncodeStep(b: seq<bv8>)
    requires |b| > 3
    requires Decode(Encode(b[3..])) == Some(b[3..])
    ensures Decode(Encode(b)) == Some(b)
  {
    GroupRoundTrip(b[0], b[1], b[2]);
    var g, t := EncodeGroup(b[0], b[1], b[2]), Encode(b[3..]);
    var s := g + t;
    assert Encode(b) == s;
    assert |t| >= 4;
    assert s[0] == g[0] && s[1] == g[1] && s[2] == g[2] && s[3] == g[3];
    assert s[4..] == t;
    DecodeFirstGroup(s);
    FirstThree(b);
  }

  /** Decoding undoes encoding: every byte string is recovered from its text. */
  lemma {:induction false} DecodeEncode(b: seq<bv8>)
    ensures Decode(Encode(b)) == Some(b)
    decreases |b|
  {
    if |b| == 1 {
      LastOneRoundTrip(b[0]);
      assert b == [b[0]];
    } else if |b| == 2 {
      LastTwoRoundTrip(b[0], b[1]);
      assert b == [b[0], b[1]];
    } else if |b| == 3 {
      DecodeEncodeThree(b);
    } else if |b| > 3 {
      DecodeEncode(b[3..]);
      DecodeEncodeStep(b);
    }
  }

  /** A group of four alphabet characters is the encoding of what it decodes to. */
  lemma GroupCanonical(c0: char, c1: char, c2: char, c3: char)
    requires DecodeGroup(c0, c1, c2, c3).Some?
    ensures var b := DecodeGroup(c0, c1, c2, c3).value; EncodeGroup(b[0], b[1], b[2]) == [c0, c1, c2, c3]
  {
    var v0, v1, v2, v3 := ValueOf(c0).value, ValueOf(c1).value, ValueOf(c2).value, ValueOf(c3).value;
    Split24Join24(v0, v1, v2, v3);
    CharOfValueOf(c0);
    CharOfValueOf(c1);
    CharOfValueOf(c2);
    CharOfValueOf(c3);
  }

  /** A last group closed by "==" is the encoding of the byte it decodes to. */
  lemma LastOneCanonical(c0: char, c1: char)
    requires DecodeLast(c0, c1, Pad, Pad).Some?
    ensures EncodeLastOne(DecodeLast(c0, c1, Pad, Pad).value[0]) == [c0, c1, Pad, Pad]
  {
    var v0, v1 := ValueOf(c0).value, ValueOf(c1).value;
    Split8Join8(v0, v1);
    CharOfValueOf(c0);
    CharOfValueOf(c1);
  }

  /** A last group closed by "=" is the encoding of the two bytes it decodes to. */
  lemma LastTwoCanonical(c0: char, c1: char, c2: char)
    requires c2 != Pad && DecodeLast(c0, c1, c2, Pad).Some?
    ensures var b := DecodeLast(c0, c1, c2, Pad).value; EncodeLastTwo(b[0], b[1]) == [c0, c1, c2, Pad]
  {
    var v0, v1, v2 := ValueOf(c0).value, ValueOf(c1).value, ValueOf(c2).value;
    Split16Join16(v0, v1, v2);
    CharOfValueOf(c0);
    CharOfValueOf(c1);
    CharOfValueOf(c2);
  }

  /** A last group is the encoding of what it decodes to. */
  lemma LastCanonical(c0: char, c1: char, c2: char, c3: char)
    requires DecodeLast(c0, c1, c2, c3).Some?
    ensures Encode(DecodeLast(c0, c1, c2, c3).value) == [c0, c1, c2, c3]
  {
    var b := DecodeLast(c0, c1, c2, c3).value;
    if c2 == Pad && c3 == Pad {
      LastOneCanonical(c0, c1);
    } else if c3 == Pad {
      LastTwoCanonical(c0, c1, c2);
    } else {
      GroupCanonical(c0, c1, c2, c3);
      assert b[3..] == [];
    }
  }

  /** A leading full group is re-encoded in front of the rest's text. */
  lemma EncodeDecodeStep(s: string)
    requires |s| > 4 && Decode(s).Some? && Decode(s[4..]).Some?
    requires Encode(Decode(s[4..]).value) == s[4..]
    ensures Encode(Decode(s).value) == s
  {
    var g := DecodeGroup(s[0], s[1], s[2], s[3]).value;
    var rest := Decode(s[4..]).value;
    var b := g + rest;
    DecodeFirstGroup(s);
    GroupCanonical(s[0], s[1], s[2], s[3]);
    assert |rest| > 0;
    AfterGroup(g, rest);
    EncodeFirstGroup(b);
    FirstFour(s);
  }

  /** Encoding undoes decoding: a text that decodes is the encoding of its bytes,
      so no two texts decode to the same bytes. */
  lemma {:induction false} EncodeDecode(s: string)
    requires Decode(s).Some?
    ensures Encode(Decode(s).value) == s
    decreases |s|
  {
    if |s| == 4 {
      LastCanonical(s[0], s[1], s[2], s[3]);
      assert s == [s[0], s[1], s[2], s[3]];
    } else if |s| > 4 {
      EncodeDecode(s[4..]);
      EncodeDecodeStep(s);
    }
  }
}
