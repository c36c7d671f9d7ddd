/** The DER codec of ecdsa_der.c for signatures (section 2.2.3 of RFC 3279). */
module EcdsaDer {
  import opened Bytes
  import opened Der

  /** `value` without its leading zero bytes, the last byte always kept. */
  function StripZeros(value: seq<byte>): (s: seq<byte>)
    ensures value != [] ==> s != []
    ensures |s| <= |value|
  {
    if |value| > 1 && value[0] == 0 then StripZeros(value[1..]) else value
  }

  /** The contents octets of a non-negative INTEGER. */
  function IntegerContents(value: seq<byte>): (c: seq<byte>)
    requires value != []
    ensures 1 <= |c| <= |value| + 1
  {
    var s := StripZeros(value);
    if s[0] >= 0x80 then [0] + s else s
  }

  /** Section 8.3.2 of X.690, for a non-negative number: no sign bit, no redundant leading byte. */
  predicate MinimalPositive(c: seq<byte>) {
    && c != []
    && c[0] < 0x80
    && (|c| > 1 && c[0] == 0 ==> c[1] >= 0x80)
  }

  lemma {:induction false} StripZerosKeepsValue(value: seq<byte>)
    requires value != []
    ensures FromBigEndian(StripZeros(value)) == FromBigEndian(value)
    ensures var s := StripZeros(value); |s| == 1 || s[0] != 0
  {
    if |value| > 1 && value[0] == 0 {
      StripZerosKeepsValue(value[1..]);
      assert value == Fill(0, 1) + value[1..];
      LeadingZeros(1, value[1..]);
    }
  }

  lemma ContentsAreMinimal(value: seq<byte>)
    requires value != []
    ensures MinimalPositive(IntegerContents(value))
    ensures FromBigEndian(IntegerContents(value)) == FromBigEndian(value)
  {
    StripZerosKeepsValue(value);
    var s := StripZeros(value);
    assert [0] + s == Fill(0, 1) + s;
    LeadingZeros(1, s);
  }

  /** Minimal contents are the only ones for their number, so the encoding is canonical. */
  lemma MinimalIsUnique(c: seq<byte>, d: seq<byte>)
    requires MinimalPositive(c) && MinimalPositive(d) && FromBigEndian(c) == FromBigEndian(d)
    ensures c == d
  {
    if |c| <= |d| {
      NoLongerMinimal(c, d);
    } else {
      NoLongerMinimal(d, c);
    }
  }

  /** Zero-filling the shorter one makes them equal, which only an empty filling allows. */
  lemma NoLongerMinimal(c: seq<byte>, d: seq<byte>)
    requires MinimalPositive(c) && MinimalPositive(d) && FromBigEndian(c) == FromBigEndian(d) && |c| <= |d|
    ensures c == d
  {
    var zeros := |d| - |c|;
    var filled := Fill(0, zeros) + c;
    assert zeros == 1 ==> filled[0] == 0 && filled[1] == c[0];
    assert zeros > 1 ==> filled[0] == 0 && filled[1] == 0;
    LeadingZeros(zeros, c);
    BigEndianInjective(filled, d);
  }

  /** `zf_der_encode_int`. */
  method EncodeInt(value: seq<byte>) returns (out: seq<byte>)
    requires 1 <= |value| <= 32
    ensures out == Tlv(TAG_INTEGER, IntegerContents(value))
  {
    var start := 0;
    assert value[0..] == value;
    while start + 1 < |value| && value[start] == 0
      invariant start < |value| && StripZeros(value[start..]) == StripZeros(value)
    {
      assert value[start..][1..] == value[start + 1..];
      start := start + 1;
    }
    var len := |value| - start;
    assert StripZeros(value) == value[start..];
    if value[start] >= 0x80 {
      out := [0x02, len + 1, 0] + value[start..];
      assert out == [0x02] + [len + 1] + ([0] + value[start..]);
    } else {
      out := [0x02, len] + value[start..];
    }
  }

  /** The SEQUENCE of the two INTEGERs. */
  function SignatureBytes(r: seq<byte>, s: seq<byte>): (out: seq<byte>)
    requires |r| == |s| == 32
    ensures 8 <= |out| <= 72
  {
    Tlv(TAG_SEQUENCE, Tlv(TAG_INTEGER, IntegerContents(r)) + Tlv(TAG_INTEGER, IntegerContents(s)))
  }

  /** `zf_ecdsa_der_encode_signature`; the C code reports 0 where this returns None. */
  method EncodeSignature(r: seq<byte>, s: seq<byte>, capacity: nat) returns (out: Option<seq<byte>>)
    requires |r| == |s| == 32
    ensures out == if |SignatureBytes(r, s)| <= capacity then Some(SignatureBytes(r, s)) else None
  {
    var rBytes := EncodeInt(r);
    var sBytes := EncodeInt(s);
    var total := 2 + |rBytes| + |sBytes|;
    if total > capacity {
      return None;
    }
    assert [0x30] + [|rBytes| + |sBytes|] == [0x30, |rBytes| + |sBytes|];
    out := Some([0x30, |rBytes| + |sBytes|] + (rBytes + sBytes));
  }

  /** Drops leading zero bytes while more than 32 remain. */
  function TrimTo32(c: seq<byte>): (t: seq<byte>)
    ensures |t| <= |c|
  {
    if |c| > 32 && c[0] == 0 then TrimTo32(c[1..]) else c
  }

  /** INTEGER contents as a 32-byte coordinate. */
  function FixedWidth(c: seq<byte>): (r: Option<seq<byte>>)
    ensures r.Some? ==> |r.value| == 32
  {
    var t := TrimTo32(c);
    if |t| > 32 then None else Some(Fill(0, 32 - |t|) + t)
  }

  lemma {:induction false} TrimKeepsValue(c: seq<byte>)
    ensures FromBigEndian(TrimTo32(c)) == FromBigEndian(c)
    ensures |TrimTo32(c)| <= 32 <==> FromBigEndian(c) < Pow256(32)
  {
    hide FromBigEndian, Pow256;
    if |c| > 32 && c[0] == 0 {
      TrimKeepsValue(c[1..]);
      assert c == Fill(0, 1) + c[1..];
      LeadingZeros(1, c[1..]);
    } else if |c| > 32 {
      LargeWhenLong(c, 32);
    } else {
      BigEndianBound(c);
      PowMonotone(|c|, 32);
    }
  }

  lemma {:induction false} LargeWhenLong(c: seq<byte>, n: nat)
    requires |c| > n && c[0] > 0
    ensures FromBigEndian(c) >= Pow256(n)
    decreases |c|
  {
    if n > 0 {
      LargeWhenLong(c[..|c| - 1], n - 1);
      assert Pow256(n) == 256 * Pow256(n - 1);
    } else if |c| > 1 {
      LargeWhenLong(c[..|c| - 1], 0);
    }
  }

  lemma {:induction false} PowMonotone(m: nat, n: nat)
    requires m <= n
    ensures Pow256(m) <= Pow256(n)
    decreases n
  {
    if m < n {
      PowMonotone(m, n - 1);
    }
  }

  /**
   Whatever contents are accepted, leading zeros and all, the coordinate denotes the same number;
   and exactly the numbers that fit 32 bytes are accepted.
   */
  lemma FixedWidthKeepsValue(c: seq<byte>)
    ensures FixedWidth(c).Some? <==> FromBigEndian(c) < Pow256(32)
    ensures FixedWidth(c).Some? ==> FromBigEndian(FixedWidth(c).value) == FromBigEndian(c)
  {
    TrimKeepsValue(c);
    var t := TrimTo32(c);
    if |t| <= 32 {
      LeadingZeros(32 - |t|, t);
    }
  }

  datatype Coordinate = Coordinate(bytes: seq<byte>, size: nat)

  /** `zf_der_decode_int_fixed`, as a function of its input. */
  function ReadCoordinate(s: seq<byte>): (r: Option<Coordinate>)
    ensures r.Some? ==> |r.value.bytes| == 32 && r.value.size <= |s|
  {
    match ReadElement(s, TAG_INTEGER)
    case None => None
    case Some(e) =>
      if e.value == [] then None
      else
        match FixedWidth(e.value)
        case None => None
        case Some(bytes) => Some(Coordinate(bytes, e.size))
  }

  /** `zf_ecdsa_der_decode_signature`, as a function: bytes after the SEQUENCE are not looked at. */
  function ReadSignature(s: seq<byte>): (r: Option<seq<byte>>)
    ensures r.Some? ==> |r.value| == 64
  {
    match ReadElement(s, TAG_SEQUENCE)
    case None => None
    case Some(e) =>
      var start := e.size - |e.value|;
      match ReadCoordinate(s[start..])
      case None => None
      case Some(first) =>
        match ReadCoordinate(s[start + first.size..])
        case None => None
        case Some(second) =>
          if first.size + second.size == |e.value| then Some(first.bytes + second.bytes) else None
  }

  /** `zf_der_decode_int_fixed`. */
  method DecodeIntFixed(input: seq<byte>) returns (r: Option<Coordinate>)
    ensures r == ReadCoordinate(input)
  {
    if |input| < 2 || input[0] != 0x02 {
      return None;
    }
    var length := DecodeLength(input);
    if length.None? || length.value.valueLen == 0 {
      return None;
    }
    var Header(headerLen, valueLen) := length.value;
    var consumed := headerLen + valueLen;
    ghost var contents := input[headerLen..consumed];
    var value := headerLen;
    while valueLen > 32 && input[value] == 0
      invariant value + valueLen == consumed && headerLen <= value
      invariant TrimTo32(input[value..consumed]) == TrimTo32(contents)
      decreases valueLen
    {
      assert input[value..consumed][1..] == input[value + 1..consumed];
      value := value + 1;
      valueLen := valueLen - 1;
    }
    if valueLen > 32 {
      return None;
    }
    r := Some(Coordinate(Fill(0, 32 - valueLen) + input[value..consumed], consumed));
  }

  /** `zf_ecdsa_der_decode_signature`. */
  method DecodeSignature(signature: seq<byte>) returns (raw: Option<seq<byte>>)
    ensures raw == ReadSignature(signature)
  {
    hide ReadCoordinate;
    if |signature| < 2 || signature[0] != 0x30 {
      return None;
    }
    var length := DecodeLength(signature);
    if length.None? {
      return None;
    }
    var Header(headerLen, seqLen) := length.value;
    var offset := headerLen;
    var first := DecodeIntFixed(signature[offset..]);
    if first.None? {
      return None;
    }
    offset := offset + first.value.size;
    var second := DecodeIntFixed(signature[offset..]);
    if second.None? {
      return None;
    }
    offset := offset + second.value.size;
    if offset != headerLen + seqLen {
      return None;
    }
    raw := Some(first.value.bytes + second.value.bytes);
  }

  lemma ReadsCoordinate(value: seq<byte>, rest: seq<byte>)
    requires |value| == 32
    ensures var whole := Tlv(TAG_INTEGER, IntegerContents(value));
      ReadCoordinate(whole + rest) == Some(Coordinate(value, |whole|))
  {
    var c := IntegerContents(value);
    ReadsTlv(TAG_INTEGER, c, rest);
    ContentsAreMinimal(value);
    BigEndianBound(value);
    FixedWidthKeepsValue(c);
    BigEndianInjective(FixedWidth(c).value, value);
  }

  /** Every signature the encoder prints is read back as r || s, whatever follows it. */
  lemma SignatureRoundTrip(r: seq<byte>, s: seq<byte>, rest: seq<byte>)
    requires |r| == |s| == 32
    ensures ReadSignature(SignatureBytes(r, s) + rest) == Some(r + s)
  {
    hide ReadCoordinate, IntegerContents;
    var rInt, sInt := Tlv(TAG_INTEGER, IntegerContents(r)), Tlv(TAG_INTEGER, IntegerContents(s));
    var whole := SignatureBytes(r, s) + rest;
    ReadsTlv(TAG_SEQUENCE, rInt + sInt, rest);
    var start := 2;
    assert whole[start..] == rInt + (sInt + rest);
    assert whole[start + |rInt|..] == sInt + rest;
    ReadsCoordinate(r, sInt + rest);
    ReadsCoordinate(s, rest);
  }

  /** What an accepted coordinate means: it is the number the INTEGER contents denote. */
  lemma AcceptedCoordinate(s: seq<byte>)
    ensures match ReadElement(s, TAG_INTEGER)
      case None => ReadCoordinate(s).None?
      case Some(e) =>
        && (ReadCoordinate(s).Some? <==> e.value != [] && FromBigEndian(e.value) < Pow256(32))
        && (ReadCoordinate(s).Some? ==> FromBigEndian(ReadCoordinate(s).value.bytes) == FromBigEndian(e.value)
                                        && ReadCoordinate(s).value.size == e.size)
  {
    if ReadElement(s, TAG_INTEGER).Some? {
      FixedWidthKeepsValue(ReadElement(s, TAG_INTEGER).value.value);
    }
  }

  /** What an accepted signature means: r || s hold the numbers of the two INTEGERs that fill the SEQUENCE. */
  lemma AcceptedSignature(s: seq<byte>) returns (outer: Element, first: Element, second: Element)
    requires ReadSignature(s).Some?
    ensures ReadElement(s, TAG_SEQUENCE) == Some(outer)
    ensures ReadElement(s[outer.size - |outer.value|..], TAG_INTEGER) == Some(first)
    ensures ReadElement(s[outer.size - |outer.value| + first.size..], TAG_INTEGER) == Some(second)
    ensures first.size + second.size == |outer.value|
    ensures FromBigEndian(ReadSignature(s).value[..32]) == FromBigEndian(first.value) < Pow256(32)
    ensures FromBigEndian(ReadSignature(s).value[32..]) == FromBigEndian(second.value) < Pow256(32)
  {
    hide ReadElement, ReadCoordinate, FromBigEndian, Pow256;
    outer := ReadElement(s, TAG_SEQUENCE).value;
    var start := outer.size - |outer.value|;
    AcceptedCoordinate(s[start..]);
    first := ReadElement(s[start..], TAG_INTEGER).value;
    AcceptedCoordinate(s[start + first.size..]);
    second := ReadElement(s[start + first.size..], TAG_INTEGER).value;
  }
}
