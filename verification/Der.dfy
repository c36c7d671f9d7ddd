/** DER tag-length-value elements, as both the signature codec and the certificate code use them. */
module Der {
  import opened Bytes

  const TAG_INTEGER := 0x02
  const TAG_BIT_STRING := 0x03
  const TAG_SEQUENCE := 0x30

  datatype Header = Header(headerLen: nat, valueLen: nat)

  datatype Element = Element(value: seq<byte>, size: nat)

  /**
   `zf_der_parse_length` and `zf_der_decode_length`: short form, or long form of at most the four
   octets of a `size_t`; the value must lie within the input.
   */
  function ReadLength(s: seq<byte>): (r: Option<Header>)
    ensures r.Some? ==> 2 <= r.value.headerLen && r.value.headerLen + r.value.valueLen <= |s|
  {
    if |s| < 2 then None
    else if s[1] < 0x80 then
      if s[1] <= |s| - 2 then Some(Header(2, s[1])) else None
    else
      var octets := s[1] - 0x80;
      if octets == 0 || octets > 4 || octets > |s| - 2 then None
      else
        var length := FromBigEndian(s[2..2 + octets]);
        if length <= |s| - (2 + octets) then Some(Header(2 + octets, length)) else None
  }

  /** `zf_der_read_element`. */
  function ReadElement(s: seq<byte>, tag: byte): (r: Option<Element>)
    ensures r.Some? ==> 2 <= r.value.size <= |s| && |r.value.value| < r.value.size
  {
    if s == [] || s[0] != tag then None
    else
      match ReadLength(s)
      case None => None
      case Some(h) => Some(Element(s[h.headerLen..h.headerLen + h.valueLen], h.headerLen + h.valueLen))
  }

  /** The shortest form of a length (section 10.1 of X.690); the writers keep two octets at most. */
  function EncodeLength(n: nat): (s: seq<byte>)
    ensures 1 <= |s| <= 3
  {
    if n < 0x80 then [n] else if n <= 0xFF then [0x81, n] else [0x82, n / 0x100 % 0x100, n % 0x100]
  }

  function Tlv(tag: byte, value: seq<byte>): seq<byte> {
    [tag] + EncodeLength(|value|) + value
  }

  /** A reader takes exactly the element the writer produced, whatever follows. */
  lemma ReadsTlv(tag: byte, value: seq<byte>, rest: seq<byte>)
    requires |value| <= 0xFFFF
    ensures ReadElement(Tlv(tag, value) + rest, tag) == Some(Element(value, |Tlv(tag, value)|))
  {
    var s := Tlv(tag, value) + rest;
    var n := |value|;
    var header := 1 + |EncodeLength(n)|;
    assert s[..header] == [tag] + EncodeLength(n);
    assert s[0] == tag && s[1] == EncodeLength(n)[0];
    if n >= 0x80 {
      assert s[2..header] == EncodeLength(n)[1..];
      WordsAreBigEndian(s[2..header]);
      if n > 0xFF {
        assert s[2..header] == [n / 0x100, n % 0x100];
      }
    }
    assert s[header..header + n] == value;
  }

  /** The loop of both length parsers, one octet per shift. */
  method DecodeLength(input: seq<byte>) returns (r: Option<Header>)
    ensures r == ReadLength(input)
  {
    if |input| < 2 {
      return None;
    }
    if input[1] < 0x80 {
      if input[1] <= |input| - 2 {
        return Some(Header(2, input[1]));
      }
      return None;
    }
    var octets := input[1] - 0x80;
    if octets == 0 || octets > 4 || octets > |input| - 2 {
      return None;
    }
    var length := 0;
    assert input[2..2] == [];
    for i := 0 to octets
      invariant length == FromBigEndian(input[2..2 + i])
    {
      BigEndianAppend(input[2..2 + i], input[2 + i]);
      assert input[2..2 + i + 1] == input[2..2 + i] + [input[2 + i]];
      length := 256 * length + input[2 + i];
    }
    if length <= |input| - (2 + octets) {
      return Some(Header(2 + octets, length));
    }
    return None;
  }

  method DecodeElement(input: seq<byte>, tag: byte) returns (r: Option<Element>)
    ensures r == ReadElement(input, tag)
  {
    if |input| < 2 || input[0] != tag {
      return None;
    }
    var h := DecodeLength(input);
    match h {
      case None => return None;
      case Some(header) =>
        var size := header.headerLen + header.valueLen;
        return Some(Element(input[header.headerLen..size], size));
    }
  }
}
