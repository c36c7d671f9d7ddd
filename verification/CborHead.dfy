/** Data item heads: the argument encodings of section 3 of RFC 8949, minimal in one direction. */
module CborHead {
  import opened Bytes

  const MAJOR_UINT := 0
  const MAJOR_NEGINT := 1
  const MAJOR_BYTES := 2
  const MAJOR_TEXT := 3
  const MAJOR_ARRAY := 4
  const MAJOR_MAP := 5
  const MAJOR_SIMPLE := 7

  type Major = m: int | 0 <= m < 8

  datatype Head = Head(major: Major, value: uint64, size: nat)

  /** The size of the shortest head that carries `value` (section 4.2.1 of RFC 8949). */
  function HeadSize(value: uint64): (n: nat)
    ensures 1 <= n <= 9
  {
    if value < 24 then 1
    else if value <= 0xFF then 2
    else if value <= 0xFFFF then 3
    else if value <= 0xFFFF_FFFF then 5
    else 9
  }

  /** The low five bits of the initial byte: the value itself or the code of the argument width. */
  function HeadInfo(value: uint64): (info: nat)
    ensures info < 28
  {
    if value < 24 then value
    else if value <= 0xFF then 24
    else if value <= 0xFFFF then 25
    else if value <= 0xFFFF_FFFF then 26
    else 27
  }

  /** `zf_cbor_encode_head`, as the bytes it appends. */
  function EncodeHead(major: Major, value: uint64): (s: seq<byte>)
    ensures |s| == HeadSize(value)
  {
    [major * 32 + HeadInfo(value)] + ToBigEndian(value, HeadSize(value) - 1)
  }

  /** How many argument bytes follow the initial byte; 28 to 31 are refused by both readers. */
  function ArgumentBytes(info: nat): nat {
    if info < 24 then 0 else if info == 24 then 1 else if info == 25 then 2 else if info == 26 then 4 else 8
  }

  /** `zf_cbor_skip_read_head`: any argument width, minimal or not. */
  function ReadHeadLoose(s: seq<byte>): (r: Option<Head>)
    ensures r.Some? ==> 1 <= r.value.size <= |s|
  {
    if s == [] then None
    else
      var info := s[0] % 32;
      var width := ArgumentBytes(info);
      if info >= 28 || |s| < 1 + width then None
      else if width == 0 then Some(Head(s[0] / 32, info, 1))
      else
        assert FromBigEndian(s[1..1 + width]) < 0x1_0000_0000_0000_0000 by { ArgumentRange(s, width); }
        Some(Head(s[0] / 32, FromBigEndian(s[1..1 + width]), 1 + width))
  }

  /** `zf_cbor_read_head`: a head is refused unless its argument is as short as it can be. */
  function ReadHead(s: seq<byte>): (r: Option<Head>)
    ensures r.Some? ==> 1 <= r.value.size <= |s|
  {
    var r := ReadHeadLoose(s);
    if r.Some? && r.value.size == HeadSize(r.value.value) then r else None
  }

  lemma ArgumentRange(s: seq<byte>, width: nat)
    requires |s| >= 1 + width && width in {1, 2, 4, 8}
    ensures FromBigEndian(s[1..1 + width]) < Pow256(width) <= 0x1_0000_0000_0000_0000
  {
    Pow256Values();
    BigEndianBound(s[1..1 + width]);
  }

  lemma LooseHeadRange(s: seq<byte>)
    requires ReadHeadLoose(s).Some?
    ensures var h := ReadHeadLoose(s).value;
      h.size in {1, 2, 3, 5, 9} && h.value < if h.size == 1 then 24 else Pow256(h.size - 1)
  {
    var width := ArgumentBytes(s[0] % 32);
    if width > 0 {
      ArgumentRange(s, width);
    }
  }

  lemma InitialByte(major: Major, info: nat)
    requires info < 32
    ensures (major * 32 + info) / 32 == major && (major * 32 + info) % 32 == info
  {
  }

  lemma HeadFits(value: uint64)
    ensures ArgumentBytes(HeadInfo(value)) == HeadSize(value) - 1
    ensures value >= 24 ==> value < Pow256(HeadSize(value) - 1)
  {
    Pow256Values();
  }

  lemma EncodedHeadReads(major: Major, value: uint64, rest: seq<byte>)
    ensures ReadHead(EncodeHead(major, value) + rest) == Some(Head(major, value, HeadSize(value)))
  {
    var head := EncodeHead(major, value);
    var s := head + rest;
    var width := HeadSize(value) - 1;
    assert s[0] == head[0] == major * 32 + HeadInfo(value);
    InitialByte(major, HeadInfo(value));
    HeadFits(value);
    assert s[1..1 + width] == head[1..] == ToBigEndian(value, width);
    if value >= 24 {
      BigEndianRoundTrip(value, width);
    }
  }

  lemma ReadHeadIsEncoded(s: seq<byte>)
    requires ReadHead(s).Some?
    ensures var h := ReadHead(s).value; EncodeHead(h.major, h.value) == s[..h.size]
  {
    var h := ReadHead(s).value;
    if h.size > 1 {
      BigEndianInverse(s[1..h.size]);
      ArgumentRange(s, h.size - 1);
      Pow256Values();
      assert s[..h.size] == [s[0]] + s[1..h.size];
    }
  }

  /** Heads are a canonical bijection: exactly the encoder's output is read, and as what went in. */
  lemma HeadBijection(s: seq<byte>, major: Major, value: uint64, rest: seq<byte>)
    ensures s == EncodeHead(major, value) + rest
      <==> ReadHead(s) == Some(Head(major, value, HeadSize(value))) && s[HeadSize(value)..] == rest
  {
    if ReadHead(s) == Some(Head(major, value, HeadSize(value))) {
      ReadHeadIsEncoded(s);
      assert s == s[..HeadSize(value)] + s[HeadSize(value)..];
    }
    if s == EncodeHead(major, value) + rest {
      EncodedHeadReads(major, value, rest);
    }
  }

  /** Both readers look at nothing beyond the head they return. */
  lemma HeadIsLocal(s: seq<byte>, t: seq<byte>)
    requires ReadHeadLoose(s).Some? && ReadHeadLoose(s).value.size <= |t|
    requires s[..ReadHeadLoose(s).value.size] == t[..ReadHeadLoose(s).value.size]
    ensures ReadHeadLoose(t) == ReadHeadLoose(s) && ReadHead(t) == ReadHead(s)
  {
  }
}
