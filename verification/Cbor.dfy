/** The bounded CBOR encoder and the strict cursor readers of zerofido_cbor.c. */
module Cbor {
  import opened Bytes
  import opened CborHead
  import Utf8

  /** `size_t` of the 32-bit target: the widest element count a reader reports. */
  const SIZE_MAX: uint32 := 0xFFFF_FFFF

  type int64 = x: int | -0x8000_0000_0000_0000 <= x < 0x8000_0000_0000_0000

  // What each encoder call appends.

  function EncodeUint(value: uint64): seq<byte> {
    EncodeHead(MAJOR_UINT, value)
  }

  function EncodeInt(value: int64): seq<byte> {
    if value >= 0 then EncodeHead(MAJOR_UINT, value) else EncodeHead(MAJOR_NEGINT, -1 - value)
  }

  function EncodeBool(value: bool): seq<byte> {
    [if value then 0xF5 else 0xF4]
  }

  function EncodeBytes(data: seq<byte>): seq<byte>
    requires |data| <= UINT64_MAX
  {
    EncodeHead(MAJOR_BYTES, |data|) + data
  }

  function EncodeText(text: seq<byte>): seq<byte>
    requires |text| <= UINT64_MAX
  {
    EncodeHead(MAJOR_TEXT, |text|) + text
  }

  /** What gets written of a text where there is this much room: all of it, its head alone, or nothing. */
  function TextLeft(text: seq<byte>, room: int): (left: seq<byte>)
    requires |text| <= UINT64_MAX
  {
    if |EncodeText(text)| <= room then EncodeText(text)
    else if HeadSize(|text|) <= room then EncodeHead(MAJOR_TEXT, |text|) else []
  }

  // What each reader accepts: the value and the number of bytes it takes.

  datatype Read<+T> = Read(value: T, size: nat)

  function ReadUint(s: seq<byte>): (r: Option<Read<uint64>>)
    ensures r.Some? ==> 1 <= r.value.size <= |s|
  {
    match ReadHead(s)
    case None => None
    case Some(h) => if h.major == MAJOR_UINT then Some(Read(h.value, h.size)) else None
  }

  function ReadInt(s: seq<byte>): (r: Option<Read<int64>>)
    ensures r.Some? ==> 1 <= r.value.size <= |s|
  {
    match ReadHead(s)
    case None => None
    case Some(h) =>
      if h.value >= 0x8000_0000_0000_0000 then None
      else if h.major == MAJOR_UINT then Some(Read(h.value, h.size))
      else if h.major == MAJOR_NEGINT then Some(Read(-1 - h.value, h.size))
      else None
  }

  function ReadBool(s: seq<byte>): (r: Option<Read<bool>>)
    ensures r.Some? ==> 1 <= r.value.size <= |s|
  {
    if s == [] then None
    else if s[0] == 0xF4 then Some(Read(false, 1))
    else if s[0] == 0xF5 then Some(Read(true, 1))
    else None
  }

  function ReadString(s: seq<byte>, major: Major): (r: Option<Read<seq<byte>>>)
    ensures r.Some? ==> |r.value.value| < r.value.size <= |s|
  {
    match ReadHead(s)
    case None => None
    case Some(h) =>
      if h.major != major || h.value > |s| - h.size then None
      else Some(Read(s[h.size..h.size + h.value], h.size + h.value))
  }

  function ReadBytes(s: seq<byte>): (r: Option<Read<seq<byte>>>)
    ensures r.Some? ==> |r.value.value| < r.value.size <= |s|
  {
    ReadString(s, MAJOR_BYTES)
  }

  ghost function ReadText(s: seq<byte>): (r: Option<Read<seq<byte>>>)
    ensures r.Some? ==> |r.value.value| < r.value.size <= |s|
  {
    var r := ReadString(s, MAJOR_TEXT);
    if r.Some? && Utf8.IsUtf8(r.value.value) then r else None
  }

  function ReadCount(s: seq<byte>, major: Major): (r: Option<Read<nat>>)
    ensures r.Some? ==> r.value.size <= |s|
  {
    match ReadHead(s)
    case None => None
    case Some(h) => if h.major != major || h.value > SIZE_MAX then None else Some(Read(h.value, h.size))
  }

  // Printer and reader undo each other, in both directions.

  lemma UintBijection(s: seq<byte>, value: uint64)
    ensures EncodeUint(value) <= s <==> ReadUint(s) == Some(Read(value, |EncodeUint(value)|))
  {
    HeadBijection(s, MAJOR_UINT, value, if |s| >= HeadSize(value) then s[HeadSize(value)..] else []);
    PrefixSplit(EncodeUint(value), s);
  }

  lemma IntBijection(s: seq<byte>, value: int64)
    ensures EncodeInt(value) <= s <==> ReadInt(s) == Some(Read(value, |EncodeInt(value)|))
  {
    var major: Major := if value >= 0 then MAJOR_UINT else MAJOR_NEGINT;
    var raw: uint64 := if value >= 0 then value else -1 - value;
    HeadBijection(s, major, raw, if |s| >= HeadSize(raw) then s[HeadSize(raw)..] else []);
    PrefixSplit(EncodeInt(value), s);
    if ReadHead(s).Some? {
      ReadHeadIsEncoded(s);
    }
  }

  lemma BoolBijection(s: seq<byte>, value: bool)
    ensures EncodeBool(value) <= s <==> ReadBool(s) == Some(Read(value, 1))
  {
  }

  lemma StringBijection(s: seq<byte>, major: Major, data: seq<byte>)
    requires |data| <= UINT64_MAX
    ensures EncodeHead(major, |data|) + data <= s
      <==> ReadString(s, major) == Some(Read(data, HeadSize(|data|) + |data|))
  {
    var n := HeadSize(|data|);
    HeadBijection(s, major, |data|, if |s| >= n then s[n..] else []);
    PrefixSplit(EncodeHead(major, |data|), s);
    var whole := EncodeHead(major, |data|) + data;
    if whole <= s {
      assert EncodeHead(major, |data|) == whole[..n] == s[..n];
      assert data == whole[n..] == s[n..n + |data|];
    }
    if ReadString(s, major) == Some(Read(data, n + |data|)) {
      assert ReadHead(s).value.value == |data|;
      assert s[..n + |data|] == s[..n] + s[n..n + |data|];
    }
  }

  lemma TextBijection(s: seq<byte>, text: seq<byte>)
    requires |text| <= UINT64_MAX
    ensures EncodeText(text) <= s && Utf8.IsUtf8(text) <==> ReadText(s) == Some(Read(text, |EncodeText(text)|))
  {
    StringBijection(s, MAJOR_TEXT, text);
  }

  lemma CountBijection(s: seq<byte>, major: Major, count: uint32)
    ensures EncodeHead(major, count) <= s <==> ReadCount(s, major) == Some(Read(count, HeadSize(count)))
  {
    HeadBijection(s, major, count, if |s| >= HeadSize(count) then s[HeadSize(count)..] else []);
    PrefixSplit(EncodeHead(major, count), s);
  }

  lemma PrefixSplit(head: seq<byte>, s: seq<byte>)
    ensures head <= s <==> |head| <= |s| && s == head + s[|head|..]
  {
  }

  /** The head `zf_cbor_encode_head` assembles, shift by shift. */
  method HeadBytes(major: Major, value: uint64) returns (head: seq<byte>)
    ensures head == EncodeHead(major, value)
  {
    BigEndianBytes(value);
    if value < 24 {
      head := [major * 32 + value];
    } else if value <= 0xFF {
      head := [major * 32 + 24, value];
      assert ToBigEndian(value, 1) == [value];
    } else if value <= 0xFFFF {
      head := [major * 32 + 25, value / 0x100 % 0x100, value % 0x100];
    } else if value <= 0xFFFF_FFFF {
      head := [major * 32 + 26, value / 0x100_0000 % 0x100, value / 0x1_0000 % 0x100,
               value / 0x100 % 0x100, value % 0x100];
    } else {
      head := [major * 32 + 27];
      for i := 0 to 8
        invariant head == [major * 32 + 27] + ToBigEndian(value, 8)[..i]
      {
        BigEndianDigit(value, 8, i);
        head := head + [ShiftRight(value, 7 - i) % 0x100];
      }
      assert ToBigEndian(value, 8)[..8] == ToBigEndian(value, 8);
    }
  }

  /** `ZfCborEncoder`: a buffer that is only ever written at `offset`. */
  class Encoder {
    const buf: array<byte>
    const capacity: nat
    var offset: nat

    ghost predicate Valid()
      reads this
    {
      offset <= capacity <= buf.Length
    }

    ghost function Written(): seq<byte>
      reads this, buf
      requires Valid()
    {
      buf[..offset]
    }

    constructor (buf: array<byte>, capacity: nat)
      requires capacity <= buf.Length
      ensures Valid() && Written() == [] && this.buf == buf && this.capacity == capacity
    {
      this.buf := buf;
      this.capacity := capacity;
      this.offset := 0;
    }

    /** `zf_cbor_append`. */
    method Append(data: seq<byte>) returns (ok: bool)
      requires Valid()
      modifies this, buf
      ensures Valid() && old(Written()) <= Written()
      ensures ok <==> |data| <= capacity - old(offset)
      ensures Written() == if ok then old(Written()) + data else old(Written())
    {
      if |data| > capacity - offset {
        return false;
      }
      forall i | 0 <= i < |data| {
        buf[offset + i] := data[i];
      }
      offset := offset + |data|;
      ok := true;
    }

    /** `zf_cbor_encode_head`. */
    method Head(major: Major, value: uint64) returns (ok: bool)
      requires Valid()
      modifies this, buf
      ensures Valid() && old(Written()) <= Written()
      ensures ok <==> HeadSize(value) <= capacity - old(offset)
      ensures Written() == if ok then old(Written()) + EncodeHead(major, value) else old(Written())
    {
      var head := HeadBytes(major, value);
      ok := Append(head);
    }

    method Uint(value: uint64) returns (ok: bool)
      requires Valid()
      modifies this, buf
      ensures Valid() && old(Written()) <= Written()
      ensures ok <==> |EncodeUint(value)| <= capacity - old(offset)
      ensures ok ==> Written() == old(Written()) + EncodeUint(value)
    {
      ok := Head(MAJOR_UINT, value);
    }

    method Int(value: int64) returns (ok: bool)
      requires Valid()
      modifies this, buf
      ensures Valid() && old(Written()) <= Written()
      ensures ok <==> |EncodeInt(value)| <= capacity - old(offset)
      ensures ok ==> Written() == old(Written()) + EncodeInt(value)
    {
      if value >= 0 {
        ok := Head(MAJOR_UINT, value);
      } else {
        ok := Head(MAJOR_NEGINT, -1 - value);
      }
    }

    method Boolean(value: bool) returns (ok: bool)
      requires Valid()
      modifies this, buf
      ensures Valid() && old(Written()) <= Written()
      ensures ok <==> 1 <= capacity - old(offset)
      ensures ok ==> Written() == old(Written()) + EncodeBool(value)
    {
      ok := Append([7 * 32 + if value then 21 else 20]);
    }

    method ByteString(data: seq<byte>) returns (ok: bool)
      requires Valid() && |data| <= UINT64_MAX
      modifies this, buf
      ensures Valid() && old(Written()) <= Written()
      ensures ok <==> |EncodeBytes(data)| <= capacity - old(offset)
      ensures ok ==> Written() == old(Written()) + EncodeBytes(data)
    {
      ok := Head(MAJOR_BYTES, |data|);
      if ok && |data| != 0 {
        ok := Append(data);
      }
    }

    /** `zf_cbor_encode_text_n`; it does not look at the text. */
    method Text(text: seq<byte>) returns (ok: bool)
      requires Valid() && |text| <= UINT64_MAX
      modifies this, buf
      ensures Valid() && old(Written()) <= Written()
      ensures ok <==> |EncodeText(text)| <= capacity - old(offset)
      ensures ok ==> Written() == old(Written()) + EncodeText(text)
      ensures Written() == old(Written()) + TextLeft(text, capacity - old(offset))
    {
      hide EncodeHead;
      ok := Head(MAJOR_TEXT, |text|);
      if ok && |text| != 0 {
        ok := Append(text);
      }
      assert text == [] ==> EncodeText(text) == EncodeHead(MAJOR_TEXT, 0);
    }

    /** `zf_cbor_encode_map`. */
    method Map(pairs: uint64) returns (ok: bool)
      requires Valid()
      modifies this, buf
      ensures Valid() && old(Written()) <= Written()
      ensures ok <==> HeadSize(pairs) <= capacity - old(offset)
      ensures ok ==> Written() == old(Written()) + EncodeHead(MAJOR_MAP, pairs)
    {
      ok := Head(MAJOR_MAP, pairs);
    }

    /** `zf_cbor_reserve_bytes`: room for a byte string the caller fills in; undone when it does not fit. */
    method ReserveBytes(size: uint64) returns (ok: bool, start: nat)
      requires Valid()
      modifies this, buf
      ensures Valid() && old(Written()) <= Written()
      ensures ok <==> HeadSize(size) + size <= capacity - old(offset)
      ensures ok ==> offset == start + size
      ensures ok ==> buf[..start] == old(Written()) + EncodeHead(MAJOR_BYTES, size)
      ensures !ok ==> Written() == old(Written())
    {
      var oldOffset := offset;
      ghost var before := Written();
      start := 0;
      ok := Head(MAJOR_BYTES, size);
      if !ok {
        return;
      }
      assert before == buf[..oldOffset];
      if size > capacity - offset {
        offset := oldOffset;
        ok := false;
        return;
      }
      start := offset;
      offset := offset + size;
    }
  }

  lemma BigEndianBytes(v: nat)
    ensures ToBigEndian(v, 2) == [v / 0x100 % 0x100, v % 0x100]
    ensures ToBigEndian(v, 4) == [v / 0x100_0000 % 0x100, v / 0x1_0000 % 0x100, v / 0x100 % 0x100, v % 0x100]
  {
    ShiftRightValues(v);
    forall n, i | n in {2, 4} && 0 <= i < n
      ensures ToBigEndian(v, n)[i] == ShiftRight(v, n - 1 - i) % 256
    {
      BigEndianDigit(v, n, i);
    }
  }
}
