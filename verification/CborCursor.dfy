/** The reading cursor of zerofido_cbor.c, and `skip` over arbitrary input. */
module CborCursor {
  import opened Bytes
  import opened CborHead
  import opened Cbor
  import opened CborSkip
  import Utf8

  /** `ZfCborCursor`: `ptr` is `pos`, `end` is the length of the data. */
  class Cursor {
    const data: seq<byte>
    var pos: nat

    ghost predicate Valid()
      reads this
    {
      pos <= |data|
    }

    constructor (data: seq<byte>)
      ensures Valid() && this.data == data && pos == 0
    {
      this.data := data;
      this.pos := 0;
    }

    /** `zf_cbor_skip_read_head`. */
    method LooseHead() returns (ok: bool, major: Major, value: uint64)
      requires Valid()
      modifies this
      ensures Valid() && old(pos) <= pos
      ensures ok <==> ReadHeadLoose(data[old(pos)..]).Some?
      ensures ok ==> ReadHeadLoose(data[old(pos)..]) == Some(Head(major, value, pos - old(pos)))
    {
      ok, major, value := false, 0, 0;
      if pos >= |data| {
        return;
      }
      var initial := data[pos];
      ghost var rest := data[pos..];
      pos := pos + 1;
      var info := initial % 32;
      major := initial / 32;
      if info < 24 {
        return true, major, info;
      }
      var p, left := pos, |data| - pos;
      if info == 24 {
        if left >= 1 {
          assert rest[1..2] == data[p..p + 1];
          WordsAreBigEndian(data[p..p + 1]);
          pos := pos + 1;
          return true, major, data[p];
        }
      } else if info == 25 {
        if left >= 2 {
          assert rest[1..3] == data[p..p + 2];
          WordsAreBigEndian(data[p..p + 2]);
          pos := pos + 2;
          return true, major, Word16(data[p], data[p + 1]);
        }
      } else if info == 26 {
        if left >= 4 {
          assert rest[1..5] == data[p..p + 4];
          WordsAreBigEndian(data[p..p + 4]);
          pos := pos + 4;
          return true, major, Word32(data[p], data[p + 1], data[p + 2], data[p + 3]);
        }
      } else if info == 27 {
        if left >= 8 {
          assert rest[1..9] == data[p..p + 8];
          Word64IsBigEndian(data[p..p + 8]);
          pos := pos + 8;
          return true, major,
            0x1_0000_0000 * Word32(data[p], data[p + 1], data[p + 2], data[p + 3]) +
            Word32(data[p + 4], data[p + 5], data[p + 6], data[p + 7]);
        }
      }
    }

    /** `zf_cbor_read_head`: as above, refusing an argument that has a shorter encoding. */
    method StrictHead() returns (ok: bool, major: Major, value: uint64)
      requires Valid()
      modifies this
      ensures Valid() && old(pos) <= pos
      ensures ok <==> ReadHead(data[old(pos)..]).Some?
      ensures ok ==> ReadHead(data[old(pos)..]) == Some(Head(major, value, pos - old(pos)))
    {
      var start := pos;
      ghost var rest := data[pos..];
      ok, major, value := LooseHead();
      if ok {
        LooseHeadRange(rest);
        Pow256Values();
        var width := pos - start - 1;
        ok := width == 0 || (width == 1 && value >= 24) || (width == 2 && value > 0xFF) ||
              (width == 4 && value > 0xFFFF) || (width == 8 && value > 0xFFFF_FFFF);
      }
    }

    method Uint() returns (ok: bool, value: uint64)
      requires Valid()
      modifies this
      ensures Valid() && old(pos) <= pos
      ensures ok <==> ReadUint(data[old(pos)..]).Some?
      ensures ok ==> ReadUint(data[old(pos)..]) == Some(Read(value, pos - old(pos)))
    {
      var major: Major;
      ok, major, value := StrictHead();
      ok := ok && major == MAJOR_UINT;
    }

    method Int() returns (ok: bool, value: int64)
      requires Valid()
      modifies this
      ensures Valid() && old(pos) <= pos
      ensures ok <==> ReadInt(data[old(pos)..]).Some?
      ensures ok ==> ReadInt(data[old(pos)..]) == Some(Read(value, pos - old(pos)))
    {
      var major: Major;
      var raw: uint64;
      value := 0;
      ok, major, raw := StrictHead();
      if !ok || raw >= 0x8000_0000_0000_0000 {
        return false, 0;
      }
      if major == MAJOR_UINT {
        value := raw;
      } else if major == MAJOR_NEGINT {
        value := -1 - raw;
      } else {
        ok := false;
      }
    }

    method Boolean() returns (ok: bool, value: bool)
      requires Valid()
      modifies this
      ensures Valid() && old(pos) <= pos
      ensures ok <==> ReadBool(data[old(pos)..]).Some?
      ensures ok ==> ReadBool(data[old(pos)..]) == Some(Read(value, pos - old(pos)))
    {
      ok, value := false, false;
      if pos >= |data| {
        return;
      }
      var initial := data[pos];
      pos := pos + 1;
      if initial == 7 * 32 + 20 {
        ok, value := true, false;
      } else if initial == 7 * 32 + 21 {
        ok, value := true, true;
      }
    }

    /** The part `zf_cbor_read_bytes_ptr` and `zf_cbor_read_text_ptr` share. */
    method StringOf(wanted: Major) returns (ok: bool, value: seq<byte>)
      requires Valid()
      modifies this
      ensures Valid() && old(pos) <= pos
      ensures ok <==> ReadString(data[old(pos)..], wanted).Some?
      ensures ok ==> ReadString(data[old(pos)..], wanted) == Some(Read(value, pos - old(pos)))
    {
      var major: Major;
      var raw: uint64;
      ghost var rest := data[pos..];
      ghost var start := pos;
      value := [];
      ok, major, raw := StrictHead();
      if !ok || major != wanted || raw > |data| - pos {
        return false, [];
      }
      assert rest[pos - start..pos - start + raw] == data[pos..pos + raw];
      value := data[pos..pos + raw];
      pos := pos + raw;
    }

    method ByteString() returns (ok: bool, value: seq<byte>)
      requires Valid()
      modifies this
      ensures Valid() && old(pos) <= pos
      ensures ok <==> ReadBytes(data[old(pos)..]).Some?
      ensures ok ==> ReadBytes(data[old(pos)..]) == Some(Read(value, pos - old(pos)))
    {
      ok, value := StringOf(MAJOR_BYTES);
    }

    method Text() returns (ok: bool, value: seq<byte>)
      requires Valid()
      modifies this
      ensures Valid() && old(pos) <= pos
      ensures ok <==> ReadText(data[old(pos)..]).Some?
      ensures ok ==> ReadText(data[old(pos)..]) == Some(Read(value, pos - old(pos)))
    {
      ok, value := StringOf(MAJOR_TEXT);
      if ok {
        ok := Utf8.IsValid(value);
      }
    }

    /** `zf_cbor_read_map_start`. */
    method MapStart() returns (ok: bool, pairs: nat)
      requires Valid()
      modifies this
      ensures Valid() && old(pos) <= pos
      ensures ok <==> ReadCount(data[old(pos)..], MAJOR_MAP).Some?
      ensures ok ==> ReadCount(data[old(pos)..], MAJOR_MAP) == Some(Read(pairs, pos - old(pos)))
    {
      var major: Major;
      ok, major, pairs := StrictHead();
      ok := ok && major == MAJOR_MAP && pairs <= SIZE_MAX;
    }

    /** `zf_cbor_skip_inner`. */
    method SkipInner(depth: nat) returns (ok: bool)
      requires Valid() && depth <= DEPTH_LIMIT + 1
      modifies this
      ensures Valid() && old(pos) <= pos
      ensures Skip(data[old(pos)..], depth) == if ok then Some(pos - old(pos)) else None
      decreases DEPTH_LIMIT + 1 - depth, 0
    {
      if depth > DEPTH_LIMIT {
        return false;
      }
      var major: Major;
      var raw: uint64;
      var start := pos;
      ok, major, raw := LooseHead();
      if ok {
        assert data[start..][pos - start..] == data[pos..];
        ok := SkipBody(Head(major, raw, pos - start), depth);
      }
    }

    /** The switch on the major type. */
    method SkipBody(h: Head, depth: nat) returns (ok: bool)
      requires Valid() && depth <= DEPTH_LIMIT
      modifies this
      ensures Valid() && old(pos) <= pos
      ensures var body := if IsContainer(h) then Advance(h.size, SkipItems(data[old(pos)..], ItemCount(h), depth + 1))
                          else SkipLeaf(h, |data| - old(pos));
        body == if ok then Some(h.size + pos - old(pos)) else None
      decreases DEPTH_LIMIT - depth, 3
    {
      ok := true;
      if h.major == MAJOR_UINT || h.major == MAJOR_NEGINT {
      } else if h.major == MAJOR_SIMPLE {
        ok := h.value != 31;
      } else if h.major == MAJOR_BYTES || h.major == MAJOR_TEXT {
        ok := h.value <= |data| - pos;
        if ok {
          pos := pos + h.value;
        }
      } else if h.major == MAJOR_ARRAY {
        ok := SkipArray(h.value, depth + 1);
      } else if h.major == MAJOR_MAP {
        ok := SkipMap(h.value, depth + 1);
      } else {
        ok := false;
      }
    }

    /**
     One element of a container.  Given that the container takes `total`, which is what was read
     since `start` and what `SkipItems` says of the rest, it says the same of what is left after.
     */
    method SkipElement(ghost start: nat, ghost count: nat, depth: nat, ghost total: Option<nat>) returns (ok: bool)
      requires Valid() && depth <= DEPTH_LIMIT + 1 && count > 0 && start <= pos
      requires total == Advance(pos - start, SkipItems(data[pos..], count, depth))
      modifies this
      ensures Valid() && old(pos) <= pos
      ensures total == if ok then Advance(pos - start, SkipItems(data[pos..], count - 1, depth)) else None
      decreases DEPTH_LIMIT + 1 - depth, 1
    {
      hide Skip, SkipItems;
      ghost var before := pos;
      SkipItemsStep(data[pos..], count, depth);
      ok := SkipInner(depth);
      assert data[before..][pos - before..] == data[pos..];
      AdvanceAdds(before - start, pos - before, SkipItems(data[pos..], count - 1, depth));
    }

    /** The loop over the elements of an array. */
    method SkipArray(raw: uint64, depth: nat) returns (ok: bool)
      requires Valid() && depth <= DEPTH_LIMIT + 1
      modifies this
      ensures Valid() && old(pos) <= pos
      ensures SkipItems(data[old(pos)..], raw, depth) == if ok then Some(pos - old(pos)) else None
      decreases DEPTH_LIMIT + 1 - depth, 2
    {
      hide SkipItems;
      ghost var start, total := pos, SkipItems(data[pos..], raw, depth);
      var i := 0;
      while i < raw
        invariant Valid() && i <= raw && start <= pos
        invariant total == Advance(pos - start, SkipItems(data[pos..], raw - i, depth))
      {
        var item := SkipElement(start, raw - i, depth, total);
        if !item {
          return false;
        }
        i := i + 1;
      }
      SkipItemsNone(data[pos..], depth);
      ok := true;
    }

    /** The loop over the pairs of a map. */
    method SkipMap(raw: uint64, depth: nat) returns (ok: bool)
      requires Valid() && depth <= DEPTH_LIMIT + 1
      modifies this
      ensures Valid() && old(pos) <= pos
      ensures SkipItems(data[old(pos)..], 2 * raw, depth) == if ok then Some(pos - old(pos)) else None
      decreases DEPTH_LIMIT + 1 - depth, 2
    {
      hide SkipItems;
      ghost var start, total := pos, SkipItems(data[pos..], 2 * raw, depth);
      var i := 0;
      while i < raw
        invariant Valid() && i <= raw && start <= pos
        invariant total == Advance(pos - start, SkipItems(data[pos..], 2 * (raw - i), depth))
      {
        var key := SkipElement(start, 2 * (raw - i), depth, total);
        if !key {
          return false;
        }
        var value := SkipElement(start, 2 * (raw - i) - 1, depth, total);
        if !value {
          return false;
        }
        i := i + 1;
      }
      SkipItemsNone(data[pos..], depth);
      ok := true;
    }

    /** `zf_cbor_skip`. */
    method SkipItem() returns (ok: bool)
      requires Valid()
      modifies this
      ensures Valid() && old(pos) <= pos
      ensures Skip(data[old(pos)..], 0) == if ok then Some(pos - old(pos)) else None
    {
      ok := SkipInner(0);
    }
  }

  lemma Word64IsBigEndian(s: seq<byte>)
    requires |s| == 8
    ensures FromBigEndian(s) == 0x1_0000_0000 * Word32(s[0], s[1], s[2], s[3]) + Word32(s[4], s[5], s[6], s[7])
  {
    WordsAreBigEndian(s[..4]);
    assert s[..5][..4] == s[..4] && s[..6][..5] == s[..5] && s[..7][..6] == s[..6];
    assert FromBigEndian(s[..5]) == 256 * FromBigEndian(s[..4]) + s[4];
    assert FromBigEndian(s[..6]) == 256 * FromBigEndian(s[..5]) + s[5];
    assert FromBigEndian(s[..7]) == 256 * FromBigEndian(s[..6]) + s[6];
  }
}
