/** Rewriting the section indices of a fast relocation section in place (host_tools/check_symbol_gate.py). */
module Relocation {
  import opened Bytes

  type SectionMap = map<uint32, int>

  /**
   One group: its flags, the section index when bit 7 is set, four more bytes, and a list of
   three-byte offsets with its count in front.
   */
  datatype Group = Group(flags: byte, section: Option<uint32>, target: seq<byte>, offsets: seq<byte>)

  predicate IsGroup(g: Group) {
    && (g.section.Some? <==> g.flags >= 0x80) && |g.target| == 4
    && |g.offsets| % 3 == 0 && |g.offsets| / 3 <= UINT32_MAX
  }

  predicate AreGroups(gs: seq<Group>) {
    forall i :: 0 <= i < |gs| ==> IsGroup(gs[i])
  }

  function Print(g: Group): (s: seq<byte>)
    ensures |s| >= |g.offsets| + 5
  {
    [g.flags] + (if g.section.Some? then ToLittleEndian(g.section.value, 4) else []) + g.target +
    ToLittleEndian(|g.offsets| / 3, 4) + g.offsets
  }

  function PrintAll(gs: seq<Group>): seq<byte> {
    if gs == [] then [] else Print(gs[0]) + PrintAll(gs[1..])
  }

  function PrintSection(gs: seq<Group>): seq<byte> {
    [1] + ToLittleEndian(|gs|, 4) + PrintAll(gs)
  }

  /** The group at the front of `s`. */
  function Parse(s: seq<byte>): (r: Option<Group>)
    ensures r.Some? ==> IsGroup(r.value) && |Print(r.value)| <= |s|
  {
    if |s| < 5 then None
    else
      var head := if s[0] >= 0x80 then 9 else 5;
      if |s| < head + 4 then None
      else
        WordRange(s[head..head + 4]);
        var count := FromLittleEndian(s[head..head + 4]);
        if |s| < head + 4 + 3 * count then None
        else
          WordRange(s[1..5]);
          Some(Group(s[0], if s[0] >= 0x80 then Some(FromLittleEndian(s[1..5])) else None,
                     s[head - 4..head], s[head + 4..head + 4 + 3 * count]))
  }

  /** `n` groups that fill `s`. */
  function ParseAll(s: seq<byte>, n: nat): (r: Option<seq<Group>>)
    ensures r.Some? ==> |r.value| == n && AreGroups(r.value)
    decreases n
  {
    if n == 0 then if s == [] then Some([]) else None
    else
      match Parse(s)
      case None => None
      case Some(g) =>
        match ParseAll(s[|Print(g)|..], n - 1)
        case None => None
        case Some(rest) => Some([g] + rest)
  }

  function ParseSection(data: seq<byte>): (r: Option<seq<Group>>)
    ensures r.Some? ==> AreGroups(r.value)
  {
    if |data| < 5 || data[0] != 1 then None else ParseAll(data[5..], FromLittleEndian(data[1..5]))
  }

  lemma WordRange(s: seq<byte>)
    requires |s| == 4
    ensures FromLittleEndian(s) <= UINT32_MAX
  {
    LittleEndianBound(s);
    Pow256Values();
  }

  lemma WordRoundTrip(v: uint32)
    ensures FromLittleEndian(ToLittleEndian(v, 4)) == v
  {
    Pow256Values();
    LittleEndianRoundTrip(v, 4);
  }

  // Printer and parser undo each other.

  lemma PrintThenParse(g: Group, rest: seq<byte>)
    requires IsGroup(g)
    ensures Parse(Print(g) + rest) == Some(g)
  {
    hide ToLittleEndian, FromLittleEndian;
    var s := Print(g) + rest;
    var head := if s[0] >= 0x80 then 9 else 5;
    WordRoundTrip(|g.offsets| / 3);
    if g.section.Some? {
      WordRoundTrip(g.section.value);
      var word := ToLittleEndian(g.section.value, 4);
      assert forall i :: 0 <= i < 4 ==> s[1 + i] == word[i];
      assert s[1..5] == word;
    }
    assert s[head - 4..head] == g.target;
    assert s[head..head + 4] == ToLittleEndian(|g.offsets| / 3, 4);
    assert s[head + 4..head + 4 + |g.offsets|] == g.offsets;
  }

  lemma ParseThenPrint(s: seq<byte>)
    requires Parse(s).Some?
    ensures Print(Parse(s).value) == s[..|Print(Parse(s).value)|]
  {
    hide ToLittleEndian, FromLittleEndian;
    var g := Parse(s).value;
    var head := if s[0] >= 0x80 then 9 else 5;
    LittleEndianInverse(s[head..head + 4]);
    LittleEndianInverse(s[1..5]);
    var count := FromLittleEndian(s[head..head + 4]);
    assert |g.offsets| / 3 == count;
    assert Print(g) == s[..head + 4 + 3 * count];
  }

  lemma {:induction false} PrintThenParseAll(gs: seq<Group>)
    requires AreGroups(gs)
    ensures ParseAll(PrintAll(gs), |gs|) == Some(gs)
  {
    hide Print, Parse;
    if gs != [] {
      PrintThenParse(gs[0], PrintAll(gs[1..]));
      PrintThenParseAll(gs[1..]);
      assert PrintAll(gs)[|Print(gs[0])|..] == PrintAll(gs[1..]);
      assert [gs[0]] + gs[1..] == gs;
    }
  }

  lemma {:induction false} ParseThenPrintAll(s: seq<byte>, n: nat)
    requires ParseAll(s, n).Some?
    ensures PrintAll(ParseAll(s, n).value) == s
    decreases n
  {
    hide Print, Parse;
    if n > 0 {
      var g := Parse(s).value;
      ParseThenPrint(s);
      ParseThenPrintAll(s[|Print(g)|..], n - 1);
      assert s == s[..|Print(g)|] + s[|Print(g)|..];
    }
  }

  /** A section is accepted exactly if it prints its own groups. */
  lemma SectionRoundTrip(data: seq<byte>, gs: seq<Group>)
    requires AreGroups(gs) && |gs| <= UINT32_MAX
    ensures ParseSection(data) == Some(gs) <==> data == PrintSection(gs)
  {
    hide ToLittleEndian, FromLittleEndian, PrintAll, ParseAll;
    if data == PrintSection(gs) {
      assert data[1..5] == ToLittleEndian(|gs|, 4) && data[5..] == PrintAll(gs);
      WordRoundTrip(|gs|);
      PrintThenParseAll(gs);
    }
    if ParseSection(data) == Some(gs) {
      ParseThenPrintAll(data[5..], FromLittleEndian(data[1..5]));
      LittleEndianInverse(data[1..5]);
      assert data == [1] + data[1..5] + data[5..];
    }
  }

  // Remapping.

  predicate CanRemap(g: Group, sections: SectionMap) {
    g.section.Some? ==> g.section.value in sections && 0 <= sections[g.section.value] <= UINT32_MAX
  }

  function Remapped(g: Group, sections: SectionMap): Group
    requires CanRemap(g, sections)
  {
    if g.section.Some? then g.(section := Some(sections[g.section.value])) else g
  }

  function RemappedAll(gs: seq<Group>, sections: SectionMap): Option<seq<Group>> {
    if gs == [] then Some([])
    else
      match RemappedAll(gs[1..], sections)
      case None => None
      case Some(rest) => if CanRemap(gs[0], sections) then Some([Remapped(gs[0], sections)] + rest) else None
  }

  lemma {:induction false} RemappedShape(gs: seq<Group>, sections: SectionMap)
    requires AreGroups(gs) && RemappedAll(gs, sections).Some?
    ensures var hs := RemappedAll(gs, sections).value;
      |hs| == |gs| && AreGroups(hs) && |PrintAll(hs)| == |PrintAll(gs)| &&
      forall i :: 0 <= i < |gs| ==> CanRemap(gs[i], sections) && hs[i] == Remapped(gs[i], sections)
  {
    hide ToLittleEndian;
    if gs != [] {
      RemappedShape(gs[1..], sections);
    }
  }

  /** The whole operation on values. */
  function RemapSection(data: seq<byte>, sections: SectionMap): Option<seq<byte>> {
    match ParseSection(data)
    case None => None
    case Some(gs) =>
      match RemappedAll(gs, sections)
      case None => None
      case Some(hs) => Some(PrintSection(hs))
  }

  /**
   What is accepted comes back at the same length, and parses to the same groups with nothing but
   the section index of each flagged group replaced by its image.
   */
  lemma RemapPreservesStructure(data: seq<byte>, sections: SectionMap)
    requires RemapSection(data, sections).Some? && |data| < 0x1_0000_0000
    ensures var result := RemapSection(data, sections).value;
      && |result| == |data|
      && ParseSection(data).Some? && ParseSection(result).Some?
      && var gs, hs := ParseSection(data).value, ParseSection(result).value;
         |hs| == |gs| && forall i :: 0 <= i < |gs| ==> CanRemap(gs[i], sections) && hs[i] == Remapped(gs[i], sections)
  {
    hide PrintAll, RemappedAll, ParseAll, Remapped, CanRemap;
    var gs := ParseSection(data).value;
    var hs := RemappedAll(gs, sections).value;
    GroupsFit(data);
    SectionRoundTrip(data, gs);
    RemappedShape(gs, sections);
    SectionRoundTrip(PrintSection(hs), hs);
  }

  lemma GroupsFit(data: seq<byte>)
    requires ParseSection(data).Some?
    ensures |ParseSection(data).value| <= UINT32_MAX
  {
    WordRange(data[1..5]);
  }

  /** `back` takes every image of `sections` to where it came from. */
  predicate Undoes(back: SectionMap, sections: SectionMap) {
    forall k :: k in sections && 0 <= sections[k] <= UINT32_MAX ==>
      (var image: uint32 := sections[k]; image in back && back[image] == k)
  }

  lemma {:induction false} RemapBackAll(gs: seq<Group>, sections: SectionMap, back: SectionMap)
    requires Undoes(back, sections) && RemappedAll(gs, sections).Some?
    ensures RemappedAll(RemappedAll(gs, sections).value, back) == Some(gs)
  {
    if gs != [] {
      RemapBackAll(gs[1..], sections, back);
      var hs := RemappedAll(gs, sections).value;
      assert hs[1..] == RemappedAll(gs[1..], sections).value;
      assert Remapped(hs[0], back) == gs[0];
      assert gs == [gs[0]] + gs[1..];
    }
  }

  /** Remapping with an injective map and then with its inverse is the identity. */
  lemma RemapThereAndBack(data: seq<byte>, sections: SectionMap, back: SectionMap)
    requires Undoes(back, sections) && RemapSection(data, sections).Some? && |data| < 0x1_0000_0000
    ensures RemapSection(RemapSection(data, sections).value, back) == Some(data)
  {
    hide PrintAll, RemappedAll, ParseAll, Remapped, CanRemap;
    var gs := ParseSection(data).value;
    var hs := RemappedAll(gs, sections).value;
    GroupsFit(data);
    SectionRoundTrip(data, gs);
    RemappedShape(gs, sections);
    SectionRoundTrip(PrintSection(hs), hs);
    RemapBackAll(gs, sections, back);
  }

  // The loop over the bytes.

  /** What is left of the output after `n` more groups at the front of `s`. */
  function RemapRest(s: seq<byte>, n: nat, sections: SectionMap): Option<seq<byte>>
    decreases n
  {
    if n == 0 then if s == [] then Some([]) else None
    else
      match Parse(s)
      case None => None
      case Some(g) =>
        if !CanRemap(g, sections) then None
        else Prefixed(Print(Remapped(g, sections)), RemapRest(s[|Print(g)|..], n - 1, sections))
  }

  function Prefixed(s: seq<byte>, rest: Option<seq<byte>>): Option<seq<byte>> {
    match rest case None => None case Some(t) => Some(s + t)
  }

  lemma PrefixedTwice(s: seq<byte>, t: seq<byte>, rest: Option<seq<byte>>)
    ensures Prefixed(s, Prefixed(t, rest)) == Prefixed(s + t, rest)
  {
    if rest.Some? {
      assert s + (t + rest.value) == s + t + rest.value;
    }
  }

  function PrintedImages(gs: Option<seq<Group>>, sections: SectionMap): Option<seq<byte>> {
    match gs
    case None => None
    case Some(groups) => match RemappedAll(groups, sections) case None => None case Some(hs) => Some(PrintAll(hs))
  }

  /** Rewriting group by group is parsing, remapping and printing. */
  lemma {:induction false} RestIsRemapped(s: seq<byte>, n: nat, sections: SectionMap)
    ensures RemapRest(s, n, sections) == PrintedImages(ParseAll(s, n), sections)
    decreases n
  {
    hide Print, Parse, CanRemap, Remapped;
    if n > 0 && Parse(s).Some? {
      var g := Parse(s).value;
      var rest := s[|Print(g)|..];
      RestIsRemapped(rest, n - 1, sections);
      if ParseAll(rest, n - 1).Some? {
        var gs := ParseAll(rest, n - 1).value;
        assert ([g] + gs)[1..] == gs;
        if RemappedAll(gs, sections).Some? && CanRemap(g, sections) {
          var hs := RemappedAll(gs, sections).value;
          assert ([Remapped(g, sections)] + hs)[1..] == hs;
        }
      }
    }
  }

  lemma SpecIsRest(data: seq<byte>, sections: SectionMap)
    requires |data| >= 5 && data[0] == 1
    ensures RemapSection(data, sections) ==
      Prefixed(data[..5], RemapRest(data[5..], FromLittleEndian(data[1..5]), sections))
  {
    hide PrintAll, RemappedAll, ParseAll, RemapRest, ToLittleEndian, FromLittleEndian;
    var n := FromLittleEndian(data[1..5]);
    RestIsRemapped(data[5..], n, sections);
    if RemapSection(data, sections).Some? {
      var gs := ParseSection(data).value;
      RemappedShape(gs, sections);
      LittleEndianInverse(data[1..5]);
      assert data[..5] == [1] + data[1..5];
      assert ParseAll(data[5..], n) == Some(gs);
      assert |gs| == n;
    }
  }

  method ReadWord(buffer: array<byte>, offset: nat) returns (word: uint32)
    requires offset + 4 <= buffer.Length
    ensures word == FromLittleEndian(buffer[offset..offset + 4])
  {
    var s := buffer[offset..offset + 4];
    WordRange(s);
    word := FromLittleEndian(s);
  }

  method WriteWord(buffer: array<byte>, offset: nat, word: uint32)
    requires offset + 4 <= buffer.Length
    modifies buffer
    ensures buffer[..offset] == old(buffer[..offset]) && buffer[offset + 4..] == old(buffer[offset + 4..])
    ensures buffer[offset..offset + 4] == ToLittleEndian(word, 4)
  {
    var s := ToLittleEndian(word, 4);
    forall i | 0 <= i < 4 {
      buffer[offset + i] := s[i];
    }
  }

  /** Flags, and the section index patched where it stands. */
  method PatchSection(buffer: array<byte>, offset: nat, sections: SectionMap) returns (ok: bool, next: nat)
    requires offset + 5 <= buffer.Length
    modifies buffer
    ensures var s := old(buffer[offset..]);
      && next == offset + (if s[0] >= 0x80 then 9 else 5)
      && buffer[..offset] == old(buffer[..offset]) && buffer[offset] == s[0]
      && (s[0] < 0x80 ==> ok && buffer[offset..] == s)
      && (s[0] >= 0x80 ==>
           var section := FromLittleEndian(s[1..5]);
           && (ok <==> section <= UINT32_MAX && section in sections && 0 <= sections[section] <= UINT32_MAX)
           && (ok ==> buffer[offset + 1..offset + 5] == ToLittleEndian(sections[section], 4))
           && (ok ==> buffer[offset + 5..] == s[5..]))
  {
    hide FromLittleEndian, ToLittleEndian;
    ghost var s := buffer[offset..];
    ok, next := true, offset;
    var flags := buffer[next];
    next := next + 1;
    if flags >= 0x80 {
      var section := ReadWord(buffer, next);
      assert buffer[next..next + 4] == s[1..5];
      next := next + 8;
      if section !in sections || !(0 <= sections[section] <= UINT32_MAX) {
        return false, next;
      }
      assert buffer[offset + 5..] == s[5..];
      WriteWord(buffer, offset + 1, sections[section]);
      assert buffer[..offset] == buffer[..offset + 1][..offset] == old(buffer[..offset + 1])[..offset];
      assert buffer[offset] == buffer[..offset + 1][offset];
    } else {
      next := next + 4;
    }
  }

  /**
   One turn of the loop.  `next` may end up past the end, when the count promises more offsets than
   there are.
   */
  method RemapGroup(buffer: array<byte>, offset: nat, sections: SectionMap) returns (ok: bool, next: nat)
    requires offset <= buffer.Length
    modifies buffer
    ensures var g := Parse(old(buffer[offset..]));
      && (!ok || next > buffer.Length ==> g.None? || !CanRemap(g.value, sections))
      && (ok && next <= buffer.Length ==>
           && g.Some? && CanRemap(g.value, sections) && next == offset + |Print(g.value)|
           && buffer[..offset] == old(buffer[..offset]) && buffer[next..] == old(buffer[next..])
           && buffer[offset..next] == Print(Remapped(g.value, sections)))
  {
    hide FromLittleEndian, ToLittleEndian;
    ghost var s := buffer[offset..];
    if offset + 5 > buffer.Length {
      return false, offset;
    }
    ok, next := PatchSection(buffer, offset, sections);
    if !ok {
      return;
    }
    if next + 4 > buffer.Length {
      return false, next;
    }
    ghost var at := next - offset;
    TailUnpatched(s, buffer[offset..], at);
    assert buffer[next..next + 4] == s[at..at + 4];
    var count := ReadWord(buffer, next);
    next := next + 4 + 3 * (count as int);
    if next <= buffer.Length {
      TailUnpatched(s, buffer[offset..], next - offset);
      GroupInPlace(s, Parse(s).value, sections, buffer[offset..next]);
    }
  }

  /** Patching touches the index alone. */
  lemma TailUnpatched(s: seq<byte>, t: seq<byte>, at: nat)
    requires 5 <= at <= |s| == |t| && (t == s || t[5..] == s[5..])
    ensures t[at..] == s[at..] && forall k :: at <= k <= |s| ==> t[5..k] == s[5..k]
  {
  }

  /** Patching the index in the bytes of a group is printing the remapped group. */
  lemma GroupInPlace(s: seq<byte>, g: Group, sections: SectionMap, patched: seq<byte>)
    requires Parse(s) == Some(g) && CanRemap(g, sections) && |patched| == |Print(g)|
    requires patched[0] == s[0]
    requires g.section.Some? ==>
      patched[1..5] == ToLittleEndian(sections[g.section.value], 4) && patched[5..] == s[5..|patched|]
    requires g.section.None? ==> patched == s[..|patched|]
    ensures patched == Print(Remapped(g, sections))
  {
    hide FromLittleEndian, ToLittleEndian;
    ParseThenPrint(s);
    if g.section.Some? {
      var h := Remapped(g, sections);
      assert Print(g)[5..] == g.target + ToLittleEndian(|g.offsets| / 3, 4) + g.offsets == Print(h)[5..];
      assert Print(h)[1..5] == ToLittleEndian(h.section.value, 4);
      assert patched == [patched[0]] + patched[1..5] + patched[5..];
      assert Print(h) == [Print(h)[0]] + Print(h)[1..5] + Print(h)[5..];
    }
  }

  /** `_remap_fast_relocation_data`; None stands for the errors it raises. */
  method RemapFastRelocationData(data: seq<byte>, sections: SectionMap) returns (result: Option<seq<byte>>)
    ensures result == RemapSection(data, sections)
  {
    hide FromLittleEndian, ToLittleEndian, RemapRest, Parse, Print, CanRemap, Remapped, RemapSection;
    if |data| < 5 || data[0] != 1 {
      NotASection(data, sections);
      return None;
    }
    var remapped := new byte[|data|](i requires 0 <= i < |data| => data[i]);
    assert remapped[..] == data;
    var groupCount := ReadWord(remapped, 1);
    assert remapped[1..5] == data[1..5];
    SpecIsRest(data, sections);
    ghost var total := RemapSection(data, sections);
    var offset: nat := 5;
    ghost var done := data[..5];
    var i := 0;
    while i < groupCount
      invariant i <= groupCount && remapped.Length == |data|
      invariant offset > |data| ==> total == None
      invariant offset <= |data| ==> remapped[..offset] == done
      invariant offset <= |data| ==> total == Prefixed(done, RemapRest(remapped[offset..], groupCount - i, sections))
    {
      if offset > remapped.Length {
        return None;
      }
      ghost var s := remapped[offset..];
      RestStep(s, groupCount - i, sections);
      var ok, next := RemapGroup(remapped, offset, sections);
      if !ok {
        return None;
      }
      if next <= remapped.Length {
        ghost var g := Parse(s).value;
        PrefixedTwice(done, Print(Remapped(g, sections)), RemapRest(s[|Print(g)|..], groupCount - i - 1, sections));
        assert s[|Print(g)|..] == remapped[next..];
        assert remapped[..next] == remapped[..offset] + remapped[offset..next];
        done := done + Print(Remapped(g, sections));
      }
      offset := next;
      i := i + 1;
    }
    if offset != remapped.Length {
      if offset < remapped.Length {
        LeftOver(remapped[offset..], sections);
      }
      return None;
    }
    LeftOver(remapped[offset..], sections);
    assert remapped[..offset] == remapped[..];
    assert done + [] == done;
    result := Some(remapped[..]);
  }

  lemma NotASection(data: seq<byte>, sections: SectionMap)
    requires |data| < 5 || data[0] != 1
    ensures RemapSection(data, sections) == None
  {
  }

  lemma RestStep(s: seq<byte>, n: nat, sections: SectionMap)
    requires n > 0
    ensures RemapRest(s, n, sections) ==
      if Parse(s).None? || !CanRemap(Parse(s).value, sections) then None
      else Prefixed(Print(Remapped(Parse(s).value, sections)), RemapRest(s[|Print(Parse(s).value)|..], n - 1, sections))
  {
  }

  lemma LeftOver(s: seq<byte>, sections: SectionMap)
    ensures RemapRest(s, 0, sections) == if s == [] then Some([]) else None
  {
  }
}
