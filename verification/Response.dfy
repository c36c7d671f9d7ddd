/** makeCredential (attestation "none") and assertion responses (src/ctap/response.c). */
module Response {
  import opened Bytes
  import opened CborHead
  import opened Cbor
  import opened CborSkip
  import opened CanonicalCbor
  import opened Record
  import opened RecordCodec
  import opened AuthData
  import Sha256
  import Utf8

  // The ASCII strings of the protocol.
  const ID: seq<byte> := [0x69, 0x64]
  const TYPE: seq<byte> := [0x74, 0x79, 0x70, 0x65]
  const NAME: seq<byte> := [0x6E, 0x61, 0x6D, 0x65]
  const NONE: seq<byte> := [0x6E, 0x6F, 0x6E, 0x65]
  const PUBLIC_KEY: seq<byte> := [0x70, 0x75, 0x62, 0x6C, 0x69, 0x63, 0x2D, 0x6B, 0x65, 0x79]
  const DISPLAY_NAME: seq<byte> := [0x64, 0x69, 0x73, 0x70, 0x6C, 0x61, 0x79, 0x4E, 0x61, 0x6D, 0x65]
  const CRED_PROTECT: seq<byte> := [0x63, 0x72, 0x65, 0x64, 0x50, 0x72, 0x6F, 0x74, 0x65, 0x63, 0x74]
  const HMAC_SECRET: seq<byte> := [0x68, 0x6D, 0x61, 0x63, 0x2D, 0x73, 0x65, 0x63, 0x72, 0x65, 0x74]

  /** What of the user entity and of the optional members an assertion carries. */
  datatype Options = Options(userName: seq<byte>, displayName: seq<byte>, count: Option<uint32>, userSelected: bool)

  /** The branches before the map is opened; an empty name is left out. */
  function ChooseOptions(r: CredentialRecord, includeUserDetails: bool, includeCount: bool, matchCount: uint32,
                         includeUserSelected: bool, userSelected: bool): Options {
    Options(if includeUserDetails then r.userName else [], if includeUserDetails then r.displayName else [],
            if includeCount then Some(matchCount) else None, includeUserSelected && userSelected)
  }

  function UserEntries(userId: seq<byte>, o: Options): seq<Value> {
    [Text(ID), Bytes(userId)] +
    (if o.userName != [] then [Text(NAME), Text(o.userName)] else []) +
    (if o.displayName != [] then [Text(DISPLAY_NAME), Text(o.displayName)] else [])
  }

  function CredentialEntries(credentialId: seq<byte>): seq<Value> {
    [Text(ID), Bytes(credentialId), Text(TYPE), Text(PUBLIC_KEY)]
  }

  /** The first four members of an assertion. */
  function AssertionBase(credentialId: seq<byte>, userId: seq<byte>, authData: seq<byte>, signature: seq<byte>,
                         o: Options): seq<Value> {
    [UInt(1), Map(CredentialEntries(credentialId))] + [UInt(2), Bytes(authData)] + [UInt(3), Bytes(signature)] +
    [UInt(4), Map(UserEntries(userId, o))]
  }

  function AssertionTail(o: Options): seq<Value> {
    (if o.count.Some? then [UInt(5), UInt(o.count.value)] else []) +
      (if o.userSelected then [UInt(6), Bool(true)] else [])
  }

  /** The assertion response as a tree. */
  function AssertionValue(credentialId: seq<byte>, userId: seq<byte>, authData: seq<byte>, signature: seq<byte>,
                          o: Options): Value {
    Map(AssertionBase(credentialId, userId, authData, signature, o) + AssertionTail(o))
  }

  predicate Sizes(credentialId: seq<byte>, userId: seq<byte>, authData: seq<byte>, signature: seq<byte>, o: Options) {
    |credentialId| == 32 && |userId| <= 64 && |authData| <= 160 && |signature| <= 80 && |o.userName| < 65 &&
      |o.displayName| < 65
  }

  // The trees are well formed.

  lemma ConstantsAreText(t: seq<byte>)
    requires t in {ID, TYPE, NAME, NONE, PUBLIC_KEY, DISPLAY_NAME, CRED_PROTECT, HMAC_SECRET}
    ensures Utf8.IsUtf8(t) && |t| < 24
  {
    Utf8.AsciiIsUtf8(t);
  }

  /** A list of entries in order: what is known of it as it grows. */
  ghost predicate Ordered(entries: seq<Value>) {
    |entries| % 2 == 0 && WellFormedAll(entries) && KeysAscend(entries) && CanonicalAll(entries)
  }

  lemma StartOrdered(key: Value, value: Value)
    requires WellFormed(key) && WellFormed(value) && Canonical(key) && Canonical(value)
    ensures Ordered([key, value]) && EncodeAll([key, value]) == Encode(key) + Encode(value)
  {
    hide WellFormed, Canonical, Encode;
    CanonicalCbor.Pair(key, value);
  }

  lemma AddOrdered(entries: seq<Value>, key: Value, value: Value)
    requires Ordered(entries) && |entries| >= 2
    requires WellFormed(key) && WellFormed(value) && Canonical(key) && Canonical(value)
    requires WellFormed(entries[|entries| - 2]) && KeyBefore(entries[|entries| - 2], key)
    ensures Ordered(entries + [key, value])
  {
    hide WellFormed, WellFormedAll, Canonical, CanonicalAll, Encode, EncodeAll, KeyBefore, KeysAscend;
    CanonicalCbor.Pair(key, value);
    WellFormedAppend(entries, [key, value]);
    CanonicalAppend(entries, [key, value]);
    KeysAscendAppend(entries, key, value);
  }

  lemma AddEncodes(entries: seq<Value>, key: Value, value: Value)
    requires WellFormedAll(entries) && WellFormed(key) && WellFormed(value) && WellFormedAll(entries + [key, value])
    ensures EncodeAll(entries + [key, value]) == EncodeAll(entries) + (Encode(key) + Encode(value))
  {
    hide WellFormed, WellFormedAll, Encode, EncodeAll;
    CanonicalCbor.Pair(key, value);
    EncodeAllAppend(entries, [key, value]);
  }

  // Users and credentials.

  lemma CredentialOrdered(credentialId: seq<byte>)
    requires |credentialId| == 32
    ensures Ordered(CredentialEntries(credentialId))
    ensures EncodeAll(CredentialEntries(credentialId)) ==
      EncodeText(ID) + EncodeBytes(credentialId) + (EncodeText(TYPE) + EncodeText(PUBLIC_KEY))
  {
    hide Encode, EncodeAll, Ordered, KeyBefore, EncodeText, EncodeBytes;
    ConstantsAreText(ID);
    ConstantsAreText(TYPE);
    ConstantsAreText(PUBLIC_KEY);
    LeafBytes(0, ID, true);
    LeafBytes(0, credentialId, true);
    LeafBytes(0, TYPE, true);
    LeafBytes(0, PUBLIC_KEY, true);
    var first := [Text(ID), Bytes(credentialId)];
    StartOrdered(Text(ID), Bytes(credentialId));
    ShorterKey(ID, TYPE);
    AddOrdered(first, Text(TYPE), Text(PUBLIC_KEY));
    OrderedFacts(first);
    OrderedFacts(first + [Text(TYPE), Text(PUBLIC_KEY)]);
    AddEncodes(first, Text(TYPE), Text(PUBLIC_KEY));
    assert CredentialEntries(credentialId) == first + [Text(TYPE), Text(PUBLIC_KEY)];
  }

  lemma OrderedFacts(entries: seq<Value>)
    requires Ordered(entries)
    ensures |entries| % 2 == 0 && WellFormedAll(entries)
  {
  }

  function NameBytes(key: seq<byte>, name: seq<byte>): seq<byte>
    requires |key| < 24 && |name| < 65
  {
    if name != [] then EncodeText(key) + EncodeText(name) else []
  }

  lemma AddName(entries: seq<Value>, key: seq<byte>, name: seq<byte>)
    requires Ordered(entries) && |entries| >= 2 && |key| < 24 && |name| < 65 && Utf8.IsUtf8(key) && Utf8.IsUtf8(name)
    requires name != [] ==> entries[|entries| - 2].Text? && |entries[|entries| - 2].text| < |key|
    ensures var next := if name != [] then entries + [Text(key), Text(name)] else entries;
      Ordered(next) && WellFormedAll(entries) && WellFormedAll(next) &&
        EncodeAll(next) == EncodeAll(entries) + NameBytes(key, name)
  {
    hide Encode, EncodeAll, Ordered, KeyBefore, EncodeText;
    OrderedFacts(entries);
    LeafBytes(0, key, true);
    LeafBytes(0, name, true);
    if name != [] {
      ShorterKey(entries[|entries| - 2].text, key);
      AddOrdered(entries, Text(key), Text(name));
      OrderedFacts(entries + [Text(key), Text(name)]);
      AddEncodes(entries, Text(key), Text(name));
    }
  }

  lemma UserOrdered(userId: seq<byte>, o: Options)
    requires |userId| <= 64 && |o.userName| < 65 && |o.displayName| < 65 && Utf8.IsUtf8(o.userName) &&
      Utf8.IsUtf8(o.displayName)
    ensures Ordered(UserEntries(userId, o)) && |UserEntries(userId, o)| <= 6
    ensures WellFormedAll(UserEntries(userId, o))
    ensures EncodeAll(UserEntries(userId, o)) ==
      EncodeText(ID) + EncodeBytes(userId) + NameBytes(NAME, o.userName) + NameBytes(DISPLAY_NAME, o.displayName)
  {
    hide Encode, EncodeAll, Ordered, KeyBefore, EncodeText, EncodeBytes, NameBytes, Utf8.IsUtf8;
    ConstantsAreText(ID);
    ConstantsAreText(NAME);
    ConstantsAreText(DISPLAY_NAME);
    LeafBytes(0, ID, true);
    LeafBytes(0, userId, true);
    StartOrdered(Text(ID), Bytes(userId));
    var first := [Text(ID), Bytes(userId)];
    AddName(first, NAME, o.userName);
    var second := if o.userName != [] then first + [Text(NAME), Text(o.userName)] else first;
    AddName(second, DISPLAY_NAME, o.displayName);
    assert UserEntries(userId, o) == if o.displayName != [] then second + [Text(DISPLAY_NAME), Text(o.displayName)]
      else second;
  }

  lemma MapFacts(entries: seq<Value>)
    requires Ordered(entries) && |entries| < 48
    ensures WellFormed(Map(entries)) && Canonical(Map(entries))
    ensures WellFormedAll(entries) && Encode(Map(entries)) == EncodeHead(MAJOR_MAP, |entries| / 2) + EncodeAll(entries)
  {
  }

  // The bytes in the order in which they are written.

  function CredentialBytes(credentialId: seq<byte>): seq<byte>
    requires |credentialId| == 32
  {
    EncodeHead(MAJOR_MAP, 2) +
      (EncodeText(ID) + EncodeBytes(credentialId) + (EncodeText(TYPE) + EncodeText(PUBLIC_KEY)))
  }

  function UserPairs(o: Options): nat {
    1 + (if o.userName != [] then 1 else 0) + (if o.displayName != [] then 1 else 0)
  }

  function Pairs(o: Options): nat {
    4 + (if o.count.Some? then 1 else 0) + (if o.userSelected then 1 else 0)
  }

  function UserOpening(userId: seq<byte>, o: Options): seq<byte>
    requires |userId| <= 64
  {
    EncodeHead(MAJOR_MAP, UserPairs(o)) + (EncodeText(ID) + EncodeBytes(userId))
  }

  /** Everything up to the names of the user. */
  function OpeningBytes(credentialId: seq<byte>, userId: seq<byte>, authData: seq<byte>, signature: seq<byte>,
                        o: Options): seq<byte>
    requires Sizes(credentialId, userId, authData, signature, o)
  {
    EncodeHead(MAJOR_MAP, Pairs(o)) + (EncodeUint(1) + CredentialBytes(credentialId)) +
      (EncodeUint(2) + EncodeBytes(authData)) +
    (EncodeUint(3) + EncodeBytes(signature)) + (EncodeUint(4) + UserOpening(userId, o))
  }

  function NamesBytes(o: Options): seq<byte>
    requires |o.userName| < 65 && |o.displayName| < 65
  {
    NameBytes(NAME, o.userName) + NameBytes(DISPLAY_NAME, o.displayName)
  }

  /** What gets written of a name: the writer stops at the first piece for which there is no room. */
  function NameLeft(key: seq<byte>, name: seq<byte>, room: int): (left: seq<byte>)
    requires |key| < 24 && |name| < 65
    ensures room >= 0 ==> |left| <= room
    ensures |NameBytes(key, name)| <= room <==> room >= 0 && left == NameBytes(key, name)
  {
    if name == [] then []
    else if |EncodeText(key)| <= room then EncodeText(key) + TextLeft(name, room - |EncodeText(key)|)
    else TextLeft(key, room)
  }

  /** The same of both names; the second is not tried after a failure of the first. */
  function NamesLeft(o: Options, room: int): (left: seq<byte>)
    requires |o.userName| < 65 && |o.displayName| < 65
    ensures room >= 0 ==> |left| <= room
    ensures |NamesBytes(o)| <= room <==> room >= 0 && left == NamesBytes(o)
  {
    var first := |NameBytes(NAME, o.userName)|;
    if first <= room then NameBytes(NAME, o.userName) + NameLeft(DISPLAY_NAME, o.displayName, room - first)
    else NameLeft(NAME, o.userName, room)
  }

  function CountBytes(o: Options): seq<byte> {
    if o.count.Some? then EncodeUint(5) + EncodeUint(o.count.value) else []
  }

  function SelectedBytes(o: Options): seq<byte> {
    if o.userSelected then EncodeUint(6) + EncodeBool(true) else []
  }

  function AssertionBytes(credentialId: seq<byte>, userId: seq<byte>, authData: seq<byte>, signature: seq<byte>,
                          o: Options): seq<byte>
    requires Sizes(credentialId, userId, authData, signature, o)
  {
    OpeningBytes(credentialId, userId, authData, signature, o) + NamesBytes(o) + CountBytes(o) + SelectedBytes(o)
  }

  lemma UserMap(userId: seq<byte>, o: Options)
    requires |userId| <= 64 && |o.userName| < 65 && |o.displayName| < 65 && Utf8.IsUtf8(o.userName) &&
      Utf8.IsUtf8(o.displayName)
    ensures var v := Map(UserEntries(userId, o));
      WellFormed(v) && Canonical(v) && Encode(v) == UserOpening(userId, o) + NamesBytes(o)
  {
    hide Encode, EncodeAll, Ordered, EncodeText, EncodeBytes, NameBytes, Utf8.IsUtf8, EncodeHead, WellFormed,
         WellFormedAll, Canonical;
    UserOrdered(userId, o);
    MapFacts(UserEntries(userId, o));
    assert |UserEntries(userId, o)| / 2 == UserPairs(o);
  }

  lemma CredentialMap(credentialId: seq<byte>)
    requires |credentialId| == 32
    ensures var v := Map(CredentialEntries(credentialId));
      WellFormed(v) && Canonical(v) && Encode(v) == CredentialBytes(credentialId)
  {
    hide Encode, EncodeAll, Ordered, EncodeText, EncodeBytes, EncodeHead, WellFormed, WellFormedAll, Canonical;
    CredentialOrdered(credentialId);
    MapFacts(CredentialEntries(credentialId));
  }

  /** A member with a small unsigned key after the members with smaller ones. */
  lemma AddMember(entries: seq<Value>, key: nat, value: Value)
    requires Ordered(entries) && |entries| >= 2 && WellFormed(value) && Canonical(value)
    requires entries[|entries| - 2].UInt? && entries[|entries| - 2].n < key < 24
    ensures Ordered(entries + [UInt(key), value]) && WellFormedAll(entries) &&
      WellFormedAll(entries + [UInt(key), value])
    ensures EncodeAll(entries + [UInt(key), value]) == EncodeAll(entries) + (EncodeUint(key) + Encode(value))
  {
    hide Encode, EncodeAll, Ordered, KeyBefore, EncodeUint;
    OrderedFacts(entries);
    LeafBytes(key, [], true);
    SmallKeys(entries[|entries| - 2].n, key);
    AddOrdered(entries, UInt(key), value);
    OrderedFacts(entries + [UInt(key), value]);
    AddEncodes(entries, UInt(key), value);
  }

  /** The four members every assertion has. */
  lemma BaseOrdered(credentialId: seq<byte>, userId: seq<byte>, authData: seq<byte>, signature: seq<byte>, o: Options)
    requires Sizes(credentialId, userId, authData, signature, o) && Utf8.IsUtf8(o.userName) &&
      Utf8.IsUtf8(o.displayName)
    ensures var base := AssertionBase(credentialId, userId, authData, signature, o);
      && Ordered(base) && WellFormedAll(base) && |base| == 8 && base[6] == UInt(4)
      && EncodeAll(base) == EncodeUint(1) + CredentialBytes(credentialId) + (EncodeUint(2) + EncodeBytes(authData)) +
           (EncodeUint(3) + EncodeBytes(signature)) + (EncodeUint(4) + (UserOpening(userId, o) + NamesBytes(o)))
  {
    hide Encode, EncodeAll, Ordered, KeyBefore, EncodeUint, EncodeBytes, WellFormedAll, WellFormed, Canonical,
         CredentialBytes, UserOpening, NamesBytes, CredentialEntries, UserEntries, Utf8.IsUtf8;
    CredentialMap(credentialId);
    UserMap(userId, o);
    LeafFacts(authData);
    LeafFacts(signature);
    KeyFacts(1);
    var m1 := [UInt(1), Map(CredentialEntries(credentialId))];
    StartOrdered(UInt(1), Map(CredentialEntries(credentialId)));
    AddMember(m1, 2, Bytes(authData));
    AddMember(m1 + [UInt(2), Bytes(authData)], 3, Bytes(signature));
    AddMember(m1 + [UInt(2), Bytes(authData)] + [UInt(3), Bytes(signature)], 4, Map(UserEntries(userId, o)));
  }

  lemma LeafFacts(b: seq<byte>)
    requires |b| <= UINT64_MAX
    ensures WellFormed(Bytes(b)) && Canonical(Bytes(b)) && Encode(Bytes(b)) == EncodeBytes(b)
  {
  }

  lemma KeyFacts(n: uint64)
    ensures WellFormed(UInt(n)) && Canonical(UInt(n)) && Encode(UInt(n)) == EncodeUint(n)
    ensures WellFormed(Bool(true)) && Canonical(Bool(true)) && Encode(Bool(true)) == EncodeBool(true)
  {
  }

  lemma TailOrdered(base: seq<Value>, o: Options)
    requires Ordered(base) && |base| == 8 && base[6] == UInt(4)
    ensures Ordered(base + AssertionTail(o)) && WellFormedAll(base) && WellFormedAll(base + AssertionTail(o))
    ensures |base + AssertionTail(o)| == 2 * Pairs(o)
    ensures EncodeAll(base + AssertionTail(o)) == EncodeAll(base) + CountBytes(o) + SelectedBytes(o)
  {
    hide Encode, EncodeAll, Ordered, EncodeUint, EncodeBool, WellFormedAll, WellFormed, Canonical;
    OrderedFacts(base);
    var first := base;
    if o.count.Some? {
      KeyFacts(o.count.value);
      AddMember(base, 5, UInt(o.count.value));
      first := base + [UInt(5), UInt(o.count.value)];
    }
    var second := first;
    if o.userSelected {
      KeyFacts(0);
      AddMember(first, 6, Bool(true));
      second := first + [UInt(6), Bool(true)];
    }
    assert base + AssertionTail(o) == second;
    OrderedFacts(second);
  }

  /**
   The response is one canonical CBOR item: a map that declares as many pairs as follow, keys in
   CTAP2 order, texts valid, heads minimal.
   */
  lemma AssertionIsCanonical(credentialId: seq<byte>, userId: seq<byte>, authData: seq<byte>, signature: seq<byte>,
                             o: Options)
    requires Sizes(credentialId, userId, authData, signature, o) && Utf8.IsUtf8(o.userName) &&
      Utf8.IsUtf8(o.displayName)
    ensures var v := AssertionValue(credentialId, userId, authData, signature, o);
      WellFormed(v) && Canonical(v) && Encode(v) == AssertionBytes(credentialId, userId, authData, signature, o)
  {
    hide Encode, EncodeAll, Ordered, EncodeHead, EncodeUint, EncodeBytes, WellFormedAll, WellFormed, Canonical,
         AssertionBase, AssertionTail, NamesBytes, CountBytes, SelectedBytes, CredentialBytes, UserOpening,
         Utf8.IsUtf8;
    BaseOrdered(credentialId, userId, authData, signature, o);
    var base := AssertionBase(credentialId, userId, authData, signature, o);
    TailOrdered(base, o);
    MapFacts(base + AssertionTail(o));
    Regrouped(EncodeHead(MAJOR_MAP, Pairs(o)), EncodeUint(1) + CredentialBytes(credentialId),
              EncodeUint(2) + EncodeBytes(authData), EncodeUint(3) + EncodeBytes(signature), EncodeUint(4),
              UserOpening(userId, o), NamesBytes(o), CountBytes(o), SelectedBytes(o));
  }

  lemma Regrouped(a: seq<byte>, b: seq<byte>, c: seq<byte>, d: seq<byte>, e: seq<byte>, f: seq<byte>, g: seq<byte>,
                  h: seq<byte>, i: seq<byte>)
    ensures a + (b + c + d + (e + (f + g)) + h + i) == a + b + c + d + (e + f) + g + h + i
  {
  }

  lemma {:induction false} NestingOfFlat(items: seq<Value>)
    requires forall i :: 0 <= i < |items| ==> Nesting(items[i]) <= 1
    ensures NestingAll(items) <= 1
  {
    hide Nesting;
    if items != [] {
      NestingOfFlat(items[1..]);
    }
  }

  lemma {:induction false} NestingOfLeaves(items: seq<Value>)
    requires forall i :: 0 <= i < |items| ==> Children(items[i]) == []
    ensures NestingAll(items) == 0
  {
    if items != [] {
      NestingOfLeaves(items[1..]);
    }
  }

  /** The device's own parser takes the whole response as one item, and nothing of what follows. */
  lemma AssertionIsOneItem(credentialId: seq<byte>, userId: seq<byte>, authData: seq<byte>, signature: seq<byte>,
                           o: Options, rest: seq<byte>)
    requires Sizes(credentialId, userId, authData, signature, o) && Utf8.IsUtf8(o.userName) &&
      Utf8.IsUtf8(o.displayName)
    ensures var bytes := AssertionBytes(credentialId, userId, authData, signature, o);
      Skip(bytes + rest, 0) == Some(|bytes|)
  {
    hide Encode, EncodeAll, WellFormedAll, WellFormed, Canonical, AssertionBytes, Skip, Utf8.IsUtf8, Nesting,
         NestingAll;
    var v := AssertionValue(credentialId, userId, authData, signature, o);
    AssertionIsCanonical(credentialId, userId, authData, signature, o);
    AssertionNesting(credentialId, userId, authData, signature, o);
    SkipIsExact(v, rest, 0);
  }

  lemma AssertionNesting(credentialId: seq<byte>, userId: seq<byte>, authData: seq<byte>, signature: seq<byte>,
                         o: Options)
    ensures Nesting(AssertionValue(credentialId, userId, authData, signature, o)) <= 2
  {
    NestingOfLeaves(CredentialEntries(credentialId));
    NestingOfLeaves(UserEntries(userId, o));
    hide NestingAll;
    NestingOfFlat(AssertionBase(credentialId, userId, authData, signature, o) + AssertionTail(o));
  }

  /** However large the fields, 530 bytes are enough. */
  lemma AssertionFits(credentialId: seq<byte>, userId: seq<byte>, authData: seq<byte>, signature: seq<byte>, o: Options)
    requires Sizes(credentialId, userId, authData, signature, o)
    ensures |AssertionBytes(credentialId, userId, authData, signature, o)| <= 530
  {
    OpeningFits(credentialId, userId, authData, signature, o);
    TailFits(o);
    hide OpeningBytes, NamesBytes, CountBytes, SelectedBytes;
  }

  lemma OpeningFits(credentialId: seq<byte>, userId: seq<byte>, authData: seq<byte>, signature: seq<byte>, o: Options)
    requires Sizes(credentialId, userId, authData, signature, o)
    ensures |OpeningBytes(credentialId, userId, authData, signature, o)| <= 373
  {
  }

  lemma TailFits(o: Options)
    requires |o.userName| < 65 && |o.displayName| < 65
    ensures |NamesBytes(o)| <= 149 && |CountBytes(o)| <= 6 && |SelectedBytes(o)| <= 2
  {
  }

  // The encoder calls.  Each method writes its bytes if and only if they fit.

  method EmitTextPair(enc: Encoder, key: seq<byte>, value: seq<byte>) returns (ok: bool)
    requires enc.Valid() && |key| < 24 && |value| < 24
    modifies enc, enc.buf
    ensures enc.Valid() && old(enc.Written()) <= enc.Written()
    ensures ok <==> |EncodeText(key) + EncodeText(value)| <= enc.capacity - old(enc.offset)
    ensures ok ==> enc.Written() == old(enc.Written()) + (EncodeText(key) + EncodeText(value))
  {
    hide EncodeText;
    ok := enc.Text(key);
    if ok {
      ok := enc.Text(value);
    }
  }

  method EmitCredential(enc: Encoder, credentialId: seq<byte>) returns (ok: bool)
    requires enc.Valid() && |credentialId| == 32
    modifies enc, enc.buf
    ensures enc.Valid() && old(enc.Written()) <= enc.Written()
    ensures ok <==> |CredentialBytes(credentialId)| <= enc.capacity - old(enc.offset)
    ensures ok ==> enc.Written() == old(enc.Written()) + CredentialBytes(credentialId)
  {
    hide EncodeHead, EncodeText, EncodeBytes;
    ok := enc.Map(2);
    if !ok { return; }
    ok := enc.Text(ID);
    if !ok { return; }
    ok := enc.ByteString(credentialId);
    if !ok { return; }
    ok := EmitTextPair(enc, TYPE, PUBLIC_KEY);
  }

  method EmitKeyedBytes(enc: Encoder, key: uint64, data: seq<byte>) returns (ok: bool)
    requires enc.Valid() && |data| <= UINT64_MAX
    modifies enc, enc.buf
    ensures enc.Valid() && old(enc.Written()) <= enc.Written()
    ensures ok <==> |EncodeUint(key) + EncodeBytes(data)| <= enc.capacity - old(enc.offset)
    ensures ok ==> enc.Written() == old(enc.Written()) + (EncodeUint(key) + EncodeBytes(data))
  {
    hide EncodeUint, EncodeBytes;
    ok := enc.Uint(key);
    if ok {
      ok := enc.ByteString(data);
    }
  }

  method EmitUserOpening(enc: Encoder, userId: seq<byte>, o: Options) returns (ok: bool)
    requires enc.Valid() && |userId| <= 64
    modifies enc, enc.buf
    ensures enc.Valid() && old(enc.Written()) <= enc.Written()
    ensures ok <==> |EncodeUint(4) + UserOpening(userId, o)| <= enc.capacity - old(enc.offset)
    ensures ok ==> enc.Written() == old(enc.Written()) + (EncodeUint(4) + UserOpening(userId, o))
  {
    hide EncodeUint, EncodeHead, EncodeText, EncodeBytes;
    var userPairs := 1;
    if o.userName != [] {
      userPairs := userPairs + 1;
    }
    if o.displayName != [] {
      userPairs := userPairs + 1;
    }
    ok := enc.Uint(4);
    if !ok { return; }
    ok := enc.Map(userPairs);
    if !ok { return; }
    ok := enc.Text(ID);
    if !ok { return; }
    ok := enc.ByteString(userId);
  }

  /** The map head, with as many pairs as will follow, and the first member. */
  method EmitFirst(enc: Encoder, credentialId: seq<byte>, o: Options) returns (ok: bool)
    requires enc.Valid() && enc.offset == 0 && |credentialId| == 32
    modifies enc, enc.buf
    ensures enc.Valid()
    ensures ok <==> |EncodeHead(MAJOR_MAP, Pairs(o)) + (EncodeUint(1) + CredentialBytes(credentialId))| <= enc.capacity
    ensures ok ==> enc.Written() == EncodeHead(MAJOR_MAP, Pairs(o)) + (EncodeUint(1) + CredentialBytes(credentialId))
  {
    hide EncodeUint, EncodeHead, CredentialBytes;
    var pairs := 4;
    if o.count.Some? {
      pairs := pairs + 1;
    }
    if o.userSelected {
      pairs := pairs + 1;
    }
    assert pairs == Pairs(o);
    hide Pairs;
    ok := enc.Map(pairs);
    if !ok { return; }
    ghost var head := EncodeHead(MAJOR_MAP, Pairs(o));
    assert enc.Written() == head;
    ok := enc.Uint(1);
    if !ok { return; }
    ok := EmitCredential(enc, credentialId);
    var credential := CredentialBytes(credentialId);
    assert head + EncodeUint(1) + credential == head + (EncodeUint(1) + credential);
  }

  method EmitOpening(enc: Encoder, credentialId: seq<byte>, userId: seq<byte>, authData: seq<byte>,
                     signature: seq<byte>, o: Options)
      returns (ok: bool)
    requires enc.Valid() && enc.offset == 0 && Sizes(credentialId, userId, authData, signature, o)
    modifies enc, enc.buf
    ensures enc.Valid()
    ensures ok <==> |OpeningBytes(credentialId, userId, authData, signature, o)| <= enc.capacity
    ensures ok ==> enc.Written() == OpeningBytes(credentialId, userId, authData, signature, o)
  {
    hide EncodeUint, EncodeHead, EncodeBytes, CredentialBytes, UserOpening;
    ok := EmitFirst(enc, credentialId, o);
    if !ok { return; }
    ok := EmitKeyedBytes(enc, 2, authData);
    if !ok { return; }
    ok := EmitKeyedBytes(enc, 3, signature);
    if !ok { return; }
    ok := EmitUserOpening(enc, userId, o);
  }

  method EmitName(enc: Encoder, key: seq<byte>, name: seq<byte>) returns (ok: bool)
    requires enc.Valid() && |key| < 24 && |name| < 65
    modifies enc, enc.buf
    ensures enc.Valid() && old(enc.Written()) <= enc.Written()
    ensures ok <==> |NameBytes(key, name)| <= enc.capacity - old(enc.offset)
    ensures enc.Written() == old(enc.Written()) + NameLeft(key, name, enc.capacity - old(enc.offset))
  {
    hide EncodeText;
    TextSizes(key, name);
    ok := true;
    if name == [] {
      assert NameBytes(key, name) == [] && enc.Written() + [] == enc.Written();
      return;
    }
    ok := enc.Text(key);
    if ok {
      ok := enc.Text(name);
    }
  }

  lemma TextSizes(key: seq<byte>, name: seq<byte>)
    requires |key| < 24 && |name| < 65
    ensures |EncodeText(key)| == |key| + 1 && HeadSize(|key|) == 1 && HeadSize(|name|) <= 2
  {
  }

  /** Both names; `named` is whether they are all there. */
  method EmitNames(enc: Encoder, o: Options) returns (named: bool)
    requires enc.Valid() && |o.userName| < 65 && |o.displayName| < 65
    modifies enc, enc.buf
    ensures enc.Valid() && old(enc.Written()) <= enc.Written()
    ensures named <==> |NamesBytes(o)| <= enc.capacity - old(enc.offset)
    ensures enc.Written() == old(enc.Written()) + NamesLeft(o, enc.capacity - old(enc.offset))
  {
    hide NameBytes, NameLeft;
    named := EmitName(enc, NAME, o.userName);
    if named {
      named := EmitName(enc, DISPLAY_NAME, o.displayName);
    }
  }

  /** The members after the user entity: `reported` is the status the caller ends up with. */
  method EmitTail(enc: Encoder, o: Options, named: bool) returns (reported: bool)
    requires enc.Valid()
    modifies enc, enc.buf
    ensures enc.Valid() && old(enc.Written()) <= enc.Written()
    ensures reported <==>
      (named || o.count.Some?) && |CountBytes(o) + SelectedBytes(o)| <= enc.capacity - old(enc.offset)
    ensures reported ==> enc.Written() == old(enc.Written()) + CountBytes(o) + SelectedBytes(o)
  {
    hide EncodeUint;
    reported := named;
    if o.count.Some? {
      reported := enc.Uint(5);
      if reported {
        reported := enc.Uint(o.count.value);
      }
    }
    assert reported && o.count.Some? ==> enc.Written() == old(enc.Written()) + CountBytes(o);
    if reported && o.userSelected {
      reported := enc.Uint(6);
      if reported {
        reported := enc.Boolean(true);
      }
    }
  }

  /** The user's names are all written before the room runs out. */
  predicate NamesFit(credentialId: seq<byte>, userId: seq<byte>, authData: seq<byte>, signature: seq<byte>,
                     o: Options, capacity: nat)
    requires Sizes(credentialId, userId, authData, signature, o)
  {
    |OpeningBytes(credentialId, userId, authData, signature, o) + NamesBytes(o)| <= capacity
  }

  /** The names do not fit, but after what they left there is room for the count and what follows it. */
  predicate HidesTruncation(credentialId: seq<byte>, userId: seq<byte>, authData: seq<byte>, signature: seq<byte>,
                            o: Options, capacity: nat)
    requires Sizes(credentialId, userId, authData, signature, o)
  {
    var opening := |OpeningBytes(credentialId, userId, authData, signature, o)|;
    && opening <= capacity < opening + |NamesBytes(o)| && o.count.Some?
    && opening + |NamesLeft(o, capacity - opening)| + |CountBytes(o) + SelectedBytes(o)| <= capacity
  }

  /** What stands in the buffer when success is reported. */
  function ReportedBytes(credentialId: seq<byte>, userId: seq<byte>, authData: seq<byte>, signature: seq<byte>,
                         o: Options, capacity: nat): seq<byte>
    requires Sizes(credentialId, userId, authData, signature, o)
  {
    var opening := OpeningBytes(credentialId, userId, authData, signature, o);
    opening + NamesLeft(o, capacity - |opening|) + CountBytes(o) + SelectedBytes(o)
  }

  /** The room left over when the names stop short; the members after them have to fit into it. */
  function Slack(o: Options, room: nat): int
    requires |o.userName| < 65 && |o.displayName| < 65
  {
    room - |NamesLeft(o, room)|
  }

  lemma LastNameSlack(o: Options)
    requires |o.userName| < 65 && |o.displayName| < 65
    ensures o.displayName != [] ==> exists room: nat :: room < |NamesBytes(o)| && Slack(o, room) >= 10
    ensures o.userName != [] ==> exists room: nat :: room < |NamesBytes(o)| && Slack(o, room) >= 3
    ensures o.userName != [] ==> exists room: nat :: room < |NamesBytes(o)| && Slack(o, room) >= |o.userName| - 1
  {
    TextSizes(NAME, o.userName);
    TextSizes(DISPLAY_NAME, o.displayName);
    if o.displayName != [] {
      assert Slack(o, |NameBytes(NAME, o.userName)| + 11) >= 10;
    }
    if o.userName != [] {
      assert Slack(o, 4) >= 3;
      assert Slack(o, |NameBytes(NAME, o.userName)| - 1) >= |o.userName| - 1;
    }
  }

  /** A lone user name never leaves more. */
  lemma LoneNameSlack(o: Options, room: nat)
    requires 0 < |o.userName| < 65 && o.displayName == [] && room < |NamesBytes(o)|
    ensures Slack(o, room) <= 3 || Slack(o, room) <= |o.userName| - 1
  {
    TextSizes(NAME, o.userName);
  }

  /**
   Exactly which responses have a capacity at which success is reported for something else: those
   with a count and a display name, or a user name that is long enough for what follows it.
   */
  lemma TruncationCanBeHidden(credentialId: seq<byte>, userId: seq<byte>, authData: seq<byte>, signature: seq<byte>,
                              o: Options)
    requires Sizes(credentialId, userId, authData, signature, o)
    ensures (exists capacity: nat :: HidesTruncation(credentialId, userId, authData, signature, o, capacity)) <==>
      && o.count.Some?
      && (o.displayName != [] ||
          (o.userName != [] &&
            (|CountBytes(o) + SelectedBytes(o)| <= 3 || |CountBytes(o) + SelectedBytes(o)| < |o.userName|)))
  {
    hide OpeningBytes, EncodeHead, NamesLeft, NamesBytes;
    var opening := |OpeningBytes(credentialId, userId, authData, signature, o)|;
    var tail := |CountBytes(o) + SelectedBytes(o)|;
    TailFits(o);
    LastNameSlack(o);
    forall capacity: nat | HidesTruncation(credentialId, userId, authData, signature, o, capacity)
      ensures o.displayName != [] || (o.userName != [] && (tail <= 3 || tail < |o.userName|))
    {
      assert Slack(o, capacity - opening) >= tail;
      if o.displayName == [] {
        NoNameNoBytes(o);
        if o.userName != [] {
          LoneNameSlack(o, capacity - opening);
        }
      }
    }
    if room: nat :| room < |NamesBytes(o)| && Slack(o, room) >= tail {
      assert o.count.Some? ==> HidesTruncation(credentialId, userId, authData, signature, o, opening + room);
    }
  }

  lemma NoNameNoBytes(o: Options)
    requires |o.userName| < 65 && |o.displayName| < 65
    ensures o.userName == [] && o.displayName == [] ==> NamesBytes(o) == []
  {
  }

  /**
   The map of the response.  Success is reported if and only if all of it fits, or a failure of the
   names is hidden by the count that is written after them; and what is then written is known.
   */
  method EmitAssertion(enc: Encoder, credentialId: seq<byte>, userId: seq<byte>, authData: seq<byte>,
                       signature: seq<byte>, o: Options)
      returns (ok: bool)
    requires enc.Valid() && enc.offset == 0 && Sizes(credentialId, userId, authData, signature, o)
    modifies enc, enc.buf
    ensures enc.Valid()
    ensures ok <==>
      || |AssertionBytes(credentialId, userId, authData, signature, o)| <= enc.capacity
      || HidesTruncation(credentialId, userId, authData, signature, o, enc.capacity)
    ensures ok ==> enc.Written() == ReportedBytes(credentialId, userId, authData, signature, o, enc.capacity)
    ensures ok && enc.Written() != AssertionBytes(credentialId, userId, authData, signature, o) <==>
      HidesTruncation(credentialId, userId, authData, signature, o, enc.capacity)
  {
    hide OpeningBytes, NamesBytes, CountBytes, SelectedBytes;
    ReportedIsResponse(credentialId, userId, authData, signature, o, enc.capacity);
    ok := EmitOpening(enc, credentialId, userId, authData, signature, o);
    if !ok {
      return;
    }
    ghost var opening := enc.Written();
    assert opening == OpeningBytes(credentialId, userId, authData, signature, o);
    var named := EmitNames(enc, o);
    ok := EmitTail(enc, o, named);
  }

  /** What is reported is the response exactly if the names fit. */
  lemma ReportedIsResponse(credentialId: seq<byte>, userId: seq<byte>, authData: seq<byte>, signature: seq<byte>,
                           o: Options, capacity: nat)
    requires Sizes(credentialId, userId, authData, signature, o)
    ensures var response := AssertionBytes(credentialId, userId, authData, signature, o);
      |OpeningBytes(credentialId, userId, authData, signature, o)| <= capacity ==>
        (ReportedBytes(credentialId, userId, authData, signature, o, capacity) == response <==>
         NamesFit(credentialId, userId, authData, signature, o, capacity))
  {
    hide OpeningBytes, NamesBytes, CountBytes, SelectedBytes;
    var room := capacity - |OpeningBytes(credentialId, userId, authData, signature, o)|;
    if 0 <= room < |NamesBytes(o)| {
      assert |NamesLeft(o, room)| < |NamesBytes(o)|;
    }
  }

  const ASSERTION_AUTH_DATA_CAPACITY := 160

  /** What an assertion signs and shows. */
  function AssertionAuthData(rpId: seq<byte>, present: bool, verified: bool, signCount: uint32,
                             extension: seq<byte>): seq<byte> {
    AuthDataBytes(rpId, present, verified, signCount, Fill(0, AAGUID_LEN), None,
                  if extension != [] then Some(extension) else None)
  }

  /** The signature over the hash of authData and the client data hash; `sign` stands for the key of the record. */
  function AssertionSignature(sign: seq<byte> -> Option<seq<byte>>, authData: seq<byte>,
                              clientDataHash: seq<byte>): Option<seq<byte>> {
    sign(Sha256.Hash(authData + clientDataHash))
  }

  /** The part of the builder that writes the map. */
  method SerializeAssertion(credentialId: seq<byte>, userId: seq<byte>, authData: seq<byte>, signature: seq<byte>,
                            o: Options,
                            out: array<byte>, capacity: nat) returns (ok: bool, size: nat)
    requires Sizes(credentialId, userId, authData, signature, o) && capacity <= out.Length
    modifies out
    ensures capacity >= 530 ==> ok && !HidesTruncation(credentialId, userId, authData, signature, o, capacity)
    ensures size <= out.Length
    ensures ok <==>
      || |AssertionBytes(credentialId, userId, authData, signature, o)| <= capacity
      || HidesTruncation(credentialId, userId, authData, signature, o, capacity)
    ensures ok && out[..size] != AssertionBytes(credentialId, userId, authData, signature, o) <==>
      HidesTruncation(credentialId, userId, authData, signature, o, capacity)
  {
    hide OpeningBytes, NamesBytes, ReportedBytes;
    AssertionFits(credentialId, userId, authData, signature, o);
    var enc := new Encoder(out, capacity);
    ok := EmitAssertion(enc, credentialId, userId, authData, signature, o);
    size := enc.offset;
  }

  /** `zf_build_auth_data` as an assertion calls it, into its scratch buffer. */
  method PrepareAuthData(rpId: seq<byte>, present: bool, verified: bool, signCount: uint32,
                         extension: seq<byte>) returns (authData: seq<byte>)
    ensures authData == if 37 + |extension| <= ASSERTION_AUTH_DATA_CAPACITY
                        then AssertionAuthData(rpId, present, verified, signCount, extension) else []
    ensures |authData| <= ASSERTION_AUTH_DATA_CAPACITY
  {
    hide AuthDataBytes;
    var scratch := new byte[ASSERTION_AUTH_DATA_CAPACITY];
    var extended := if extension != [] then Some(extension) else None;
    var size := BuildAuthData(scratch, 0, ASSERTION_AUTH_DATA_CAPACITY, rpId, present, verified, signCount,
                              Fill(0, AAGUID_LEN), None, extended);
    authData := scratch[0..0 + size];
  }

  datatype Parts = Parts(authData: seq<byte>, signature: seq<byte>)

  /**
   `zf_ctap_build_assertion_response_with_scratch`; `parts` is what the response is made of, if it
   got that far, and `o` which optional members it carries.
   */
  method BuildAssertionResponse(rpId: seq<byte>, clientDataHash: seq<byte>, r: CredentialRecord, present: bool,
                                verified: bool, signCount: uint32, includeUserDetails: bool, includeCount: bool,
                                matchCount: uint32, includeUserSelected: bool, userSelected: bool,
                                extension: seq<byte>, sign: seq<byte> -> Option<seq<byte>>, out: array<byte>,
                                capacity: nat)
      returns (ok: bool, size: nat, parts: Option<Parts>, o: Options)
    requires InBounds(r) && capacity <= out.Length
    requires forall hash :: sign(hash).Some? ==> |sign(hash).value| <= 72
    modifies out
    ensures o == ChooseOptions(r, includeUserDetails, includeCount, matchCount, includeUserSelected, userSelected)
    ensures parts.None? ==> !ok
    ensures parts.None? <==>
      || 37 + |extension| > ASSERTION_AUTH_DATA_CAPACITY
      || AssertionSignature(sign, AssertionAuthData(rpId, present, verified, signCount, extension),
                            clientDataHash).None?
    ensures parts.Some? ==>
      && parts.value.authData == AssertionAuthData(rpId, present, verified, signCount, extension)
      && AssertionSignature(sign, parts.value.authData, clientDataHash) == Some(parts.value.signature)
      && Sizes(r.credentialId, r.userId, parts.value.authData, parts.value.signature, o)
    ensures parts.Some? && capacity >= 530 ==>
      && ok && size <= out.Length
      && out[..size] == AssertionBytes(r.credentialId, r.userId, parts.value.authData, parts.value.signature, o)
    ensures parts.Some? ==>
      var response := AssertionBytes(r.credentialId, r.userId, parts.value.authData, parts.value.signature, o);
      var hidden := HidesTruncation(r.credentialId, r.userId, parts.value.authData, parts.value.signature, o, capacity);
      && size <= out.Length && (ok <==> |response| <= capacity || hidden)
      && (ok && out[..size] != response <==> hidden)
  {
    hide AuthDataBytes, AssertionBytes, HidesTruncation, Sha256.Hash;
    ok, size, parts := false, 0, None;
    o := ChooseOptions(r, includeUserDetails, includeCount, matchCount, includeUserSelected, userSelected);
    AuthDataNonempty(rpId, present, verified, signCount, extension);
    var authData := PrepareAuthData(rpId, present, verified, signCount, extension);
    if authData == [] {
      return;
    }
    var signature := sign(Sha256.Hash(authData + clientDataHash));
    if signature.None? {
      return;
    }
    parts := Some(Parts(authData, signature.value));
    ok, size := SerializeAssertion(r.credentialId, r.userId, authData, signature.value, o, out, capacity);
  }

  lemma AuthDataNonempty(rpId: seq<byte>, present: bool, verified: bool, signCount: uint32, extension: seq<byte>)
    ensures AssertionAuthData(rpId, present, verified, signCount, extension) != []
  {
  }
}
