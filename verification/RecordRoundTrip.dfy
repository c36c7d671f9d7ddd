/** What survives a trip through the record codec, how much room it takes, and exactly when it works. */
module RecordRoundTrip {
  import opened Bytes
  import opened CborHead
  import opened Cbor
  import opened Record
  import opened RecordFormat
  import opened RecordCodec
  import CborSkip
  import Utf8

  /** The record as it comes back: an unset credProtect has become its default. */
  function Stored(r: CredentialRecord): CredentialRecord {
    r.(credProtect := EffectiveProtection(r.credProtect))
  }

  /**
   Any listing of a record's fields, in any order and with unknown pairs added, decodes to the
   record, its hmac secrets and the floor that was embedded in it.
   */
  lemma ListedRecordDecodes(enclave: Enclave, r: CredentialRecord, floorIv: seq<byte>, hmacIv: seq<byte>,
                            seals: Seals, pairs: seq<Pair>)
    requires InBounds(r) && Decodable(r) && enclave.ready && enclave.Ideal() && |floorIv| == |hmacIv| == 16
    requires |pairs| <= SIZE_MAX && SealRecord(enclave, r, floorIv, hmacIv) == Some(seals)
    requires Lists(pairs, RecordFields(r, seals))
    ensures DecodeRecord(enclave, MapBytes(pairs), HexEncode(r.credentialId)) ==
      Some(Decoded(Stored(r), Some(seals.floor)))
  {
    SealsFit(enclave, r, floorIv, hmacIv);
    SealedIv(enclave, r, floorIv, hmacIv);
    hide SealRecord, RecordFields, Lists, Finish, DecodeRecord, MapBytes, HexEncode;
    DecodesListing(enclave, pairs, RecordFields(r, seals), HexEncode(r.credentialId));
    FinishesRecord(enclave, r, seals);
  }

  lemma SealedIv(enclave: Enclave, r: CredentialRecord, floorIv: seq<byte>, hmacIv: seq<byte>)
    requires SealRecord(enclave, r, floorIv, hmacIv).Some?
    ensures SealRecord(enclave, r, floorIv, hmacIv).value.hmacIv == hmacIv
  {
  }

  lemma TwiceIn(s: seq<Pair>, i: nat, j: nat)
    requires i < j < |s| && s[i] == s[j]
    ensures multiset(s)[s[i]] >= 2
  {
    assert s == s[..j] + s[j..];
    assert s[i] in s[..j] && s[j] in s[j..];
  }

  lemma OnceIn(s: seq<Pair>, i: nat)
    requires i < |s| && forall j, k :: 0 <= j < k < |s| ==> s[j].key != s[k].key
    ensures multiset(s)[s[i]] == 1
  {
    assert s == s[..i] + [s[i]] + s[i + 1..];
    assert s[i] !in s[..i] && s[i] !in s[i + 1..];
  }

  /** Pairs nobody asked for: an unknown key and one item that `skip` takes whole. */
  ghost predicate Skippable(extra: seq<Pair>) {
    forall p :: p in extra ==> KindOf(p.key) == Unknown && CborSkip.Skip(p.item, 0) == Some(|p.item|)
  }

  lemma ShuffleIsListed(pairs: seq<Pair>, fields: Fields, extra: seq<Pair>, other: seq<Pair>)
    requires Lists(pairs, fields) && Skippable(extra)
    requires forall i :: 0 <= i < |pairs| ==> KindOf(pairs[i].key) != Unknown
    requires multiset(other) == multiset(pairs) + multiset(extra)
    ensures Lists(other, fields)
  {
    hide KindOf, Denotes;
    forall i | 0 <= i < |other|
      ensures other[i] in pairs || other[i] in extra
      ensures Denotes(other[i], ValueFor(fields, other[i].key))
      ensures KindOf(other[i].key) != Unknown <==> other[i].key in fields
    {
      assert other[i] in multiset(other);
      if other[i] in extra {
        UnknownDenotes(other[i].key, other[i].item);
      }
    }
    forall i, j | 0 <= i < j < |other| && other[i].key == other[j].key
      ensures KindOf(other[i].key) == Unknown
    {
      if KindOf(other[i].key) != Unknown {
        var m :| 0 <= m < |pairs| && pairs[m] == other[i];
        assert other[j] == pairs[m];
        TwiceIn(other, i, j);
        OnceIn(pairs, m);
      }
    }
    forall k | k in fields
      ensures exists i :: 0 <= i < |other| && other[i].key == k
    {
      var m :| 0 <= m < |pairs| && pairs[m].key == k;
      assert pairs[m] in multiset(other);
    }
  }

  /**
   A written record decodes to the same record after its pairs are put in any order and pairs
   with unknown keys are mixed in.
   */
  lemma ShuffledRecordDecodes(enclave: Enclave, r: CredentialRecord, floorIv: seq<byte>, hmacIv: seq<byte>,
                              seals: Seals,
                              extra: seq<Pair>, other: seq<Pair>)
    requires InBounds(r) && Decodable(r) && enclave.ready && enclave.Ideal() && |floorIv| == |hmacIv| == 16
    requires |other| <= SIZE_MAX && SealRecord(enclave, r, floorIv, hmacIv) == Some(seals)
    requires Skippable(extra) && multiset(other) == multiset(RecordPairs(r, seals)) + multiset(extra)
    ensures DecodeRecord(enclave, MapBytes(other), HexEncode(r.credentialId)) ==
      Some(Decoded(Stored(r), Some(seals.floor)))
  {
    SealsFit(enclave, r, floorIv, hmacIv);
    RecordIsListed(r, seals);
    hide SealRecord, RecordFields, Lists, DecodeRecord, MapBytes, HexEncode, KindOf, RecordKeys, RecordPair;
    forall i | 0 <= i < |RecordPairs(r, seals)|
      ensures KindOf(RecordPairs(r, seals)[i].key) != Unknown
    {
      KeyIsKnown(r, seals, i);
    }
    ShuffleIsListed(RecordPairs(r, seals), RecordFields(r, seals), extra, other);
    ListedRecordDecodes(enclave, r, floorIv, hmacIv, seals, other);
  }

  lemma KeyIsKnown(r: CredentialRecord, seals: Seals, i: nat)
    requires i < |RecordPairs(r, seals)|
    ensures KindOf(RecordPairs(r, seals)[i].key) != Unknown
  {
  }

  // The size bound.

  /** The room the first `n` pairs can take, map head included; the version is a single byte. */
  const BUDGET := [1, 3, 38, 296, 363, 430, 497, 532, 567, 602, 620, 626, 632, 634, 636, 691, 758, 776]

  lemma BudgetCoversPair(r: CredentialRecord, seals: Seals, k: nat)
    requires InBounds(r) && SealsInBounds(seals) && EffectiveProtection(r.credProtect) < 24 && k < |RecordKeys(r)|
    ensures |PairBytes(RecordPairs(r, seals)[k])| <= BUDGET[k + 1] - BUDGET[k]
  {
    hide EncodeHead, EncodeBytes, EncodeText, EncodeUint, EncodeBool;
    var key := RecordKeys(r)[k];
    ItemSize(key, RecordValue(r, seals, key));
    SmallHead(key);
  }

  lemma SmallHead(n: uint64)
    ensures n < 24 ==> |EncodeUint(n)| == 1
    ensures n <= UINT32_MAX ==> |EncodeUint(n)| <= 5
  {
  }

  lemma ItemSize(key: nat, v: FieldValue)
    ensures v.Number? && v.n < 24 ==> |ItemFor(KindOf(key), v)| == 1
    ensures v.Number? && v.n <= UINT32_MAX ==> |ItemFor(KindOf(key), v)| <= 5
    ensures v.Flag? ==> |ItemFor(KindOf(key), v)| == 1
    ensures v.Octets? && |v.bytes| < 256 ==> |ItemFor(KindOf(key), v)| <= 2 + |v.bytes|
    ensures v.Octets? && |v.bytes| < 24 ==> |ItemFor(KindOf(key), v)| == 1 + |v.bytes|
  {
  }

  lemma {:induction false} JoinStep(pairs: seq<Pair>, k: nat)
    requires k < |pairs|
    ensures Join(pairs[..k + 1]) == Join(pairs[..k]) + PairBytes(pairs[k])
  {
    hide PairBytes;
    if k == 0 {
      assert pairs[..1][1..] == [] && pairs[..0] == [];
    } else {
      JoinStep(pairs[1..], k - 1);
      assert pairs[..k + 1][1..] == pairs[1..][..k] && pairs[..k][1..] == pairs[1..][..k - 1];
    }
  }

  lemma {:induction false} PairsFit(r: CredentialRecord, seals: Seals, k: nat)
    requires InBounds(r) && SealsInBounds(seals) && EffectiveProtection(r.credProtect) < 24 && k <= |RecordKeys(r)|
    ensures 1 + |Join(RecordPairs(r, seals)[..k])| <= BUDGET[k]
  {
    hide Join, RecordKeys, PairBytes;
    var pairs := RecordPairs(r, seals);
    if k == 0 {
      assert pairs[..0] == [];
      NothingJoined();
    } else {
      PairsFit(r, seals, k - 1);
      JoinStep(pairs, k - 1);
      BudgetCoversPair(r, seals, k - 1);
    }
  }

  lemma NothingJoined()
    ensures Join([]) == []
  {
  }

  lemma RecordFits(r: CredentialRecord, seals: Seals)
    requires InBounds(r) && SealsInBounds(seals) && EffectiveProtection(r.credProtect) < 24
    ensures |MapBytes(RecordPairs(r, seals))| <= 776
  {
    var pairs := RecordPairs(r, seals);
    PairsFit(r, seals, |pairs|);
    assert pairs[..|pairs|] == pairs;
    hide Join, RecordKeys, RecordPairs;
  }

  // Only a decodable record comes back.

  /** However the value of this pair is read, the reader stops at its end. */
  ghost predicate Framed(p: Pair) {
    forall rest: seq<byte> {:trigger ReadKind(p.item + rest, KindOf(p.key))} ::
      ReadKind(p.item + rest, KindOf(p.key)).Some? ==>
        ReadKind(p.item + rest, KindOf(p.key)).value.size == |p.item|
  }

  lemma ReadsFramedPair(p: Pair, rest: seq<byte>)
    requires Framed(p)
    ensures ReadPair(PairBytes(p) + rest).Some? ==>
      && ReadPair(PairBytes(p) + rest).value.size == |PairBytes(p)|
      && ReadKind(p.item + rest, KindOf(p.key)).Some?
  {
    hide ReadKind, KindOf, EncodeUint, ReadUint;
    var s, head := PairBytes(p) + rest, EncodeUint(p.key);
    assert s == head + (p.item + rest);
    UintBijection(s, p.key);
    assert s[|head|..] == p.item + rest;
  }

  lemma {:induction false} EveryValueWasRead(pairs: seq<Pair>, fields: Fields, k: nat)
    requires (forall i :: 0 <= i < |pairs| ==> Framed(pairs[i])) && k < |pairs|
    requires DecodePairs(Join(pairs), |pairs|, fields).Some?
    ensures ReadKind(pairs[k].item + Join(pairs[k + 1..]), KindOf(pairs[k].key)).Some?
  {
    hide DecodePairs, ReadPair, PairBytes, Framed, KindOf, ReadKind;
    var p, rest := pairs[0], Join(pairs[1..]);
    var s := PairBytes(p) + rest;
    DecodePairsStep(s, |pairs|, fields);
    ReadsFramedPair(p, rest);
    if k > 0 {
      assert s[|PairBytes(p)|..] == rest;
      assert pairs[1..][k..] == pairs[k + 1..];
      EveryValueWasRead(pairs[1..], Store(fields, ReadPair(s).value.value.0, ReadPair(s).value.value.1), k - 1);
    }
  }

  lemma NumberFramed(key: uint64, n: uint64)
    requires KindOf(key) == Word || KindOf(key) == Protection
    ensures Framed(Pair(key, EncodeUint(n)))
    ensures KindOf(key) == Protection ==> forall rest: seq<byte> ::
      ReadKind(EncodeUint(n) + rest, KindOf(key)).Some? ==> 1 <= n <= 3
  {
  }

  lemma OctetsFramed(key: uint64, b: seq<byte>)
    requires |b| <= UINT64_MAX && (KindOf(key).Blob? || KindOf(key).BlobUpTo?)
    ensures Framed(Pair(key, EncodeBytes(b)))
  {
    forall rest: seq<byte> | ReadKind(EncodeBytes(b) + rest, KindOf(key)).Some?
      ensures ReadKind(EncodeBytes(b) + rest, KindOf(key)).value.size == |EncodeBytes(b)|
    {
      StringBijection(EncodeBytes(b) + rest, MAJOR_BYTES, b);
    }
  }

  lemma TextFramed(key: uint64, t: seq<byte>)
    requires |t| <= UINT64_MAX && KindOf(key).TextBelow?
    ensures Framed(Pair(key, EncodeText(t)))
    ensures forall rest: seq<byte> :: ReadKind(EncodeText(t) + rest, KindOf(key)).Some? ==> Utf8.IsUtf8(t)
  {
    forall rest: seq<byte> | ReadKind(EncodeText(t) + rest, KindOf(key)).Some?
      ensures ReadKind(EncodeText(t) + rest, KindOf(key)).value.size == |EncodeText(t)|
      ensures Utf8.IsUtf8(t)
    {
      StringBijection(EncodeText(t) + rest, MAJOR_TEXT, t);
    }
  }

  lemma FlagFramed(key: uint64, b: bool)
    requires KindOf(key) == Switch
    ensures Framed(Pair(key, EncodeBool(b)))
  {
  }

  /** The value under `key` is one its reader takes. */
  ghost predicate InOrder(r: CredentialRecord, key: nat) {
    && (key == KEY_RP_ID ==> Utf8.IsUtf8(r.rpId))
    && (key == KEY_USER_NAME ==> Utf8.IsUtf8(r.userName))
    && (key == KEY_DISPLAY_NAME ==> Utf8.IsUtf8(r.displayName))
    && (key == KEY_CRED_PROTECT ==> EffectiveProtection(r.credProtect) <= 3)
  }

  lemma KeyFramed(r: CredentialRecord, seals: Seals, key: uint64)
    requires InBounds(r) && SealsInBounds(seals) && key in RecordKeys(r)
    ensures Framed(RecordPair(r, seals, key))
    ensures forall rest: seq<byte> :: ReadKind(RecordPair(r, seals, key).item + rest, KindOf(key)).Some? ==>
              InOrder(r, key)
  {
    var v := RecordValue(r, seals, key);
    hide Framed, ReadKind, EncodeUint, EncodeBytes, EncodeText, EncodeBool;
    match v
    case Number(n) => NumberFramed(key, n);
    case Octets(b) =>
      if KindOf(key).TextBelow? {
        TextFramed(key, b);
      } else {
        OctetsFramed(key, b);
      }
    case Flag(b) => FlagFramed(key, b);
  }

  /** Decoding reached the value under every key, so that value is in order. */
  lemma KeyWasRead(r: CredentialRecord, seals: Seals, key: uint64)
    requires InBounds(r) && SealsInBounds(seals) && key in RecordKeys(r)
    requires DecodePairs(Join(RecordPairs(r, seals)), |RecordKeys(r)|, map[]).Some?
    ensures InOrder(r, key)
  {
    hide RecordKeys, ItemFor, RecordValue, InOrder, Framed, DecodePairs, Join, ReadKind, KindOf;
    var keys, pairs := RecordKeys(r), RecordPairs(r, seals);
    forall i | 0 <= i < |pairs|
      ensures Framed(pairs[i])
    {
      KeyFramed(r, seals, keys[i]);
    }
    KeyFramed(r, seals, key);
    var k :| 0 <= k < |keys| && keys[k] == key;
    EveryValueWasRead(pairs, map[], k);
  }

  lemma DecodedIsReadable(r: CredentialRecord, seals: Seals)
    requires InBounds(r) && SealsInBounds(seals)
    requires DecodePairs(Join(RecordPairs(r, seals)), |RecordKeys(r)|, map[]).Some?
    ensures Readable(r)
  {
    RecordFieldKeys(r, seals);
    hide RecordKeys, RecordFields, RecordPairs, DecodePairs, Join;
    KeyWasRead(r, seals, KEY_RP_ID);
    KeyWasRead(r, seals, KEY_USER_NAME);
    KeyWasRead(r, seals, KEY_DISPLAY_NAME);
    KeyWasRead(r, seals, KEY_CRED_PROTECT);
  }

  lemma MapBodyDecodes(enclave: Enclave, pairs: seq<Pair>, fileName: string)
    requires |pairs| <= SIZE_MAX && DecodeRecord(enclave, MapBytes(pairs), fileName).Some?
    ensures DecodePairs(Join(pairs), |pairs|, map[]).Some?
  {
    hide DecodePairs, Finish;
    CountBijection(MapBytes(pairs), MAJOR_MAP, |pairs|);
    assert MapBytes(pairs)[HeadSize(|pairs|)..] == Join(pairs);
  }

  lemma EncodedBytes(enclave: Enclave, r: CredentialRecord, floorIv: seq<byte>, hmacIv: seq<byte>, seals: Seals)
    requires SealRecord(enclave, r, floorIv, hmacIv) == Some(seals)
    ensures var bytes := MapBytes(RecordPairs(r, seals));
      EncodeRecord(enclave, r, floorIv, hmacIv) == if |bytes| <= RECORD_MAX_SIZE then Some(bytes) else None
  {
    hide SealRecord, MapBytes, RecordPairs, RecordKeys;
  }

  lemma EncodedSize(enclave: Enclave, r: CredentialRecord, floorIv: seq<byte>, hmacIv: seq<byte>)
    requires EncodeRecord(enclave, r, floorIv, hmacIv).Some?
    ensures 0 < |EncodeRecord(enclave, r, floorIv, hmacIv).value| <= RECORD_MAX_SIZE
  {
    hide SealRecord, RecordPairs, RecordKeys, Join;
  }

  /** A record within field limits is always written, in at most 776 of the 800 bytes. */
  lemma EncodingFits(enclave: Enclave, r: CredentialRecord, floorIv: seq<byte>, hmacIv: seq<byte>)
    requires InBounds(r) && EffectiveProtection(r.credProtect) < 24
    requires enclave.Ideal() && |floorIv| == |hmacIv| == 16
    ensures EncodeRecord(enclave, r, floorIv, hmacIv).Some? <==> enclave.ready
    ensures enclave.ready ==> |EncodeRecord(enclave, r, floorIv, hmacIv).value| <= 776
  {
    if enclave.ready {
      SealsFit(enclave, r, floorIv, hmacIv);
      var seals := SealRecord(enclave, r, floorIv, hmacIv).value;
      EncodedBytes(enclave, r, floorIv, hmacIv, seals);
      RecordFits(r, seals);
      hide SealRecord, MapBytes, RecordPairs, EncodeRecord;
    }
  }

  /** Every field at its widest. */
  predicate Widest(r: CredentialRecord) {
    && |r.rpId| == 255 && |r.userId| == 64 && |r.userName| == 64 && |r.displayName| == 64
    && r.signCount >= 0x1_0000 && r.createdAt >= 0x1_0000 && r.hmacSecret.Some? && r.credProtect < 24
  }

  lemma WidestItem(key: nat, v: FieldValue)
    ensures v.Number? && 0x1_0000 <= v.n <= UINT32_MAX ==> |ItemFor(KindOf(key), v)| == 5
    ensures v.Octets? && 24 <= |v.bytes| < 256 ==> |ItemFor(KindOf(key), v)| == 2 + |v.bytes|
  {
  }

  lemma WidestPair(r: CredentialRecord, seals: Seals, k: nat)
    requires InBounds(r) && SealsInBounds(seals) && Widest(r) && k < |RecordKeys(r)|
    ensures |PairBytes(RecordPairs(r, seals)[k])| == BUDGET[k + 1] - BUDGET[k]
  {
    hide EncodeHead, EncodeBytes, EncodeText, EncodeUint, EncodeBool;
    var key := RecordKeys(r)[k];
    ItemSize(key, RecordValue(r, seals, key));
    WidestItem(key, RecordValue(r, seals, key));
    SmallHead(key);
  }

  lemma {:induction false} WidestFills(r: CredentialRecord, seals: Seals, k: nat)
    requires InBounds(r) && SealsInBounds(seals) && Widest(r) && k <= |RecordKeys(r)|
    ensures 1 + |Join(RecordPairs(r, seals)[..k])| == BUDGET[k]
  {
    hide Join, RecordKeys, PairBytes;
    var pairs := RecordPairs(r, seals);
    if k == 0 {
      assert pairs[..0] == [];
      NothingJoined();
    } else {
      WidestFills(r, seals, k - 1);
      JoinStep(pairs, k - 1);
      WidestPair(r, seals, k - 1);
    }
  }

  lemma WidestRecordFills(r: CredentialRecord, seals: Seals)
    requires InBounds(r) && SealsInBounds(seals) && Widest(r)
    ensures |MapBytes(RecordPairs(r, seals))| == 776
  {
    var pairs := RecordPairs(r, seals);
    WidestFills(r, seals, |pairs|);
    assert pairs[..|pairs|] == pairs;
    hide Join, RecordPairs;
  }

  /** The widest record takes exactly 776 bytes: the bound cannot be improved. */
  lemma BoundIsReached(enclave: Enclave, r: CredentialRecord, floorIv: seq<byte>, hmacIv: seq<byte>)
    requires InBounds(r) && Widest(r) && enclave.ready && enclave.Ideal() && |floorIv| == |hmacIv| == 16
    ensures exists bytes :: EncodeRecord(enclave, r, floorIv, hmacIv) == Some(bytes) && |bytes| == 776
  {
    SealsFit(enclave, r, floorIv, hmacIv);
    var seals := SealRecord(enclave, r, floorIv, hmacIv).value;
    EncodedBytes(enclave, r, floorIv, hmacIv, seals);
    WidestRecordFills(r, seals);
    hide SealRecord, EncodeRecord, RecordPairs, MapBytes;
  }

  /**
   What was written comes back if and only if its texts are UTF-8, its credProtect is a defined
   value and its RP ID is not empty; and then every field, the hmac secrets and the counter floor
   are the ones that were written.
   */
  lemma RecordComesBack(enclave: Enclave, r: CredentialRecord, floorIv: seq<byte>, hmacIv: seq<byte>, bytes: seq<byte>)
    requires InBounds(r) && enclave.Ideal() && |floorIv| == |hmacIv| == 16
    requires EncodeRecord(enclave, r, floorIv, hmacIv) == Some(bytes)
    ensures DecodeRecord(enclave, bytes, HexEncode(r.credentialId)).Some? <==> Decodable(r)
    ensures Decodable(r) ==>
      var d := DecodeRecord(enclave, bytes, HexEncode(r.credentialId)).value;
      && d.record == Stored(r)
      && d.floor.Some? && |d.floor.value| == 52
      && DecodeFloor(enclave, r.credentialId, r.createdAt, d.floor.value) == Some(r.signCount)
  {
    SealsFit(enclave, r, floorIv, hmacIv);
    var seals := SealRecord(enclave, r, floorIv, hmacIv).value;
    EncodedBytes(enclave, r, floorIv, hmacIv, seals);
    FloorRoundTrip(enclave, floorIv, r.credentialId, r.createdAt, r.signCount, r.credentialId, r.createdAt);
    assert SealRecord(enclave, r, floorIv, hmacIv) == Some(seals);
    assert EncodeFloor(enclave, floorIv, r.credentialId, r.createdAt, r.signCount) == Some(seals.floor);
    var pairs := RecordPairs(r, seals);
    hide EncodeRecord, SealRecord, DecodeRecord, RecordFields, RecordPairs, RecordKeys, Join, Lists, HexEncode,
         EncodeFloor, DecodeFloor, Utf8.IsUtf8, DecodePairs;
    if Decodable(r) {
      RecordIsListed(r, seals);
      ListedRecordDecodes(enclave, r, floorIv, hmacIv, seals, pairs);
    }
    if DecodeRecord(enclave, bytes, HexEncode(r.credentialId)).Some? {
      MapBodyDecodes(enclave, pairs, HexEncode(r.credentialId));
      DecodedIsReadable(r, seals);
      RecordIsListed(r, seals);
      DecodesListing(enclave, pairs, RecordFields(r, seals), HexEncode(r.credentialId));
      if r.rpId == [] {
        NamelessIsRefused(enclave, r, seals);
      }
    }
  }

  lemma NamelessIsRefused(enclave: Enclave, r: CredentialRecord, seals: Seals)
    requires Readable(r) && r.rpId == []
    ensures Finish(enclave, RecordFields(r, seals), HexEncode(r.credentialId)).None?
  {
  }

  lemma {:induction false} FramedPairsFill(pairs: seq<Pair>, fields: Fields)
    requires forall i :: 0 <= i < |pairs| ==> Framed(pairs[i])
    requires DecodePairs(Join(pairs), |pairs|, fields).Some?
    ensures DecodePairs(Join(pairs), |pairs|, fields).value.size == |Join(pairs)|
  {
    hide DecodePairs, ReadPair, PairBytes, Framed;
    if pairs == [] {
      NoPairs([], fields);
    } else {
      var p, rest := pairs[0], Join(pairs[1..]);
      var s := PairBytes(p) + rest;
      DecodePairsStep(s, |pairs|, fields);
      ReadsFramedPair(p, rest);
      assert s[|PairBytes(p)|..] == rest;
      FramedPairsFill(pairs[1..], Store(fields, ReadPair(s).value.value.0, ReadPair(s).value.value.1));
    }
  }

  lemma RecordPairsFramed(r: CredentialRecord, seals: Seals)
    requires InBounds(r) && SealsInBounds(seals)
    ensures forall i :: 0 <= i < |RecordPairs(r, seals)| ==> Framed(RecordPairs(r, seals)[i])
  {
    hide RecordKeys, RecordPair, Framed;
    forall i | 0 <= i < |RecordPairs(r, seals)|
      ensures Framed(RecordPairs(r, seals)[i])
    {
      KeyFramed(r, seals, RecordKeys(r)[i]);
    }
  }

  /**
   Of a written record nothing shorter than the whole file is ever accepted, even when the record is not decodable.
   */
  lemma OnlyWholeRecordDecodes(enclave: Enclave, r: CredentialRecord, floorIv: seq<byte>, hmacIv: seq<byte>,
                               bytes: seq<byte>,
                               cut: nat, fileName: string)
    requires InBounds(r) && enclave.Ideal() && |floorIv| == |hmacIv| == 16
    requires EncodeRecord(enclave, r, floorIv, hmacIv) == Some(bytes)
    requires cut <= |bytes| && DecodeRecord(enclave, bytes[..cut], fileName).Some?
    ensures cut == |bytes|
  {
    SealsFit(enclave, r, floorIv, hmacIv);
    var seals := SealRecord(enclave, r, floorIv, hmacIv).value;
    EncodedBytes(enclave, r, floorIv, hmacIv, seals);
    RecordPairsFramed(r, seals);
    hide EncodeRecord, SealRecord, RecordPairs, RecordKeys, Framed;
    WholeMapDecodes(enclave, RecordPairs(r, seals), cut, fileName);
  }

  lemma WholeMapDecodes(enclave: Enclave, pairs: seq<Pair>, cut: nat, fileName: string)
    requires |pairs| <= SIZE_MAX && forall i :: 0 <= i < |pairs| ==> Framed(pairs[i])
    requires cut <= |MapBytes(pairs)| && DecodeRecord(enclave, MapBytes(pairs)[..cut], fileName).Some?
    ensures cut == |MapBytes(pairs)|
  {
    hide DecodePairs, Finish, Framed, Join;
    var whole, n := MapBytes(pairs), HeadSize(|pairs|);
    var torn := whole[..cut];
    var head := ReadCount(torn, MAJOR_MAP).value;
    CountBijection(whole, MAJOR_MAP, |pairs|);
    assert torn[..head.size] == whole[..head.size];
    HeadIsLocal(torn, whole);
    assert head.size == n && head.value == |pairs|;
    assert whole[n..] == Join(pairs);
    var body := torn[n..];
    assert body == Join(pairs)[..|body|];
    DecodePairsIsLocal(body, Join(pairs), |pairs|, map[], DecodePairs(body, |pairs|, map[]).value);
    FramedPairsFill(pairs, map[]);
  }

  // What was decoded fits the arrays it was copied to.

  predicate Conforms(kind: Kind, v: FieldValue) {
    match kind
    case Word => v.Number? && v.n <= UINT32_MAX
    case Blob(size) => v.Octets? && |v.bytes| == size
    case BlobUpTo(max) => v.Octets? && |v.bytes| <= max
    case TextBelow(limit) => v.Octets? && |v.bytes| < limit && 0 !in v.bytes
    case Switch => v.Flag?
    case Protection => v.Number? && v.n <= 3
    case Unknown => true
  }

  predicate FieldsConform(fields: Fields) {
    forall key :: key in fields ==> Conforms(KindOf(key), fields[key])
  }

  lemma PairConforms(s: seq<byte>)
    requires ReadPair(s).Some?
    ensures Conforms(KindOf(ReadPair(s).value.value.0), ReadPair(s).value.value.1)
  {
  }

  lemma {:induction false} PairsConform(s: seq<byte>, pairs: nat, fields: Fields)
    requires FieldsConform(fields) && DecodePairs(s, pairs, fields).Some?
    ensures FieldsConform(DecodePairs(s, pairs, fields).value.fields)
    decreases pairs
  {
    hide DecodePairs, ReadPair, KindOf, Conforms;
    if pairs == 0 {
      NoPairs(s, fields);
    } else {
      DecodePairsStep(s, pairs, fields);
      PairConforms(s);
      var p := ReadPair(s).value;
      PairsConform(s[p.size..], pairs - 1, Store(fields, p.value.0, p.value.1));
    }
  }

  lemma FinishedInBounds(enclave: Enclave, fields: Fields, fileName: string)
    requires FieldsConform(fields) && Finish(enclave, fields, fileName).Some?
    ensures InBounds(Finish(enclave, fields, fileName).value.record)
    ensures var floor := Finish(enclave, fields, fileName).value.floor; floor.Some? ==> |floor.value| == 52
  {
    hide HexEncode;
    assert forall key :: key in REQUIRED ==> key in fields;
  }

  lemma DecodedInBounds(enclave: Enclave, data: seq<byte>, fileName: string)
    requires DecodeRecord(enclave, data, fileName).Some?
    ensures InBounds(DecodeRecord(enclave, data, fileName).value.record)
    ensures var floor := DecodeRecord(enclave, data, fileName).value.floor; floor.Some? ==> |floor.value| == 52
  {
    hide DecodePairs, Finish, InBounds;
    var head := ReadCount(data, MAJOR_MAP).value;
    PairsConform(data[head.size..], head.value, map[]);
    FinishedInBounds(enclave, DecodePairs(data[head.size..], head.value, map[]).value.fields, fileName);
  }

  /** A key slot that cannot be loaded only makes the decoder refuse more. */
  lemma KeylessDecode(enclave: Enclave, ready: bool, data: seq<byte>, fileName: string)
    requires enclave.ready && DecodeRecord(enclave.(ready := ready), data, fileName).Some?
    ensures DecodeRecord(enclave, data, fileName) == DecodeRecord(enclave.(ready := ready), data, fileName)
  {
  }
}
