/** The record encoder, its size bound, and the round trip through the decoder. */
module RecordCodec {
  import opened Bytes
  import opened CborHead
  import opened Cbor
  import opened Record
  import opened RecordFormat
  import CborSkip
  import Utf8

  /** A map entry as the encoder emits it. */
  datatype Pair = Pair(key: uint64, item: seq<byte>)

  function PairBytes(p: Pair): seq<byte> {
    EncodeUint(p.key) + p.item
  }

  function Join(pairs: seq<Pair>): seq<byte> {
    if pairs == [] then [] else PairBytes(pairs[0]) + Join(pairs[1..])
  }

  function MapBytes(pairs: seq<Pair>): seq<byte>
    requires |pairs| <= SIZE_MAX
  {
    EncodeHead(MAJOR_MAP, |pairs|) + Join(pairs)
  }

  /** Under this pair the decoder reads `v`, whatever follows. */
  ghost predicate Denotes(p: Pair, v: FieldValue) {
    forall rest: seq<byte> :: ReadKind(p.item + rest, KindOf(p.key)) == Some(Read(v, |p.item|))
  }

  function ValueFor(fields: Fields, key: nat): FieldValue {
    if key in fields then fields[key] else Ignored
  }

  /**
   The pairs list exactly these fields: every known key once, in any order, among any number of
   unknown keys whose values `skip` accepts.
   */
  ghost predicate Lists(pairs: seq<Pair>, fields: Fields) {
    && (forall i :: 0 <= i < |pairs| ==> Denotes(pairs[i], ValueFor(fields, pairs[i].key)))
    && (forall i :: 0 <= i < |pairs| ==> (KindOf(pairs[i].key) != Unknown <==> pairs[i].key in fields))
    && (forall i, j :: 0 <= i < j < |pairs| && pairs[i].key == pairs[j].key ==> KindOf(pairs[i].key) == Unknown)
    && (forall k :: k in fields ==> exists i :: 0 <= i < |pairs| && pairs[i].key == k)
  }

  /** The fields stored after the first `n` pairs. */
  function StoredFields(pairs: seq<Pair>, fields: Fields, n: nat): Fields
    requires n <= |pairs|
  {
    if n == 0 then map[]
      else Store(StoredFields(pairs, fields, n - 1), pairs[n - 1].key, ValueFor(fields, pairs[n - 1].key))
  }

  lemma {:induction false} StoredContent(pairs: seq<Pair>, fields: Fields, n: nat)
    requires Lists(pairs, fields) && n <= |pairs|
    ensures forall k :: k in StoredFields(pairs, fields, n) <==>
              k in fields && exists i :: 0 <= i < n && pairs[i].key == k
    ensures forall k :: k in StoredFields(pairs, fields, n) ==> StoredFields(pairs, fields, n)[k] == fields[k]
  {
    hide KindOf, Denotes;
    if n > 0 {
      StoredContent(pairs, fields, n - 1);
    }
  }

  lemma ReadsPair(p: Pair, v: FieldValue, rest: seq<byte>)
    requires Denotes(p, v)
    ensures ReadPair(PairBytes(p) + rest) == Some(Read((p.key, v), |PairBytes(p)|))
  {
    hide ReadKind, KindOf, EncodeUint, ReadUint;
    var s, head := PairBytes(p) + rest, EncodeUint(p.key);
    assert s == head + (p.item + rest);
    UintBijection(s, p.key);
    assert s[|head|..] == p.item + rest;
    assert ReadKind(p.item + rest, KindOf(p.key)) == Some(Read(v, |p.item|));
  }

  lemma {:induction false} DecodesRest(pairs: seq<Pair>, fields: Fields, n: nat)
    requires Lists(pairs, fields) && n <= |pairs|
    ensures DecodePairs(Join(pairs[n..]), |pairs| - n, StoredFields(pairs, fields, n)) ==
            Some(Parsed(StoredFields(pairs, fields, |pairs|), |Join(pairs[n..])|))
    decreases |pairs| - n
  {
    hide DecodePairs, ReadPair, PairBytes, Denotes, KindOf;
    var s, sofar := Join(pairs[n..]), StoredFields(pairs, fields, n);
    if n == |pairs| {
      NoPairs(s, sofar);
    } else {
      var p := pairs[n];
      assert pairs[n..][1..] == pairs[n + 1..];
      var rest := Join(pairs[n + 1..]);
      assert s == PairBytes(p) + rest;
      ReadsPair(p, ValueFor(fields, p.key), rest);
      assert s[|PairBytes(p)|..] == rest;
      StoredContent(pairs, fields, n);
      assert RefusesRepetition(p.key) ==> KindOf(p.key) != Unknown by { RefusedKeysAreKnown(p.key); }
      DecodePairsStep(s, |pairs| - n, sofar);
      DecodesRest(pairs, fields, n + 1);
    }
  }

  lemma RefusedKeysAreKnown(key: nat)
    ensures RefusesRepetition(key) ==> KindOf(key) != Unknown
  {
  }

  /** Any listing of the fields decodes to what the fields say: order and unknown pairs do not matter. */
  lemma DecodesListing(enclave: Enclave, pairs: seq<Pair>, fields: Fields, fileName: string)
    requires Lists(pairs, fields) && |pairs| <= SIZE_MAX
    ensures DecodeRecord(enclave, MapBytes(pairs), fileName) == Finish(enclave, fields, fileName)
  {
    hide DecodePairs, Lists, Finish;
    var data := MapBytes(pairs);
    CountBijection(data, MAJOR_MAP, |pairs|);
    assert data[HeadSize(|pairs|)..] == Join(pairs);
    DecodesRest(pairs, fields, 0);
    assert pairs[0..] == pairs;
    StoredAll(pairs, fields);
  }

  lemma StoredAll(pairs: seq<Pair>, fields: Fields)
    requires Lists(pairs, fields)
    ensures StoredFields(pairs, fields, |pairs|) == fields
  {
    hide StoredFields, Denotes, KindOf;
    StoredContent(pairs, fields, |pairs|);
  }

  // What the items of the encoder denote.

  lemma NumberDenotes(key: uint64, n: uint64)
    requires KindOf(key) == Word ==> n <= UINT32_MAX
    requires KindOf(key) == Word || (KindOf(key) == Protection && 1 <= n <= 3)
    ensures Denotes(Pair(key, EncodeUint(n)), Number(n))
  {
    forall rest: seq<byte>
      ensures ReadKind(EncodeUint(n) + rest, KindOf(key)) == Some(Read(Number(n), |EncodeUint(n)|))
    {
      UintBijection(EncodeUint(n) + rest, n);
    }
  }

  lemma OctetsDenote(key: uint64, b: seq<byte>)
    requires |b| <= UINT64_MAX
    requires (KindOf(key).Blob? && |b| == KindOf(key).size) || (KindOf(key).BlobUpTo? && |b| <= KindOf(key).max)
    ensures Denotes(Pair(key, EncodeBytes(b)), Octets(b))
  {
    forall rest: seq<byte>
      ensures ReadKind(EncodeBytes(b) + rest, KindOf(key)) == Some(Read(Octets(b), |EncodeBytes(b)|))
    {
      StringBijection(EncodeBytes(b) + rest, MAJOR_BYTES, b);
    }
  }

  lemma TextDenotes(key: uint64, t: seq<byte>)
    requires |t| <= UINT64_MAX && KindOf(key).TextBelow? && |t| < KindOf(key).limit && 0 !in t && Utf8.IsUtf8(t)
    ensures Denotes(Pair(key, EncodeText(t)), Octets(t))
  {
    forall rest: seq<byte>
      ensures ReadKind(EncodeText(t) + rest, KindOf(key)) == Some(Read(Octets(t), |EncodeText(t)|))
    {
      TextBijection(EncodeText(t) + rest, t);
    }
  }

  lemma FlagDenotes(key: uint64, b: bool)
    requires KindOf(key) == Switch
    ensures Denotes(Pair(key, EncodeBool(b)), Flag(b))
  {
  }

  /** Under an unknown key, exactly an item `skip` takes whole is ignored. */
  lemma UnknownDenotes(key: uint64, item: seq<byte>)
    requires KindOf(key) == Unknown && CborSkip.Skip(item, 0) == Some(|item|)
    ensures Denotes(Pair(key, item), Ignored)
  {
    forall rest: seq<byte>
      ensures ReadKind(item + rest, KindOf(key)) == Some(Read(Ignored, |item|))
    {
      assert item[..|item|] == (item + rest)[..|item|];
      CborSkip.SkipIsLocal(item, item + rest, 0);
    }
  }

  // The record as the encoder lists it.

  /** What the C arrays of `ZfCredentialRecord` can hold. */
  predicate InBounds(r: CredentialRecord) {
    && |r.credentialId| == 32
    && |r.rpId| < 256 && |r.userId| <= 64 && |r.userName| < 65 && |r.displayName| < 65
    && 0 !in r.rpId && 0 !in r.userName && 0 !in r.displayName
    && |r.publicX| == 32 && |r.publicY| == 32 && |r.privateWrapped| == 32 && |r.privateIv| == 16
    && r.credProtect < 256
    && (r.hmacSecret.Some? ==> |r.hmacSecret.value.withoutUv| == 32 && |r.hmacSecret.value.withUv| == 32)
  }

  /** `zf_ctap_cred_protect_effective`. */
  function EffectiveProtection(credProtect: nat): nat {
    if credProtect == 0 then 1 else credProtect
  }

  /** The sealed parts of a record, made afresh for every write. */
  datatype Seals = Seals(floor: seq<byte>, hmacIv: seq<byte>, hmacWrapped: seq<byte>)

  predicate SealsInBounds(seals: Seals) {
    |seals.floor| == 52 && |seals.hmacIv| == 16 && |seals.hmacWrapped| == 64
  }

  /** The keys in the order they are written. */
  function RecordKeys(r: CredentialRecord): (keys: seq<uint64>)
    ensures |keys| == if r.hmacSecret.Some? then 17 else 15
  {
    [KEY_VERSION, KEY_CREDENTIAL_ID, KEY_RP_ID, KEY_USER_ID, KEY_USER_NAME, KEY_DISPLAY_NAME, KEY_PUBLIC_X,
     KEY_PUBLIC_Y, KEY_PRIVATE_WRAPPED, KEY_PRIVATE_IV, KEY_SIGN_COUNT, KEY_CREATED_AT, KEY_RESIDENT_KEY,
     KEY_CRED_PROTECT, KEY_COUNTER_FLOOR] +
    if r.hmacSecret.Some? then [KEY_HMAC_SECRET_WRAPPED, KEY_HMAC_SECRET_IV] else []
  }

  /** The field under a key. */
  function RecordValue(r: CredentialRecord, seals: Seals, key: nat): FieldValue {
    if key == KEY_VERSION then Number(STORE_FORMAT_VERSION)
    else if key == KEY_CREDENTIAL_ID then Octets(r.credentialId)
    else if key == KEY_RP_ID then Octets(r.rpId)
    else if key == KEY_USER_ID then Octets(r.userId)
    else if key == KEY_USER_NAME then Octets(r.userName)
    else if key == KEY_DISPLAY_NAME then Octets(r.displayName)
    else if key == KEY_PUBLIC_X then Octets(r.publicX)
    else if key == KEY_PUBLIC_Y then Octets(r.publicY)
    else if key == KEY_PRIVATE_WRAPPED then Octets(r.privateWrapped)
    else if key == KEY_PRIVATE_IV then Octets(r.privateIv)
    else if key == KEY_SIGN_COUNT then Number(r.signCount)
    else if key == KEY_CREATED_AT then Number(r.createdAt)
    else if key == KEY_RESIDENT_KEY then Flag(r.residentKey)
    else if key == KEY_CRED_PROTECT then Number(EffectiveProtection(r.credProtect))
    else if key == KEY_HMAC_SECRET_WRAPPED then Octets(seals.hmacWrapped)
    else if key == KEY_HMAC_SECRET_IV then Octets(seals.hmacIv)
    else Octets(seals.floor)
  }

  /** The encoder call that writes a value under a key. */
  function ItemFor(kind: Kind, v: FieldValue): seq<byte> {
    match v
    case Number(n) => if n <= UINT64_MAX then EncodeUint(n) else []
    case Octets(b) => if |b| > UINT64_MAX then [] else if kind.TextBelow? then EncodeText(b) else EncodeBytes(b)
    case Flag(b) => EncodeBool(b)
    case Ignored => []
  }

  function RecordPair(r: CredentialRecord, seals: Seals, key: uint64): Pair {
    Pair(key, ItemFor(KindOf(key), RecordValue(r, seals, key)))
  }

  function RecordPairs(r: CredentialRecord, seals: Seals): (pairs: seq<Pair>)
    ensures |pairs| == |RecordKeys(r)|
  {
    var keys := RecordKeys(r);
    seq(|keys|, i requires 0 <= i < |keys| => RecordPair(r, seals, keys[i]))
  }

  function RecordFields(r: CredentialRecord, seals: Seals): Fields {
    map key: nat | key in RecordKeys(r) :: RecordValue(r, seals, key)
  }

  /** Every value is one its reader takes back. */
  ghost predicate Readable(r: CredentialRecord) {
    && Utf8.IsUtf8(r.rpId) && Utf8.IsUtf8(r.userName) && Utf8.IsUtf8(r.displayName)
    && EffectiveProtection(r.credProtect) <= 3
  }

  /** What the decoder insists on beyond the sizes. */
  ghost predicate Decodable(r: CredentialRecord) {
    Readable(r) && r.rpId != []
  }

  lemma KeyDenotes(r: CredentialRecord, seals: Seals, key: uint64)
    requires InBounds(r) && SealsInBounds(seals) && Readable(r) && key in RecordKeys(r)
    ensures KindOf(key) != Unknown && Denotes(RecordPair(r, seals, key), RecordValue(r, seals, key))
  {
    var v := RecordValue(r, seals, key);
    hide Denotes, EncodeUint, EncodeBytes, EncodeText, EncodeBool;
    match v
    case Number(n) => NumberDenotes(key, n);
    case Octets(b) =>
      if KindOf(key).TextBelow? {
        TextDenotes(key, b);
      } else {
        OctetsDenote(key, b);
      }
    case Flag(b) => FlagDenotes(key, b);
  }

  lemma RecordIsListed(r: CredentialRecord, seals: Seals)
    requires InBounds(r) && SealsInBounds(seals) && Readable(r)
    ensures Lists(RecordPairs(r, seals), RecordFields(r, seals))
  {
    hide KindOf, RecordKeys, RecordValue, ItemFor, Denotes;
    var keys, pairs, fields := RecordKeys(r), RecordPairs(r, seals), RecordFields(r, seals);
    KeysAreDistinct(r);
    forall i | 0 <= i < |pairs|
      ensures pairs[i] == RecordPair(r, seals, keys[i]) && pairs[i].key == keys[i]
      ensures Denotes(pairs[i], ValueFor(fields, pairs[i].key))
      ensures KindOf(pairs[i].key) != Unknown && pairs[i].key in fields
    {
      KeyDenotes(r, seals, keys[i]);
    }
    forall k | k in fields
      ensures exists i :: 0 <= i < |pairs| && pairs[i].key == k
    {
      var i :| 0 <= i < |keys| && keys[i] == k;
      assert pairs[i].key == k;
    }
  }

  lemma KeysAreDistinct(r: CredentialRecord)
    ensures var keys := RecordKeys(r); forall i, j :: 0 <= i < j < |keys| ==> keys[i] != keys[j]
  {
  }

  /** `zf_record_wrap_hmac_secret` and the counter floor: the seals of one write. */
  function SealRecord(enclave: Enclave, r: CredentialRecord, floorIv: seq<byte>, hmacIv: seq<byte>): Option<Seals>
  {
    match EncodeFloor(enclave, floorIv, r.credentialId, r.createdAt, r.signCount)
    case None => None
    case Some(floor) =>
      if r.hmacSecret.Some? then
        Some(Seals(floor, hmacIv, enclave.encrypt(hmacIv, r.hmacSecret.value.withoutUv + r.hmacSecret.value.withUv)))
      else Some(Seals(floor, hmacIv, Fill(0, 64)))
  }

  lemma SealsFit(enclave: Enclave, r: CredentialRecord, floorIv: seq<byte>, hmacIv: seq<byte>)
    requires InBounds(r) && enclave.ready && enclave.Ideal() && |floorIv| == |hmacIv| == 16
    ensures SealRecord(enclave, r, floorIv, hmacIv).Some? &&
      SealsInBounds(SealRecord(enclave, r, floorIv, hmacIv).value)
    ensures r.hmacSecret.Some? ==>
      enclave.decrypt(hmacIv, SealRecord(enclave, r, floorIv, hmacIv).value.hmacWrapped) ==
      r.hmacSecret.value.withoutUv + r.hmacSecret.value.withUv
  {
    hide Binding, FloorPlain;
    FloorRoundTrip(enclave, floorIv, r.credentialId, r.createdAt, r.signCount, r.credentialId, r.createdAt);
  }

  lemma RecordFieldKeys(r: CredentialRecord, seals: Seals)
    ensures forall key :: key in RecordFields(r, seals) <==> key in RecordKeys(r)
    ensures forall key :: key in RecordKeys(r) <==>
              1 <= key <= 14 || key == 17 || (r.hmacSecret.Some? && 15 <= key <= 16)
  {
  }

  /** What `Finish` sees under each key. */
  lemma RecordFieldValues(r: CredentialRecord, seals: Seals, fields: Fields)
    requires fields == RecordFields(r, seals) && EffectiveProtection(r.credProtect) <= 3
    ensures NumberAt(fields, KEY_VERSION) == STORE_FORMAT_VERSION
    ensures BytesAt(fields, KEY_CREDENTIAL_ID) == r.credentialId && BytesAt(fields, KEY_RP_ID) == r.rpId
    ensures BytesAt(fields, KEY_USER_ID) == r.userId
    ensures BytesAt(fields, KEY_USER_NAME) == r.userName && BytesAt(fields, KEY_DISPLAY_NAME) == r.displayName
    ensures BytesAt(fields, KEY_PUBLIC_X) == r.publicX && BytesAt(fields, KEY_PUBLIC_Y) == r.publicY
    ensures BytesAt(fields, KEY_PRIVATE_WRAPPED) == r.privateWrapped && BytesAt(fields, KEY_PRIVATE_IV) == r.privateIv
    ensures NumberAt(fields, KEY_SIGN_COUNT) == r.signCount && NumberAt(fields, KEY_CREATED_AT) == r.createdAt
    ensures FlagAt(fields, KEY_RESIDENT_KEY) == r.residentKey
    ensures NumberAt(fields, KEY_CRED_PROTECT) == EffectiveProtection(r.credProtect)
    ensures r.hmacSecret.Some? ==>
      BytesAt(fields, KEY_HMAC_SECRET_WRAPPED) == seals.hmacWrapped &&
        BytesAt(fields, KEY_HMAC_SECRET_IV) == seals.hmacIv
    ensures BytesAt(fields, KEY_COUNTER_FLOOR) == seals.floor
  {
    RecordFieldKeys(r, seals);
    hide RecordKeys;
  }

  /** Opening what was sealed gives the record back. */
  lemma FinishesRecord(enclave: Enclave, r: CredentialRecord, seals: Seals)
    requires InBounds(r) && Decodable(r) && enclave.ready
    requires r.hmacSecret.Some? ==>
      enclave.decrypt(seals.hmacIv, seals.hmacWrapped) == r.hmacSecret.value.withoutUv + r.hmacSecret.value.withUv
    ensures Finish(enclave, RecordFields(r, seals), HexEncode(r.credentialId)) ==
            Some(Decoded(r.(credProtect := EffectiveProtection(r.credProtect)), Some(seals.floor)))
  {
    RecordFieldKeys(r, seals);
    var fields := RecordFields(r, seals);
    RecordFieldValues(r, seals, fields);
    hide HexEncode, RecordFields, RecordKeys, RecordValue, BytesAt, NumberAt, FlagAt;
    if r.hmacSecret.Some? {
      var plain := r.hmacSecret.value.withoutUv + r.hmacSecret.value.withUv;
      assert plain[..32] == r.hmacSecret.value.withoutUv && plain[32..] == r.hmacSecret.value.withUv;
    }
  }

  /** `zf_store_record_format_encode`, given the two random initialisation vectors. */
  function EncodeRecord(enclave: Enclave, r: CredentialRecord, floorIv: seq<byte>,
                        hmacIv: seq<byte>): Option<seq<byte>> {
    match SealRecord(enclave, r, floorIv, hmacIv)
    case None => None
    case Some(seals) =>
      var bytes := MapBytes(RecordPairs(r, seals));
      if |bytes| <= RECORD_MAX_SIZE then Some(bytes) else None
  }
}
