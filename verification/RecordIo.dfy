/** The record encoder and decoder as they run: over a bounded buffer and a moving cursor. */
module RecordIo {
  import opened Bytes
  import opened CborHead
  import opened Cbor
  import opened CborCursor
  import opened Record
  import opened RecordFormat
  import opened RecordCodec
  import opened RecordRoundTrip
  import CborSkip

  /** The encoder has written the map head and the first `k` pairs. */
  ghost predicate WrittenUpTo(enc: Encoder, pairs: seq<Pair>, k: nat)
    reads enc, enc.buf
  {
    && enc.Valid() && k <= |pairs| <= SIZE_MAX
    && enc.Written() == EncodeHead(MAJOR_MAP, |pairs|) + Join(pairs[..k])
  }

  lemma PairFollows(pairs: seq<Pair>, k: nat)
    requires k < |pairs| <= SIZE_MAX
    ensures EncodeHead(MAJOR_MAP, |pairs|) + Join(pairs[..k + 1]) ==
            EncodeHead(MAJOR_MAP, |pairs|) + Join(pairs[..k]) + EncodeUint(pairs[k].key) + pairs[k].item
    ensures |EncodeHead(MAJOR_MAP, |pairs|) + Join(pairs[..k + 1])| <= |MapBytes(pairs)|
  {
    JoinStep(pairs, k);
    JoinSplit(pairs, k + 1);
    hide Join, EncodeHead, EncodeUint;
  }

  lemma {:induction false} JoinSplit(pairs: seq<Pair>, k: nat)
    requires k <= |pairs|
    ensures Join(pairs) == Join(pairs[..k]) + Join(pairs[k..])
  {
    hide PairBytes;
    if k == 0 {
      assert pairs[..0] == [] && pairs[0..] == pairs;
    } else {
      JoinSplit(pairs[1..], k - 1);
      assert pairs[..k][1..] == pairs[1..][..k - 1] && pairs[1..][k - 1..] == pairs[k..];
    }
  }

  method PutNumber(enc: Encoder, key: uint64, n: uint64, ghost pairs: seq<Pair>, ghost k: nat) returns (ok: bool)
    requires k < |pairs| && WrittenUpTo(enc, pairs, k) && pairs[k] == Pair(key, EncodeUint(n))
    modifies enc, enc.buf
    ensures enc.Valid()
    ensures if ok then WrittenUpTo(enc, pairs, k + 1) else |MapBytes(pairs)| > enc.capacity
  {
    hide Join, EncodeHead, EncodeUint, MapBytes;
    PairFollows(pairs, k);
    ok := enc.Uint(key);
    if ok {
      ok := enc.Uint(n);
    }
  }

  method PutOctets(enc: Encoder, key: uint64, b: seq<byte>, ghost pairs: seq<Pair>, ghost k: nat) returns (ok: bool)
    requires k < |pairs| && WrittenUpTo(enc, pairs, k) && |b| <= UINT64_MAX && pairs[k] == Pair(key, EncodeBytes(b))
    modifies enc, enc.buf
    ensures enc.Valid()
    ensures if ok then WrittenUpTo(enc, pairs, k + 1) else |MapBytes(pairs)| > enc.capacity
  {
    hide Join, EncodeHead, EncodeUint, EncodeBytes, MapBytes;
    PairFollows(pairs, k);
    ok := enc.Uint(key);
    if ok {
      ok := enc.ByteString(b);
    }
  }

  method PutText(enc: Encoder, key: uint64, t: seq<byte>, ghost pairs: seq<Pair>, ghost k: nat) returns (ok: bool)
    requires k < |pairs| && WrittenUpTo(enc, pairs, k) && |t| <= UINT64_MAX && pairs[k] == Pair(key, EncodeText(t))
    modifies enc, enc.buf
    ensures enc.Valid()
    ensures if ok then WrittenUpTo(enc, pairs, k + 1) else |MapBytes(pairs)| > enc.capacity
  {
    hide Join, EncodeHead, EncodeUint, EncodeText, MapBytes;
    PairFollows(pairs, k);
    ok := enc.Uint(key);
    if ok {
      ok := enc.Text(t);
    }
  }

  method PutFlag(enc: Encoder, key: uint64, b: bool, ghost pairs: seq<Pair>, ghost k: nat) returns (ok: bool)
    requires k < |pairs| && WrittenUpTo(enc, pairs, k) && pairs[k] == Pair(key, EncodeBool(b))
    modifies enc, enc.buf
    ensures enc.Valid()
    ensures if ok then WrittenUpTo(enc, pairs, k + 1) else |MapBytes(pairs)| > enc.capacity
  {
    hide Join, EncodeHead, EncodeUint, MapBytes;
    PairFollows(pairs, k);
    ok := enc.Uint(key);
    if ok {
      ok := enc.Boolean(b);
    }
  }

  /** The pairs, one by one. */
  lemma IdentityPairs(r: CredentialRecord, seals: Seals, pairs: seq<Pair>)
    requires InBounds(r) && SealsInBounds(seals) && pairs == RecordPairs(r, seals)
    ensures |pairs| >= 15
    ensures pairs[0] == Pair(KEY_VERSION, EncodeUint(STORE_FORMAT_VERSION))
    ensures pairs[1] == Pair(KEY_CREDENTIAL_ID, EncodeBytes(r.credentialId))
    ensures pairs[2] == Pair(KEY_RP_ID, EncodeText(r.rpId))
    ensures pairs[3] == Pair(KEY_USER_ID, EncodeBytes(r.userId))
    ensures pairs[4] == Pair(KEY_USER_NAME, EncodeText(r.userName))
    ensures pairs[5] == Pair(KEY_DISPLAY_NAME, EncodeText(r.displayName))
  {
    hide EncodeUint, EncodeBytes, EncodeText, EncodeBool;
  }

  lemma KeyPairs(r: CredentialRecord, seals: Seals, pairs: seq<Pair>)
    requires InBounds(r) && SealsInBounds(seals) && pairs == RecordPairs(r, seals)
    ensures |pairs| >= 15
    ensures pairs[6] == Pair(KEY_PUBLIC_X, EncodeBytes(r.publicX))
    ensures pairs[7] == Pair(KEY_PUBLIC_Y, EncodeBytes(r.publicY))
    ensures pairs[8] == Pair(KEY_PRIVATE_WRAPPED, EncodeBytes(r.privateWrapped))
    ensures pairs[9] == Pair(KEY_PRIVATE_IV, EncodeBytes(r.privateIv))
  {
    hide EncodeUint, EncodeBytes, EncodeText, EncodeBool;
  }

  lemma StatePairs(r: CredentialRecord, seals: Seals, pairs: seq<Pair>)
    requires InBounds(r) && SealsInBounds(seals) && pairs == RecordPairs(r, seals)
    ensures |pairs| == if r.hmacSecret.Some? then 17 else 15
    ensures pairs[10] == Pair(KEY_SIGN_COUNT, EncodeUint(r.signCount))
    ensures pairs[11] == Pair(KEY_CREATED_AT, EncodeUint(r.createdAt))
    ensures pairs[12] == Pair(KEY_RESIDENT_KEY, EncodeBool(r.residentKey))
    ensures pairs[13] == Pair(KEY_CRED_PROTECT, EncodeUint(EffectiveProtection(r.credProtect)))
    ensures pairs[14] == Pair(KEY_COUNTER_FLOOR, EncodeBytes(seals.floor))
    ensures r.hmacSecret.Some? ==>
      && pairs[15] == Pair(KEY_HMAC_SECRET_WRAPPED, EncodeBytes(seals.hmacWrapped))
      && pairs[16] == Pair(KEY_HMAC_SECRET_IV, EncodeBytes(seals.hmacIv))
  {
    hide EncodeUint, EncodeBytes, EncodeText, EncodeBool;
  }

  /** The first six pairs: version, identity and texts. */
  method PutIdentity(enc: Encoder, r: CredentialRecord, ghost seals: Seals, ghost pairs: seq<Pair>) returns (ok: bool)
    requires InBounds(r) && SealsInBounds(seals) && pairs == RecordPairs(r, seals) && WrittenUpTo(enc, pairs, 0)
    modifies enc, enc.buf
    ensures enc.Valid()
    ensures if ok then WrittenUpTo(enc, pairs, 6) else |MapBytes(pairs)| > enc.capacity
  {
    IdentityPairs(r, seals, pairs);
    hide MapBytes, RecordPairs, EncodeUint, EncodeBytes, EncodeText, WrittenUpTo;
    ok := PutNumber(enc, KEY_VERSION, STORE_FORMAT_VERSION, pairs, 0);
    if !ok { return; }
    ok := PutOctets(enc, KEY_CREDENTIAL_ID, r.credentialId, pairs, 1);
    if !ok { return; }
    ok := PutText(enc, KEY_RP_ID, r.rpId, pairs, 2);
    if !ok { return; }
    ok := PutOctets(enc, KEY_USER_ID, r.userId, pairs, 3);
    if !ok { return; }
    ok := PutText(enc, KEY_USER_NAME, r.userName, pairs, 4);
    if !ok { return; }
    ok := PutText(enc, KEY_DISPLAY_NAME, r.displayName, pairs, 5);
  }

  /** The key pair, its private half sealed. */
  method PutKeys(enc: Encoder, r: CredentialRecord, ghost seals: Seals, ghost pairs: seq<Pair>) returns (ok: bool)
    requires InBounds(r) && SealsInBounds(seals) && pairs == RecordPairs(r, seals) && WrittenUpTo(enc, pairs, 6)
    modifies enc, enc.buf
    ensures enc.Valid()
    ensures if ok then WrittenUpTo(enc, pairs, 10) else |MapBytes(pairs)| > enc.capacity
  {
    KeyPairs(r, seals, pairs);
    hide MapBytes, RecordPairs, EncodeBytes, WrittenUpTo;
    ok := PutOctets(enc, KEY_PUBLIC_X, r.publicX, pairs, 6);
    if !ok { return; }
    ok := PutOctets(enc, KEY_PUBLIC_Y, r.publicY, pairs, 7);
    if !ok { return; }
    ok := PutOctets(enc, KEY_PRIVATE_WRAPPED, r.privateWrapped, pairs, 8);
    if !ok { return; }
    ok := PutOctets(enc, KEY_PRIVATE_IV, r.privateIv, pairs, 9);
  }

  /** The remaining pairs: counter, policy, floor, and the hmac-secret seal when there is one. */
  method PutState(enc: Encoder, r: CredentialRecord, seals: Seals, ghost pairs: seq<Pair>) returns (ok: bool)
    requires InBounds(r) && SealsInBounds(seals) && pairs == RecordPairs(r, seals) && WrittenUpTo(enc, pairs, 10)
    modifies enc, enc.buf
    ensures enc.Valid()
    ensures if ok then WrittenUpTo(enc, pairs, |pairs|) else |MapBytes(pairs)| > enc.capacity
  {
    StatePairs(r, seals, pairs);
    hide MapBytes, RecordPairs, EncodeUint, EncodeBytes, EncodeBool, WrittenUpTo;
    ok := PutNumber(enc, KEY_SIGN_COUNT, r.signCount, pairs, 10);
    if !ok { return; }
    ok := PutNumber(enc, KEY_CREATED_AT, r.createdAt, pairs, 11);
    if !ok { return; }
    ok := PutFlag(enc, KEY_RESIDENT_KEY, r.residentKey, pairs, 12);
    if !ok { return; }
    ok := PutNumber(enc, KEY_CRED_PROTECT, EffectiveProtection(r.credProtect), pairs, 13);
    if !ok { return; }
    ok := PutOctets(enc, KEY_COUNTER_FLOOR, seals.floor, pairs, 14);
    if ok && r.hmacSecret.Some? {
      ok := PutOctets(enc, KEY_HMAC_SECRET_WRAPPED, seals.hmacWrapped, pairs, 15);
      if !ok { return; }
      ok := PutOctets(enc, KEY_HMAC_SECRET_IV, seals.hmacIv, pairs, 16);
    }
  }

  /** The map head, and every pair after it. */
  method PutMap(enc: Encoder, r: CredentialRecord, seals: Seals) returns (ok: bool)
    requires InBounds(r) && SealsInBounds(seals) && enc.Valid() && enc.offset == 0
    modifies enc, enc.buf
    ensures enc.Valid()
    ensures ok <==> |MapBytes(RecordPairs(r, seals))| <= enc.capacity
    ensures ok ==> enc.Written() == MapBytes(RecordPairs(r, seals))
  {
    ghost var pairs := RecordPairs(r, seals);
    NothingJoined();
    assert pairs[..0] == [] && pairs[..|pairs|] == pairs;
    HeadIsPart(pairs);
    hide Join, EncodeHead, RecordPairs, RecordKeys;
    var count := if r.hmacSecret.Some? then 17 else 15;
    ok := enc.Map(count);
    if !ok {
      return;
    }
    assert enc.Written() == EncodeHead(MAJOR_MAP, |pairs|) + [];
    ok := PutIdentity(enc, r, seals, pairs);
    if !ok {
      return;
    }
    ok := PutKeys(enc, r, seals, pairs);
    if ok {
      ok := PutState(enc, r, seals, pairs);
    }
  }

  lemma HeadIsPart(pairs: seq<Pair>)
    requires |pairs| <= SIZE_MAX
    ensures HeadSize(|pairs|) <= |MapBytes(pairs)|
  {
  }

  /** `zf_store_record_format_encode`: all or nothing into the record buffer. */
  method Encode(enclave: Enclave, r: CredentialRecord, floorIv: seq<byte>, hmacIv: seq<byte>, out: array<byte>)
      returns (ok: bool, size: nat)
    requires InBounds(r) && enclave.Ideal() && |floorIv| == |hmacIv| == 16 && out.Length >= RECORD_MAX_SIZE
    modifies out
    ensures ok <==> EncodeRecord(enclave, r, floorIv, hmacIv).Some?
    ensures ok ==> size <= RECORD_MAX_SIZE && EncodeRecord(enclave, r, floorIv, hmacIv) == Some(out[..size])
  {
    ok, size := false, 0;
    var enc := new Encoder(out, RECORD_MAX_SIZE);
    if enclave.ready {
      SealsFit(enclave, r, floorIv, hmacIv);
    }
    hide RecordPairs, MapBytes, EncodeFloor, RecordKeys;
    var floor := EncodeFloor(enclave, floorIv, r.credentialId, r.createdAt, r.signCount);
    if floor.None? {
      return;
    }
    assert enclave.ready by { FloorNeedsKey(enclave, floorIv, r); }
    var wrapped := Fill(0, 64);
    if r.hmacSecret.Some? {
      wrapped := enclave.encrypt(hmacIv, r.hmacSecret.value.withoutUv + r.hmacSecret.value.withUv);
    }
    var seals := Seals(floor.value, hmacIv, wrapped);
    assert SealRecord(enclave, r, floorIv, hmacIv) == Some(seals);
    EncodedBytes(enclave, r, floorIv, hmacIv, seals);
    hide EncodeRecord, SealRecord;
    ok := PutMap(enc, r, seals);
    size := enc.offset;
  }

  lemma FloorNeedsKey(enclave: Enclave, iv: seq<byte>, r: CredentialRecord)
    ensures EncodeFloor(enclave, iv, r.credentialId, r.createdAt, r.signCount).Some? ==> enclave.ready
  {
  }

  /** The value of one pair, by the kind of its key. */
  method ReadValue(cursor: Cursor, kind: Kind) returns (ok: bool, value: FieldValue)
    requires cursor.Valid()
    modifies cursor
    ensures cursor.Valid() && old(cursor.pos) <= cursor.pos
    ensures ReadKind(cursor.data[old(cursor.pos)..], kind) ==
            if ok then Some(Read(value, cursor.pos - old(cursor.pos))) else None
  {
    hide ReadHead, CborSkip.Skip, ReadString, ReadText;
    ok, value := false, Ignored;
    match kind {
      case Word =>
        var n;
        ok, n := cursor.Uint();
        ok, value := ok && n <= UINT32_MAX, Number(n);
      case Blob(size) =>
        var b;
        ok, b := cursor.ByteString();
        ok, value := ok && |b| == size, Octets(b);
      case BlobUpTo(max) =>
        var b;
        ok, b := cursor.ByteString();
        ok, value := ok && |b| <= max, Octets(b);
      case TextBelow(limit) =>
        var t;
        ok, t := cursor.Text();
        ok, value := ok && |t| < limit && 0 !in t, Octets(t);
      case Switch =>
        var b;
        ok, b := cursor.Boolean();
        value := Flag(b);
      case Protection =>
        var n;
        ok, n := cursor.Uint();
        ok, value := ok && 1 <= n <= 3, Number(n);
      case Unknown =>
        ok := cursor.SkipItem();
    }
  }

  /** `zf_record_decode`: the loop over the pairs, then the checks after it. */
  method Decode(enclave: Enclave, data: seq<byte>, fileName: string) returns (result: Option<Decoded>)
    ensures result == DecodeRecord(enclave, data, fileName)
  {
    hide DecodePairs, ReadKind, KindOf, Finish;
    var cursor := new Cursor(data);
    var ok, pairs := cursor.MapStart();
    assert data[0..] == data;
    if !ok {
      return None;
    }
    var fields: Fields := map[];
    var i := 0;
    ghost var start := cursor.pos;
    ghost var total := DecodePairs(data[start..], pairs, map[]);
    assert total == After(0, total);
    while i < pairs
      invariant cursor.Valid() && cursor.data == data && start <= cursor.pos && i <= pairs
      invariant total == After(cursor.pos - start, DecodePairs(data[cursor.pos..], pairs - i, fields))
    {
      ghost var before := cursor.pos;
      DecodePairsStep(data[before..], pairs - i, fields);
      var key;
      ok, key := cursor.Uint();
      if !ok {
        return None;
      }
      assert data[before..][cursor.pos - before..] == data[cursor.pos..];
      var value;
      if RefusesRepetition(key) && key in fields {
        return None;
      }
      ok, value := ReadValue(cursor, KindOf(key));
      if !ok {
        return None;
      }
      assert data[before..][cursor.pos - before..] == data[cursor.pos..];
      fields := Store(fields, key, value);
      i := i + 1;
    }
    NoPairs(data[cursor.pos..], fields);
    if cursor.pos != |data| {
      return None;
    }
    result := Finish(enclave, fields, fileName);
  }
}
