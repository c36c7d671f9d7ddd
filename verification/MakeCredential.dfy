/** The makeCredential response with attestation "none", its COSE key and its extension map (src/ctap/response.c). */
module MakeCredential {
  import opened Bytes
  import opened CborHead
  import opened Cbor
  import opened CborSkip
  import opened CanonicalCbor
  import opened Record
  import opened RecordCodec
  import opened AuthData
  import opened Response

  // The COSE key (section 7 of RFC 9053): EC2, ES256, P-256.

  function CoseEntries(x: seq<byte>, y: seq<byte>): seq<Value> {
    [UInt(1), UInt(2)] + [UInt(3), NInt(6)] + [NInt(0), UInt(1)] + [NInt(1), Bytes(x)] + [NInt(2), Bytes(y)]
  }

  function CoseBytes(x: seq<byte>, y: seq<byte>): seq<byte>
    requires |x| == |y| == 32
  {
    EncodeHead(MAJOR_MAP, 5) + (EncodeInt(1) + EncodeInt(2)) + (EncodeInt(3) + EncodeInt(-7)) +
      (EncodeInt(-1) + EncodeInt(1)) +
    (EncodeInt(-2) + EncodeBytes(x)) + (EncodeInt(-3) + EncodeBytes(y))
  }

  lemma NegativeFacts(n: nat)
    requires n < 24
    ensures WellFormed(NInt(n)) && Canonical(NInt(n)) && Encode(NInt(n)) == EncodeInt(-1 - n) == [0x20 + n]
    ensures WellFormed(UInt(n)) && Canonical(UInt(n)) && Encode(UInt(n)) == EncodeInt(n)
  {
  }

  /** Negative keys follow positive ones, and each other in order of absolute value. */
  lemma NegativeKeys(m: nat, n: nat)
    requires m < 24 && n < 24
    ensures KeyBefore(UInt(m), NInt(n))
    ensures m < n ==> KeyBefore(NInt(m), NInt(n))
  {
  }

  lemma AddEntry(entries: seq<Value>, key: Value, value: Value)
    requires Ordered(entries) && |entries| >= 2
    requires WellFormed(key) && WellFormed(value) && Canonical(key) && Canonical(value)
    requires WellFormed(entries[|entries| - 2]) && KeyBefore(entries[|entries| - 2], key)
    ensures Ordered(entries + [key, value]) && WellFormedAll(entries) && WellFormedAll(entries + [key, value])
    ensures EncodeAll(entries + [key, value]) == EncodeAll(entries) + (Encode(key) + Encode(value))
  {
    hide Encode, EncodeAll, Ordered, KeyBefore, WellFormed, WellFormedAll, Canonical;
    AddOrdered(entries, key, value);
    OrderedFacts(entries);
    OrderedFacts(entries + [key, value]);
    AddEncodes(entries, key, value);
  }

  lemma CoseIsCanonical(x: seq<byte>, y: seq<byte>)
    requires |x| == |y| == 32
    ensures var v := Map(CoseEntries(x, y));
      WellFormed(v) && Canonical(v) && Encode(v) == CoseBytes(x, y) && |CoseBytes(x, y)| == 77
  {
    hide Encode, EncodeAll, Ordered, KeyBefore, WellFormed, WellFormedAll, Canonical, EncodeHead, EncodeInt,
         EncodeBytes;
    NegativeFacts(0);
    NegativeFacts(1);
    NegativeFacts(2);
    NegativeFacts(3);
    NegativeFacts(6);
    LeafFacts(x);
    LeafFacts(y);
    KeySizes(x);
    KeySizes(y);
    StartOrdered(UInt(1), UInt(2));
    var e1 := [UInt(1), UInt(2)];
    SmallKeys(1, 3);
    AddEntry(e1, UInt(3), NInt(6));
    var e2 := e1 + [UInt(3), NInt(6)];
    NegativeKeys(3, 0);
    AddEntry(e2, NInt(0), UInt(1));
    var e3 := e2 + [NInt(0), UInt(1)];
    NegativeKeys(0, 1);
    AddEntry(e3, NInt(1), Bytes(x));
    var e4 := e3 + [NInt(1), Bytes(x)];
    NegativeKeys(1, 2);
    AddEntry(e4, NInt(2), Bytes(y));
    MapFacts(CoseEntries(x, y));
  }

  lemma KeySizes(x: seq<byte>)
    requires |x| == 32
    ensures |EncodeBytes(x)| == 34 && |EncodeHead(MAJOR_MAP, 5)| == 1
    ensures |EncodeInt(1)| == |EncodeInt(2)| == |EncodeInt(3)| == 1
    ensures |EncodeInt(-7)| == |EncodeInt(-1)| == |EncodeInt(-2)| == |EncodeInt(-3)| == 1
  {
  }

  // The extension outputs.

  /** Which outputs were asked for; `created` is whether the credential holds an hmac-secret. */
  datatype Outputs = Outputs(credProtect: Option<nat>, hmacSecret: Option<bool>)

  function ExtensionEntries(e: Outputs): seq<Value> {
    (if e.credProtect.Some? then [Text(CRED_PROTECT), UInt(EffectiveProtection(e.credProtect.value))] else []) +
    (if e.hmacSecret.Some? then [Text(HMAC_SECRET), Bool(e.hmacSecret.value)] else [])
  }

  function ProtectBytes(e: Outputs): seq<byte>
    requires e.credProtect.Some? ==> e.credProtect.value < 256
  {
    if e.credProtect.Some? then EncodeText(CRED_PROTECT) + EncodeUint(EffectiveProtection(e.credProtect.value)) else []
  }

  function SecretBytes(e: Outputs): seq<byte> {
    if e.hmacSecret.Some? then EncodeText(HMAC_SECRET) + EncodeBool(e.hmacSecret.value) else []
  }

  function ExtensionCount(e: Outputs): nat {
    (if e.credProtect.Some? then 1 else 0) + (if e.hmacSecret.Some? then 1 else 0)
  }

  function ExtensionBytes(e: Outputs): seq<byte>
    requires e.credProtect.Some? ==> e.credProtect.value < 256
  {
    EncodeHead(MAJOR_MAP, ExtensionCount(e)) + ProtectBytes(e) + SecretBytes(e)
  }

  lemma ValueFacts(n: uint64, b: bool)
    ensures WellFormed(UInt(n)) && Canonical(UInt(n)) && Encode(UInt(n)) == EncodeUint(n)
    ensures WellFormed(Bool(b)) && Canonical(Bool(b)) && Encode(Bool(b)) == EncodeBool(b)
  {
  }

  lemma ConstantFacts(t: seq<byte>)
    requires t in {ID, TYPE, NAME, NONE, PUBLIC_KEY, DISPLAY_NAME, CRED_PROTECT, HMAC_SECRET}
    ensures WellFormed(Text(t)) && Canonical(Text(t)) && Encode(Text(t)) == EncodeText(t)
  {
    ConstantsAreText(t);
    LeafBytes(0, t, true);
  }

  /** Keys of one length are ordered by their bytes: "credProtect" comes first. */
  lemma ProtectBeforeSecret()
    ensures KeyBefore(Text(CRED_PROTECT), Text(HMAC_SECRET))
  {
  }

  lemma ExtensionsAreCanonical(e: Outputs)
    requires e.credProtect.Some? ==> e.credProtect.value < 256
    ensures var v := Map(ExtensionEntries(e)); WellFormed(v) && Canonical(v) && Encode(v) == ExtensionBytes(e)
  {
    hide Encode, EncodeAll, Ordered, KeyBefore, WellFormed, WellFormedAll, Canonical, EncodeHead, EncodeText,
         EncodeUint, EncodeBool;
    ConstantFacts(CRED_PROTECT);
    ConstantFacts(HMAC_SECRET);
    ProtectBeforeSecret();
    NothingOrdered();
    var first: seq<Value> := [];
    if e.credProtect.Some? {
      ValueFacts(EffectiveProtection(e.credProtect.value), true);
      StartOrdered(Text(CRED_PROTECT), UInt(EffectiveProtection(e.credProtect.value)));
      first := [Text(CRED_PROTECT), UInt(EffectiveProtection(e.credProtect.value))];
    }
    var second := first;
    if e.hmacSecret.Some? {
      ValueFacts(0, e.hmacSecret.value);
      if e.credProtect.Some? {
        AddEntry(first, Text(HMAC_SECRET), Bool(e.hmacSecret.value));
      } else {
        StartOrdered(Text(HMAC_SECRET), Bool(e.hmacSecret.value));
        assert first + [Text(HMAC_SECRET), Bool(e.hmacSecret.value)] == [Text(HMAC_SECRET), Bool(e.hmacSecret.value)];
      }
      second := first + [Text(HMAC_SECRET), Bool(e.hmacSecret.value)];
    }
    OrderedFacts(first);
    OrderedFacts(second);
    assert ExtensionEntries(e) == second;
    MapFacts(second);
    assert |second| / 2 == ExtensionCount(e);
    ExtensionSplit(e);
  }

  lemma NothingOrdered()
    ensures Ordered([]) && EncodeAll([]) == []
  {
  }

  lemma ExtensionSplit(e: Outputs)
    requires e.credProtect.Some? ==> e.credProtect.value < 256
    ensures ExtensionBytes(e) == EncodeHead(MAJOR_MAP, ExtensionCount(e)) + (ProtectBytes(e) + SecretBytes(e))
    ensures |ExtensionBytes(e)| <= 28
  {
  }

  // The response.

  function ResponseEntries(authData: seq<byte>): seq<Value> {
    [UInt(1), Text(NONE)] + [UInt(2), Bytes(authData)] + [UInt(3), Map([])]
  }

  function ResponseBytes(authData: seq<byte>): seq<byte>
    requires |authData| < 0x1_0000
  {
    EncodeHead(MAJOR_MAP, 3) + (EncodeUint(1) + EncodeText(NONE)) + (EncodeUint(2) + EncodeBytes(authData)) +
    (EncodeUint(3) + EncodeHead(MAJOR_MAP, 0))
  }

  /** One canonical item whatever the authenticator data. */
  lemma ResponseIsCanonical(authData: seq<byte>)
    requires |authData| < 0x1_0000
    ensures var v := Map(ResponseEntries(authData));
      WellFormed(v) && Canonical(v) && Encode(v) == ResponseBytes(authData)
  {
    hide Encode, EncodeAll, Ordered, KeyBefore, WellFormed, WellFormedAll, Canonical, EncodeHead, EncodeText,
         EncodeUint, EncodeBytes;
    ConstantFacts(NONE);
    ValueFacts(1, true);
    LeafFacts(authData);
    NothingOrdered();
    MapFacts([]);
    assert EncodeHead(MAJOR_MAP, 0) + [] == EncodeHead(MAJOR_MAP, 0);
    StartOrdered(UInt(1), Text(NONE));
    var first := [UInt(1), Text(NONE)];
    AddMember(first, 2, Bytes(authData));
    AddMember(first + [UInt(2), Bytes(authData)], 3, Map([]));
    MapFacts(ResponseEntries(authData));
  }

  lemma ResponseIsOneItem(authData: seq<byte>, rest: seq<byte>)
    requires |authData| < 0x1_0000
    ensures Skip(ResponseBytes(authData) + rest, 0) == Some(|ResponseBytes(authData)|)
  {
    hide Encode, WellFormed, Canonical, ResponseBytes, Skip, Nesting, NestingAll;
    ResponseIsCanonical(authData);
    ResponseNesting(authData);
    SkipIsExact(Map(ResponseEntries(authData)), rest, 0);
  }

  lemma ResponseNesting(authData: seq<byte>)
    ensures Nesting(Map(ResponseEntries(authData))) <= 2
  {
    NestingOfFlat(ResponseEntries(authData));
    hide NestingAll;
  }

  // The encoder calls.

  method EmitInts(enc: Encoder, key: int64, value: int64) returns (ok: bool)
    requires enc.Valid()
    modifies enc, enc.buf
    ensures enc.Valid() && old(enc.Written()) <= enc.Written()
    ensures ok <==> |EncodeInt(key) + EncodeInt(value)| <= enc.capacity - old(enc.offset)
    ensures ok ==> enc.Written() == old(enc.Written()) + (EncodeInt(key) + EncodeInt(value))
  {
    hide EncodeInt;
    ok := enc.Int(key);
    if ok {
      ok := enc.Int(value);
    }
  }

  method EmitCoordinate(enc: Encoder, key: int64, value: seq<byte>) returns (ok: bool)
    requires enc.Valid() && |value| <= UINT64_MAX
    modifies enc, enc.buf
    ensures enc.Valid() && old(enc.Written()) <= enc.Written()
    ensures ok <==> |EncodeInt(key) + EncodeBytes(value)| <= enc.capacity - old(enc.offset)
    ensures ok ==> enc.Written() == old(enc.Written()) + (EncodeInt(key) + EncodeBytes(value))
  {
    hide EncodeInt, EncodeBytes;
    ok := enc.Int(key);
    if ok {
      ok := enc.ByteString(value);
    }
  }

  /** `zf_encode_cose_key` into its 128-byte scratch. */
  method EncodeCoseKey(x: seq<byte>, y: seq<byte>) returns (cose: seq<byte>)
    requires |x| == |y| == 32
    ensures cose == CoseBytes(x, y)
  {
    CoseIsCanonical(x, y);
    hide EncodeInt, EncodeBytes, EncodeHead;
    var scratch := new byte[128];
    var enc := new Encoder(scratch, 128);
    var ok := enc.Map(5);
    assert ok && enc.Written() == EncodeHead(MAJOR_MAP, 5);
    ok := EmitInts(enc, 1, 2);
    ok := EmitInts(enc, 3, -7);
    ok := EmitInts(enc, -1, 1);
    ok := EmitCoordinate(enc, -2, x);
    ok := EmitCoordinate(enc, -3, y);
    cose := scratch[..enc.offset];
  }

  method EmitProtect(enc: Encoder, e: Outputs) returns (ok: bool)
    requires enc.Valid() && (e.credProtect.Some? ==> e.credProtect.value < 256)
    modifies enc, enc.buf
    ensures enc.Valid()
    ensures ok <==> |ProtectBytes(e)| <= enc.capacity - old(enc.offset)
    ensures ok ==> enc.Written() == old(enc.Written()) + ProtectBytes(e)
  {
    hide EncodeText, EncodeUint;
    ok := true;
    if e.credProtect.None? {
      assert enc.Written() + [] == enc.Written();
      return;
    }
    ok := enc.Text(CRED_PROTECT);
    if ok {
      ok := enc.Uint(EffectiveProtection(e.credProtect.value));
    }
  }

  method EmitSecret(enc: Encoder, e: Outputs) returns (ok: bool)
    requires enc.Valid()
    modifies enc, enc.buf
    ensures enc.Valid()
    ensures ok <==> |SecretBytes(e)| <= enc.capacity - old(enc.offset)
    ensures ok ==> enc.Written() == old(enc.Written()) + SecretBytes(e)
  {
    hide EncodeText;
    ok := true;
    if e.hmacSecret.None? {
      assert enc.Written() + [] == enc.Written();
      return;
    }
    ok := enc.Text(HMAC_SECRET);
    if ok {
      ok := enc.Boolean(e.hmacSecret.value);
    }
  }

  /** `zf_encode_make_credential_extensions` into its 32-byte scratch. */
  method EncodeExtensions(e: Outputs) returns (extension: seq<byte>)
    requires e.credProtect.Some? ==> e.credProtect.value < 256
    ensures extension == ExtensionBytes(e)
  {
    ExtensionSplit(e);
    hide EncodeHead, ProtectBytes, SecretBytes;
    var scratch := new byte[32];
    var enc := new Encoder(scratch, 32);
    var ok := enc.Map(ExtensionCount(e));
    assert ok && enc.Written() == EncodeHead(MAJOR_MAP, ExtensionCount(e));
    ok := EmitProtect(enc, e);
    ok := EmitSecret(enc, e);
    extension := scratch[..enc.offset];
  }

  /** The authenticator data, built in place in room reserved for exactly its computed size. */
  method EmitAuthData(enc: Encoder, rpId: seq<byte>, verified: bool, signCount: uint32, aaguid: seq<byte>,
                      a: Attested, extension: Option<seq<byte>>)
      returns (ok: bool)
    requires enc.Valid() && |aaguid| == AAGUID_LEN && |a.credentialId| == 32 && a.cose != [] && |a.cose| <= 128
    requires extension.Some? ==> |extension.value| <= 32
    modifies enc, enc.buf
    ensures enc.Valid()
    ensures var authData := AuthDataBytes(rpId, true, verified, signCount, aaguid, Some(a), extension);
      && |authData| == AuthDataSize(Some(a), extension)
      && (ok <==> |EncodeBytes(authData)| <= enc.capacity - old(enc.offset))
      && (ok ==> enc.Written() == old(enc.Written()) + EncodeBytes(authData))
  {
    hide AuthDataBytes, EncodeHead;
    SizeIsExact(rpId, true, verified, signCount, aaguid, Some(a), extension);
    var size := AuthDataSize(Some(a), extension);
    var start;
    ok, start := enc.ReserveBytes(size);
    if !ok {
      return;
    }
    ghost var before := enc.buf[..start];
    var written := BuildAuthData(enc.buf, start, size, rpId, true, verified, signCount, aaguid, Some(a), extension);
    ok := written == size;
    assert enc.buf[..start + size] == enc.buf[..start] + enc.buf[start..start + size];
  }

  /** The map head and the attestation format. */
  method EmitFormat(enc: Encoder) returns (ok: bool)
    requires enc.Valid() && enc.offset == 0
    modifies enc, enc.buf
    ensures enc.Valid()
    ensures ok <==> |EncodeHead(MAJOR_MAP, 3) + (EncodeUint(1) + EncodeText(NONE))| <= enc.capacity
    ensures ok ==> enc.Written() == EncodeHead(MAJOR_MAP, 3) + (EncodeUint(1) + EncodeText(NONE))
  {
    hide EncodeHead, EncodeText, EncodeUint;
    ghost var head := EncodeHead(MAJOR_MAP, 3);
    ok := enc.Map(3);
    if !ok { return; }
    assert enc.Written() == head;
    ok := enc.Uint(1);
    if !ok { return; }
    ok := enc.Text(NONE);
    assert head + EncodeUint(1) + EncodeText(NONE) == head + (EncodeUint(1) + EncodeText(NONE));
  }

  /** The empty attestation statement. */
  method EmitStatement(enc: Encoder) returns (ok: bool)
    requires enc.Valid()
    modifies enc, enc.buf
    ensures enc.Valid()
    ensures ok <==> |EncodeUint(3) + EncodeHead(MAJOR_MAP, 0)| <= enc.capacity - old(enc.offset)
    ensures ok ==> enc.Written() == old(enc.Written()) + (EncodeUint(3) + EncodeHead(MAJOR_MAP, 0))
  {
    hide EncodeHead, EncodeUint;
    ok := enc.Uint(3);
    if ok {
      ok := enc.Map(0);
    }
  }

  /** The three members of the response. */
  method EmitResponse(enc: Encoder, rpId: seq<byte>, verified: bool, signCount: uint32, aaguid: seq<byte>,
                      a: Attested, extension: Option<seq<byte>>,
                      ghost authData: seq<byte>) returns (ok: bool)
    requires enc.Valid() && enc.offset == 0 && |aaguid| == AAGUID_LEN && |a.credentialId| == 32 && a.cose != [] &&
      |a.cose| <= 128
    requires extension.Some? ==> |extension.value| <= 32
    requires authData == AuthDataBytes(rpId, true, verified, signCount, aaguid, Some(a), extension) &&
      |authData| < 0x1_0000
    modifies enc, enc.buf
    ensures enc.Valid()
    ensures ok <==> |ResponseBytes(authData)| <= enc.capacity
    ensures ok ==> enc.Written() == ResponseBytes(authData)
  {
    hide AuthDataBytes, EncodeHead, EncodeText, EncodeUint, EncodeBytes;
    ok := EmitFormat(enc);
    if !ok { return; }
    ghost var format := enc.Written();
    ok := enc.Uint(2);
    if !ok { return; }
    assert enc.Written() == format + EncodeUint(2);
    ok := EmitAuthData(enc, rpId, verified, signCount, aaguid, a, extension);
    if !ok { return; }
    assert enc.Written() == format + (EncodeUint(2) + EncodeBytes(authData));
    ok := EmitStatement(enc);
  }

  /** `zf_ctap_build_none_make_credential_response_with_scratch`. */
  method BuildNoneResponse(rpId: seq<byte>, r: CredentialRecord, verified: bool, includeProtect: bool,
                           includeSecret: bool, aaguid: seq<byte>,
                           out: array<byte>, capacity: nat) returns (ok: bool, size: nat)
    requires InBounds(r) && |aaguid| == AAGUID_LEN && capacity <= out.Length
    modifies out
    ensures var authData := NoneAuthData(rpId, r, verified, includeProtect, includeSecret, aaguid);
      && |authData| <= 192
      && (ok <==> |ResponseBytes(authData)| <= capacity)
      && (capacity >= 204 ==> ok)
      && (ok ==> size <= out.Length && out[..size] == ResponseBytes(authData))
  {
    hide AuthDataBytes, ResponseBytes, CoseBytes, ExtensionBytes;
    NoneSizes(rpId, r, verified, includeProtect, includeSecret, aaguid);
    var extension: Option<seq<byte>> := None;
    if includeProtect || includeSecret {
      var encoded := EncodeExtensions(OutputsFor(r, includeProtect, includeSecret));
      extension := Some(encoded);
    }
    var cose := EncodeCoseKey(r.publicX, r.publicY);
    var enc := new Encoder(out, capacity);
    ok := EmitResponse(enc, rpId, verified, r.signCount, aaguid, Attested(r.credentialId, cose), extension,
                       NoneAuthData(rpId, r, verified, includeProtect, includeSecret, aaguid));
    size := enc.offset;
  }

  function OutputsFor(r: CredentialRecord, includeProtect: bool, includeSecret: bool): Outputs {
    Outputs(if includeProtect then Some(r.credProtect) else None,
            if includeSecret then Some(r.hmacSecret.Some?) else None)
  }

  /** The authenticator data of a registration: user present, key attested, extension outputs when asked for. */
  function NoneAuthData(rpId: seq<byte>, r: CredentialRecord, verified: bool, includeProtect: bool,
                        includeSecret: bool, aaguid: seq<byte>): seq<byte>
    requires InBounds(r)
  {
    var extended := includeProtect || includeSecret;
    AuthDataBytes(rpId, true, verified, r.signCount, aaguid,
                  Some(Attested(r.credentialId, CoseBytes(r.publicX, r.publicY))),
                  if extended then Some(ExtensionBytes(OutputsFor(r, includeProtect, includeSecret))) else None)
  }

  lemma NoneSizes(rpId: seq<byte>, r: CredentialRecord, verified: bool, includeProtect: bool, includeSecret: bool,
                  aaguid: seq<byte>)
    requires InBounds(r) && |aaguid| == AAGUID_LEN
    ensures |NoneAuthData(rpId, r, verified, includeProtect, includeSecret, aaguid)| <= 192
    ensures |ResponseBytes(NoneAuthData(rpId, r, verified, includeProtect, includeSecret, aaguid))| <= 204
    ensures CoseBytes(r.publicX, r.publicY) != [] && |CoseBytes(r.publicX, r.publicY)| == 77
    ensures |ExtensionBytes(OutputsFor(r, includeProtect, includeSecret))| <= 28
  {
    hide AuthDataBytes, EncodeHead, CoseBytes, ExtensionBytes;
    var e := OutputsFor(r, includeProtect, includeSecret);
    CoseIsCanonical(r.publicX, r.publicY);
    ExtensionSplit(e);
    SizeIsExact(rpId, true, verified, r.signCount, aaguid,
                Some(Attested(r.credentialId, CoseBytes(r.publicX, r.publicY))),
                if includeProtect || includeSecret then Some(ExtensionBytes(e)) else None);
  }
}
