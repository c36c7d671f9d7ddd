/** The durable CBOR form of a credential record: what the decoder of record_format.c accepts. */
module RecordFormat {
  import opened Bytes
  import opened CborHead
  import opened Cbor
  import opened Record
  import CborSkip

  const KEY_VERSION := 1
  const KEY_CREDENTIAL_ID := 2
  const KEY_RP_ID := 3
  const KEY_USER_ID := 4
  const KEY_USER_NAME := 5
  const KEY_DISPLAY_NAME := 6
  const KEY_PUBLIC_X := 7
  const KEY_PUBLIC_Y := 8
  const KEY_PRIVATE_WRAPPED := 9
  const KEY_PRIVATE_IV := 10
  const KEY_SIGN_COUNT := 11
  const KEY_CREATED_AT := 12
  const KEY_RESIDENT_KEY := 13
  const KEY_CRED_PROTECT := 14
  const KEY_HMAC_SECRET_WRAPPED := 15
  const KEY_HMAC_SECRET_IV := 16
  const KEY_COUNTER_FLOOR := 17

  /** How the value under a key is read. */
  datatype Kind = Word | Blob(size: nat) | BlobUpTo(max: nat) | TextBelow(limit: nat) | Switch | Protection | Unknown

  function KindOf(key: nat): Kind {
    if key == KEY_VERSION || key == KEY_SIGN_COUNT || key == KEY_CREATED_AT then Word
    else if key == KEY_CREDENTIAL_ID || key == KEY_PRIVATE_WRAPPED then Blob(32)
    else if key == KEY_PUBLIC_X || key == KEY_PUBLIC_Y then Blob(32)
    else if key == KEY_PRIVATE_IV || key == KEY_HMAC_SECRET_IV then Blob(16)
    else if key == KEY_HMAC_SECRET_WRAPPED then Blob(64)
    else if key == KEY_COUNTER_FLOOR then Blob(52)
    else if key == KEY_USER_ID then BlobUpTo(64)
    else if key == KEY_RP_ID then TextBelow(256)
    else if key == KEY_USER_NAME || key == KEY_DISPLAY_NAME then TextBelow(65)
    else if key == KEY_RESIDENT_KEY then Switch
    else if key == KEY_CRED_PROTECT then Protection
    else Unknown
  }

  datatype FieldValue = Number(n: nat) | Octets(bytes: seq<byte>) | Flag(b: bool) | Ignored

  function Octetwise(r: Option<Read<seq<byte>>>, keep: bool): (f: Option<Read<FieldValue>>)
    ensures f.Some? ==> r.Some? && f.value.size == r.value.size
  {
    if r.Some? && keep then Some(Read(Octets(r.value.value), r.value.size)) else None
  }

  /** The value of a pair: the branches of `zf_record_decode` and `zf_record_decode_field`. */
  ghost function ReadKind(s: seq<byte>, kind: Kind): (r: Option<Read<FieldValue>>)
    ensures r.Some? ==> 1 <= r.value.size <= |s|
  {
    match kind
    case Word =>
      var r := ReadUint(s);
      if r.Some? && r.value.value <= UINT32_MAX then Some(Read(Number(r.value.value), r.value.size)) else None
    case Blob(size) =>
      var r := ReadBytes(s);
      Octetwise(r, r.Some? && |r.value.value| == size)
    case BlobUpTo(max) =>
      var r := ReadBytes(s);
      Octetwise(r, r.Some? && |r.value.value| <= max)
    case TextBelow(limit) =>
      var r := ReadText(s);
      Octetwise(r, r.Some? && |r.value.value| < limit && 0 !in r.value.value)
    case Switch =>
      var r := ReadBool(s);
      if r.Some? then Some(Read(Flag(r.value.value), r.value.size)) else None
    case Protection =>
      var r := ReadUint(s);
      if r.Some? && 1 <= r.value.value <= 3 then Some(Read(Number(r.value.value), r.value.size)) else None
    case Unknown =>
      var r := CborSkip.Skip(s, 0);
      if r.Some? then Some(Read(Ignored, r.value)) else None
  }

  /** The fields read so far, by key; a later pair overwrites an earlier one. */
  type Fields = map<nat, FieldValue>

  datatype Parsed = Parsed(fields: Fields, size: nat)

  predicate RefusesRepetition(key: nat) {
    key == KEY_HMAC_SECRET_WRAPPED || key == KEY_HMAC_SECRET_IV || key == KEY_COUNTER_FLOOR
  }

  function Store(fields: Fields, key: nat, value: FieldValue): Fields {
    if KindOf(key) == Unknown then fields else fields[key := value]
  }

  /** The loop over the pairs. */
  ghost function DecodePairs(s: seq<byte>, pairs: nat, fields: Fields): (r: Option<Parsed>)
    ensures r.Some? ==> r.value.size <= |s|
    decreases pairs
  {
    if pairs == 0 then Some(Parsed(fields, 0))
    else
      match ReadPair(s)
      case None => None
      case Some(p) =>
        if RefusesRepetition(p.value.0) && p.value.0 in fields then None
        else
          match DecodePairs(s[p.size..], pairs - 1, Store(fields, p.value.0, p.value.1))
          case None => None
          case Some(rest) => Some(Parsed(rest.fields, p.size + rest.size))
  }

  /** A key and its value. */
  ghost function ReadPair(s: seq<byte>): (r: Option<Read<(nat, FieldValue)>>)
    ensures r.Some? ==> 2 <= r.value.size <= |s|
  {
    match ReadUint(s)
    case None => None
    case Some(key) =>
      match ReadKind(s[key.size..], KindOf(key.value))
      case None => None
      case Some(v) => Some(Read((key.value, v.value), key.size + v.size))
  }

  const REQUIRED: set<nat> :=
    {KEY_VERSION, KEY_CREDENTIAL_ID, KEY_RP_ID, KEY_USER_ID, KEY_PUBLIC_X, KEY_PUBLIC_Y, KEY_PRIVATE_WRAPPED,
     KEY_PRIVATE_IV, KEY_SIGN_COUNT, KEY_CREATED_AT, KEY_RESIDENT_KEY, KEY_CRED_PROTECT}

  function NumberAt(fields: Fields, key: nat): uint32 {
    if key in fields && fields[key].Number? && fields[key].n <= UINT32_MAX then fields[key].n else 0
  }

  function BytesAt(fields: Fields, key: nat): seq<byte> {
    if key in fields && fields[key].Octets? then fields[key].bytes else []
  }

  predicate FlagAt(fields: Fields, key: nat) {
    key in fields && fields[key].Flag? && fields[key].b
  }

  datatype Decoded = Decoded(record: CredentialRecord, floor: Option<seq<byte>>)

  /** The hmac-secret pair behind its seal; the hardware returns as many bytes as it is given. */
  function OpenHmacSecret(enclave: Enclave, fields: Fields): Option<HmacSecret> {
    var plain := enclave.decrypt(BytesAt(fields, KEY_HMAC_SECRET_IV), BytesAt(fields, KEY_HMAC_SECRET_WRAPPED));
    if enclave.ready && |plain| == 64 then Some(HmacSecret(plain[..32], plain[32..])) else None
  }

  /** The checks after the loop. */
  function Finish(enclave: Enclave, fields: Fields, fileName: string): Option<Decoded> {
    if !(REQUIRED <= fields.Keys) then None
    else if (KEY_HMAC_SECRET_WRAPPED in fields) != (KEY_HMAC_SECRET_IV in fields) then None
    else if NumberAt(fields, KEY_VERSION) != STORE_FORMAT_VERSION || BytesAt(fields, KEY_RP_ID) == [] then None
    else if HexEncode(BytesAt(fields, KEY_CREDENTIAL_ID)) != fileName then None
    else if KEY_HMAC_SECRET_WRAPPED in fields && OpenHmacSecret(enclave, fields).None? then None
    else
      var secret := if KEY_HMAC_SECRET_WRAPPED in fields then OpenHmacSecret(enclave, fields) else None;
      var record := CredentialRecord(
        BytesAt(fields, KEY_CREDENTIAL_ID), BytesAt(fields, KEY_RP_ID), BytesAt(fields, KEY_USER_ID),
        BytesAt(fields, KEY_USER_NAME), BytesAt(fields, KEY_DISPLAY_NAME),
        BytesAt(fields, KEY_PUBLIC_X), BytesAt(fields, KEY_PUBLIC_Y),
        BytesAt(fields, KEY_PRIVATE_WRAPPED), BytesAt(fields, KEY_PRIVATE_IV),
        NumberAt(fields, KEY_SIGN_COUNT), NumberAt(fields, KEY_CREATED_AT),
        FlagAt(fields, KEY_RESIDENT_KEY), NumberAt(fields, KEY_CRED_PROTECT), secret);
      Some(Decoded(record, if KEY_COUNTER_FLOOR in fields then Some(BytesAt(fields, KEY_COUNTER_FLOOR)) else None))
  }

  /** `zf_record_decode`. */
  ghost function DecodeRecord(enclave: Enclave, data: seq<byte>, fileName: string): Option<Decoded> {
    match ReadCount(data, MAJOR_MAP)
    case None => None
    case Some(head) =>
      match DecodePairs(data[head.size..], head.value, map[])
      case None => None
      case Some(parsed) =>
        if head.size + parsed.size != |data| then None else Finish(enclave, parsed.fields, fileName)
  }

  // The decoder looks at each byte once, from left to right: no strict prefix of an accepted record is accepted.

  lemma ReadKindIsLocal(s: seq<byte>, t: seq<byte>, kind: Kind)
    requires ReadKind(s, kind).Some? && ReadKind(s, kind).value.size <= |t|
    requires s[..ReadKind(s, kind).value.size] == t[..ReadKind(s, kind).value.size]
    ensures ReadKind(t, kind) == ReadKind(s, kind)
  {
    var n := ReadKind(s, kind).value.size;
    if kind.Unknown? {
      CborSkip.SkipIsLocal(s, t, 0);
    } else if kind.Switch? {
      assert s[0] == s[..n][0] == t[..n][0] == t[0];
    } else {
      StringIsLocal(s, t, n);
    }
  }

  lemma StringIsLocal(s: seq<byte>, t: seq<byte>, n: nat)
    requires n <= |s| && n <= |t| && s[..n] == t[..n]
    requires ReadHead(s).Some? && ReadHead(s).value.size <= n
    ensures ReadHead(t) == ReadHead(s)
    ensures forall major :: ReadString(s, major).Some? && ReadString(s, major).value.size == n ==>
              ReadString(t, major) == ReadString(s, major)
  {
    var h := ReadHead(s).value;
    CborSkip.SubPrefix(s, t, h.size, n);
    HeadIsLocal(s, t);
    if n == h.size + h.value {
      assert s[h.size..h.size + h.value] == s[..n][h.size..] == t[..n][h.size..] == t[h.size..h.size + h.value];
    }
  }

  lemma ReadPairIsLocal(s: seq<byte>, t: seq<byte>)
    requires ReadPair(s).Some? && ReadPair(s).value.size <= |t|
    requires s[..ReadPair(s).value.size] == t[..ReadPair(s).value.size]
    ensures ReadPair(t) == ReadPair(s)
  {
    hide ReadKind, ReadHead;
    var key := ReadUint(s).value;
    var v := ReadKind(s[key.size..], KindOf(key.value)).value;
    CborSkip.SubPrefix(s, t, key.size, key.size + v.size);
    UintIsLocal(s, t);
    ReadKindIsLocal(s[key.size..], t[key.size..], KindOf(key.value));
  }

  lemma UintIsLocal(s: seq<byte>, t: seq<byte>)
    requires ReadUint(s).Some? && ReadUint(s).value.size <= |t|
    requires s[..ReadUint(s).value.size] == t[..ReadUint(s).value.size]
    ensures ReadUint(t) == ReadUint(s)
  {
  }

  lemma DecodePairsStep(s: seq<byte>, pairs: nat, fields: Fields)
    requires pairs > 0
    ensures DecodePairs(s, pairs, fields) ==
      match ReadPair(s)
      case None => None
      case Some(p) =>
        if RefusesRepetition(p.value.0) && p.value.0 in fields then None
        else After(p.size, DecodePairs(s[p.size..], pairs - 1, Store(fields, p.value.0, p.value.1)))
  {
  }

  function After(size: nat, rest: Option<Parsed>): Option<Parsed> {
    match rest
    case None => None
    case Some(p) => Some(Parsed(p.fields, size + p.size))
  }

  lemma {:induction false} DecodePairsIsLocal(s: seq<byte>, t: seq<byte>, pairs: nat, fields: Fields, r: Parsed)
    requires DecodePairs(s, pairs, fields) == Some(r) && r.size <= |t| && s[..r.size] == t[..r.size]
    ensures DecodePairs(t, pairs, fields) == Some(r)
    decreases pairs
  {
    hide DecodePairs, ReadPair, Store;
    if pairs == 0 {
      NoPairs(s, fields);
      NoPairs(t, fields);
    } else {
      DecodePairsStep(s, pairs, fields);
      DecodePairsStep(t, pairs, fields);
      var p := ReadPair(s).value;
      CborSkip.SubPrefix(s, t, p.size, r.size);
      ReadPairIsLocal(s, t);
      DecodePairsIsLocal(s[p.size..], t[p.size..], pairs - 1, Store(fields, p.value.0, p.value.1),
                         Parsed(r.fields, r.size - p.size));
    }
  }

  lemma NoPairs(s: seq<byte>, fields: Fields)
    ensures DecodePairs(s, 0, fields) == Some(Parsed(fields, 0))
  {
  }

  /** Torn records are recognised: no strict prefix of an accepted record is accepted. */
  lemma TornRecordIsRejected(enclave: Enclave, data: seq<byte>, fileName: string, cut: nat,
                             otherEnclave: Enclave, otherName: string)
    requires DecodeRecord(enclave, data, fileName).Some? && cut < |data|
    ensures DecodeRecord(otherEnclave, data[..cut], otherName).None?
  {
    hide DecodePairs, Finish;
    var torn := data[..cut];
    if DecodeRecord(otherEnclave, torn, otherName).Some? {
      var head := ReadCount(torn, MAJOR_MAP).value;
      assert torn[..head.size] == data[..head.size];
      HeadIsLocal(torn, data);
      var body := torn[head.size..];
      assert body == data[head.size..][..|body|];
      DecodePairsIsLocal(body, data[head.size..], head.value, map[], DecodePairs(body, head.value, map[]).value);
    }
  }
}
