/** Credential records, the sealing of the device enclave and the counter floor of record_format.c. */
module Record {
  import opened Bytes
  import Sha256

  const CREDENTIAL_ID_LEN := 32
  const STORE_FORMAT_VERSION := 1
  const COUNTER_FLOOR_MAGIC: uint32 := 0x53434632
  const COUNTER_FLOOR_SIZE := 52
  const RECORD_MAX_SIZE := 800

  /**
   `ZfCredentialRecord`.  Text fields are the bytes before the terminating NUL; the hmac-secret
   pair is present exactly when `hmac_secret` is set.
   */
  datatype CredentialRecord = CredentialRecord(
    credentialId: seq<byte>,
    rpId: seq<byte>,
    userId: seq<byte>,
    userName: seq<byte>,
    displayName: seq<byte>,
    publicX: seq<byte>,
    publicY: seq<byte>,
    privateWrapped: seq<byte>,
    privateIv: seq<byte>,
    signCount: uint32,
    createdAt: uint32,
    residentKey: bool,
    credProtect: nat,
    hmacSecret: Option<HmacSecret>)

  datatype HmacSecret = HmacSecret(withoutUv: seq<byte>, withUv: seq<byte>)

  /**
   The device enclave with its unique key loaded for an initialisation vector.  `ready` is whether
   the key slot can be loaded at all on this call, `steady` whether it can be loaded every time.
   */
  datatype Enclave = Enclave(
    ready: bool,
    steady: bool,
    encrypt: (seq<byte>, seq<byte>) -> seq<byte>,
    decrypt: (seq<byte>, seq<byte>) -> seq<byte>)
  {
    /** Sealing is an ideal pair: it keeps lengths, and opening undoes it. */
    ghost predicate Ideal() {
      && (forall iv, plain :: |encrypt(iv, plain)| == |plain| && decrypt(iv, encrypt(iv, plain)) == plain)
      && (forall iv, sealed :: |decrypt(iv, sealed)| == |sealed|)
    }
  }

  /** `zf_store_record_format_hex_encode`. */
  function HexEncode(data: seq<byte>): (name: string)
    ensures |name| == 2 * |data|
    ensures forall i :: 0 <= i < |name| ==> IsHexDigit(name[i])
  {
    if data == [] then "" else [HexDigit(data[0] / 16), HexDigit(data[0] % 16)] + HexEncode(data[1..])
  }

  function HexDigit(n: nat): (ch: char)
    requires n < 16
    ensures IsHexDigit(ch)
  {
    "0123456789abcdef"[n]
  }

  predicate IsHexDigit(ch: char) {
    '0' <= ch <= '9' || 'a' <= ch <= 'f'
  }

  /** `zf_store_record_format_is_record_name`. */
  predicate IsRecordName(name: string) {
    |name| == 2 * CREDENTIAL_ID_LEN && forall i :: 0 <= i < |name| ==> IsHexDigit(name[i])
  }

  lemma HexDigitInjective(m: nat, n: nat)
    requires m < 16 && n < 16 && HexDigit(m) == HexDigit(n)
    ensures m == n
  {
  }

  lemma {:induction false} HexEncodeInjective(a: seq<byte>, b: seq<byte>)
    requires |a| == |b| && HexEncode(a) == HexEncode(b)
    ensures a == b
  {
    if a != [] {
      var x, y := HexEncode(a), HexEncode(b);
      assert x[0] == HexDigit(a[0] / 16) && y[0] == HexDigit(b[0] / 16);
      assert x[1] == HexDigit(a[0] % 16) && y[1] == HexDigit(b[0] % 16);
      HexDigitInjective(a[0] / 16, b[0] / 16);
      HexDigitInjective(a[0] % 16, b[0] % 16);
      assert x[2..] == HexEncode(a[1..]) && y[2..] == HexEncode(b[1..]);
      HexEncodeInjective(a[1..], b[1..]);
    }
  }

  // The counter floor: a sealed counter bound to its credential.

  /** `zf_record_compute_counter_binding_fields`. */
  function Binding(credentialId: seq<byte>, createdAt: uint32): (b: seq<byte>)
    ensures |b| == 24
  {
    Sha256.Hash(credentialId + ToLittleEndian(createdAt, 4))[..24]
  }

  function FloorPlain(credentialId: seq<byte>, createdAt: uint32, signCount: uint32): (plain: seq<byte>)
    ensures |plain| == 32
  {
    ToLittleEndian(COUNTER_FLOOR_MAGIC, 4) + ToLittleEndian(signCount, 4) + Binding(credentialId, createdAt)
  }

  /** `zf_counter_floor_encode_fields`, given the random initialisation vector. */
  function EncodeFloor(enclave: Enclave, iv: seq<byte>, credentialId: seq<byte>, createdAt: uint32,
                       signCount: uint32): Option<seq<byte>> {
    if !enclave.ready then None
    else Some(ToLittleEndian(1, 4) + iv + enclave.encrypt(iv, FloorPlain(credentialId, createdAt, signCount)))
  }

  /** The plain text a floor file opens to. */
  function OpenFloor(enclave: Enclave, file: seq<byte>): seq<byte>
    requires |file| == COUNTER_FLOOR_SIZE
  {
    enclave.decrypt(file[4..20], file[20..])
  }

  /** `zf_counter_floor_decode_fields`: version, magic and binding must match. */
  function DecodeFloor(enclave: Enclave, credentialId: seq<byte>, createdAt: uint32, file: seq<byte>): Option<uint32> {
    if !enclave.ready || |file| != COUNTER_FLOOR_SIZE || FromLittleEndian(file[..4]) != 1 then None
    else
      var plain := OpenFloor(enclave, file);
      if |plain| == 32 && FromLittleEndian(plain[..4]) == COUNTER_FLOOR_MAGIC &&
        plain[8..] == Binding(credentialId, createdAt)
      then (FloorSignRange(plain); Some(FromLittleEndian(plain[4..8])))
      else None
  }

  lemma FloorSignRange(plain: seq<byte>)
    requires |plain| == 32
    ensures FromLittleEndian(plain[4..8]) < 0x1_0000_0000
  {
    LittleEndianBound(plain[4..8]);
    Pow256Values();
  }

  /** A floor opens to the counter it was sealed with, and only for its own credential. */
  lemma FloorRoundTrip(enclave: Enclave, iv: seq<byte>, credentialId: seq<byte>, createdAt: uint32, signCount: uint32,
                       otherId: seq<byte>, otherCreatedAt: uint32)
    requires enclave.ready && enclave.Ideal() && |iv| == 16
    ensures var file := EncodeFloor(enclave, iv, credentialId, createdAt, signCount).value;
      && |file| == COUNTER_FLOOR_SIZE
      && DecodeFloor(enclave, otherId, otherCreatedAt, file) ==
         if Binding(otherId, otherCreatedAt) == Binding(credentialId, createdAt) then Some(signCount) else None
  {
    hide Binding, ToLittleEndian, FromLittleEndian;
    var plain := FloorPlain(credentialId, createdAt, signCount);
    var file := EncodeFloor(enclave, iv, credentialId, createdAt, signCount).value;
    assert file[..4] == ToLittleEndian(1, 4) && file[4..20] == iv && file[20..] == enclave.encrypt(iv, plain);
    assert plain[..4] == ToLittleEndian(COUNTER_FLOOR_MAGIC, 4);
    assert plain[4..8] == ToLittleEndian(signCount, 4);
    assert plain[8..] == Binding(credentialId, createdAt);
    Pow256Values();
    LittleEndianRoundTrip(1, 4);
    LittleEndianRoundTrip(COUNTER_FLOOR_MAGIC, 4);
    LittleEndianRoundTrip(signCount, 4);
  }
}
