/** authenticatorData: how src/ctap/response.c lays it out and how host_tools/ctaphid_probe.py takes it apart. */
module AuthData {
  import opened Bytes
  import Sha256

  const AAGUID_LEN := 16

  /** Attested credential data: which credential, and its public key as COSE. */
  datatype Attested = Attested(credentialId: seq<byte>, cose: seq<byte>)

  function Flags(present: bool, verified: bool, attested: bool, extended: bool): (flags: byte) {
    (if present then 0x01 else 0) + (if verified then 0x04 else 0) + (if attested then 0x40 else 0) +
      (if extended then 0x80 else 0)
  }

  function AttestedBytes(aaguid: seq<byte>, a: Attested): seq<byte> {
    aaguid + ToBigEndian(|a.credentialId|, 2) + a.credentialId + a.cose
  }

  /** Section 6.1 of WebAuthn Level 2. */
  function AuthDataBytes(rpId: seq<byte>, present: bool, verified: bool, signCount: uint32, aaguid: seq<byte>,
                         attested: Option<Attested>, extension: Option<seq<byte>>): (s: seq<byte>)
  {
    Sha256.Hash(rpId) + [Flags(present, verified, attested.Some?, extension.Some?)] + ToBigEndian(signCount, 4) +
    (if attested.Some? then AttestedBytes(aaguid, attested.value) else []) +
    (if extension.Some? then extension.value else [])
  }

  /** `zf_make_credential_auth_data_size` when the key is attested, and the bare header otherwise. */
  function AuthDataSize(attested: Option<Attested>, extension: Option<seq<byte>>): nat {
    37 + (if attested.Some? then AAGUID_LEN + 2 + |attested.value.credentialId| + |attested.value.cose| else 0) +
    (if extension.Some? then |extension.value| else 0)
  }

  /** The size computed in advance is the size that is written. */
  lemma SizeIsExact(rpId: seq<byte>, present: bool, verified: bool, signCount: uint32, aaguid: seq<byte>,
                    attested: Option<Attested>, extension: Option<seq<byte>>)
    requires |aaguid| == AAGUID_LEN
    ensures |AuthDataBytes(rpId, present, verified, signCount, aaguid, attested, extension)| ==
      AuthDataSize(attested, extension)
  {
  }

  /** `memcpy` behind what is already in the region that starts at `start`. */
  method Put(out: array<byte>, start: nat, offset: nat, data: seq<byte>) returns (next: nat)
    requires start + offset + |data| <= out.Length
    modifies out
    ensures next == offset + |data|
    ensures out[start..start + next] == old(out[start..start + offset]) + data
    ensures out[..start] == old(out[..start])
  {
    forall i | 0 <= i < |data| {
      out[start + offset + i] := data[i];
    }
    next := offset + |data|;
  }

  /** `zf_build_auth_data` into `out[start..start + capacity]`; zero is failure. */
  method BuildAuthData(out: array<byte>, start: nat, capacity: nat, rpId: seq<byte>, present: bool, verified: bool,
                       signCount: uint32,
                       aaguid: seq<byte>, attested: Option<Attested>, extension: Option<seq<byte>>) returns (size: nat)
    requires start + capacity <= out.Length && |aaguid| == AAGUID_LEN
    requires attested.Some? ==> |attested.value.credentialId| < 0x1_0000
    modifies out
    ensures size == if AuthDataSize(attested, extension) <= capacity && (attested.Some? ==> attested.value.cose != [])
                    then AuthDataSize(attested, extension) else 0
    ensures size > 0 ==>
      out[start..start + size] == AuthDataBytes(rpId, present, verified, signCount, aaguid, attested, extension)
    ensures out[..start] == old(out[..start])
  {
    hide Sha256.Hash, ToBigEndian;
    size := 0;
    if capacity < 37 {
      return;
    }
    var head := Sha256.Hash(rpId) + [Flags(present, verified, attested.Some?, extension.Some?)] +
      ToBigEndian(signCount, 4);
    assert out[start..start] == [] && [] + head == head;
    var offset := Put(out, start, 0, head);
    if attested.Some? {
      var a := attested.value;
      if a.cose == [] || offset + AAGUID_LEN + 2 + |a.credentialId| + |a.cose| > capacity {
        return;
      }
      offset := Put(out, start, offset, AttestedBytes(aaguid, a));
    }
    assert out[start..start + offset] == head + (if attested.Some? then AttestedBytes(aaguid, attested.value) else []);
    if extension.Some? {
      if offset + |extension.value| > capacity {
        return;
      }
      offset := Put(out, start, offset, extension.value);
    }
    size := offset;
  }

  // What the host parser recovers.

  datatype Parsed = Parsed(flags: byte, present: bool, verified: bool, signCount: nat,
                           credential: Option<ParsedCredential>)
  datatype ParsedCredential = ParsedCredential(aaguid: seq<byte>, credentialId: seq<byte>, length: nat)

  /** A slice that stops at the end of the data. */
  function Slice(s: seq<byte>, from: nat, to: nat): seq<byte> {
    if from <= to && from <= |s| then if to <= |s| then s[from..to] else s[from..] else []
  }

  /** `parse_auth_data`. */
  function ParseAuthData(s: seq<byte>): Option<Parsed> {
    if |s| < 37 then None
    else
      var flags := s[32];
      var credential :=
        if flags / 0x40 % 2 == 1 && |s| >= 55 then
          var length := FromBigEndian(s[53..55]);
          Some(ParsedCredential(s[37..53], Slice(s, 55, 55 + length), length))
        else None;
      Some(Parsed(flags, flags % 2 == 1, flags / 4 % 2 == 1, FromBigEndian(s[33..37]), credential))
  }

  /** The host parser recovers the flags, the counter and the credential from what the device built. */
  lemma ParserRecoversAuthData(rpId: seq<byte>, present: bool, verified: bool, signCount: uint32, aaguid: seq<byte>,
                               attested: Option<Attested>, extension: Option<seq<byte>>)
    requires |aaguid| == AAGUID_LEN && (attested.Some? ==> |attested.value.credentialId| < 0x1_0000)
    ensures ParseAuthData(AuthDataBytes(rpId, present, verified, signCount, aaguid, attested, extension)) ==
      Some(Parsed(Flags(present, verified, attested.Some?, extension.Some?), present, verified, signCount,
                  if attested.None? then None
                  else Some(ParsedCredential(aaguid, attested.value.credentialId, |attested.value.credentialId|))))
  {
    hide Sha256.Hash, ToBigEndian, FromBigEndian;
    var s := AuthDataBytes(rpId, present, verified, signCount, aaguid, attested, extension);
    assert s[33..37] == ToBigEndian(signCount, 4);
    assert Pow256(4) == 0x1_0000_0000 && Pow256(2) == 0x1_0000 by { Pow256Values(); }
    BigEndianRoundTrip(signCount, 4);
    if attested.Some? {
      var id := attested.value.credentialId;
      assert s[37..53] == aaguid;
      assert s[53..55] == ToBigEndian(|id|, 2);
      BigEndianRoundTrip(|id|, 2);
      assert s[55..55 + |id|] == id;
    }
  }
}
