/**
 The self-signed attestation certificate of attestation/local.c: the fixed-profile writer and the
 public-key extractor (section 4.1 of RFC 5280).
 */
module Certificate {
  import opened Bytes
  import opened Der

  const TBS_MAX_SIZE := 512
  const CERT_MAX_SIZE := 768
  const SPKI_MAX_SIZE := 128
  const SIGNATURE_MAX_SIZE := 80
  const POINT_SIZE := 65
  const TAG_VERSION := 0xA0
  const TAG_EXTENSIONS := 0xA3

  const VERSION: seq<byte> := [0x02, 0x01, 0x02]

  const ECDSA_SHA256: seq<byte> :=
    [0x30, 0x0A, 0x06, 0x08, 0x2A, 0x86, 0x48, 0xCE, 0x3D, 0x04, 0x03, 0x02]

  /** 26-01-01 to 36-01-01, both as UTCTime. */
  const VALIDITY: seq<byte> :=
    [0x30, 0x1E, 0x17, 0x0D, 0x32, 0x36, 0x30, 0x31, 0x30, 0x31, 0x30, 0x30, 0x30, 0x30, 0x30, 0x30,
     0x5A, 0x17, 0x0D, 0x33, 0x36, 0x30, 0x31, 0x30, 0x31, 0x30, 0x30, 0x30, 0x30, 0x30, 0x30, 0x5A]

  const PUBLIC_KEY_ALGORITHM: seq<byte> :=
    [0x30, 0x13, 0x06, 0x07, 0x2A, 0x86, 0x48, 0xCE, 0x3D, 0x02, 0x01,
     0x06, 0x08, 0x2A, 0x86, 0x48, 0xCE, 0x3D, 0x03, 0x01, 0x07]

  datatype Profile = Profile(subject: seq<byte>, extensions: seq<byte>)

  /** `s` is exactly one element with this tag, in any length form the reader takes. */
  predicate IsElement(s: seq<byte>, tag: byte) {
    ReadElement(s, tag).Some? && ReadElement(s, tag).value.size == |s|
  }

  function Spki(point: seq<byte>): seq<byte>
    requires |point| == POINT_SIZE
  {
    PUBLIC_KEY_ALGORITHM + Tlv(TAG_BIT_STRING, [0] + point)
  }

  // The extractor, as a function of its input.

  /** The input after one element with the given tag. */
  function After(s: seq<byte>, tag: byte): Option<seq<byte>> {
    match ReadElement(s, tag)
    case None => None
    case Some(e) => Some(s[e.size..])
  }

  /** The input after `count` elements with the same tag. */
  function AfterAll(s: seq<byte>, tag: byte, count: nat): Option<seq<byte>> {
    if count == 0 then Some(s)
    else
      match After(s, tag)
      case None => None
      case Some(rest) => AfterAll(rest, tag, count - 1)
  }

  /** The point inside a SubjectPublicKeyInfo value. */
  function ExtractPoint(spki: seq<byte>): Option<seq<byte>> {
    match After(spki, TAG_SEQUENCE)
    case None => None
    case Some(rest) =>
      match ReadElement(rest, TAG_BIT_STRING)
      case None => None
      case Some(bits) =>
        if bits.size != |rest| || |bits.value| != POINT_SIZE + 1 || bits.value[0] != 0 || bits.value[1] != 4 then None
        else Some(bits.value[1..])
  }

  /** Walks a TBSCertificate value to its SubjectPublicKeyInfo. */
  function ExtractFromTbs(tbs: seq<byte>): Option<seq<byte>> {
    var body := if tbs != [] && tbs[0] == TAG_VERSION then After(tbs, TAG_VERSION) else Some(tbs);
    if body.None? then None
    else
      match After(body.value, TAG_INTEGER)
      case None => None
      case Some(afterSerial) =>
        match AfterAll(afterSerial, TAG_SEQUENCE, 4)
        case None => None
        case Some(afterSubject) =>
          match ReadElement(afterSubject, TAG_SEQUENCE)
          case None => None
          case Some(spki) =>
            var rest := afterSubject[spki.size..];
            if rest == [] || IsElement(rest, TAG_EXTENSIONS) then ExtractPoint(spki.value) else None
  }

  /** `zf_local_attestation_extract_cert_public_key`. */
  function Extract(cert: seq<byte>): Option<seq<byte>> {
    match ReadElement(cert, TAG_SEQUENCE)
    case None => None
    case Some(outer) =>
      if outer.size != |cert| then None
      else
        match ReadElement(outer.value, TAG_SEQUENCE)
        case None => None
        case Some(tbs) =>
          match After(outer.value[tbs.size..], TAG_SEQUENCE)
          case None => None
          case Some(rest) => if IsElement(rest, TAG_BIT_STRING) then ExtractFromTbs(tbs.value) else None
  }

  method DecodeAfter(s: seq<byte>, tag: byte) returns (r: Option<seq<byte>>)
    ensures r == After(s, tag)
  {
    var e := DecodeElement(s, tag);
    if e.None? {
      return None;
    }
    r := Some(s[e.value.size..]);
  }

  /** `zf_local_attestation_extract_cert_public_key`: two nested walks over a moving offset. */
  method ExtractPublicKey(cert: seq<byte>) returns (point: Option<seq<byte>>)
    ensures point == Extract(cert)
  {
    hide ReadElement, ExtractPoint;
    var outer := DecodeElement(cert, TAG_SEQUENCE);
    if outer.None? || outer.value.size != |cert| {
      return None;
    }
    var tbs := DecodeElement(outer.value.value, TAG_SEQUENCE);
    if tbs.None? {
      return None;
    }
    var rest := DecodeAfter(outer.value.value[tbs.value.size..], TAG_SEQUENCE);
    if rest.None? {
      return None;
    }
    var bits := DecodeElement(rest.value, TAG_BIT_STRING);
    if bits.None? || bits.value.size != |rest.value| {
      return None;
    }
    point := ExtractTbsKey(tbs.value.value);
  }

  /** The walk over the TBSCertificate value. */
  method ExtractTbsKey(tbs: seq<byte>) returns (point: Option<seq<byte>>)
    ensures point == ExtractFromTbs(tbs)
  {
    hide ReadElement, ExtractPoint;
    var rest := tbs;
    if 0 < |tbs| && tbs[0] == TAG_VERSION {
      var afterVersion := DecodeAfter(tbs, TAG_VERSION);
      if afterVersion.None? {
        return None;
      }
      rest := afterVersion.value;
    }
    var next := DecodeAfter(rest, TAG_INTEGER);
    if next.None? {
      return None;
    }
    rest := next.value;
    ghost var fromSerial := rest;
    for i := 1 to 5
      invariant AfterAll(fromSerial, TAG_SEQUENCE, 4) == AfterAll(rest, TAG_SEQUENCE, 5 - i)
    {
      next := DecodeAfter(rest, TAG_SEQUENCE);
      if next.None? {
        return None;
      }
      rest := next.value;
    }
    var spki := DecodeElement(rest, TAG_SEQUENCE);
    if spki.None? {
      return None;
    }
    rest := rest[spki.value.size..];
    if 0 < |rest| {
      var extensions := DecodeElement(rest, TAG_EXTENSIONS);
      if extensions.None? || extensions.value.size != |rest| {
        return None;
      }
    }
    point := ExtractSpkiPoint(spki.value.value);
  }

  method ExtractSpkiPoint(spki: seq<byte>) returns (point: Option<seq<byte>>)
    ensures point == ExtractPoint(spki)
  {
    hide ReadElement;
    var rest := DecodeAfter(spki, TAG_SEQUENCE);
    if rest.None? {
      return None;
    }
    var bits := DecodeElement(rest.value, TAG_BIT_STRING);
    if bits.None? || bits.value.size != |rest.value| || |bits.value.value| != POINT_SIZE + 1 ||
       bits.value.value[0] != 0 || bits.value.value[1] != 4 {
      return None;
    }
    point := Some(bits.value.value[1..]);
  }
}
