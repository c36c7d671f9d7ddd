/** The certificate writer of attestation/local.c, and that the extractor undoes it. */
module CertificateBuilder {
  import opened Bytes
  import opened Der
  import opened DerBuffer
  import opened EcdsaDer
  import opened Certificate
  import Sha256

  /** The serial number: 128 random bits forced to be positive and non-zero. */
  function SerialFrom(random: seq<byte>): (serial: seq<byte>)
    requires |random| == 16
    ensures |serial| == 16 && 1 <= serial[0] < 0x80
  {
    var top := random[0] % 0x80;
    [if top == 0 then 1 else top] + random[1..]
  }

  /** The fields of TBSCertificate, in order. */
  function TbsBody(profile: Profile, serial: seq<byte>, point: seq<byte>): seq<byte>
    requires |serial| == 16 && |point| == POINT_SIZE
  {
    Tlv(TAG_VERSION, VERSION) + Tlv(TAG_INTEGER, IntegerContents(serial)) + ECDSA_SHA256 + profile.subject +
    VALIDITY + profile.subject + Tlv(TAG_SEQUENCE, Spki(point)) + Tlv(TAG_EXTENSIONS, profile.extensions)
  }

  function Tbs(profile: Profile, serial: seq<byte>, point: seq<byte>): seq<byte>
    requires |serial| == 16 && |point| == POINT_SIZE
  {
    Tlv(TAG_SEQUENCE, TbsBody(profile, serial, point))
  }

  function Cert(tbs: seq<byte>, signature: seq<byte>): seq<byte> {
    Tlv(TAG_SEQUENCE, tbs + ECDSA_SHA256 + Tlv(TAG_BIT_STRING, [0] + signature))
  }

  lemma TlvLength(tag: byte, value: seq<byte>)
    ensures |Tlv(tag, value)| == TlvSize(|value|)
  {
  }

  lemma StartsEmpty(field: seq<byte>)
    ensures [] + field == field
  {
  }

  /** The SubjectPublicKeyInfo value always fits its scratch buffers. */
  method BuildSpki(point: seq<byte>) returns (spki: seq<byte>)
    requires |point| == POINT_SIZE
    ensures spki == Spki(point)
  {
    var buffer := new Buffer(SPKI_MAX_SIZE);
    var ok := buffer.Append(PUBLIC_KEY_ALGORITHM);
    ok := buffer.AppendBitString(point, SIGNATURE_MAX_SIZE + 1);
    spki := buffer.data[..buffer.len];
  }

  /** Version, serial number and signature algorithm. */
  function TbsOpening(serial: seq<byte>): seq<byte>
    requires |serial| == 16
  {
    Tlv(TAG_VERSION, VERSION) + Tlv(TAG_INTEGER, IntegerContents(serial)) + ECDSA_SHA256
  }

  method AppendOpening(body: Buffer, serial: seq<byte>) returns (ok: bool)
    requires body.Valid() && body.len == 0 && |serial| == 16
    modifies body, body.data
    ensures body.Valid()
    ensures ok <==> |TbsOpening(serial)| <= body.data.Length
    ensures ok ==> body.Contents() == TbsOpening(serial)
  {
    hide Tlv, IntegerContents;
    TlvLength(TAG_VERSION, VERSION);
    TlvLength(TAG_INTEGER, IntegerContents(serial));
    StartsEmpty(Tlv(TAG_VERSION, VERSION));
    ok := body.AppendTlv(TAG_VERSION, VERSION);
    if !ok { return; }
    ok := body.AppendInteger(serial);
    if !ok { return; }
    ok := body.Append(ECDSA_SHA256);
  }

  /** The chain of appends of `zf_build_tbs`. */
  method AppendFields(body: Buffer, profile: Profile, serial: seq<byte>, point: seq<byte>) returns (ok: bool)
    requires body.Valid() && body.len == 0 && |serial| == 16 && |point| == POINT_SIZE
    modifies body, body.data
    ensures body.Valid()
    ensures ok <==> |TbsBody(profile, serial, point)| <= body.data.Length
    ensures ok ==> body.Contents() == TbsBody(profile, serial, point)
  {
    hide Tlv, TbsOpening, Spki;
    TlvLength(TAG_SEQUENCE, Spki(point));
    TlvLength(TAG_EXTENSIONS, profile.extensions);
    OpeningOfBody(profile, serial, point);
    hide TbsBody;
    var spki := BuildSpki(point);
    ok := AppendOpening(body, serial);
    if !ok { return; }
    ok := body.Append(profile.subject);
    if !ok { return; }
    ok := body.Append(VALIDITY);
    if !ok { return; }
    ok := body.Append(profile.subject);
    if !ok { return; }
    ok := body.AppendTlv(TAG_SEQUENCE, spki);
    if !ok { return; }
    ok := body.AppendTlv(TAG_EXTENSIONS, profile.extensions);
  }

  lemma OpeningOfBody(profile: Profile, serial: seq<byte>, point: seq<byte>)
    requires |serial| == 16 && |point| == POINT_SIZE
    ensures TbsBody(profile, serial, point) ==
      TbsOpening(serial) + profile.subject + VALIDITY + profile.subject + Tlv(TAG_SEQUENCE, Spki(point)) +
        Tlv(TAG_EXTENSIONS, profile.extensions)
  {
  }

  /** `zf_build_tbs`, with the random serial bits as a parameter. */
  method BuildTbs(profile: Profile, point: seq<byte>, random: seq<byte>) returns (tbs: Option<seq<byte>>)
    requires |random| == 16 && |point| == POINT_SIZE
    ensures var built := Tbs(profile, SerialFrom(random), point);
      tbs == if |built| <= TBS_MAX_SIZE then Some(built) else None
  {
    hide Tlv, TbsBody;
    var serial := random[0 := random[0] % 0x80];
    if serial[0] == 0 {
      serial := serial[0 := 1];
    }
    assert serial == SerialFrom(random);
    TlvLength(TAG_SEQUENCE, TbsBody(profile, serial, point));
    var body := new Buffer(TBS_MAX_SIZE);
    var ok := AppendFields(body, profile, serial, point);
    if ok {
      ok := body.WrapTlvInPlace(TAG_SEQUENCE);
    }
    tbs := if ok then Some(body.data[..body.len]) else None;
  }

  /**
   `zf_build_cert`.  `sign` is the raw P-256 signer, which may fail; its 32-byte halves are printed
   by `zf_ecdsa_der_encode_signature` into an 80-byte buffer that always suffices.
   */
  method BuildCert(profile: Profile, point: seq<byte>, random: seq<byte>,
                   sign: seq<byte> -> Option<(seq<byte>, seq<byte>)>) returns (cert: Option<seq<byte>>)
    requires |random| == 16 && |point| == POINT_SIZE
    requires forall h :: sign(h).Some? ==> |sign(h).value.0| == |sign(h).value.1| == 32
    ensures var tbs := Tbs(profile, SerialFrom(random), point);
      var raw := sign(Sha256.Hash(tbs));
      cert == if raw.None? || |tbs| > TBS_MAX_SIZE then None
              else
                var built := Cert(tbs, SignatureBytes(raw.value.0, raw.value.1));
                if |built| <= CERT_MAX_SIZE then Some(built) else None
  {
    hide Tbs, Tlv, Sha256.Hash;
    var tbs := BuildTbs(profile, point, random);
    if tbs.None? {
      return None;
    }
    var raw := sign(Sha256.Hash(tbs.value));
    if raw.None? {
      return None;
    }
    var signature := EncodeSignature(raw.value.0, raw.value.1, SIGNATURE_MAX_SIZE);
    ghost var bits := [0] + signature.value;
    TlvLength(TAG_BIT_STRING, bits);
    TlvLength(TAG_SEQUENCE, tbs.value + ECDSA_SHA256 + Tlv(TAG_BIT_STRING, bits));
    var body := new Buffer(CERT_MAX_SIZE);
    var ok := body.Append(tbs.value);
    StartsEmpty(tbs.value);
    if ok { ok := body.Append(ECDSA_SHA256); }
    if ok { ok := body.AppendBitString(signature.value, SIGNATURE_MAX_SIZE + 1); }
    if ok {
      assert body.Contents() == tbs.value + ECDSA_SHA256 + Tlv(TAG_BIT_STRING, bits);
      ok := body.WrapTlvInPlace(TAG_SEQUENCE);
    }
    cert := if ok then Some(body.data[..body.len]) else None;
  }

  // The extractor undoes the writer.

  /** A reader looks at nothing beyond the element it returns. */
  lemma ElementIsLocal(s: seq<byte>, tag: byte, rest: seq<byte>)
    requires ReadElement(s, tag).Some?
    ensures ReadElement(s + rest, tag) == ReadElement(s, tag)
  {
    var t := s + rest;
    var h := ReadLength(s).value;
    assert t[0] == s[0] && t[1] == s[1];
    if s[1] >= 0x80 {
      assert t[2..h.headerLen] == s[2..h.headerLen];
    }
    assert t[h.headerLen..h.headerLen + h.valueLen] == s[h.headerLen..h.headerLen + h.valueLen];
  }

  lemma AfterElement(s: seq<byte>, tag: byte, rest: seq<byte>)
    requires IsElement(s, tag)
    ensures After(s + rest, tag) == Some(rest)
  {
    hide ReadElement;
    ElementIsLocal(s, tag, rest);
  }

  lemma TlvIsElement(tag: byte, value: seq<byte>)
    requires |value| <= 0xFFFF
    ensures IsElement(Tlv(tag, value), tag) && ReadElement(Tlv(tag, value), tag).value.value == value
  {
    hide ReadElement;
    ReadsTlv(tag, value, []);
    assert Tlv(tag, value) + [] == Tlv(tag, value);
  }

  lemma FixedElements()
    ensures IsElement(ECDSA_SHA256, TAG_SEQUENCE)
    ensures IsElement(VALIDITY, TAG_SEQUENCE)
    ensures IsElement(PUBLIC_KEY_ALGORITHM, TAG_SEQUENCE)
  {
  }

  lemma ExtractsPoint(point: seq<byte>)
    requires |point| == POINT_SIZE && point[0] == 4
    ensures ExtractPoint(Spki(point)) == Some(point)
  {
    hide ReadElement, Tlv;
    FixedElements();
    var bits := Tlv(TAG_BIT_STRING, [0] + point);
    AfterElement(PUBLIC_KEY_ALGORITHM, TAG_SEQUENCE, bits);
    TlvIsElement(TAG_BIT_STRING, [0] + point);
    assert ([0] + point)[1..] == point;
  }

  lemma AfterFour(a: seq<byte>, b: seq<byte>, c: seq<byte>, d: seq<byte>, tag: byte, rest: seq<byte>)
    requires IsElement(a, tag) && IsElement(b, tag) && IsElement(c, tag) && IsElement(d, tag)
    ensures AfterAll(a + (b + (c + (d + rest))), tag, 4) == Some(rest)
  {
    hide ReadElement, After;
    AfterElement(a, tag, b + (c + (d + rest)));
    AfterElement(b, tag, c + (d + rest));
    AfterElement(c, tag, d + rest);
    AfterElement(d, tag, rest);
    assert AfterAll(d + rest, tag, 1) == AfterAll(rest, tag, 0);
    assert AfterAll(c + (d + rest), tag, 2) == AfterAll(d + rest, tag, 1);
    assert AfterAll(b + (c + (d + rest)), tag, 3) == AfterAll(c + (d + rest), tag, 2);
  }

  lemma Regroup(a: seq<byte>, b: seq<byte>, c: seq<byte>, d: seq<byte>,
                e: seq<byte>, f: seq<byte>, g: seq<byte>, h: seq<byte>)
    ensures a + b + c + d + e + f + g + h == a + (b + (c + (d + (e + (f + (g + h))))))
  {
  }

  /** The reader's walk over a body the writer produced. */
  lemma ExtractsFromBody(profile: Profile, serial: seq<byte>, point: seq<byte>)
    requires |serial| == 16 && |point| == POINT_SIZE && point[0] == 4
    requires IsElement(profile.subject, TAG_SEQUENCE) && |TbsBody(profile, serial, point)| <= 0xFFFF
    ensures ExtractFromTbs(TbsBody(profile, serial, point)) == Some(point)
  {
    hide ReadElement, Tlv, ExtractPoint, Spki, IntegerContents, After, AfterAll;
    FixedElements();
    ExtractsPoint(point);
    var version, number := Tlv(TAG_VERSION, VERSION), Tlv(TAG_INTEGER, IntegerContents(serial));
    var key, extensions := Tlv(TAG_SEQUENCE, Spki(point)), Tlv(TAG_EXTENSIONS, profile.extensions);
    TlvLength(TAG_EXTENSIONS, profile.extensions);
    TlvLength(TAG_SEQUENCE, Spki(point));
    TlvIsElement(TAG_VERSION, VERSION);
    TlvIsElement(TAG_INTEGER, IntegerContents(serial));
    TlvIsElement(TAG_SEQUENCE, Spki(point));
    TlvIsElement(TAG_EXTENSIONS, profile.extensions);
    var afterNames := key + extensions;
    var names := ECDSA_SHA256 + (profile.subject + (VALIDITY + (profile.subject + afterNames)));
    Regroup(version, number, ECDSA_SHA256, profile.subject, VALIDITY, profile.subject, key, extensions);
    var body := TbsBody(profile, serial, point);
    assert body == version + (number + names);
    assert body[0] == TAG_VERSION by {
      ElementStarts(version, TAG_VERSION);
    }
    AfterElement(version, TAG_VERSION, number + names);
    AfterElement(number, TAG_INTEGER, names);
    AfterFour(ECDSA_SHA256, profile.subject, VALIDITY, profile.subject, TAG_SEQUENCE, afterNames);
    ElementIsLocal(key, TAG_SEQUENCE, extensions);
    assert afterNames[|key|..] == extensions;
  }

  lemma ElementStarts(s: seq<byte>, tag: byte)
    requires IsElement(s, tag)
    ensures s != [] && s[0] == tag
  {
  }

  /**
   Writer and extractor undo each other: for a subject that is one SEQUENCE and an uncompressed
   point, the point read from a certificate that fits its buffer is the one it was built for.
   */
  lemma BuiltCertificateYieldsItsPoint(profile: Profile, serial: seq<byte>, point: seq<byte>, signature: seq<byte>)
    requires |serial| == 16 && |point| == POINT_SIZE && point[0] == 4
    requires IsElement(profile.subject, TAG_SEQUENCE)
    requires |Cert(Tbs(profile, serial, point), signature)| <= CERT_MAX_SIZE
    ensures Extract(Cert(Tbs(profile, serial, point), signature)) == Some(point)
  {
    hide ReadElement, Tlv, ExtractFromTbs, After, TbsBody;
    FixedElements();
    var tbs, bits := Tbs(profile, serial, point), Tlv(TAG_BIT_STRING, [0] + signature);
    var body := tbs + ECDSA_SHA256 + bits;
    TlvLength(TAG_SEQUENCE, body);
    TlvLength(TAG_SEQUENCE, TbsBody(profile, serial, point));
    TlvLength(TAG_BIT_STRING, [0] + signature);
    TlvIsElement(TAG_SEQUENCE, body);
    TlvIsElement(TAG_SEQUENCE, TbsBody(profile, serial, point));
    TlvIsElement(TAG_BIT_STRING, [0] + signature);
    assert body == tbs + (ECDSA_SHA256 + bits);
    ElementIsLocal(tbs, TAG_SEQUENCE, ECDSA_SHA256 + bits);
    assert body[|tbs|..] == ECDSA_SHA256 + bits;
    AfterElement(ECDSA_SHA256, TAG_SEQUENCE, bits);
    ExtractsFromBody(profile, serial, point);
  }

  /** On arbitrary bytes, an extracted point is 65 of the input's bytes in a row and uncompressed. */
  lemma ExtractedPointOccurs(cert: seq<byte>) returns (at: nat)
    requires Extract(cert).Some?
    ensures at + POINT_SIZE <= |cert|
    ensures cert[at..at + POINT_SIZE] == Extract(cert).value && cert[at] == 4
  {
    hide ReadElement;
    var tbsAt := ValueOffset(cert, TAG_SEQUENCE);
    var outer := ReadElement(cert, TAG_SEQUENCE).value.value;
    var innerAt := ValueOffset(outer, TAG_SEQUENCE);
    var tbs := ReadElement(outer, TAG_SEQUENCE).value.value;
    var pointAt := PointOffset(tbs);
    at := tbsAt + innerAt + pointAt;
    SubSlice(cert, outer, tbsAt, innerAt, |tbs|);
    SubSlice(cert, tbs, tbsAt + innerAt, pointAt, POINT_SIZE);
    assert cert[at] == cert[at..at + POINT_SIZE][0];
  }

  lemma SubSlice(s: seq<byte>, t: seq<byte>, at: nat, from: nat, n: nat)
    requires at + |t| <= |s| && t == s[at..at + |t|] && from + n <= |t|
    ensures t[from..from + n] == s[at + from..at + from + n]
  {
    var lo := at + from;
    var left, right := t[from..from + n], s[lo..lo + n];
    forall i | 0 <= i < n
      ensures left[i] == right[i]
    {
      assert t[from + i] == s[at..at + |t|][from + i] == s[lo + i];
    }
  }

  lemma ValueOffset(s: seq<byte>, tag: byte) returns (at: nat)
    requires ReadElement(s, tag).Some?
    ensures var e := ReadElement(s, tag).value; at + |e.value| == e.size && s[at..e.size] == e.value
  {
    at := ReadLength(s).value.headerLen;
  }

  lemma AfterOffset(s: seq<byte>, tag: byte) returns (at: nat)
    requires After(s, tag).Some?
    ensures at <= |s| && After(s, tag).value == s[at..]
  {
    at := ReadElement(s, tag).value.size;
  }

  lemma {:induction false} AfterAllOffset(s: seq<byte>, tag: byte, count: nat) returns (at: nat)
    requires AfterAll(s, tag, count).Some?
    ensures at <= |s| && AfterAll(s, tag, count).value == s[at..]
    decreases count
  {
    hide After;
    at := 0;
    if count > 0 {
      var step := AfterOffset(s, tag);
      var more := AfterAllOffset(After(s, tag).value, tag, count - 1);
      at := step + more;
    }
  }

  /** The walk from the front of a TBSCertificate value to its SubjectPublicKeyInfo. */
  lemma SpkiOffset(tbs: seq<byte>) returns (at: nat, rest: seq<byte>)
    requires ExtractFromTbs(tbs).Some?
    ensures at <= |tbs| && rest == tbs[at..] && ReadElement(rest, TAG_SEQUENCE).Some?
    ensures ExtractFromTbs(tbs) == ExtractPoint(ReadElement(rest, TAG_SEQUENCE).value.value)
  {
    hide After, AfterAll, ReadElement, ExtractPoint, IsElement;
    var body := tbs;
    var a := 0;
    if tbs != [] && tbs[0] == TAG_VERSION {
      a := AfterOffset(tbs, TAG_VERSION);
      body := After(tbs, TAG_VERSION).value;
    }
    var b := AfterOffset(body, TAG_INTEGER);
    var afterSerial := After(body, TAG_INTEGER).value;
    var c := AfterAllOffset(afterSerial, TAG_SEQUENCE, 4);
    rest := AfterAll(afterSerial, TAG_SEQUENCE, 4).value;
    SuffixOfSuffix(tbs, body, a, afterSerial, b);
    SuffixOfSuffix(tbs, afterSerial, a + b, rest, c);
    at := a + b + c;
  }

  lemma PointOffset(tbs: seq<byte>) returns (at: nat)
    requires ExtractFromTbs(tbs).Some?
    ensures at + POINT_SIZE <= |tbs| && tbs[at..at + POINT_SIZE] == ExtractFromTbs(tbs).value && tbs[at] == 4
  {
    hide ExtractFromTbs, ReadElement, ExtractPoint;
    var start, rest := SpkiOffset(tbs);
    var d := ValueOffset(rest, TAG_SEQUENCE);
    var spki := ReadElement(rest, TAG_SEQUENCE).value.value;
    var e := PointInSpki(spki);
    SubSlice(tbs, rest, start, d, |spki|);
    SubSlice(tbs, spki, start + d, e, POINT_SIZE);
    at := start + d + e;
    assert tbs[at] == tbs[at..at + POINT_SIZE][0];
  }

  lemma SuffixOfSuffix(s: seq<byte>, t: seq<byte>, m: nat, u: seq<byte>, n: nat)
    requires m <= |s| && t == s[m..] && n <= |t| && u == t[n..]
    ensures u == s[m + n..]
  {
  }

  lemma PointInSpki(spki: seq<byte>) returns (at: nat)
    requires ExtractPoint(spki).Some?
    ensures at + POINT_SIZE <= |spki| && spki[at..at + POINT_SIZE] == ExtractPoint(spki).value
    ensures ExtractPoint(spki).value[0] == 4
  {
    hide ReadElement;
    var a := AfterOffset(spki, TAG_SEQUENCE);
    var last := After(spki, TAG_SEQUENCE).value;
    var b := ValueOffset(last, TAG_BIT_STRING);
    var bits := ReadElement(last, TAG_BIT_STRING).value.value;
    SubSlice(spki, last, a, b, |bits|);
    SubSlice(spki, bits, a + b, 1, POINT_SIZE);
    at := a + b + 1;
  }

  // The shipped profile of zerofido_attestation.c.

  const SHIPPED_SUBJECT: seq<byte> := [0x30, 0x72] +
    [0x31, 0x0B, 0x30, 0x09, 0x06, 0x03, 0x55, 0x04, 0x06, 0x13, 0x02, 0x42, 0x47, 0x31,
     0x11, 0x30, 0x0F, 0x06, 0x03, 0x55, 0x04, 0x0A, 0x0C, 0x08, 0x5A, 0x65, 0x72, 0x6F, 0x46, 0x49,
     0x44, 0x4F, 0x31, 0x22, 0x30, 0x20, 0x06, 0x03, 0x55, 0x04, 0x0B, 0x0C, 0x19, 0x41, 0x75, 0x74,
     0x68, 0x65, 0x6E, 0x74, 0x69, 0x63, 0x61, 0x74, 0x6F, 0x72, 0x20, 0x41, 0x74, 0x74, 0x65, 0x73,
     0x74, 0x61, 0x74, 0x69, 0x6F, 0x6E, 0x31, 0x2C, 0x30, 0x2A, 0x06, 0x03, 0x55, 0x04, 0x03, 0x0C,
     0x23, 0x5A, 0x65, 0x72, 0x6F, 0x46, 0x49, 0x44, 0x4F, 0x20, 0x4C, 0x6F, 0x63, 0x61, 0x6C, 0x20,
     0x53, 0x6F, 0x66, 0x74, 0x77, 0x61, 0x72, 0x65, 0x20, 0x41, 0x74, 0x74, 0x65, 0x73, 0x74, 0x61,
     0x74, 0x69, 0x6F, 0x6E]

  const SHIPPED_EXTENSIONS: seq<byte> :=
    [0x30, 0x41, 0x30, 0x0C, 0x06, 0x03, 0x55, 0x1D, 0x13, 0x01, 0x01, 0xFF, 0x04, 0x02, 0x30, 0x00,
     0x30, 0x0E, 0x06, 0x03, 0x55, 0x1D, 0x0F, 0x01, 0x01, 0xFF, 0x04, 0x04, 0x03, 0x02, 0x07, 0x80,
     0x30, 0x21, 0x06, 0x0B, 0x2B, 0x06, 0x01, 0x04, 0x01, 0x82, 0xE5, 0x1C, 0x01, 0x01, 0x04, 0x04,
     0x12, 0x04, 0x10, 0xB5, 0x1A, 0x97, 0x6A, 0x0B, 0x02, 0x40, 0xAA, 0x9D, 0x8A, 0x36, 0xC8, 0xB9,
     0x1B, 0xBD, 0x1A]

  lemma ShippedSubjectIsSequence()
    ensures IsElement(SHIPPED_SUBJECT, TAG_SEQUENCE)
    ensures |SHIPPED_SUBJECT| == 116 && |SHIPPED_EXTENSIONS| == 67
  {
  }

  /** The shipped profile leaves room in both buffers, whatever the serial, the key and the signature. */
  lemma ShippedProfileFits(serial: seq<byte>, point: seq<byte>, r: seq<byte>, s: seq<byte>)
    requires |serial| == 16 && 1 <= serial[0] < 0x80 && |point| == POINT_SIZE && |r| == |s| == 32
    ensures var tbs := Tbs(Profile(SHIPPED_SUBJECT, SHIPPED_EXTENSIONS), serial, point);
      |tbs| == 463 <= TBS_MAX_SIZE && |Cert(tbs, SignatureBytes(r, s))| <= 554 <= CERT_MAX_SIZE
  {
    ShippedSubjectIsSequence();
    hide Tlv, SHIPPED_SUBJECT, SHIPPED_EXTENSIONS, SignatureBytes;
    var profile := Profile(SHIPPED_SUBJECT, SHIPPED_EXTENSIONS);
    assert IntegerContents(serial) == serial;
    TlvLength(TAG_VERSION, VERSION);
    TlvLength(TAG_INTEGER, serial);
    TlvLength(TAG_BIT_STRING, [0] + point);
    TlvLength(TAG_SEQUENCE, Spki(point));
    TlvLength(TAG_EXTENSIONS, profile.extensions);
    TlvLength(TAG_SEQUENCE, TbsBody(profile, serial, point));
    var tbs, bits := Tbs(profile, serial, point), Tlv(TAG_BIT_STRING, [0] + SignatureBytes(r, s));
    TlvLength(TAG_BIT_STRING, [0] + SignatureBytes(r, s));
    TlvLength(TAG_SEQUENCE, tbs + ECDSA_SHA256 + bits);
  }
}
