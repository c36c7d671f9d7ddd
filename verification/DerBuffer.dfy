/** The bounded DER writer of attestation/local.c. */
module DerBuffer {
  import opened Bytes
  import opened Der
  import opened EcdsaDer

  /** `zf_der_length_size`. */
  function LengthSize(n: nat): nat {
    if n < 0x80 then 1 else if n <= 0xFF then 2 else 3
  }

  function TlvSize(n: nat): nat {
    1 + LengthSize(n) + n
  }

  /** The stripping loop of `zf_der_append_integer`. */
  method MinimalContents(value: seq<byte>) returns (contents: seq<byte>)
    requires 1 <= |value| <= 32
    ensures contents == IntegerContents(value)
  {
    var offset := 0;
    assert value[0..] == value;
    while offset + 1 < |value| && value[offset] == 0
      invariant offset < |value| && StripZeros(value[offset..]) == StripZeros(value)
    {
      assert value[offset..][1..] == value[offset + 1..];
      offset := offset + 1;
    }
    contents := if value[offset] >= 0x80 then [0] else [];
    contents := contents + value[offset..];
  }

  /** `ZfDerBuffer`; the buffers of the certificate writer are far below 64 KiB. */
  class Buffer {
    const data: array<byte>
    var len: nat

    ghost predicate Valid()
      reads this
    {
      len <= data.Length <= 0xFFFF
    }

    ghost function Contents(): seq<byte>
      reads this, data
      requires Valid()
    {
      data[..len]
    }

    constructor (capacity: nat)
      requires capacity <= 0xFFFF
      ensures Valid() && Contents() == [] && data.Length == capacity && fresh(data)
    {
      data := new byte[capacity](_ => 0);
      len := 0;
    }

    /** `zf_der_append`. */
    method Append(bytes: seq<byte>) returns (ok: bool)
      requires Valid()
      modifies this, data
      ensures Valid() && old(Contents()) <= Contents()
      ensures ok <==> |bytes| <= data.Length - old(len)
      ensures Contents() == if ok then old(Contents()) + bytes else old(Contents())
    {
      if |bytes| > data.Length - len {
        return false;
      }
      forall i | 0 <= i < |bytes| {
        data[len + i] := bytes[i];
      }
      len := len + |bytes|;
      ok := true;
    }

    /** `zf_der_append_length`. */
    method AppendLength(n: nat) returns (ok: bool)
      requires Valid()
      modifies this, data
      ensures Valid() && old(Contents()) <= Contents()
      ensures ok <==> LengthSize(n) <= data.Length - old(len)
      ensures len == if ok then old(len) + LengthSize(n) else old(len)
      ensures ok ==> Contents() == old(Contents()) + EncodeLength(n)
    {
      var size := LengthSize(n);
      if size == 1 {
        ok := Append([n]);
      } else if size == 2 {
        ok := Append([0x81, n]);
      } else {
        ok := Append([0x82, n / 0x100 % 0x100, n % 0x100]);
      }
    }

    /** `zf_der_append_tlv`. */
    method AppendTlv(tag: byte, value: seq<byte>) returns (ok: bool)
      requires Valid()
      modifies this, data
      ensures Valid() && old(Contents()) <= Contents()
      ensures ok <==> TlvSize(|value|) <= data.Length - old(len)
      ensures ok ==> Contents() == old(Contents()) + Tlv(tag, value)
    {
      ghost var before := Contents();
      ok := Append([tag]);
      if ok {
        ok := AppendLength(|value|);
      }
      if ok {
        ok := Append(value);
      }
      if ok {
        assert Contents() == before + [tag] + EncodeLength(|value|) + value;
      }
    }

    /** `zf_der_append_integer`. */
    method AppendInteger(value: seq<byte>) returns (ok: bool)
      requires Valid() && 1 <= |value| <= 32
      modifies this, data
      ensures Valid() && old(Contents()) <= Contents()
      ensures ok <==> TlvSize(|IntegerContents(value)|) <= data.Length - old(len)
      ensures ok ==> Contents() == old(Contents()) + Tlv(TAG_INTEGER, IntegerContents(value))
    {
      var contents := MinimalContents(value);
      ok := AppendTlv(TAG_INTEGER, contents);
    }

    /** `zf_der_append_bit_string`: a leading octet says that no bits are unused. */
    method AppendBitString(value: seq<byte>, scratchCapacity: nat) returns (ok: bool)
      requires Valid()
      modifies this, data
      ensures Valid() && old(Contents()) <= Contents()
      ensures ok <==> |value| + 1 <= scratchCapacity && TlvSize(|value| + 1) <= data.Length - old(len)
      ensures ok ==> Contents() == old(Contents()) + Tlv(TAG_BIT_STRING, [0] + value)
    {
      if scratchCapacity == 0 || |value| > scratchCapacity - 1 {
        return false;
      }
      ok := AppendTlv(TAG_BIT_STRING, [0] + value);
    }

    /** Tag and length in front of `n` bytes that have made room for them. */
    method WriteHeader(tag: byte, n: nat)
      requires 1 + LengthSize(n) <= data.Length && n < 0x1_0000
      modifies data
      ensures data[..1 + LengthSize(n)] == [tag] + EncodeLength(n)
      ensures data[1 + LengthSize(n)..] == old(data[1 + LengthSize(n)..])
    {
      data[0] := tag;
      if LengthSize(n) == 1 {
        data[1] := n;
      } else if LengthSize(n) == 2 {
        data[1], data[2] := 0x81, n;
      } else {
        data[1], data[2], data[3] := 0x82, n / 0x100, n % 0x100;
      }
    }

    /** `zf_der_wrap_tlv_in_place`: the contents move up and become the value of one element. */
    method WrapTlvInPlace(tag: byte) returns (ok: bool)
      requires Valid()
      modifies this, data
      ensures Valid()
      ensures ok <==> TlvSize(old(len)) <= data.Length
      ensures Contents() == if ok then Tlv(tag, old(Contents())) else old(Contents())
    {
      ghost var before := Contents();
      var n := len;
      var headerLen := 1 + LengthSize(n);
      if headerLen > data.Length || n > data.Length - headerLen {
        return false;
      }
      forall i | 0 <= i < n {
        data[headerLen + i] := data[i];
      }
      assert data[headerLen..][..n] == before;
      WriteHeader(tag, n);
      len := n + headerLen;
      assert Contents() == data[..headerLen] + data[headerLen..][..n];
      ok := true;
    }
  }
}
