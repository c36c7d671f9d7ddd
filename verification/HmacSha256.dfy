/** HMAC-SHA-256 over a message in two parts, and single-block HKDF, on top of the streaming hash. */
module HmacSha256 {
  import opened Bytes
  import opened Sha256

  function XorByte(b: byte, mask: byte): byte {
    ((b as bv8) ^ (mask as bv8)) as int
  }

  function XorAll(block: seq<byte>, mask: byte): (r: seq<byte>)
    ensures |r| == |block|
  {
    seq(|block|, i requires 0 <= i < |block| => XorByte(block[i], mask))
  }

  /** Steps 1 and 2 of section 2 of RFC 2104: the key, hashed when longer than a block, zero-filled. */
  function KeyBlock(key: seq<byte>): (block: seq<byte>)
    ensures |block| == 64
  {
    var k := if |key| > 64 then Hash(key) else key;
    k + Fill(0, 64 - |k|)
  }

  /** Section 2 of RFC 2104. */
  function Hmac(key: seq<byte>, text: seq<byte>): (mac: seq<byte>)
    ensures |mac| == 32
  {
    Hash(XorAll(KeyBlock(key), 0x5C) + Hash(XorAll(KeyBlock(key), 0x36) + text))
  }

  /** The block T(n) of section 2.3 of RFC 5869. */
  function ExpandBlock(prk: seq<byte>, info: seq<byte>, n: nat): (t: seq<byte>)
    requires n <= 255
    ensures |t| == if n == 0 then 0 else 32
  {
    hide Hmac;
    if n == 0 then [] else Hmac(prk, ExpandBlock(prk, info, n - 1) + info + [n])
  }

  function ExpandBlocks(prk: seq<byte>, info: seq<byte>, n: nat): (t: seq<byte>)
    requires n <= 255
    ensures |t| == 32 * n
  {
    if n == 0 then [] else ExpandBlocks(prk, info, n - 1) + ExpandBlock(prk, info, n)
  }

  /** Sections 2.2 and 2.3 of RFC 5869: extract, then the first `length` bytes of the expansion. */
  function Hkdf(salt: seq<byte>, ikm: seq<byte>, info: seq<byte>, length: nat): (okm: seq<byte>)
    requires length <= 255 * 32
    ensures |okm| == length
  {
    ExpandBlocks(Hmac(salt, ikm), info, (length + 31) / 32)[..length]
  }

  lemma OneBlockHkdf(salt: seq<byte>, ikm: seq<byte>, info: seq<byte>)
    ensures Hkdf(salt, ikm, info, 32) == Hmac(Hmac(salt, ikm), info + [1])
  {
    hide Hmac;
    var prk := Hmac(salt, ikm);
    assert ExpandBlock(prk, info, 0) == [] && [] + info + [1] == info + [1];
    assert ExpandBlocks(prk, info, 0) == [] && ExpandBlocks(prk, info, 1) == [] + ExpandBlock(prk, info, 1);
    assert ExpandBlock(prk, info, 1)[..32] == ExpandBlock(prk, info, 1);
  }

  /** `ZfHmacSha256Scratch`. */
  class Scratch {
    const sha: Context
    const keyBlock: array<byte>
    const pad: array<byte>

    ghost predicate Valid()
      reads this, sha
    {
      keyBlock.Length == 64 && pad.Length == 64 && keyBlock != pad &&
      sha.Allocated() && Separate()
    }

    ghost predicate Separate() {
      {sha.state as object, sha.buffer} !! {keyBlock, pad}
    }

    ghost function Footprint(): set<object>
      reads this
    {
      {sha, sha.state, sha.buffer, keyBlock, pad}
    }

    constructor ()
      ensures Valid() && fresh(Footprint())
    {
      sha := new Context();
      keyBlock := new byte[64](_ => 0);
      pad := new byte[64](_ => 0);
    }

    /** The key preparation at the top of `zf_hmac_sha256_parts_with_scratch`. */
    method PrepareKey(key: seq<byte>)
      requires Valid()
      modifies Footprint()
      ensures Valid() && keyBlock[..] == KeyBlock(key)
    {
      hide Hash, Absorbed, BitCount;
      var k := key;
      if |key| > 64 {
        sha.Init();
        sha.Update(key);
        assert sha.message == key;
        k := sha.Finish();
      }
      assert k == if |key| > 64 then Hash(key) else key;
      forall i | 0 <= i < 64 {
        keyBlock[i] := if i < |k| then k[i] else 0;
      }
      assert keyBlock[..] == k + Fill(0, 64 - |k|);
    }

    method FillPad(mask: byte)
      requires Valid()
      modifies pad
      ensures pad[..] == XorAll(keyBlock[..], mask) && keyBlock[..] == old(keyBlock[..])
    {
      hide XorByte, Absorbed, BitCount;
      for i := 0 to 64
        invariant forall j :: 0 <= j < i ==> pad[j] == XorByte(keyBlock[j], mask)
        invariant keyBlock[..] == old(keyBlock[..])
      {
        pad[i] := XorByte(keyBlock[i], mask);
      }
    }

    /** One pass of the hash over the pad and up to two further parts, empty ones left out. */
    method DigestParts(first: seq<byte>, second: seq<byte>) returns (digest: seq<byte>)
      requires Valid()
      modifies Footprint()
      ensures Valid() && keyBlock[..] == old(keyBlock[..]) && digest == Hash(old(pad[..]) + (first + second))
    {
      hide Hash, Absorbed, BitCount;
      sha.Init();
      sha.Update(pad[..]);
      ghost var prefix := old(pad[..]);
      assert sha.message == prefix;
      if |first| > 0 {
        sha.Update(first);
      }
      assert sha.message == prefix + first;
      if |second| > 0 {
        sha.Update(second);
      }
      assert prefix + first + second == prefix + (first + second);
      assert sha.message == prefix + (first + second);
      digest := sha.Finish();
    }

    /** `zf_hmac_sha256_parts_with_scratch`. */
    method Parts(key: seq<byte>, first: seq<byte>, second: seq<byte>) returns (mac: seq<byte>)
      requires Valid()
      modifies Footprint()
      ensures Valid() && mac == Hmac(key, first + second)
    {
      hide Hash, XorAll, KeyBlock, Absorbed, BitCount;
      PrepareKey(key);
      FillPad(0x36);
      var innerHash := DigestParts(first, second);
      FillPad(0x5C);
      mac := DigestParts(innerHash, []);
      assert innerHash + [] == innerHash;
    }
  }

  /** `zf_hmac_sha256`. */
  method HmacSha256(key: seq<byte>, data: seq<byte>) returns (mac: seq<byte>)
    ensures mac == Hmac(key, data)
  {
    hide Hmac, Hash, Absorbed, BitCount;
    var scratch := new Scratch();
    mac := scratch.Parts(key, data, []);
    assert data + [] == data;
  }

  /** `zf_hkdf_sha256`: refuses an info string that leaves no room for the counter byte. */
  method HkdfSha256(salt: seq<byte>, ikm: seq<byte>, info: seq<byte>) returns (okm: Option<seq<byte>>)
    ensures okm == if |info| + 1 <= 64 then Some(Hkdf(salt, ikm, info, 32)) else None
  {
    if |info| + 1 > 64 {
      return None;
    }
    var prk := HmacSha256(salt, ikm);
    var out := HmacSha256(prk, info + [1]);
    OneBlockHkdf(salt, ikm, info);
    okm := Some(out);
  }
}
