/** Streaming SHA-256 against the one-shot definition of FIPS 180-4. */
module Sha256 {
  import opened Bytes

  /** A 32-bit word; the bitwise operations go through bit vectors, addition is modulo 2^32. */
  type Word = uint32

  // Functions and constants of sections 4.1.2 and 4.2.2 of FIPS 180-4.

  function Xor(x: Word, y: Word): Word {
    ((x as bv32) ^ (y as bv32)) as int
  }

  function And(x: Word, y: Word): Word {
    ((x as bv32) & (y as bv32)) as int
  }

  function Not(x: Word): Word {
    UINT32_MAX - x
  }

  function Shr(x: Word, n: nat): Word
    requires n <= 32
  {
    ((x as bv32) >> n) as int
  }

  function Rotr(x: Word, n: nat): Word
    requires n <= 32
  {
    (((x as bv32) >> n) | ((x as bv32) << (32 - n))) as int
  }

  function Plus(x: Word, y: Word): Word {
    (x + y) % 0x1_0000_0000
  }

  lemma PlusCarries(x: nat, y: nat)
    ensures (x % 0x1_0000_0000 + y) % 0x1_0000_0000 == (x + y) % 0x1_0000_0000
  {
  }

  /** Intermediate reductions do not matter. */
  lemma PlusChain(a: Word, b: Word, c: Word, d: Word)
    ensures Plus(Plus(Plus(a, b), c), d) == (a + b + c + d) % 0x1_0000_0000
  {
    PlusCarries(a + b, c);
    PlusCarries(a + b + c, d);
  }

  function Sigma0(x: Word): Word {
    Xor(Xor(Rotr(x, 2), Rotr(x, 13)), Rotr(x, 22))
  }

  function Sigma1(x: Word): Word {
    Xor(Xor(Rotr(x, 6), Rotr(x, 11)), Rotr(x, 25))
  }

  function SmallSigma0(x: Word): Word {
    Xor(Xor(Rotr(x, 7), Rotr(x, 18)), Shr(x, 3))
  }

  function SmallSigma1(x: Word): Word {
    Xor(Xor(Rotr(x, 17), Rotr(x, 19)), Shr(x, 10))
  }

  function Ch(x: Word, y: Word, z: Word): Word {
    Xor(And(x, y), And(Not(x), z))
  }

  function Maj(x: Word, y: Word, z: Word): Word {
    Xor(Xor(And(x, y), And(x, z)), And(y, z))
  }

  function K0(): (k: seq<Word>)
    ensures |k| == 16
  {
    [0x428A2F98, 0x71374491, 0xB5C0FBCF, 0xE9B5DBA5, 0x3956C25B, 0x59F111F1, 0x923F82A4, 0xAB1C5ED5,
     0xD807AA98, 0x12835B01, 0x243185BE, 0x550C7DC3, 0x72BE5D74, 0x80DEB1FE, 0x9BDC06A7, 0xC19BF174]
  }

  function K1(): (k: seq<Word>)
    ensures |k| == 16
  {
    [0xE49B69C1, 0xEFBE4786, 0x0FC19DC6, 0x240CA1CC, 0x2DE92C6F, 0x4A7484AA, 0x5CB0A9DC, 0x76F988DA,
     0x983E5152, 0xA831C66D, 0xB00327C8, 0xBF597FC7, 0xC6E00BF3, 0xD5A79147, 0x06CA6351, 0x14292967]
  }

  function K2(): (k: seq<Word>)
    ensures |k| == 16
  {
    [0x27B70A85, 0x2E1B2138, 0x4D2C6DFC, 0x53380D13, 0x650A7354, 0x766A0ABB, 0x81C2C92E, 0x92722C85,
     0xA2BFE8A1, 0xA81A664B, 0xC24B8B70, 0xC76C51A3, 0xD192E819, 0xD6990624, 0xF40E3585, 0x106AA070]
  }

  function K3(): (k: seq<Word>)
    ensures |k| == 16
  {
    [0x19A4C116, 0x1E376C08, 0x2748774C, 0x34B0BCB5, 0x391C0CB3, 0x4ED8AA4A, 0x5B9CCA4F, 0x682E6FF3,
     0x748F82EE, 0x78A5636F, 0x84C87814, 0x8CC70208, 0x90BEFFFA, 0xA4506CEB, 0xBEF9A3F7, 0xC67178F2]
  }

  /** The sixty-four constant words. */
  function K(): (k: seq<Word>)
    ensures |k| == 64
  {
    hide K0, K1, K2, K3;
    K0() + K1() + K2() + K3()
  }

  // The compression function of section 6.2.2 of FIPS 180-4.

  datatype Working = Working(a: Word, b: Word, c: Word, d: Word, e: Word, f: Word, g: Word, h: Word)

  const INITIAL: Working :=
    Working(0x6A09E667, 0xBB67AE85, 0x3C6EF372, 0xA54FF53A, 0x510E527F, 0x9B05688C, 0x1F83D9AB, 0x5BE0CD19)

  type Block = s: seq<byte> | |s| == 64 witness Fill(0, 64)

  /** The `t`-th word of a block, most significant byte first. */
  function BlockWord(block: Block, t: nat): Word
    requires t < 16
  {
    LoadBe32(block[4 * t], block[4 * t + 1], block[4 * t + 2], block[4 * t + 3])
  }

  function LoadBe32(b0: byte, b1: byte, b2: byte, b3: byte): Word {
    Word32(b0, b1, b2, b3)
  }

  /** Step 1: the message schedule. */
  function Schedule(block: Block, t: nat): Word
    requires t < 64
  {
    if t < 16 then BlockWord(block, t)
    else (SmallSigma1(Schedule(block, t - 2)) + Schedule(block, t - 7) +
          SmallSigma0(Schedule(block, t - 15)) + Schedule(block, t - 16)) % 0x1_0000_0000
  }

  /** Step 3: the working variables after one more round with `kw`, the constant plus the scheduled word. */
  function Round(v: Working, k: Word, w: Word): Working {
    var t1 := Plus(Plus(Plus(Plus(v.h, Sigma1(v.e)), Ch(v.e, v.f, v.g)), k), w);
    var t2 := Plus(Sigma0(v.a), Maj(v.a, v.b, v.c));
    Working(Plus(t1, t2), v.a, v.b, v.c, Plus(v.d, t1), v.e, v.f, v.g)
  }

  function Rounds(v: Working, block: Block, t: nat): Working
    requires t <= 64
  {
    if t == 0 then v else Round(Rounds(v, block, t - 1), K()[t - 1], Schedule(block, t - 1))
  }

  /** Steps 2 to 4: the next intermediate hash value. */
  function Compress(v: Working, block: Block): Working {
    var r := Rounds(v, block, 64);
    Working(Plus(v.a, r.a), Plus(v.b, r.b), Plus(v.c, r.c), Plus(v.d, r.d),
            Plus(v.e, r.e), Plus(v.f, r.f), Plus(v.g, r.g), Plus(v.h, r.h))
  }

  lemma WholeBlocks(length: nat)
    requires length > 0 && length % 64 == 0
    ensures length >= 64 && (length - 64) % 64 == 0
  {
  }

  /** The compression function folded over the complete blocks of `message`. */
  function CompressAll(v: Working, message: seq<byte>): Working
    requires |message| % 64 == 0
  {
    hide Compress;
    if message == [] then v
    else
      WholeBlocks(|message|);
      Compress(CompressAll(v, message[..|message| - 64]), message[|message| - 64..])
  }

  /** How many zero bytes separate the 0x80 marker from the eight length bytes. */
  function PaddingZeros(length: nat): (zeros: nat)
    ensures zeros < 64 && (length + 1 + zeros) % 64 == 56
  {
    if length % 64 <= 55 then 55 - length % 64 else 119 - length % 64
  }

  /** The 64-bit length field counts bits modulo 2^64, as the context does. */
  function BitCount(length: nat): uint64 {
    8 * length % 0x1_0000_0000_0000_0000
  }

  /** The message up to its length field. */
  function Marked(message: seq<byte>): (m: seq<byte>)
    ensures |m| == |message| + 1 + PaddingZeros(|message|)
  {
    message + [0x80] + Fill(0, PaddingZeros(|message|))
  }

  lemma PaddedLength(length: nat, zeros: nat)
    requires (length + zeros) % 64 == 56
    ensures (length + zeros + 8) % 64 == 0
  {
  }

  /** Section 5.1.1 of FIPS 180-4. */
  function Padded(message: seq<byte>): (p: seq<byte>)
    ensures |p| % 64 == 0
  {
    hide Marked, PaddingZeros, BitCount, ToBigEndian;
    PaddedLength(|message| + 1, PaddingZeros(|message|));
    Marked(message) + ToBigEndian(BitCount(|message|), 8)
  }

  function StoreBe32(w: Word): (s: seq<byte>)
    ensures |s| == 4
  {
    ToBigEndian(w, 4)
  }

  function Output(v: Working): (s: seq<byte>)
    ensures |s| == 32
  {
    StoreBe32(v.a) + StoreBe32(v.b) + StoreBe32(v.c) + StoreBe32(v.d) +
    StoreBe32(v.e) + StoreBe32(v.f) + StoreBe32(v.g) + StoreBe32(v.h)
  }

  /** The SHA-256 digest of a message. */
  function Hash(message: seq<byte>): (digest: seq<byte>)
    ensures |digest| == 32
  {
    Output(CompressAll(INITIAL, Padded(message)))
  }

  lemma CompressOneMore(v: Working, message: seq<byte>, block: Block)
    requires |message| % 64 == 0
    ensures CompressAll(v, message + block) == Compress(CompressAll(v, message), block)
  {
  }

  /** Complete blocks of `m` have been folded into `v`; the rest is still `pending`. */
  ghost predicate Absorbed(m: seq<byte>, v: Working, pending: seq<byte>) {
    && |pending| == |m| % 64
    && pending == m[|m| - |pending|..]
    && v == CompressAll(INITIAL, m[..|m| - |pending|])
  }

  lemma AbsorbNothing()
    ensures Absorbed([], INITIAL, [])
  {
  }

  lemma AbsorbPart(m: seq<byte>, v: Working, pending: seq<byte>, part: seq<byte>)
    requires Absorbed(m, v, pending) && |pending| + |part| < 64
    ensures Absorbed(m + part, v, pending + part)
  {
    hide CompressAll;
    assert (m + part)[..|m| - |pending|] == m[..|m| - |pending|];
  }

  lemma AbsorbBlock(m: seq<byte>, v: Working, pending: seq<byte>, part: seq<byte>)
    requires Absorbed(m, v, pending) && |pending| + |part| == 64
    ensures Absorbed(m + part, Compress(v, pending + part), [])
  {
    hide Compress;
    var blocks := m[..|m| - |pending|];
    assert (m + part)[..|m + part|] == blocks + (pending + part);
    CompressOneMore(INITIAL, blocks, pending + part);
  }

  /** The first two loops of `zf_sha256_transform`. */
  method ExpandSchedule(block: Block) returns (w: array<Word>)
    ensures fresh(w) && w.Length == 64
    ensures forall t :: 0 <= t < 64 ==> w[t] == Schedule(block, t)
  {
    hide Schedule, Plus, SmallSigma0, SmallSigma1, LoadBe32;
    w := new Word[64](_ => 0);
    for i := 0 to 16
      invariant forall t :: 0 <= t < i ==> w[t] == Schedule(block, t)
    {
      ScheduleStart(block, i);
      w[i] := LoadBe32(block[4 * i], block[4 * i + 1], block[4 * i + 2], block[4 * i + 3]);
    }
    for i := 16 to 64
      invariant forall t :: 0 <= t < i ==> w[t] == Schedule(block, t)
    {
      var s0 := SmallSigma0(w[i - 15]);
      var s1 := SmallSigma1(w[i - 2]);
      ScheduleStep(block, i);
      w[i] := Plus(Plus(Plus(w[i - 16], s0), w[i - 7]), s1);
    }
  }

  lemma ScheduleStart(block: Block, t: nat)
    requires t < 16
    ensures Schedule(block, t) == LoadBe32(block[4 * t], block[4 * t + 1], block[4 * t + 2], block[4 * t + 3])
  {
  }

  lemma ScheduleStep(block: Block, t: nat)
    requires 16 <= t < 64
    ensures Schedule(block, t) == Plus(Plus(Plus(Schedule(block, t - 16), SmallSigma0(Schedule(block, t - 15))),
                                            Schedule(block, t - 7)), SmallSigma1(Schedule(block, t - 2)))
  {
    hide Plus, SmallSigma0, SmallSigma1, BlockWord;
    PlusChain(Schedule(block, t - 16), SmallSigma0(Schedule(block, t - 15)),
              Schedule(block, t - 7), SmallSigma1(Schedule(block, t - 2)));
  }

  lemma RoundsStep(v: Working, block: Block, t: nat)
    requires t < 64
    ensures Rounds(v, block, t + 1) == Round(Rounds(v, block, t), K()[t], Schedule(block, t))
  {
  }

  /** The 64 rounds of `zf_sha256_transform` on its eight local variables. */
  method RunRounds(v: Working, w: array<Word>, ghost block: Block) returns (r: Working)
    requires w.Length == 64 && forall t :: 0 <= t < 64 ==> w[t] == Schedule(block, t)
    ensures r == Rounds(v, block, 64)
  {
    var a, b, c, d, e, f, g, h := v.a, v.b, v.c, v.d, v.e, v.f, v.g, v.h;
    hide Rounds, Schedule, K, Plus, Rotr, Xor, And, Not;
    RoundsStart(v, block);
    for i := 0 to 64
      invariant Working(a, b, c, d, e, f, g, h) == Rounds(v, block, i)
    {
      RoundsStep(v, block, i);
      var s1 := Xor(Xor(Rotr(e, 6), Rotr(e, 11)), Rotr(e, 25));
      var ch := Xor(And(e, f), And(Not(e), g));
      var temp1 := Plus(Plus(Plus(Plus(h, s1), ch), K()[i]), w[i]);
      var s0 := Xor(Xor(Rotr(a, 2), Rotr(a, 13)), Rotr(a, 22));
      var maj := Xor(Xor(And(a, b), And(a, c)), And(b, c));
      var temp2 := Plus(s0, maj);
      h := g;
      g := f;
      f := e;
      e := Plus(d, temp1);
      d := c;
      c := b;
      b := a;
      a := Plus(temp1, temp2);
    }
    r := Working(a, b, c, d, e, f, g, h);
  }

  lemma RoundsStart(v: Working, block: Block)
    ensures Rounds(v, block, 0) == v
  {
  }

  /** The 64-bit bit counter wraps consistently. */
  lemma BitsAdd(length: nat, more: nat)
    ensures (BitCount(length) + 8 * more) % 0x1_0000_0000_0000_0000 == BitCount(length + more)
  {
  }

  /** `ZfSha256Context`.  `message` is what has been hashed so far. */
  class Context {
    const state: array<Word>
    const buffer: array<byte>
    var bufferLen: nat
    var bitCount: uint64
    ghost var message: seq<byte>

    ghost predicate Allocated()
      reads this
    {
      state.Length == 8 && buffer.Length == 64 && bufferLen < 64
    }

    ghost function Pending(): seq<byte>
      reads this, buffer
      requires Allocated()
    {
      buffer[..bufferLen]
    }

    /** The intermediate hash value held in `state`. */
    ghost function Value(): Working
      reads this, state
      requires Allocated()
    {
      Working(state[0], state[1], state[2], state[3], state[4], state[5], state[6], state[7])
    }

    ghost predicate Valid()
      reads this, state, buffer
    {
      Allocated() && Absorbed(message, Value(), Pending()) && bitCount == BitCount(|message|)
    }

    constructor ()
      ensures Valid() && message == [] && fresh(state) && fresh(buffer)
    {
      state := new Word[8];
      buffer := new byte[64](_ => 0);
      bufferLen := 0;
      bitCount := 0;
      message := [];
      new;
      Init();
    }

    /** `zf_sha256_init`. */
    method Init()
      requires Allocated()
      modifies this, state, buffer
      ensures Valid() && message == []
    {
      hide Absorbed;
      AbsorbNothing();
      forall i | 0 <= i < 64 {
        buffer[i] := 0;
      }
      bufferLen, bitCount, message := 0, 0, [];
      state[0] := 0x6A09E667;
      state[1] := 0xBB67AE85;
      state[2] := 0x3C6EF372;
      state[3] := 0xA54FF53A;
      state[4] := 0x510E527F;
      state[5] := 0x9B05688C;
      state[6] := 0x1F83D9AB;
      state[7] := 0x5BE0CD19;
      assert Value() == INITIAL && Pending() == [];
    }

    /** `zf_sha256_transform`. */
    method Transform(block: Block)
      requires Allocated()
      modifies state
      ensures Value() == Compress(old(Value()), block)
    {
      hide Rounds, Plus, Schedule;
      var w := ExpandSchedule(block);
      var r := RunRounds(Working(state[0], state[1], state[2], state[3], state[4], state[5], state[6], state[7]), w,
                         block);
      state[0] := Plus(state[0], r.a);
      state[1] := Plus(state[1], r.b);
      state[2] := Plus(state[2], r.c);
      state[3] := Plus(state[3], r.d);
      state[4] := Plus(state[4], r.e);
      state[5] := Plus(state[5], r.f);
      state[6] := Plus(state[6], r.g);
      state[7] := Plus(state[7], r.h);
    }

    /** As much of the data as the buffer still takes. */
    method Take(part: seq<byte>)
      requires Allocated() && bufferLen + |part| <= 64
      modifies buffer
      ensures buffer[..bufferLen + |part|] == old(Pending()) + part
    {
      forall i | 0 <= i < |part| {
        buffer[bufferLen + i] := part[i];
      }
    }

    /** `zf_sha256_update`. */
    method Update(data: seq<byte>)
      requires Valid()
      modifies this, state, buffer
      ensures Valid() && message == old(message) + data
    {
      hide Absorbed, Compress, BitCount;
      BitsAdd(|message|, |data|);
      bitCount := (bitCount + 8 * |data|) % 0x1_0000_0000_0000_0000;
      var done := 0;
      ghost var before := message;
      assert before + data[..0] == before;
      while done < |data|
        invariant done <= |data| && Allocated()
        invariant Absorbed(before + data[..done], Value(), Pending())
        invariant bitCount == BitCount(|before| + |data|) && message == before
      {
        var chunk := 64 - bufferLen;
        if chunk > |data| - done {
          chunk := |data| - done;
        }
        ghost var taken, value, pending, part := before + data[..done], Value(), Pending(), data[done..done + chunk];
        assert before + data[..done + chunk] == taken + part;
        Take(data[done..done + chunk]);
        done := done + chunk;
        if bufferLen + chunk == 64 {
          AbsorbBlock(taken, value, pending, part);
          assert buffer[..] == pending + part;
          Transform(buffer[..]);
          bufferLen := 0;
        } else {
          AbsorbPart(taken, value, pending, part);
          bufferLen := bufferLen + chunk;
        }
      }
      message := before + data;
      assert data[..done] == data;
    }

    /** The padding `zf_sha256_finish` feeds through `Update`, up to the length field. */
    method Pad()
      requires Valid()
      modifies this, state, buffer
      ensures Valid() && message == Marked(old(message)) && bufferLen == 56
    {
      hide Absorbed, BitCount, Marked;
      ghost var original := message;
      PendingLength();
      ghost var pending := bufferLen;
      MarkedSplits(original, pending);
      MarkedLength(original);
      var tail: seq<byte> := [0x80] + Fill(0, 63);
      if bufferLen > 55 {
        Update(tail[..64 - bufferLen]);
        BoundaryReached(|original|, pending);
        PendingLength();
        tail := Fill(0, 64);
      }
      Update(tail[..56 - bufferLen]);
      PendingLength();
    }

    lemma PendingLength()
      requires Valid()
      ensures bufferLen == |message| % 64
    {
    }

    /** `zf_sha256_finish`. */
    method Finish() returns (digest: seq<byte>)
      requires Valid()
      modifies this, state, buffer
      ensures Allocated() && digest == Hash(old(message))
    {
      hide CompressAll, Compress, Marked, StoreBe32, BitCount;
      ghost var original := message;
      var messageBits := bitCount;
      Pad();
      ghost var before := message[..|message| - 56];
      var length := ToBigEndian(messageBits, 8);
      forall i | 0 <= i < 8 {
        buffer[56 + i] := length[i];
      }
      assert buffer[..] == message[|message| - 56..] + length;
      assert Padded(original) == before + buffer[..];
      CompressOneMore(INITIAL, before, buffer[..]);
      Transform(buffer[..]);
      digest := [];
      for i := 0 to 8
        invariant digest == Output(Value())[..4 * i]
      {
        digest := digest + StoreBe32(state[i]);
      }
    }
  }

  lemma BoundaryReached(length: nat, pending: nat)
    requires pending == length % 64
    ensures (length + (64 - pending)) % 64 == 0
  {
  }

  lemma MarkedLength(message: seq<byte>)
    ensures |Marked(message)| % 64 == 56
  {
  }

  /** How the two updates of `Pad` make up the marker and its zeros. */
  lemma MarkedSplits(message: seq<byte>, pending: nat)
    requires pending < 64
    ensures pending == |message| % 64 && pending <= 55 ==>
      Marked(message) == message + ([0x80] + Fill(0, 63))[..56 - pending]
    ensures pending == |message| % 64 && pending > 55 ==>
      Marked(message) == message + ([0x80] + Fill(0, 63))[..64 - pending] + Fill(0, 64)[..56]
  {
  }

  function Concat(chunks: seq<seq<byte>>): seq<byte> {
    if chunks == [] then [] else Concat(chunks[..|chunks| - 1]) + chunks[|chunks| - 1]
  }

  /** Any chunking of a message, from a fresh context, gives the digest of the whole message. */
  method HashChunks(chunks: seq<seq<byte>>) returns (digest: seq<byte>)
    ensures digest == Hash(Concat(chunks))
  {
    hide Hash;
    var ctx := new Context();
    for i := 0 to |chunks|
      invariant ctx.Valid() && fresh(ctx) && fresh(ctx.state) && fresh(ctx.buffer)
      invariant ctx.message == Concat(chunks[..i])
    {
      ctx.Update(chunks[i]);
      assert chunks[..i + 1][..i] == chunks[..i];
    }
    assert chunks[..|chunks|] == chunks;
    digest := ctx.Finish();
  }
}
