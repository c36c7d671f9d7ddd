/** Bytes, machine words and positional notation shared by every codec of the model. */
module Bytes {

  /** One octet. */
  type byte = x: int | 0 <= x < 256

  /** The unsigned machine words the firmware stores, as ranges of integers. */
  type uint32 = x: int | 0 <= x < 0x1_0000_0000
  type uint64 = x: int | 0 <= x < 0x1_0000_0000_0000_0000

  const UINT32_MAX: uint32 := 0xFFFF_FFFF
  const UINT64_MAX: uint64 := 0xFFFF_FFFF_FFFF_FFFF

  datatype Option<+T> = None | Some(value: T)

  /** `count` copies of `b`. */
  function Fill(b: byte, count: nat): (s: seq<byte>)
    ensures |s| == count && forall i :: 0 <= i < count ==> s[i] == b
  {
    seq(count, i => b)
  }

  /** The number of values `n` bytes can hold. */
  function Pow256(n: nat): (p: nat)
    ensures p > 0
  {
    if n == 0 then 1 else 256 * Pow256(n - 1)
  }

  lemma Pow256Values()
    ensures Pow256(1) == 0x100 && Pow256(2) == 0x1_0000 && Pow256(4) == 0x1_0000_0000
    ensures Pow256(8) == 0x1_0000_0000_0000_0000
  {
  }

  /** The unsigned number a byte string denotes, most significant byte first. */
  function FromBigEndian(s: seq<byte>): nat {
    if s == [] then 0 else 256 * FromBigEndian(s[..|s| - 1]) + s[|s| - 1]
  }

  /** The `n` low-order bytes of `v`, most significant byte first. */
  function ToBigEndian(v: nat, n: nat): (s: seq<byte>)
    ensures |s| == n
  {
    if n == 0 then [] else ToBigEndian(v / 256, n - 1) + [v % 256]
  }

  /** The `n` low-order bytes of `v`, least significant byte first. */
  function ToLittleEndian(v: nat, n: nat): (s: seq<byte>)
    ensures |s| == n
  {
    if n == 0 then [] else [v % 256] + ToLittleEndian(v / 256, n - 1)
  }

  /** The unsigned number a byte string denotes, least significant byte first. */
  function FromLittleEndian(s: seq<byte>): nat {
    if s == [] then 0 else s[0] + 256 * FromLittleEndian(s[1..])
  }

  lemma {:induction false} BigEndianRoundTrip(v: nat, n: nat)
    requires v < Pow256(n)
    ensures FromBigEndian(ToBigEndian(v, n)) == v
  {
    if n > 0 {
      BigEndianRoundTrip(v / 256, n - 1);
      assert ToBigEndian(v, n)[..n - 1] == ToBigEndian(v / 256, n - 1);
    }
  }

  lemma {:induction false} BigEndianBound(s: seq<byte>)
    ensures FromBigEndian(s) < Pow256(|s|)
  {
    if s != [] {
      BigEndianBound(s[..|s| - 1]);
    }
  }

  lemma {:induction false} BigEndianInverse(s: seq<byte>)
    ensures ToBigEndian(FromBigEndian(s), |s|) == s
  {
    if s != [] {
      var init := s[..|s| - 1];
      BigEndianInverse(init);
      assert FromBigEndian(s) / 256 == FromBigEndian(init);
      assert s == init + [s[|s| - 1]];
    }
  }

  /** `v >> 8 * bytes`. */
  function ShiftRight(v: nat, bytes: nat): nat {
    if bytes == 0 then v else ShiftRight(v / 256, bytes - 1)
  }

  lemma {:induction false} BigEndianDigit(v: nat, n: nat, i: nat)
    requires i < n
    ensures ToBigEndian(v, n)[i] == ShiftRight(v, n - 1 - i) % 256
  {
    if i < n - 1 {
      BigEndianDigit(v / 256, n - 1, i);
    }
  }

  lemma ShiftRightValues(v: nat)
    ensures ShiftRight(v, 1) == v / 0x100 && ShiftRight(v, 2) == v / 0x1_0000 && ShiftRight(v, 3) == v / 0x100_0000
  {
  }

  lemma {:induction false} LittleEndianRoundTrip(v: nat, n: nat)
    requires v < Pow256(n)
    ensures FromLittleEndian(ToLittleEndian(v, n)) == v
  {
    if n > 0 {
      LittleEndianRoundTrip(v / 256, n - 1);
      assert ToLittleEndian(v, n)[1..] == ToLittleEndian(v / 256, n - 1);
    }
  }

  lemma {:induction false} LittleEndianBound(s: seq<byte>)
    ensures FromLittleEndian(s) < Pow256(|s|)
  {
    if s != [] {
      LittleEndianBound(s[1..]);
    }
  }

  lemma {:induction false} LittleEndianInverse(s: seq<byte>)
    ensures ToLittleEndian(FromLittleEndian(s), |s|) == s
  {
    if s != [] {
      LittleEndianInverse(s[1..]);
      assert FromLittleEndian(s) / 256 == FromLittleEndian(s[1..]);
      assert s == [s[0]] + s[1..];
    }
  }

  // Words assembled by shifts, as the parsers write them out.

  function Word16(b0: nat, b1: nat): nat {
    0x100 * b0 + b1
  }

  function Word32(b0: nat, b1: nat, b2: nat, b3: nat): nat {
    0x100_0000 * b0 + 0x1_0000 * b1 + 0x100 * b2 + b3
  }

  lemma WordsAreBigEndian(s: seq<byte>)
    ensures |s| == 1 ==> FromBigEndian(s) == s[0]
    ensures |s| == 2 ==> FromBigEndian(s) == Word16(s[0], s[1])
    ensures |s| == 4 ==> FromBigEndian(s) == Word32(s[0], s[1], s[2], s[3])
  {
  }

  /** Leading zero bytes do not change the number a big-endian string denotes. */
  lemma {:induction false} LeadingZeros(zeros: nat, s: seq<byte>)
    ensures FromBigEndian(Fill(0, zeros) + s) == FromBigEndian(s)
    decreases |s|, zeros
  {
    var t := Fill(0, zeros) + s;
    if s != [] {
      assert t[..|t| - 1] == Fill(0, zeros) + s[..|s| - 1];
      LeadingZeros(zeros, s[..|s| - 1]);
    } else if zeros > 0 {
      assert t[..|t| - 1] == Fill(0, zeros - 1) + s;
      LeadingZeros(zeros - 1, s);
    } else {
      assert t == s;
    }
  }

  /** Reading one more byte: the shift-and-or step of every big-endian loop in the firmware. */
  lemma BigEndianAppend(s: seq<byte>, b: byte)
    ensures FromBigEndian(s + [b]) == 256 * FromBigEndian(s) + b
  {
  }

  /** Two byte strings of equal length denoting the same number are equal. */
  lemma BigEndianInjective(s: seq<byte>, t: seq<byte>)
    requires |s| == |t| && FromBigEndian(s) == FromBigEndian(t)
    ensures s == t
  {
  }
}
