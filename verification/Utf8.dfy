/** The UTF-8 validator of zerofido_cbor.c against sections 3 and 4 of RFC 3629. */
module Utf8 {
  import opened Bytes

  /** A Unicode scalar value: no surrogate, nothing above U+10FFFF. */
  type Scalar = c: int | 0 <= c <= 0xD7FF || 0xE000 <= c <= 0x10FFFF

  /** The encoding table of section 3 of RFC 3629. */
  function EncodeScalar(c: Scalar): (s: seq<byte>)
    ensures 1 <= |s| <= 4
  {
    if c < 0x80 then [c]
    else if c < 0x800 then [0xC0 + c / 0x40, 0x80 + c % 0x40]
    else if c < 0x1_0000 then [0xE0 + c / 0x1000, 0x80 + c / 0x40 % 0x40, 0x80 + c % 0x40]
    else [0xF0 + c / 0x4_0000, 0x80 + c / 0x1000 % 0x40, 0x80 + c / 0x40 % 0x40, 0x80 + c % 0x40]
  }

  function EncodeScalars(cs: seq<Scalar>): seq<byte> {
    if cs == [] then [] else EncodeScalar(cs[0]) + EncodeScalars(cs[1..])
  }

  /** Well-formed UTF-8: the concatenation of the encodings of some scalar values. */
  ghost predicate IsUtf8(s: seq<byte>) {
    exists cs: seq<Scalar> :: EncodeScalars(cs) == s
  }

  predicate Continuation(b: byte) {
    0x80 <= b < 0xC0
  }

  /** The length of the well-formed sequence `s` begins with, or 0: the branches of the validator. */
  function UnitLength(s: seq<byte>): (n: nat)
    requires s != []
    ensures n <= |s|
  {
    var lead := s[0];
    if lead <= 0x7F then 1
    else if 0xC2 <= lead <= 0xDF then
      if |s| < 2 || !Continuation(s[1]) then 0 else 2
    else if 0xE0 <= lead <= 0xEF then
      if |s| < 3 || !Continuation(s[1]) || !Continuation(s[2]) then 0
      else if lead == 0xE0 && s[1] < 0xA0 then 0
      else if lead == 0xED && s[1] > 0x9F then 0
      else 3
    else if 0xF0 <= lead <= 0xF4 then
      if |s| < 4 || !Continuation(s[1]) || !Continuation(s[2]) || !Continuation(s[3]) then 0
      else if lead == 0xF0 && s[1] < 0x90 then 0
      else if lead == 0xF4 && s[1] > 0x8F then 0
      else 4
    else 0
  }

  /** The scalar value a well-formed sequence denotes. */
  function DecodeUnit(s: seq<byte>): (c: Scalar)
    requires s != [] && UnitLength(s) != 0
  {
    var n := UnitLength(s);
    var lead: int := s[0];
    if n == 1 then lead
    else if n == 2 then Shift6(lead - 0xC0, s[1])
    else if n == 3 then Shift6(Shift6(lead - 0xE0, s[1]), s[2])
    else Shift6(Shift6(Shift6(lead - 0xF0, s[1]), s[2]), s[3])
  }

  /** Appends the six payload bits of a continuation byte. */
  function Shift6(high: int, b: byte): int {
    high * 0x40 + (b as int - 0x80)
  }

  lemma Shift6Splits(high: int, b: byte)
    requires Continuation(b)
    ensures Shift6(high, b) / 0x40 == high && 0x80 + Shift6(high, b) % 0x40 == b
  {
  }

  lemma DivideTwice(c: nat)
    ensures c / 0x1000 == c / 0x40 / 0x40 && c / 0x4_0000 == c / 0x40 / 0x40 / 0x40
  {
  }

  lemma UnitIsEncoding(s: seq<byte>)
    requires s != [] && UnitLength(s) != 0
    ensures EncodeScalar(DecodeUnit(s)) == s[..UnitLength(s)]
  {
    var n, lead: int, c := UnitLength(s), s[0], DecodeUnit(s);
    DivideTwice(c);
    if n == 2 {
      Shift6Splits(lead - 0xC0, s[1]);
    } else if n == 3 {
      Shift6Splits(lead - 0xE0, s[1]);
      Shift6Splits(Shift6(lead - 0xE0, s[1]), s[2]);
    } else if n == 4 {
      Shift6Splits(lead - 0xF0, s[1]);
      Shift6Splits(Shift6(lead - 0xF0, s[1]), s[2]);
      Shift6Splits(Shift6(Shift6(lead - 0xF0, s[1]), s[2]), s[3]);
    }
  }

  /** No proper prefix or extension confuses the branches: an encoding is recognised at its length. */
  lemma EncodingIsUnit(c: Scalar, rest: seq<byte>)
    ensures UnitLength(EncodeScalar(c) + rest) == |EncodeScalar(c)|
    ensures DecodeUnit(EncodeScalar(c) + rest) == c
  {
    DivideTwice(c);
    var s := EncodeScalar(c) + rest;
    assert s[0] == EncodeScalar(c)[0];
    if |EncodeScalar(c)| > 1 {
      assert s[1] == EncodeScalar(c)[1];
    }
    if |EncodeScalar(c)| > 2 {
      assert s[2] == EncodeScalar(c)[2];
    }
    if |EncodeScalar(c)| > 3 {
      assert s[3] == EncodeScalar(c)[3];
    }
  }

  /** Well-formedness is decided one unit at a time. */
  lemma SplitUnit(s: seq<byte>)
    requires s != []
    ensures IsUtf8(s) <==> UnitLength(s) != 0 && IsUtf8(s[UnitLength(s)..])
  {
    if IsUtf8(s) {
      var cs: seq<Scalar> :| EncodeScalars(cs) == s;
      EncodingIsUnit(cs[0], EncodeScalars(cs[1..]));
      assert s[UnitLength(s)..] == EncodeScalars(cs[1..]);
    }
    if UnitLength(s) != 0 && IsUtf8(s[UnitLength(s)..]) {
      var rest: seq<Scalar> :| EncodeScalars(rest) == s[UnitLength(s)..];
      UnitIsEncoding(s);
      var cs := [DecodeUnit(s)] + rest;
      assert cs[1..] == rest;
      assert EncodeScalars(cs) == s[..UnitLength(s)] + s[UnitLength(s)..] == s;
    }
  }

  lemma EmptyIsUtf8()
    ensures IsUtf8([])
  {
    assert EncodeScalars([]) == [];
  }

  /** `zf_cbor_utf8_is_valid`. */
  method IsValid(s: seq<byte>) returns (valid: bool)
    ensures valid <==> IsUtf8(s)
  {
    var i := 0;
    while i < |s|
      invariant i <= |s|
      invariant IsUtf8(s) <==> IsUtf8(s[i..])
    {
      var lead := s[i];
      SplitUnit(s[i..]);
      ghost var here := i;
      if lead <= 0x7F {
        i := i + 1;
      } else if 0xC2 <= lead <= 0xDF {
        if i + 1 >= |s| || !Continuation(s[i + 1]) {
          return false;
        }
        i := i + 2;
      } else if lead == 0xE0 {
        if i + 2 >= |s| || s[i + 1] < 0xA0 || s[i + 1] > 0xBF || !Continuation(s[i + 2]) {
          return false;
        }
        i := i + 3;
      } else if 0xE1 <= lead <= 0xEC || 0xEE <= lead <= 0xEF {
        if i + 2 >= |s| || !Continuation(s[i + 1]) || !Continuation(s[i + 2]) {
          return false;
        }
        i := i + 3;
      } else if lead == 0xED {
        if i + 2 >= |s| || s[i + 1] < 0x80 || s[i + 1] > 0x9F || !Continuation(s[i + 2]) {
          return false;
        }
        i := i + 3;
      } else if lead == 0xF0 {
        if i + 3 >= |s| || s[i + 1] < 0x90 || s[i + 1] > 0xBF || !Continuation(s[i + 2]) || !Continuation(s[i + 3]) {
          return false;
        }
        i := i + 4;
      } else if 0xF1 <= lead <= 0xF3 {
        if i + 3 >= |s| || !Continuation(s[i + 1]) || !Continuation(s[i + 2]) || !Continuation(s[i + 3]) {
          return false;
        }
        i := i + 4;
      } else if lead == 0xF4 {
        if i + 3 >= |s| || s[i + 1] < 0x80 || s[i + 1] > 0x8F || !Continuation(s[i + 2]) || !Continuation(s[i + 3]) {
          return false;
        }
        i := i + 4;
      } else {
        return false;
      }
      assert s[here..][UnitLength(s[here..])..] == s[i..];
    }
    EmptyIsUtf8();
    assert s[i..] == [];
    valid := true;
  }

  lemma {:induction false} AsciiIsUtf8(s: seq<byte>)
    requires forall i :: 0 <= i < |s| ==> s[i] < 0x80
    ensures IsUtf8(s)
  {
    if s == [] {
      assert EncodeScalars([]) == s;
    } else {
      AsciiIsUtf8(s[1..]);
      var cs: seq<Scalar> :| EncodeScalars(cs) == s[1..];
      assert ([s[0]] + cs)[1..] == cs;
      assert EncodeScalars([s[0]] + cs) == s;
    }
  }
}
