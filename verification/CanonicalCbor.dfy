/** CTAP2 canonical CBOR: the key order of section 8 of CTAP 2.1 on top of minimal heads. */
module CanonicalCbor {
  import opened Bytes
  import opened Cbor
  import opened CborSkip
  import Utf8

  /** Byte-wise order of strings of equal length. */
  predicate LexLess(a: seq<byte>, b: seq<byte>) {
    a != [] && b != [] && (a[0] < b[0] || (a[0] == b[0] && LexLess(a[1..], b[1..])))
  }

  /** Lower major type first, then the shorter encoding, then byte order. */
  predicate KeyBefore(a: Value, b: Value)
    requires WellFormed(a) && WellFormed(b)
  {
    || MajorOf(a) < MajorOf(b)
    || (MajorOf(a) == MajorOf(b) &&
        (|Encode(a)| < |Encode(b)| || (|Encode(a)| == |Encode(b)| && LexLess(Encode(a), Encode(b)))))
  }

  predicate KeysAscend(entries: seq<Value>)
    requires WellFormedAll(entries)
    decreases |entries|
  {
    |entries| < 4 || (EntriesWellFormed(entries); KeyBefore(entries[0], entries[2]) && KeysAscend(entries[2..]))
  }

  lemma EntriesWellFormed(entries: seq<Value>)
    requires WellFormedAll(entries) && |entries| >= 4
    ensures WellFormed(entries[0]) && WellFormed(entries[2]) && WellFormedAll(entries[2..])
  {
    assert WellFormedAll(entries[1..]) && entries[1..][1..] == entries[2..];
    var rest := entries[2..];
    assert WellFormedAll(rest) && rest != [];
    assert WellFormed(rest[0]) && rest[0] == entries[2];
  }

  /** Keys in order in every map, every text valid UTF-8. */
  ghost predicate Canonical(v: Value)
    requires WellFormed(v)
    decreases v, 0
  {
    match v
    case Text(t) => Utf8.IsUtf8(t)
    case Array(items) => CanonicalAll(items)
    case Map(entries) => KeysAscend(entries) && CanonicalAll(entries)
    case _ => true
  }

  ghost predicate CanonicalAll(items: seq<Value>)
    requires WellFormedAll(items)
    decreases items, 1
  {
    items == [] || (Canonical(items[0]) && CanonicalAll(items[1..]))
  }

  // Adding to a list of entries.

  lemma {:induction false} WellFormedAppend(a: seq<Value>, b: seq<Value>)
    ensures WellFormedAll(a + b) <==> WellFormedAll(a) && WellFormedAll(b)
  {
    if a == [] {
      assert a + b == b;
    } else {
      WellFormedAppend(a[1..], b);
      assert (a + b)[1..] == a[1..] + b;
    }
  }

  lemma {:induction false} EncodeAllAppend(a: seq<Value>, b: seq<Value>)
    requires WellFormedAll(a) && WellFormedAll(b) && WellFormedAll(a + b)
    ensures EncodeAll(a + b) == EncodeAll(a) + EncodeAll(b)
  {
    hide Encode;
    if a == [] {
      assert a + b == b;
    } else {
      assert (a + b)[1..] == a[1..] + b;
      WellFormedAppend(a[1..], b);
      EncodeAllAppend(a[1..], b);
    }
  }

  lemma {:induction false} CanonicalAppend(a: seq<Value>, b: seq<Value>)
    requires WellFormedAll(a) && WellFormedAll(b) && WellFormedAll(a + b)
    ensures CanonicalAll(a + b) <==> CanonicalAll(a) && CanonicalAll(b)
  {
    hide Canonical;
    if a == [] {
      assert a + b == b;
    } else {
      assert (a + b)[1..] == a[1..] + b;
      WellFormedAppend(a[1..], b);
      CanonicalAppend(a[1..], b);
    }
  }

  /** One more entry, with a key after the last one. */
  lemma {:induction false} KeysAscendAppend(a: seq<Value>, key: Value, value: Value)
    requires |a| % 2 == 0 && |a| >= 2 && WellFormedAll(a) && WellFormedAll(a + [key, value])
    requires WellFormed(key) && WellFormed(a[|a| - 2]) && KeysAscend(a) && KeyBefore(a[|a| - 2], key)
    ensures KeysAscend(a + [key, value])
    decreases |a|
  {
    hide KeyBefore;
    var t := a + [key, value];
    EntriesWellFormed(t);
    if |a| == 2 {
      assert t[2..] == [key, value];
    } else {
      EntriesWellFormed(a);
      assert t[2..] == a[2..] + [key, value];
      KeysAscendAppend(a[2..], key, value);
    }
  }

  /** Small unsigned keys are in numeric order. */
  lemma SmallKeys(m: nat, n: nat)
    requires m < n < 24
    ensures KeyBefore(UInt(m), UInt(n))
  {
  }

  /** Short text keys of different lengths are ordered by length. */
  lemma ShorterKey(s: seq<byte>, t: seq<byte>)
    requires |s| < |t| < 24
    ensures KeyBefore(Text(s), Text(t))
  {
  }

  lemma Pair(key: Value, value: Value)
    requires WellFormed(key) && WellFormed(value)
    ensures WellFormedAll([key, value]) && EncodeAll([key, value]) == Encode(key) + Encode(value)
    ensures KeysAscend([key, value])
    ensures CanonicalAll([key, value]) <==> Canonical(key) && Canonical(value)
  {
    hide Encode, Canonical;
    assert [key, value][1..] == [value] && [value][1..] == [];
    assert WellFormedAll([value]) && EncodeAll([value]) == Encode(value) + [];
    assert CanonicalAll([value]) <==> Canonical(value);
  }

  /** The encoder's calls and the tree they build say the same bytes. */
  lemma LeafBytes(n: uint64, s: seq<byte>, b: bool)
    requires |s| <= UINT64_MAX
    ensures Encode(UInt(n)) == EncodeUint(n) && Encode(Bytes(s)) == EncodeBytes(s) && Encode(Text(s)) == EncodeText(s)
    ensures Encode(Bool(b)) == EncodeBool(b)
  {
  }
}
