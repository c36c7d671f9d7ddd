/** What `zf_cbor_skip` accepts: exactly the items the encoder emits, up to sixteen levels of nesting. */
module CborSkip {
  import opened Bytes
  import opened CborHead

  const DEPTH_LIMIT := 16

  /** A total that counts what has been consumed before. */
  function Advance(consumed: nat, more: Option<nat>): Option<nat> {
    match more
    case None => None
    case Some(n) => Some(consumed + n)
  }

  predicate IsContainer(h: Head) {
    h.major == MAJOR_ARRAY || h.major == MAJOR_MAP
  }

  /** How many items the body of a container holds: a map counts pairs. */
  function ItemCount(h: Head): nat {
    if h.major == MAJOR_MAP then 2 * h.value else h.value
  }

  /** The size of an item without children, given how much input follows its head. */
  function SkipLeaf(h: Head, remaining: nat): Option<nat> {
    if h.major == MAJOR_UINT || h.major == MAJOR_NEGINT then Some(h.size)
    else if h.major == MAJOR_SIMPLE then if h.value != 31 then Some(h.size) else None
    else if h.major == MAJOR_BYTES || h.major == MAJOR_TEXT then
      if h.value > remaining then None else Some(h.size + h.value)
    else None
  }

  /** The number of bytes `zf_cbor_skip_inner` takes, or None when it fails. */
  function Skip(s: seq<byte>, depth: nat): (r: Option<nat>)
    ensures r.Some? ==> 1 <= r.value <= |s|
    decreases |s|, 0
  {
    if depth > DEPTH_LIMIT then None
    else
      match ReadHeadLoose(s)
      case None => None
      case Some(h) =>
        if IsContainer(h) then Advance(h.size, SkipItems(s[h.size..], ItemCount(h), depth + 1))
        else SkipLeaf(h, |s| - h.size)
  }

  /** `count` items in a row.  Every item takes at least a byte, so huge counts end with the input. */
  function SkipItems(s: seq<byte>, count: nat, depth: nat): (r: Option<nat>)
    ensures r.Some? ==> count <= r.value <= |s|
    decreases |s|, 1
  {
    if count == 0 then Some(0)
    else
      match Skip(s, depth)
      case None => None
      case Some(n) => Advance(n, SkipItems(s[n..], count - 1, depth))
  }

  /** The values the encoder can emit.  A map lists its keys and values alternately. */
  datatype Value =
    | UInt(n: nat)
    | NInt(n: nat)
    | Bool(b: bool)
    | Bytes(bytes: seq<byte>)
    | Text(text: seq<byte>)
    | Array(items: seq<Value>)
    | Map(entries: seq<Value>)

  /** The arguments fit 64 bits, and every key of a map has a value. */
  predicate WellFormed(v: Value) {
    match v
    case UInt(n) => n <= UINT64_MAX
    case NInt(n) => n <= UINT64_MAX
    case Bool(_) => true
    case Bytes(b) => |b| <= UINT64_MAX
    case Text(t) => |t| <= UINT64_MAX
    case Array(items) => |items| <= UINT64_MAX && WellFormedAll(items)
    case Map(entries) => |entries| % 2 == 0 && |entries| / 2 <= UINT64_MAX && WellFormedAll(entries)
  }

  predicate WellFormedAll(items: seq<Value>) {
    items == [] || (WellFormed(items[0]) && WellFormedAll(items[1..]))
  }

  function MajorOf(v: Value): Major {
    match v
    case UInt(_) => MAJOR_UINT
    case NInt(_) => MAJOR_NEGINT
    case Bool(_) => MAJOR_SIMPLE
    case Bytes(_) => MAJOR_BYTES
    case Text(_) => MAJOR_TEXT
    case Array(_) => MAJOR_ARRAY
    case Map(_) => MAJOR_MAP
  }

  function ArgumentOf(v: Value): uint64
    requires WellFormed(v)
  {
    match v
    case UInt(n) => n
    case NInt(n) => n
    case Bool(b) => if b then 21 else 20
    case Bytes(b) => |b|
    case Text(t) => |t|
    case Array(items) => |items|
    case Map(entries) => |entries| / 2
  }

  function Children(v: Value): seq<Value> {
    match v
    case Array(items) => items
    case Map(entries) => entries
    case _ => []
  }

  function Payload(v: Value): seq<byte>
    requires WellFormed(v)
    decreases v, 0
  {
    match v
    case Bytes(b) => b
    case Text(t) => t
    case Array(items) => EncodeAll(items)
    case Map(entries) => EncodeAll(entries)
    case _ => []
  }

  function Encode(v: Value): (s: seq<byte>)
    requires WellFormed(v)
    decreases v, 1
  {
    EncodeHead(MajorOf(v), ArgumentOf(v)) + Payload(v)
  }

  function EncodeAll(items: seq<Value>): seq<byte>
    requires WellFormedAll(items)
    decreases items, 2
  {
    if items == [] then [] else Encode(items[0]) + EncodeAll(items[1..])
  }

  /** The deepest level below `v` at which an item sits; an empty container opens no level. */
  function Nesting(v: Value): nat {
    if Children(v) == [] then 0
    else
      match v
      case Array(items) => 1 + NestingAll(items)
      case Map(entries) => 1 + NestingAll(entries)
      case _ => 0
  }

  function NestingAll(items: seq<Value>): nat {
    if items == [] then 0
    else
      var head, rest := Nesting(items[0]), NestingAll(items[1..]);
      if head > rest then head else rest
  }

  lemma {:induction false} SkipIsExact(v: Value, rest: seq<byte>, depth: nat)
    requires WellFormed(v)
    ensures Skip(Encode(v) + rest, depth) ==
            if depth + Nesting(v) <= DEPTH_LIMIT then Some(|Encode(v)|) else None
    decreases v, 1
  {
    hide Skip, SkipItems, SkipLeaf;
    if depth > DEPTH_LIMIT {
      SkipTooDeep(Encode(v) + rest, depth);
    } else {
      EncodedStep(v, rest, depth);
      if v.Array? || v.Map? {
        ChildrenSkip(v, rest, depth + 1);
      } else {
        LeafSkips(v, |rest|);
      }
    }
  }

  /** What reading the head of an encoded value leads to. */
  lemma EncodedStep(v: Value, rest: seq<byte>, depth: nat)
    requires WellFormed(v) && depth <= DEPTH_LIMIT
    ensures var h := Head(MajorOf(v), ArgumentOf(v), HeadSize(ArgumentOf(v)));
      Skip(Encode(v) + rest, depth) ==
        if v.Array? || v.Map? then Advance(h.size, SkipItems(Payload(v) + rest, |Children(v)|, depth + 1))
        else SkipLeaf(h, |Payload(v)| + |rest|)
  {
    hide Skip, SkipItems, SkipLeaf, Payload, EncodeHead;
    var s, body := Encode(v) + rest, Payload(v) + rest;
    var h := Head(MajorOf(v), ArgumentOf(v), HeadSize(ArgumentOf(v)));
    assert s == EncodeHead(h.major, h.value) + body;
    EncodedHeadReads(h.major, h.value, body);
    assert s[h.size..] == body;
    SkipStep(s, h, depth);
  }

  lemma SkipTooDeep(s: seq<byte>, depth: nat)
    requires depth > DEPTH_LIMIT
    ensures Skip(s, depth) == None
  {
  }

  lemma LeafSkips(v: Value, remaining: nat)
    requires WellFormed(v) && !v.Array? && !v.Map?
    ensures var h := Head(MajorOf(v), ArgumentOf(v), HeadSize(ArgumentOf(v)));
      SkipLeaf(h, |Payload(v)| + remaining) == Some(|Encode(v)|)
  {
  }

  lemma {:induction false} ChildrenSkip(v: Value, rest: seq<byte>, depth: nat)
    requires WellFormed(v) && (v.Array? || v.Map?)
    ensures SkipItems(Payload(v) + rest, |Children(v)|, depth) ==
            if Children(v) == [] || depth + NestingAll(Children(v)) <= DEPTH_LIMIT then Some(|Payload(v)|) else None
    decreases v, 0
  {
    match v
    case Array(items) => SkipItemsIsExact(items, rest, depth);
    case Map(entries) => SkipItemsIsExact(entries, rest, depth);
  }

  lemma {:induction false} SkipItemsIsExact(items: seq<Value>, rest: seq<byte>, depth: nat)
    requires WellFormedAll(items)
    ensures SkipItems(EncodeAll(items) + rest, |items|, depth) ==
            if items == [] || depth + NestingAll(items) <= DEPTH_LIMIT then Some(|EncodeAll(items)|) else None
    decreases items
  {
    hide Skip, SkipItems;
    if items == [] {
      SkipItemsNone(EncodeAll(items) + rest, depth);
    } else {
      var s := EncodeAll(items) + rest;
      var head, tail := items[0], items[1..];
      var after := EncodeAll(tail) + rest;
      EncodeAllSplits(items, rest);
      SkipIsExact(head, after, depth);
      SkipItemsIsExact(tail, rest, depth);
      SkipItemsStep(s, |items|, depth);
      assert |EncodeAll(items)| == |Encode(head)| + |EncodeAll(tail)|;
    }
  }

  lemma EncodeAllSplits(items: seq<Value>, rest: seq<byte>)
    requires items != [] && WellFormedAll(items)
    ensures EncodeAll(items) + rest == Encode(items[0]) + (EncodeAll(items[1..]) + rest)
    ensures (EncodeAll(items) + rest)[|Encode(items[0])|..] == EncodeAll(items[1..]) + rest
  {
  }

  lemma AdvanceAdds(m: nat, n: nat, r: Option<nat>)
    ensures Advance(m, Advance(n, r)) == Advance(m + n, r)
  {
  }

  lemma SkipStep(s: seq<byte>, h: Head, depth: nat)
    requires depth <= DEPTH_LIMIT && ReadHeadLoose(s) == Some(h)
    ensures Skip(s, depth) ==
            if IsContainer(h) then Advance(h.size, SkipItems(s[h.size..], ItemCount(h), depth + 1))
            else SkipLeaf(h, |s| - h.size)
  {
  }

  lemma SkipItemsNone(s: seq<byte>, depth: nat)
    ensures SkipItems(s, 0, depth) == Some(0)
  {
  }

  lemma SkipItemsStep(s: seq<byte>, count: nat, depth: nat)
    requires count > 0
    ensures SkipItems(s, count, depth) == match Skip(s, depth)
            case None => None
            case Some(n) => Advance(n, SkipItems(s[n..], count - 1, depth))
  {
  }

  /** The outcome depends only on the bytes consumed. */
  lemma {:induction false} SkipIsLocal(s: seq<byte>, t: seq<byte>, depth: nat)
    requires Skip(s, depth).Some? && Skip(s, depth).value <= |t|
    requires s[..Skip(s, depth).value] == t[..Skip(s, depth).value]
    ensures Skip(t, depth) == Skip(s, depth)
    decreases |s|, 0
  {
    var n := Skip(s, depth).value;
    var h := ReadHeadLoose(s).value;
    SkipStep(s, h, depth);
    hide Skip, SkipItems, ReadHeadLoose;
    SubPrefix(s, t, h.size, n);
    HeadIsLocal(s, t);
    SkipStep(t, h, depth);
    if IsContainer(h) {
      SkipItemsIsLocal(s[h.size..], t[h.size..], ItemCount(h), depth + 1);
    }
  }

  lemma SubPrefix(s: seq<byte>, t: seq<byte>, m: nat, n: nat)
    requires m <= n <= |s| && n <= |t| && s[..n] == t[..n]
    ensures s[..m] == t[..m] && s[m..][..n - m] == t[m..][..n - m]
  {
    assert s[..m] == s[..n][..m] && t[..m] == t[..n][..m];
    assert s[m..][..n - m] == s[..n][m..] && t[m..][..n - m] == t[..n][m..];
  }

  lemma {:induction false} SkipItemsIsLocal(s: seq<byte>, t: seq<byte>, count: nat, depth: nat)
    requires SkipItems(s, count, depth).Some? && SkipItems(s, count, depth).value <= |t|
    requires s[..SkipItems(s, count, depth).value] == t[..SkipItems(s, count, depth).value]
    ensures SkipItems(t, count, depth) == SkipItems(s, count, depth)
    decreases |s|, 1
  {
    hide Skip, SkipItems;
    if count == 0 {
      SkipItemsNone(s, depth);
      SkipItemsNone(t, depth);
    } else {
      SkipItemsStep(s, count, depth);
      SkipItemsStep(t, count, depth);
      var n := SkipItems(s, count, depth).value;
      var m := Skip(s, depth).value;
      SubPrefix(s, t, m, n);
      SkipIsLocal(s, t, depth);
      SkipItemsIsLocal(s[m..], t[m..], count - 1, depth);
    }
  }

  /** No strict prefix of an accepted item is accepted. */
  lemma SkipRejectsTruncation(s: seq<byte>, depth: nat, cut: nat)
    requires Skip(s, depth).Some? && cut < Skip(s, depth).value
    ensures Skip(s[..cut], depth).None?
  {
    if Skip(s[..cut], depth).Some? {
      var m := Skip(s[..cut], depth).value;
      assert s[..cut][..m] == s[..m];
      SkipIsLocal(s[..cut], s, depth);
    }
  }
}
