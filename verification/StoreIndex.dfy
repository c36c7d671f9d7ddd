/**
 The credential index in RAM (src/zerofido_store.c): a dense array of entries that grows, shifts and compacts in
 place.
 */
module StoreIndex {
  import opened Bytes
  import opened CounterStore

  const MAX_CREDENTIALS := 32

  /** A slot that holds nothing: all fields zero. */
  const BLANK: IndexEntry := IndexEntry(false, false, [], [], 0, 0, 0, 0)

  function Blanks(n: nat): (s: seq<IndexEntry>)
    ensures |s| == n && forall i :: 0 <= i < n ==> s[i] == BLANK
  {
    seq(n, _ => BLANK)
  }

  lemma NoBlanks(tail: seq<IndexEntry>)
    ensures Blanks(0) + tail == tail
  {
  }

  lemma OneMoreBlank(n: nat, tail: seq<IndexEntry>)
    ensures [BLANK] + (Blanks(n) + tail) == Blanks(n + 1) + tail
  {
  }

  predicate DistinctIds(entries: seq<IndexEntry>) {
    forall i, j :: 0 <= i < j < |entries| ==> entries[i].credentialId != entries[j].credentialId
  }

  /** `ZfCredentialStore`: `capacity` is the length of the array.  `ample`: memory is there when it is asked for. */
  class CredentialStore {
    const ample: bool
    var records: array<IndexEntry>
    var count: nat

    ghost predicate Valid()
      reads this
    {
      count <= records.Length <= MAX_CREDENTIALS
    }

    function Live(): seq<IndexEntry>
      reads this, records
      requires count <= records.Length
    {
      records[..count]
    }

    constructor (ample: bool)
      ensures Valid() && Live() == [] && fresh(records) && this.ample == ample
    {
      this.ample := ample;
      records := new IndexEntry[0](_ => BLANK);
      count := 0;
    }

    /** `zf_store_clear`. */
    method Clear()
      requires Valid()
      modifies this, records
      ensures Valid() && Live() == [] && records == old(records)
      ensures forall i :: 0 <= i < records.Length ==> records[i] == BLANK
    {
      forall i | 0 <= i < records.Length {
        records[i] := BLANK;
      }
      count := 0;
    }

    /** `zf_store_ensure_capacity`: doubling, never past the maximum; the entries stay where they are. */
    method EnsureCapacity(minCapacity: nat) returns (ok: bool)
      requires Valid()
      modifies this
      ensures Valid() && Live() == old(Live()) && count == old(count)
      ensures records == old(records) || fresh(records)
      ensures records != old(records) ==> forall i :: old(records.Length) <= i < records.Length ==> records[i] == BLANK
      ensures ok ==> minCapacity <= records.Length
      ensures ample && minCapacity <= MAX_CREDENTIALS ==> ok
      ensures minCapacity > MAX_CREDENTIALS ==> !ok
      ensures minCapacity <= old(records.Length) ==> records == old(records)
      ensures records != old(records) ==> records.Length < 2 * minCapacity || records.Length == 1
    {
      if minCapacity > MAX_CREDENTIALS {
        return false;
      }
      var oldCapacity := records.Length;
      if minCapacity <= oldCapacity {
        return true;
      }
      var newCapacity := if oldCapacity > 0 then oldCapacity else 1;
      while newCapacity < minCapacity && newCapacity < MAX_CREDENTIALS
        invariant 0 < newCapacity && oldCapacity <= newCapacity
        invariant newCapacity < 2 * minCapacity || newCapacity == 1
      {
        newCapacity := newCapacity * 2;
      }
      if newCapacity > MAX_CREDENTIALS {
        newCapacity := MAX_CREDENTIALS;
      }
      var granted: bool := *;
      granted := granted || ample;
      if newCapacity < minCapacity || !granted {
        return false;
      }
      var grown := new IndexEntry[newCapacity](_ => BLANK);
      forall i | 0 <= i < oldCapacity {
        grown[i] := records[i];
      }
      assert grown[..count] == records[..count];
      records := grown;
      ok := true;
    }

    /** The tail of every addition: the next free slot is filled. */
    method Append(entry: IndexEntry)
      requires Valid() && count < records.Length
      modifies this, records
      ensures Valid() && Live() == old(Live()) + [entry] && records == old(records)
    {
      records[count] := entry;
      count := count + 1;
    }

    /** The loop of the compaction: every later entry moves down by one. */
    method ShiftDown(index: nat)
      requires Valid() && index < count
      modifies records
      ensures forall i :: 0 <= i < index ==> records[i] == old(records[i])
      ensures forall i :: index <= i < count - 1 ==> records[i] == old(records[i + 1])
      ensures forall i :: count <= i < records.Length ==> records[i] == old(records[i])
    {
      ghost var before := records[..];
      var j := index + 1;
      while j < count
        invariant index < j <= count
        invariant forall i :: 0 <= i < index ==> records[i] == before[i]
        invariant forall i :: index < i < j ==> records[i - 1] == before[i]
        invariant forall i :: j <= i < records.Length ==> records[i] == before[i]
      {
        records[j - 1] := records[j];
        j := j + 1;
      }
    }

    /** `zf_store_compact_after_delete`: the entries after `index` move down, the freed slot is zeroed. */
    method CompactAfterDelete(index: nat)
      requires Valid() && index < count
      modifies this, records
      ensures Valid() && records == old(records)
      ensures Live() == old(Live()[..index]) + old(Live()[index + 1..])
      ensures records[count..] == [BLANK] + old(records[count..])
    {
      hide BLANK;
      ghost var live := Live();
      ShiftDown(index);
      count := count - 1;
      records[count] := BLANK;
      ghost var rest := live[..index] + live[index + 1..];
      assert forall i :: 0 <= i < count ==> records[i] == rest[i];
      assert Live() == rest;
    }

    /** `zf_store_find_index_by_id`. */
    method FindIndexById(id: seq<byte>) returns (found: bool, index: nat)
      requires Valid()
      ensures found ==> index < count && records[index].inUse && records[index].credentialId == id
      ensures found ==> forall i :: 0 <= i < index ==> !(records[i].inUse && records[i].credentialId == id)
      ensures !found ==> forall i :: 0 <= i < count ==> !(records[i].inUse && records[i].credentialId == id)
    {
      found, index := false, 0;
      while index < count
        invariant index <= count
        invariant forall i :: 0 <= i < index ==> !(records[i].inUse && records[i].credentialId == id)
      {
        if records[index].inUse && records[index].credentialId == id {
          return true, index;
        }
        index := index + 1;
      }
    }
  }
}
