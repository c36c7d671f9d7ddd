/** Lookup by relying party, newest first (src/zerofido_store.c). */
module StoreLookup {
  import opened Bytes
  import opened CounterStore
  import opened StoreIndex
  import Sha256

  /** `memcmp(a, b, n) > 0` on byte strings of equal length. */
  predicate Greater(a: seq<byte>, b: seq<byte>) {
    a != [] && b != [] && (a[0] > b[0] || (a[0] == b[0] && Greater(a[1..], b[1..])))
  }

  /** `zf_store_index_is_newer`. */
  predicate IsNewer(e: IndexEntry, f: IndexEntry) {
    if e.createdAt != f.createdAt then e.createdAt > f.createdAt else Greater(e.credentialId, f.credentialId)
  }

  lemma {:induction false} GreaterIsTotal(a: seq<byte>, b: seq<byte>)
    requires |a| == |b| && a != b
    ensures Greater(a, b) <==> !Greater(b, a)
  {
    assert a == [a[0]] + a[1..] && b == [b[0]] + b[1..];
    if a[0] == b[0] {
      GreaterIsTotal(a[1..], b[1..]);
    }
  }

  lemma {:induction false} GreaterIsOrder(a: seq<byte>, b: seq<byte>, c: seq<byte>)
    ensures !Greater(a, a)
    ensures Greater(a, b) && Greater(b, c) ==> Greater(a, c)
    ensures Greater(a, b) ==> !Greater(b, a)
  {
    if a != [] {
      GreaterIsOrder(a[1..], if b == [] then [] else b[1..], if c == [] then [] else c[1..]);
    }
  }

  /** Entries with ids of one length. */
  predicate ProperIds(entries: seq<IndexEntry>) {
    forall i :: 0 <= i < |entries| ==> |entries[i].credentialId| == 32
  }

  lemma NewerIsOrder(e: IndexEntry, f: IndexEntry, g: IndexEntry)
    ensures !IsNewer(e, e)
    ensures IsNewer(e, f) && IsNewer(f, g) ==> IsNewer(e, g)
    ensures IsNewer(e, f) ==> !IsNewer(f, e)
    ensures |e.credentialId| == |f.credentialId| && e.credentialId != f.credentialId ==> IsNewer(e, f) || IsNewer(f, e)
  {
    GreaterIsOrder(e.credentialId, f.credentialId, g.credentialId);
    if |e.credentialId| == |f.credentialId| && e.credentialId != f.credentialId {
      GreaterIsTotal(e.credentialId, f.credentialId);
    }
  }

  predicate Indices(entries: seq<IndexEntry>, s: seq<nat>) {
    forall i :: 0 <= i < |s| ==> s[i] < |entries|
  }

  /** Strictly newest first; in particular without repetition. */
  predicate NewestFirst(entries: seq<IndexEntry>, s: seq<nat>)
    requires Indices(entries, s)
  {
    forall i, j :: 0 <= i < j < |s| ==> IsNewer(entries[s[i]], entries[s[j]])
  }

  /** The list after `index` has been put in its place, counted from the end. */
  function Inserted(entries: seq<IndexEntry>, s: seq<nat>, index: nat): (t: seq<nat>)
    requires Indices(entries, s) && index < |entries|
    ensures Indices(entries, t) && |t| == |s| + 1
  {
    if s == [] || !IsNewer(entries[index], entries[s[|s| - 1]]) then s + [index]
    else Inserted(entries, s[..|s| - 1], index) + [s[|s| - 1]]
  }

  lemma {:induction false} InsertedContents(entries: seq<IndexEntry>, s: seq<nat>, index: nat)
    requires Indices(entries, s) && index < |entries|
    ensures multiset(Inserted(entries, s, index)) == multiset(s) + multiset{index}
  {
    if s != [] && IsNewer(entries[index], entries[s[|s| - 1]]) {
      InsertedContents(entries, s[..|s| - 1], index);
      assert s == s[..|s| - 1] + [s[|s| - 1]];
    }
  }

  lemma InsertedMembers(entries: seq<IndexEntry>, s: seq<nat>, index: nat)
    requires Indices(entries, s) && index < |entries|
    ensures forall i :: i in Inserted(entries, s, index) <==> i in s || i == index
  {
  }

  lemma {:induction false} InsertedIsSorted(entries: seq<IndexEntry>, s: seq<nat>, index: nat)
    requires Indices(entries, s) && index < |entries| && ProperIds(entries) && DistinctIds(entries)
    requires NewestFirst(entries, s) && index !in s
    ensures NewestFirst(entries, Inserted(entries, s, index))
  {
    hide IsNewer;
    var t := Inserted(entries, s, index);
    if s != [] && IsNewer(entries[index], entries[s[|s| - 1]]) {
      var last := s[|s| - 1];
      var init := Inserted(entries, s[..|s| - 1], index);
      InsertedIsSorted(entries, s[..|s| - 1], index);
      InsertedContents(entries, s[..|s| - 1], index);
      forall i | 0 <= i < |init|
        ensures IsNewer(entries[init[i]], entries[last])
      {
        assert init[i] in multiset(init);
        if init[i] != index {
          assert init[i] in s[..|s| - 1];
        }
      }
    } else {
      forall i | 0 <= i < |s|
        ensures IsNewer(entries[s[i]], entries[index])
      {
        NewerIsOrder(entries[s[i]], entries[s[|s| - 1]], entries[index]);
        NewerIsOrder(entries[s[|s| - 1]], entries[index], entries[index]);
        assert entries[s[|s| - 1]].credentialId != entries[index].credentialId;
      }
    }
  }

  /** What a scan of the first `n` entries for `wanted` ones has collected, at most `max` of them. */
  function Chosen(entries: seq<IndexEntry>, wanted: IndexEntry -> bool, n: nat, max: nat): (s: seq<nat>)
    requires n <= |entries|
    ensures Indices(entries, s) && |s| <= n && |s| <= max
  {
    if n == 0 then []
    else
      var s := Chosen(entries, wanted, n - 1, max);
      if wanted(entries[n - 1]) && |s| < max then Inserted(entries, s, n - 1) else s
  }

  lemma {:induction false} ChosenContents(entries: seq<IndexEntry>, wanted: IndexEntry -> bool, n: nat, max: nat)
    requires n <= |entries| && n <= max
    ensures forall i :: i in Chosen(entries, wanted, n, max) <==> 0 <= i < n && wanted(entries[i])
  {
    if n > 0 {
      ChosenContents(entries, wanted, n - 1, max);
      var s := Chosen(entries, wanted, n - 1, max);
      InsertedMembers(entries, s, n - 1);
      hide Inserted;
    }
  }

  lemma {:induction false} ChosenIsSorted(entries: seq<IndexEntry>, wanted: IndexEntry -> bool, n: nat, max: nat)
    requires n <= |entries| && n <= max && ProperIds(entries) && DistinctIds(entries)
    ensures NewestFirst(entries, Chosen(entries, wanted, n, max))
  {
    hide IsNewer, NewestFirst, Inserted, ProperIds, DistinctIds;
    if n == 0 {
      NothingIsSorted(entries);
    } else {
      ChosenIsSorted(entries, wanted, n - 1, max);
      var s := Chosen(entries, wanted, n - 1, max);
      ChosenContents(entries, wanted, n - 1, max);
      assert n - 1 !in s;
      InsertedIsSorted(entries, s, n - 1);
    }
  }

  lemma NothingIsSorted(entries: seq<IndexEntry>)
    ensures NewestFirst(entries, [])
  {
  }

  lemma NewestHasNoRepeats(entries: seq<IndexEntry>, s: seq<nat>)
    requires Indices(entries, s) && NewestFirst(entries, s)
    ensures forall i, j :: 0 <= i < j < |s| ==> s[i] != s[j]
  {
    hide IsNewer;
    forall i, j | 0 <= i < j < |s|
      ensures s[i] != s[j]
    {
      NewerIsOrder(entries[s[i]], entries[s[i]], entries[s[i]]);
    }
  }

  /**
   With room for every entry, a lookup lists each wanted entry exactly once, strictly newest
   first.
   */
  lemma LookupIsComplete(entries: seq<IndexEntry>, wanted: IndexEntry -> bool, max: nat)
    requires |entries| <= max && ProperIds(entries) && DistinctIds(entries)
    ensures var s := Chosen(entries, wanted, |entries|, max);
      && NewestFirst(entries, s)
      && (forall i :: i in s <==> 0 <= i < |entries| && wanted(entries[i]))
      && (forall i, j :: 0 <= i < j < |s| ==> s[i] != s[j])
  {
    hide NewestFirst, Chosen;
    ChosenContents(entries, wanted, |entries|, max);
    ChosenIsSorted(entries, wanted, |entries|, max);
    NewestHasNoRepeats(entries, Chosen(entries, wanted, |entries|, max));
  }

  /** There is only one such list. */
  lemma {:induction false} NewestFirstIsUnique(entries: seq<IndexEntry>, s: seq<nat>, t: seq<nat>)
    requires Indices(entries, s) && Indices(entries, t) && NewestFirst(entries, s) && NewestFirst(entries, t)
    requires forall i :: i in s <==> i in t
    ensures s == t
  {
    if s == [] {
      assert forall k :: 0 <= k < |t| ==> t[k] in t;
    } else {
      assert s[0] in s;
      assert t != [];
      assert t[0] in t;
      FirstIsNewest(entries, s, t[0]);
      FirstIsNewest(entries, t, s[0]);
      NewerIsOrder(entries[s[0]], entries[t[0]], entries[s[0]]);
      assert s[0] == t[0];
      RestAgrees(entries, s, t);
      RestAgrees(entries, t, s);
      NewestFirstIsUnique(entries, s[1..], t[1..]);
    }
  }

  lemma FirstIsNewest(entries: seq<IndexEntry>, s: seq<nat>, i: nat)
    requires Indices(entries, s) && NewestFirst(entries, s) && i in s
    ensures i == s[0] || IsNewer(entries[s[0]], entries[i])
  {
  }

  lemma RestAgrees(entries: seq<IndexEntry>, s: seq<nat>, t: seq<nat>)
    requires Indices(entries, s) && Indices(entries, t) && NewestFirst(entries, s)
    requires s != [] && t != [] && s[0] == t[0] && forall i :: i in s ==> i in t
    ensures forall i :: i in s[1..] ==> i in t[1..]
  {
    forall i | i in s[1..]
      ensures i in t[1..]
    {
      NewerIsOrder(entries[s[0]], entries[s[0]], entries[s[0]]);
      assert i in s && i != s[0];
      assert i in t;
    }
  }

  // The scans.

  function Resident(rpIdHash: seq<byte>): IndexEntry -> bool {
    (e: IndexEntry) => e.inUse && e.residentKey && e.rpIdHash == rpIdHash
  }

  function Filtered(rpIdHash: seq<byte>, filter: IndexEntry -> bool): IndexEntry -> bool {
    (e: IndexEntry) => e.inUse && e.rpIdHash == rpIdHash && filter(e)
  }

  /** Passing one newer entry on the way down. */
  lemma InsertedStep(entries: seq<IndexEntry>, s: seq<nat>, k: nat, index: nat)
    requires Indices(entries, s) && index < |entries| && k <= |s|
    ensures k > 0 && IsNewer(entries[index], entries[s[k - 1]]) ==>
      Inserted(entries, s[..k], index) == Inserted(entries, s[..k - 1], index) + [s[k - 1]]
    ensures k == 0 || !IsNewer(entries[index], entries[s[k - 1]]) ==>
      Inserted(entries, s[..k], index) == s[..k] + [index]
  {
    hide IsNewer;
    if k > 0 {
      assert s[..k][..k - 1] == s[..k - 1];
    }
  }

  /** The loop of the insertion: older entries move up by one, which leaves a hole at `at`. */
  method ShiftOlder(out: array<nat>, count: nat, store: CredentialStore, index: nat) returns (at: nat)
    requires store.Valid() && count < out.Length && index < store.count
    requires Indices(store.Live(), out[..count])
    modifies out
    ensures at <= count
    ensures forall k :: 0 <= k < at ==> out[k] == old(out[k])
    ensures forall k :: at <= k < count ==> out[k + 1] == old(out[k])
    ensures Inserted(store.Live(), old(out[..count]), index) == old(out[..at]) + [index] + old(out[at..count])
  {
    hide IsNewer, Inserted;
    ghost var entries, s := store.Live(), out[..count];
    at := count;
    assert s[..count] == s;
    InsertedStep(entries, s, at, index);
    while at > 0 && IsNewer(store.records[index], store.records[out[at - 1]])
      invariant at <= count
      invariant forall k :: 0 <= k < at ==> out[k] == s[k]
      invariant forall k :: at <= k < count ==> out[k + 1] == s[k]
      invariant Inserted(entries, s, index) == Inserted(entries, s[..at], index) + s[at..]
    {
      InsertedStep(entries, s, at, index);
      assert s[at - 1..] == [s[at - 1]] + s[at..];
      out[at] := out[at - 1];
      at := at - 1;
    }
    InsertedStep(entries, s, at, index);
    assert s[..at] == old(out[..at]) && s[at..] == old(out[at..count]);
  }

  /** `zf_store_insert_sorted_index`. */
  method InsertSortedIndex(out: array<nat>, count: nat, max: nat, store: CredentialStore,
                           index: nat) returns (next: nat)
    requires store.Valid() && count <= max <= out.Length && index < store.count
    requires Indices(store.Live(), out[..count])
    modifies out
    ensures next <= max && Indices(store.Live(), out[..next])
    ensures out[..next] == if count < max then Inserted(store.Live(), old(out[..count]), index) else old(out[..count])
  {
    hide Inserted;
    next := count;
    if count >= max {
      return;
    }
    var at := ShiftOlder(out, count, store, index);
    out[at] := index;
    next := count + 1;
    ghost var t := old(out[..at]) + [index] + old(out[at..count]);
    assert |t| == next;
    assert forall k :: 0 <= k < next ==> out[k] == t[k];
    assert out[..next] == t;
  }

  /** `zf_store_find_by_rp`. */
  method FindByRp(store: CredentialStore, rpId: seq<byte>, out: array<nat>, max: nat) returns (count: nat)
    requires store.Valid() && max <= out.Length
    modifies out
    ensures count <= max
    ensures out[..count] == Chosen(store.Live(), Resident(Sha256.Hash(rpId)), store.count, max)
  {
    hide Inserted, Sha256.Hash;
    var hash := Sha256.Hash(rpId);
    ghost var entries := store.Live();
    count := 0;
    var i := 0;
    while i < store.count
      invariant i <= store.count && count <= max
      invariant out[..count] == Chosen(entries, Resident(hash), i, max)
    {
      var e := store.records[i];
      if e.inUse && e.residentKey && e.rpIdHash == hash {
        count := InsertSortedIndex(out, count, max, store, i);
      }
      i := i + 1;
    }
  }

  /** `zf_store_find_by_rp_filtered`. */
  method FindByRpFiltered(store: CredentialStore, rpId: seq<byte>, filter: IndexEntry -> bool, out: array<nat>,
                          max: nat)
      returns (count: nat)
    requires store.Valid() && max <= out.Length
    modifies out
    ensures count <= max
    ensures out[..count] == Chosen(store.Live(), Filtered(Sha256.Hash(rpId), filter), store.count, max)
  {
    hide Inserted, Sha256.Hash;
    var hash := Sha256.Hash(rpId);
    ghost var entries := store.Live();
    count := 0;
    var i := 0;
    while i < store.count
      invariant i <= store.count && count <= max
      invariant out[..count] == Chosen(entries, Filtered(hash, filter), i, max)
    {
      var e := store.records[i];
      if e.inUse && e.rpIdHash == hash && filter(e) {
        count := InsertSortedIndex(out, count, max, store, i);
      }
      i := i + 1;
    }
  }
}
