/**
 Deleting a user's resident credentials in two phases: first the indices are found and the files
 removed, then the entries are taken out from the back (src/zerofido_store.c).
 */
module DeletePhases {
  import opened Bytes
  import opened AtomicFile
  import opened Record
  import opened CounterGuard
  import opened CounterStore
  import opened StoreIndex
  import opened StorePaths
  import opened StoreLookup
  import opened Recovery
  import opened DeleteOutcome

  predicate Ascending(s: seq<nat>, bound: nat) {
    (forall i :: 0 <= i < |s| ==> s[i] < bound) && (forall i, j :: 0 <= i < j < |s| ==> s[i] < s[j])
  }

  /** The positions of the entries that go, in order. */
  function Positions(entries: seq<IndexEntry>, gone: IndexEntry -> bool): (s: seq<nat>)
    ensures |s| <= |entries| && Ascending(s, |entries|)
  {
    if entries == [] then []
    else
      var n := |entries| - 1;
      Positions(entries[..n], gone) + (if gone(entries[n]) then [n] else [])
  }

  ghost function DoomedIndices(enclave: Enclave, d: Disk, entries: seq<IndexEntry>, account: Account): (s: seq<nat>)
    ensures |s| <= |entries| && Ascending(s, |entries|)
  {
    Positions(entries, DoomedBy(enclave, d, account))
  }

  /** The list after the entries at these positions are taken out, the last one first. */
  function Without(entries: seq<IndexEntry>, s: seq<nat>): (t: seq<IndexEntry>)
    requires Ascending(s, |entries|)
    ensures |t| == |entries| - |s|
    decreases |s|
  {
    if s == [] then entries
    else
      var last := s[|s| - 1];
      Without(entries[..last] + entries[last + 1..], s[..|s| - 1])
  }

  /** The files of the entries at these positions. */
  function FilesAt(entries: seq<IndexEntry>, s: seq<nat>): set<Path>
    requires Indices(entries, s)
  {
    if s == [] then {} else FilesAt(entries, s[..|s| - 1]) + FilesOf(NameOf(entries[s[|s| - 1]]))
  }

  lemma LastEntry(entries: seq<IndexEntry>, gone: IndexEntry -> bool)
    requires entries != []
    ensures var n := |entries| - 1;
      if gone(entries[n]) then
        && Positions(entries, gone) == Positions(entries[..n], gone) + [n]
        && Remaining(entries, gone) == Remaining(entries[..n], gone)
        && FilesGone(entries, gone) == FilesGone(entries[..n], gone) + FilesOf(NameOf(entries[n]))
      else
        && Positions(entries, gone) == Positions(entries[..n], gone)
        && Remaining(entries, gone) == Remaining(entries[..n], gone) + [entries[n]]
        && FilesGone(entries, gone) == FilesGone(entries[..n], gone)
  {
    hide FilesOf, NameOf;
  }

  lemma NoEntry(gone: IndexEntry -> bool)
    ensures Positions([], gone) == [] && Remaining([], gone) == [] && FilesGone([], gone) == {}
  {
  }

  lemma WithoutLast(entries: seq<IndexEntry>, s: seq<nat>, n: nat)
    requires Ascending(s, n) && n < |entries|
    ensures Ascending(s + [n], |entries|)
    ensures Without(entries, s + [n]) == Without(entries[..n] + entries[n + 1..], s)
  {
  }

  /** Taking out the positions of the entries that go leaves the ones that stay. */
  lemma {:induction false} WithoutLeavesRemaining(entries: seq<IndexEntry>, gone: IndexEntry -> bool,
                                                  tail: seq<IndexEntry>)
    ensures Ascending(Positions(entries, gone), |entries + tail|)
    ensures Without(entries + tail, Positions(entries, gone)) == Remaining(entries, gone) + tail
  {
    hide Positions, Remaining, FilesGone, Without;
    if entries == [] {
      NoEntry(gone);
      assert entries + tail == tail;
      NoneTaken(tail);
    } else {
      var n := |entries| - 1;
      var init := entries[..n];
      LastEntry(entries, gone);
      if gone(entries[n]) {
        WithoutLeavesRemaining(init, gone, tail);
        assert (entries + tail)[..n] + (entries + tail)[n + 1..] == init + tail;
        WithoutLast(entries + tail, Positions(init, gone), n);
      } else {
        WithoutLeavesRemaining(init, gone, [entries[n]] + tail);
        assert entries + tail == init + ([entries[n]] + tail);
        assert Remaining(init, gone) + ([entries[n]] + tail) == Remaining(init, gone) + [entries[n]] + tail;
      }
    }
  }

  lemma NoneTaken(entries: seq<IndexEntry>)
    ensures Without(entries, []) == entries
  {
  }

  lemma FilesAtLast(entries: seq<IndexEntry>, s: seq<nat>, n: nat)
    requires Indices(entries, s) && n < |entries|
    ensures FilesAt(entries, s + [n]) == FilesAt(entries, s) + FilesOf(NameOf(entries[n]))
  {
  }

  lemma {:induction false} FilesAtPositions(entries: seq<IndexEntry>, gone: IndexEntry -> bool, n: nat)
    requires n <= |entries|
    ensures FilesAt(entries, Positions(entries[..n], gone)) == FilesGone(entries[..n], gone)
  {
    hide FilesOf, NameOf, Positions, FilesGone, Remaining;
    if n == 0 {
      NoEntry(gone);
      assert entries[..0] == [];
    } else {
      assert entries[..n][..n - 1] == entries[..n - 1];
      FilesAtPositions(entries, gone, n - 1);
      LastEntry(entries[..n], gone);
      if gone(entries[n - 1]) {
        FilesAtLast(entries, Positions(entries[..n - 1], gone), n - 1);
      }
    }
  }

  /** Both phases of the deletion, on the index and on the files, name the same entries. */
  lemma PhasesAgree(enclave: Enclave, d: Disk, entries: seq<IndexEntry>, account: Account)
    ensures Without(entries, DoomedIndices(enclave, d, entries, account)) == Survivors(enclave, d, entries, account)
    ensures FilesAt(entries, DoomedIndices(enclave, d, entries, account)) == DoomedFiles(enclave, d, entries, account)
  {
    hide Positions, Without, Remaining, FilesAt, FilesGone;
    var gone := DoomedBy(enclave, d, account);
    WithoutLeavesRemaining(entries, gone, []);
    FilesAtPositions(entries, gone, |entries|);
    assert entries + [] == entries && entries[..|entries|] == entries;
    assert Remaining(entries, gone) + [] == Remaining(entries, gone);
  }

  lemma DoomedIndicesStep(enclave: Enclave, d: Disk, entries: seq<IndexEntry>, account: Account, n: nat)
    requires n < |entries|
    ensures DoomedIndices(enclave, d, entries[..n + 1], account) ==
      DoomedIndices(enclave, d, entries[..n], account) + (if Doomed(enclave, d, entries[n], account) then [n] else [])
  {
    hide Doomed;
    assert entries[..n + 1][..n] == entries[..n];
  }

  /** The members of the list of positions. */
  lemma {:induction false} PositionsMembers(entries: seq<IndexEntry>, gone: IndexEntry -> bool)
    ensures forall i: nat :: i in Positions(entries, gone) <==> i < |entries| && gone(entries[i])
  {
    if entries != [] {
      PositionsMembers(entries[..|entries| - 1], gone);
    }
  }

  lemma {:induction false} DoomedIndicesGrow(enclave: Enclave, d: Disk, entries: seq<IndexEntry>, account: Account,
                                             n: nat)
    requires n <= |entries|
    ensures |DoomedIndices(enclave, d, entries[..n], account)| <= |DoomedIndices(enclave, d, entries, account)|
    decreases |entries| - n
  {
    hide Doomed, DoomedIndices;
    if n < |entries| {
      DoomedIndicesStep(enclave, d, entries, account, n);
      DoomedIndicesGrow(enclave, d, entries, account, n + 1);
    } else {
      assert entries[..n] == entries;
    }
  }

  /** The state of the search after `n` entries, `s` found. */
  ghost predicate FoundTo(enclave: Enclave, d0: Disk, d: Disk, entries: seq<IndexEntry>, account: Account, n: nat,
                          s: seq<nat>, exact: bool) {
    && n <= |entries| && Ascending(s, n) && ElsewhereIntact(d0, d, entries)
    && (forall j :: n <= j < |entries| ==> SameOn(d0, d, FilesOf(NameOf(entries[j]))))
    && (forall m :: 0 <= m < |s| ==> Doomed(enclave, d0, entries[s[m]], account))
    && (exact ==> s == DoomedIndices(enclave, d0, entries[..n], account))
    && (exact ==> forall j :: 0 <= j < n ==> Looked(enclave, d0, d, entries[j], account))
  }

  lemma FoundNothing(enclave: Enclave, d: Disk, entries: seq<IndexEntry>, account: Account, exact: bool)
    ensures FoundTo(enclave, d, d, entries, account, 0, [], exact)
  {
    NoDoom(enclave, d, account);
    hide Doomed, FilesOf, NameOf;
    assert entries[..0] == [];
  }

  lemma FoundNext(enclave: Enclave, d0: Disk, d: Disk, d1: Disk, entries: seq<IndexEntry>, account: Account, n: nat,
                  s: seq<nat>, belongs: bool, exact: bool)
    requires FoundTo(enclave, d0, d, entries, account, n, s, exact) && n < |entries|
    requires ProperIds(entries) && DistinctIds(entries) && AgreeOutside(d, d1, FilesOf(NameOf(entries[n])))
    requires belongs ==> Doomed(enclave, d, entries[n], account)
    requires exact ==> belongs == Doomed(enclave, d, entries[n], account)
    requires exact ==>
      if Candidate(entries[n], account) then LoadedExactly(enclave, d, d1, NameOf(entries[n])) else d1 == d
    ensures FoundTo(enclave, d0, d1, entries, account, n + 1, if belongs then s + [n] else s, exact)
  {
    hide Doomed, FilesOf, NameOf, Looked, LoadedExactly, Candidate, ProperIds, DistinctIds, ElsewhereIntact,
         DoomedIndices;
    OthersUntouched(d, d1, entries, n);
    ElsewhereStays(d0, d, d1, entries, n);
    DoomIsLocal(enclave, d0, d, entries[n], account);
    DoomedIndicesStep(enclave, d0, entries, account, n);
    if exact {
      LoadIsLooked(enclave, d0, d, d1, entries[n], account);
      forall j | 0 <= j < n + 1
        ensures Looked(enclave, d0, d1, entries[j], account)
      {
        if j < n {
          OutcomeStays(enclave, d0, d, d1, entries[j], account);
        }
      }
    }
    forall j | n + 1 <= j < |entries|
      ensures SameOn(d0, d1, FilesOf(NameOf(entries[j])))
    {
      assert SameOn(d0, d, FilesOf(NameOf(entries[j]))) && SameOn(d, d1, FilesOf(NameOf(entries[j])));
    }
  }

  /** There was no room for another index. */
  lemma FoundTooMany(enclave: Enclave, d0: Disk, d: Disk, entries: seq<IndexEntry>, account: Account, n: nat,
                     s: seq<nat>, room: nat)
    requires FoundTo(enclave, d0, d, entries, account, n, s, true) && room < |s|
    ensures room < |DoomedIndices(enclave, d0, entries, account)|
  {
    hide Doomed, DoomedIndices, FilesOf, NameOf, Looked;
    DoomedIndicesGrow(enclave, d0, entries, account, n);
  }

  /** `zf_store_find_resident_credential_indices_for_user_with_buffer`. */
  method FindIndices(volume: Volume, enclave: Enclave, store: CredentialStore, account: Account, out: array<nat>,
                     ivs: nat -> seq<byte>)
      returns (ok: bool, found: nat)
    requires volume.Valid() && store.Valid() && enclave.ready && enclave.Ideal() && forall i :: |ivs(i)| == 16
    requires ProperIds(store.Live()) && DistinctIds(store.Live()) && 0 < out.Length
    modifies volume, out
    ensures volume.Valid() && old(volume.history) <= volume.history && found <= out.Length
    ensures Ascending(out[..found], store.count)
    ensures forall m :: 0 <= m < found ==> Doomed(enclave, old(volume.files), store.Live()[out[m]], account)
    ensures ok ==> FoundTo(enclave, old(volume.files), volume.files, store.Live(), account, store.count, out[..found],
                           Faultless(volume, enclave))
    ensures store.count <= out.Length ==> ok
    ensures Faultless(volume, enclave) ==>
      ok == (|DoomedIndices(enclave, old(volume.files), store.Live(), account)| <= out.Length)
  {
    hide Doomed, LoadVerdict, HexEncode, LoadingStage, NameOf, DoomedIndices, FoundTo, DistinctIds, Candidate,
         LoadedExactly, FilesOf;
    ghost var d0, entries := volume.files, store.Live();
    ghost var exact := Faultless(volume, enclave);
    ok, found := true, 0;
    FoundNothing(enclave, d0, entries, account, exact);
    assert out[..0] == [];
    var i := 0;
    while i < store.count
      modifies volume, out
      invariant volume.Valid() && old(volume.history) <= volume.history && i <= store.count && found <= out.Length &&
        found <= i
      invariant FoundTo(enclave, d0, volume.files, entries, account, i, out[..found], exact)
    {
      ghost var d, s := volume.files, out[..found];
      assert store.records[i] == entries[i];
      var belongs := BelongsTo(volume, enclave, store.records[i], account, ivs(i));
      FoundNext(enclave, d0, d, volume.files, entries, account, i, s, belongs, exact);
      FoundAscending(enclave, d0, d, entries, account, i, s, exact);
      i := i + 1;
      if belongs {
        if found >= out.Length {
          if exact {
            FoundTooMany(enclave, d0, volume.files, entries, account, i, s + [i - 1], out.Length);
          }
          return false, found;
        }
        out[found] := i - 1;
        found := found + 1;
        assert out[..found] == s + [i - 1];
      }
    }
    FoundAscending(enclave, d0, volume.files, entries, account, i, out[..found], exact);
    FoundAll(enclave, d0, volume.files, entries, account, out[..found], exact);
  }

  lemma FoundAscending(enclave: Enclave, d0: Disk, d: Disk, entries: seq<IndexEntry>, account: Account, n: nat,
                       s: seq<nat>, exact: bool)
    requires FoundTo(enclave, d0, d, entries, account, n, s, exact)
    ensures Ascending(s, |entries|) && forall m :: 0 <= m < |s| ==> Doomed(enclave, d0, entries[s[m]], account)
  {
    hide Doomed, Looked, FilesOf, NameOf, DoomedIndices;
  }

  lemma FoundAll(enclave: Enclave, d0: Disk, d: Disk, entries: seq<IndexEntry>, account: Account, s: seq<nat>,
                 exact: bool)
    requires FoundTo(enclave, d0, d, entries, account, |entries|, s, exact)
    ensures exact ==> s == DoomedIndices(enclave, d0, entries, account)
    ensures exact ==> forall j :: 0 <= j < |entries| ==> Looked(enclave, d0, d, entries[j], account)
    ensures ElsewhereIntact(d0, d, entries)
  {
    hide Doomed, Looked, FilesOf, NameOf, DoomedIndices;
    assert entries[..|entries|] == entries;
  }

  lemma NoDoom(enclave: Enclave, d: Disk, account: Account)
    ensures DoomedIndices(enclave, d, [], account) == []
  {
  }

  /** Each of these is the index of an entry in use. */
  predicate AllInUse(entries: seq<IndexEntry>, s: seq<nat>) {
    forall i :: 0 <= i < |s| ==> s[i] < |entries| && entries[s[i]].inUse
  }

  /** `zf_store_remove_credential_files_by_indices`: the index is left alone. */
  method RemoveFilesByIndices(volume: Volume, store: CredentialStore, indices: array<nat>,
                              count: nat) returns (ok: bool, removed: nat)
    requires volume.Valid() && store.Valid() && ProperIds(store.Live()) && count <= indices.Length
    modifies volume
    ensures volume.Valid() && old(volume.history) <= volume.history && removed <= count
    ensures ok ==> removed == count && Indices(store.Live(), indices[..count])
    ensures ok ==> volume.files == old(volume.files) - FilesAt(store.Live(), indices[..count])
    ensures volume.sound ==> (ok <==> AllInUse(store.Live(), indices[..count]))
  {
    hide FilesOf, HexEncode, RemovalStage;
    ghost var entries, s := store.Live(), indices[..count];
    ok, removed := true, 0;
    while removed < count
      invariant removed <= count && volume.Valid() && old(volume.history) <= volume.history
      invariant Indices(entries, s[..removed]) && AllInUse(entries, s[..removed])
      invariant volume.files == old(volume.files) - FilesAt(entries, s[..removed])
    {
      var index := indices[removed];
      if index >= store.count || !store.records[index].inUse {
        return false, removed;
      }
      assert s[..removed + 1][..removed] == s[..removed] && s[..removed + 1] == s[..removed] + [index];
      NameLength(store.records[index]);
      assert entries[index] == store.records[index];
      ok := RemoveRecordPaths(volume, NameOf(store.records[index]));
      if !ok {
        return;
      }
      removed := removed + 1;
    }
    assert s[..removed] == s;
  }

  lemma LastIsHighest(s: seq<nat>, bound: nat)
    requires Ascending(s, bound) && s != []
    ensures var n := s[|s| - 1]; n < bound && Ascending(s[..|s| - 1], n) && Ascending(s[..|s| - 1], bound - 1)
  {
  }

  /** One index is taken out; the lower ones still point at their entries. */
  method TakeOut(store: CredentialStore, index: nat, ghost lower: seq<nat>)
    requires store.Valid() && Ascending(lower + [index], store.count)
    modifies store, store.records
    ensures store.Valid() && store.records == old(store.records) && store.count == old(store.count) - 1
    ensures Ascending(lower, store.count) && Without(store.Live(), lower) == Without(old(store.Live()), lower + [index])
    ensures store.records[store.count..] == [BLANK] + old(store.records[store.count..])
  {
    hide Without, BLANK;
    assert (lower + [index])[..|lower|] == lower;
    LastIsHighest(lower + [index], store.count);
    WithoutLast(store.Live(), lower, index);
    if index < store.count {
      store.CompactAfterDelete(index);
    }
  }

  /** `zf_store_publish_deleted_indices`: from the last index down, so that the others stay valid. */
  method PublishDeletedIndices(store: CredentialStore, indices: array<nat>, count: nat)
    requires store.Valid() && count <= indices.Length && Ascending(indices[..count], store.count) && indices.Length > 0
    modifies store, store.records
    ensures store.Valid() && store.records == old(store.records)
    ensures store.Live() == Without(old(store.Live()), indices[..count])
    ensures store.records[store.count..] == Blanks(old(store.count) - store.count) + old(store.records[store.count..])
  {
    hide Without, Blanks, BLANK, Ascending;
    ghost var s, entries, tail := indices[..count], store.Live(), store.records[store.count..];
    NoBlanks(tail);
    var left := count;
    assert s[..left] == s;
    while left > 0
      invariant left <= count && store.Valid() && store.records == old(store.records) &&
        store.count + count - left == |entries|
      invariant Ascending(s[..left], store.count)
      invariant Without(store.Live(), s[..left]) == Without(entries, s)
      invariant store.records[store.count..] == Blanks(count - left) + tail
    {
      assert s[..left] == s[..left - 1] + [indices[left - 1]];
      TakeOut(store, indices[left - 1], s[..left - 1]);
      OneMoreBlank(count - left, tail);
      left := left - 1;
    }
    assert s[..0] == [];
    NoneTaken(store.Live());
  }

  /** The files of a list of entries. */
  lemma {:induction false} FilesAtMembers(entries: seq<IndexEntry>, s: seq<nat>, p: Path)
    requires Indices(entries, s)
    ensures p in FilesAt(entries, s) <==> exists k :: 0 <= k < |s| && p in FilesOf(NameOf(entries[s[k]]))
  {
    hide FilesOf, NameOf;
    if s != [] {
      FilesAtMembers(entries, s[..|s| - 1], p);
      assert forall k :: 0 <= k < |s| - 1 ==> s[..|s| - 1][k] == s[k];
    }
  }

  /** After the files of these entries are removed the outcome is settled for all. */
  lemma RemovalSettles(enclave: Enclave, d0: Disk, d: Disk, before: seq<IndexEntry>, account: Account, s: seq<nat>)
    requires ProperIds(before) && DistinctIds(before) && ElsewhereIntact(d0, d, before)
    requires s == DoomedIndices(enclave, d0, before, account)
    requires forall j :: 0 <= j < |before| ==> Looked(enclave, d0, d, before[j], account)
    ensures IsDeleted(enclave, d0, d - FilesAt(before, s), before, Without(before, s), account)
  {
    hide Doomed, Looked, FilesOf, NameOf, Survivors, Without, FilesAt, DoomedFiles, ProperIds, DistinctIds, Positions;
    var d1 := d - FilesAt(before, s);
    PhasesAgree(enclave, d0, before, account);
    PositionsMembers(before, DoomedBy(enclave, d0, account));
    forall p | Lookup(d1, p) != Lookup(d0, p)
      ensures exists i :: 0 <= i < |before| && p in FilesOf(NameOf(before[i]))
    {
      if p in FilesAt(before, s) {
        FilesAtMembers(before, s, p);
      } else {
        assert Lookup(d, p) != Lookup(d0, p);
      }
    }
    forall i | 0 <= i < |before|
      ensures Outcome(enclave, d0, d1, before[i], account)
    {
      if Doomed(enclave, d0, before[i], account) {
        assert i in s;
        forall p | p in FilesOf(NameOf(before[i]))
          ensures p !in d1
        {
          FilesAtMembers(before, s, p);
        }
      } else {
        assert i !in s;
        OthersKeepTheirFiles(before, s, i);
        assert SameOn(d, d1, FilesOf(NameOf(before[i])));
        OutcomeStays(enclave, d0, d, d1, before[i], account);
      }
    }
  }

  lemma OthersKeepTheirFiles(entries: seq<IndexEntry>, s: seq<nat>, i: nat)
    requires ProperIds(entries) && DistinctIds(entries) && Indices(entries, s) && i < |entries| && i !in s
    ensures FilesAt(entries, s) !! FilesOf(NameOf(entries[i]))
  {
    hide FilesOf, NameOf, FilesAt, ProperIds, DistinctIds;
    forall p | p in FilesAt(entries, s)
      ensures p !in FilesOf(NameOf(entries[i]))
    {
      FilesAtMembers(entries, s, p);
      var k :| 0 <= k < |s| && p in FilesOf(NameOf(entries[s[k]]));
      NamesDiffer(entries, s[k], i);
      CredentialsAreApart(NameOf(entries[s[k]]), NameOf(entries[i]));
    }
  }

  /** Taking positions out leaves the entries at the others. */
  lemma {:induction false} WithoutKeeps(entries: seq<IndexEntry>, s: seq<nat>, i: nat)
    requires Ascending(s, |entries|) && i < |entries| && i !in s
    ensures entries[i] in Without(entries, s)
    decreases |s|
  {
    if s != [] {
      var last := s[|s| - 1];
      var rest := entries[..last] + entries[last + 1..];
      var k := if i < last then i else i - 1;
      assert rest[k] == entries[i];
      assert k !in s[..|s| - 1];
      WithoutKeeps(rest, s[..|s| - 1], k);
    }
  }

  lemma OnlyFoundLeave(enclave: Enclave, d0: Disk, before: seq<IndexEntry>, account: Account, s: seq<nat>)
    requires Ascending(s, |before|) && forall m :: 0 <= m < |s| ==> Doomed(enclave, d0, before[s[m]], account)
    ensures OnlyDoomedLeave(enclave, d0, before, Without(before, s), account)
  {
    hide Doomed, Without;
    forall i | 0 <= i < |before| && !Doomed(enclave, d0, before[i], account)
      ensures before[i] in Without(before, s)
    {
      WithoutKeeps(before, s, i);
    }
  }

  lemma NobodyLeaves(enclave: Enclave, d0: Disk, before: seq<IndexEntry>, account: Account)
    ensures OnlyDoomedLeave(enclave, d0, before, before, account)
  {
  }

  /** Find, remove the files, publish: the two-phase deletion as its caller runs it. */
  method DeleteTwoPhase(volume: Volume, enclave: Enclave, store: CredentialStore, account: Account,
                        ivs: nat -> seq<byte>)
      returns (ok: bool, removed: nat)
    requires volume.Valid() && store.Valid() && enclave.ready && enclave.Ideal() && forall i :: |ivs(i)| == 16
    requires ProperIds(store.Live()) && DistinctIds(store.Live())
    modifies volume, store, store.records
    ensures volume.Valid() && store.Valid() && old(volume.history) <= volume.history &&
      store.records == old(store.records)
    ensures Faultless(volume, enclave) ==>
      ok && IsDeleted(enclave, old(volume.files), volume.files, old(store.Live()), store.Live(), account)
    ensures OnlyDoomedLeave(enclave, old(volume.files), old(store.Live()), store.Live(), account)
    ensures !ok ==> store.Live() == old(store.Live())
    ensures ok ==> store.count + removed == old(store.count)
    ensures store.records[store.count..] == Blanks(old(store.count) - store.count) + old(store.records[store.count..])
  {
    hide Survivors, DoomedIndices, FilesAt, FilesOf, Without, FoundTo, IsDeleted, OnlyDoomedLeave, Doomed, Looked,
         DistinctIds;
    ghost var d0, before := volume.files, store.Live();
    ghost var exact := Faultless(volume, enclave);
    NobodyLeaves(enclave, d0, before, account);
    var indices := new nat[MAX_CREDENTIALS];
    var found;
    ok, found := FindIndices(volume, enclave, store, account, indices, ivs);
    removed := 0;
    if !ok {
      return;
    }
    ghost var d1, s := volume.files, indices[..found];
    FoundAll(enclave, d0, d1, before, account, s, exact);
    DoomedAreInUse(enclave, d0, before, account, s);
    OnlyFoundLeave(enclave, d0, before, account, s);
    ok, removed := RemoveFilesByIndices(volume, store, indices, found);
    if !ok {
      return;
    }
    PublishDeletedIndices(store, indices, found);
    if exact {
      RemovalSettles(enclave, d0, d1, before, account, s);
    }
  }

  lemma DoomedAreInUse(enclave: Enclave, d: Disk, entries: seq<IndexEntry>, account: Account, s: seq<nat>)
    requires Indices(entries, s) && forall m :: 0 <= m < |s| ==> Doomed(enclave, d, entries[s[m]], account)
    ensures AllInUse(entries, s)
  {
  }

  /** No load of these entries has a companion to write. */
  ghost predicate Quiet(enclave: Enclave, d: Disk, entries: seq<IndexEntry>) {
    forall i :: 0 <= i < |entries| ==>
      LoadVerdict(enclave, d, NameOf(entries[i])).Accepted? ==> !LoadVerdict(enclave, d, NameOf(entries[i])).write
  }

  lemma QuietLook(enclave: Enclave, d0: Disk, d: Disk, e: IndexEntry, account: Account)
    requires Looked(enclave, d0, d, e, account)
    requires LoadVerdict(enclave, d0, NameOf(e)).Accepted? ==> !LoadVerdict(enclave, d0, NameOf(e)).write
    ensures SameOn(d0, d, FilesOf(NameOf(e)))
  {
    hide LoadVerdict, PrimaryRecord, FilesOf, NameOf, Candidate;
  }

  /** Where no companion has to be made, exactly the files of the doomed entries are gone. */
  lemma QuietDeletion(enclave: Enclave, d0: Disk, d: Disk, before: seq<IndexEntry>, after: seq<IndexEntry>,
                      account: Account)
    requires IsDeleted(enclave, d0, d, before, after, account) && Quiet(enclave, d0, before)
    requires ProperIds(before) && DistinctIds(before)
    ensures d == d0 - DoomedFiles(enclave, d0, before, account)
  {
    hide Doomed, Looked, LoadVerdict, Survivors, FilesOf, NameOf, DoomedFiles, FilesAt, Positions, Without, ProperIds,
         DistinctIds;
    var s := DoomedIndices(enclave, d0, before, account);
    PhasesAgree(enclave, d0, before, account);
    PositionsMembers(before, DoomedBy(enclave, d0, account));
    forall p
      ensures Lookup(d, p) == Lookup(d0 - FilesAt(before, s), p)
    {
      FilesAtMembers(before, s, p);
      if i :| 0 <= i < |before| && p in FilesOf(NameOf(before[i])) {
        assert Outcome(enclave, d0, d, before[i], account);
        if !Doomed(enclave, d0, before[i], account) {
          OthersKeepTheirFiles(before, s, i);
          QuietLook(enclave, d0, d, before[i], account);
        }
      } else {
        assert Lookup(d, p) == Lookup(d0, p);
      }
    }
    SameLookups(d, d0 - FilesAt(before, s));
  }

  lemma SameLookups(d: Disk, other: Disk)
    requires forall p :: Lookup(d, p) == Lookup(other, p)
    ensures d == other
  {
    assert forall p :: p in d <==> Lookup(d, p).Some?;
    assert forall p :: p in other <==> Lookup(other, p).Some?;
    assert forall p :: p in d ==> Lookup(d, p).value == Lookup(other, p).value;
  }
}
