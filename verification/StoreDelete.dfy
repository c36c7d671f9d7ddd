/**
 Deleting a user's resident credentials in one pass that compacts while it scans, and deleting one
 credential by its id (src/zerofido_store.c).
 */
module StoreDelete {
  import opened Bytes
  import opened AtomicFile
  import opened Record
  import opened CounterGuard
  import opened CounterStore
  import opened CounterAdvance
  import opened StoreIndex
  import opened StorePaths
  import opened StoreLookup
  import opened Recovery
  import opened DeleteOutcome

  /**
   The state of the scan after `k` of the original entries, with `i` of them left.  As long as nothing
   has failed (`exact`) the entries so far and their files have had their outcome.
   */
  ghost predicate ScannedTo(enclave: Enclave, d0: Disk, d: Disk, before: seq<IndexEntry>, live: seq<IndexEntry>,
                            account: Account, k: nat, i: nat, exact: bool) {
    && k <= |before| && i <= |live| && live[i..] == before[k..] && ElsewhereIntact(d0, d, before)
    && (forall j :: k <= j < |before| ==> SameOn(d0, d, FilesOf(NameOf(before[j]))))
    && (forall j :: 0 <= j < k && !Doomed(enclave, d0, before[j], account) ==> before[j] in live[..i])
    && (exact ==> live[..i] == Survivors(enclave, d0, before[..k], account))
    && (exact ==> forall j :: 0 <= j < k ==> Outcome(enclave, d0, d, before[j], account))
  }

  /** What the scan finds at its position. */
  lemma ScanSees(enclave: Enclave, d0: Disk, d: Disk, before: seq<IndexEntry>, live: seq<IndexEntry>,
                 account: Account, k: nat, i: nat, exact: bool)
    requires ScannedTo(enclave, d0, d, before, live, account, k, i, exact) && k < |before|
    ensures i < |live| && live[i] == before[k]
    ensures Doomed(enclave, d, live[i], account) == Doomed(enclave, d0, before[k], account)
  {
    hide Doomed, Survivors, FilesOf, HexEncode, Outcome, ElsewhereIntact;
    assert live[i..][0] == before[k..][0];
    DoomIsLocal(enclave, d0, d, before[k], account);
  }

  /** The entry stays: the scan moves on. */
  lemma ScanPasses(enclave: Enclave, d0: Disk, d: Disk, d1: Disk, before: seq<IndexEntry>, live: seq<IndexEntry>,
                   account: Account, k: nat, i: nat, exact: bool)
    requires ScannedTo(enclave, d0, d, before, live, account, k, i, exact) && k < |before|
    requires ProperIds(before) && DistinctIds(before) && AgreeOutside(d, d1, FilesOf(NameOf(before[k])))
    requires exact ==> !Doomed(enclave, d0, before[k], account) && Looked(enclave, d0, d1, before[k], account)
    ensures ScannedTo(enclave, d0, d1, before, live, account, k + 1, i + 1, exact)
  {
    hide Doomed, Survivors, FilesOf, NameOf, Outcome, Looked, ElsewhereIntact, ProperIds, DistinctIds;
    assert live[i..][0] == before[k..][0] && live[i..][1..] == before[k..][1..];
    assert live[..i + 1] == live[..i] + [before[k]];
    assert live[i + 1..] == before[k + 1..];
    OthersUntouched(d, d1, before, k);
    ElsewhereStays(d0, d, d1, before, k);
    SurvivorsStep(enclave, d0, before, account, k);
    OutcomeDecided(enclave, d0, d1, before[k], account);
    ScanKeeps(enclave, d0, d, d1, before, account, k, exact);
  }

  lemma ScanKeeps(enclave: Enclave, d0: Disk, d: Disk, d1: Disk, before: seq<IndexEntry>, account: Account, k: nat,
                  exact: bool)
    requires k < |before| && forall j :: 0 <= j < |before| && j != k ==> SameOn(d, d1, FilesOf(NameOf(before[j])))
    requires forall j :: k <= j < |before| ==> SameOn(d0, d, FilesOf(NameOf(before[j])))
    requires exact ==> forall j :: 0 <= j < k ==> Outcome(enclave, d0, d, before[j], account)
    requires exact ==> Outcome(enclave, d0, d1, before[k], account)
    ensures forall j :: k + 1 <= j < |before| ==> SameOn(d0, d1, FilesOf(NameOf(before[j])))
    ensures exact ==> forall j :: 0 <= j < k + 1 ==> Outcome(enclave, d0, d1, before[j], account)
  {
    hide FilesOf, NameOf, Outcome;
    if exact {
      forall j | 0 <= j < k + 1
        ensures Outcome(enclave, d0, d1, before[j], account)
      {
        if j < k {
          OutcomeStays(enclave, d0, d, d1, before[j], account);
        }
      }
    }
    forall j | k + 1 <= j < |before|
      ensures SameOn(d0, d1, FilesOf(NameOf(before[j])))
    {
      assert SameOn(d0, d, FilesOf(NameOf(before[j]))) && SameOn(d, d1, FilesOf(NameOf(before[j])));
    }
  }

  /** The entry goes, with its files. */
  lemma ScanRemoves(enclave: Enclave, d0: Disk, d: Disk, d1: Disk, before: seq<IndexEntry>, live: seq<IndexEntry>,
                    next: seq<IndexEntry>, account: Account, k: nat, i: nat, exact: bool)
    requires ScannedTo(enclave, d0, d, before, live, account, k, i, exact) && k < |before| && i < |live|
    requires ProperIds(before) && DistinctIds(before) && AgreeOutside(d, d1, FilesOf(NameOf(before[k])))
    requires Doomed(enclave, d0, before[k], account) && AllGone(d1, FilesOf(NameOf(before[k])))
    requires next == live[..i] + live[i + 1..]
    ensures ScannedTo(enclave, d0, d1, before, next, account, k + 1, i, exact)
  {
    hide Doomed, Survivors, FilesOf, NameOf, Outcome, ElsewhereIntact, AllGone, ProperIds, DistinctIds;
    assert live[i..][1..] == before[k..][1..];
    assert next[..i] == live[..i] && next[i..] == live[i + 1..] == before[k + 1..];
    OthersUntouched(d, d1, before, k);
    ElsewhereStays(d0, d, d1, before, k);
    SurvivorsStep(enclave, d0, before, account, k);
    OutcomeDecided(enclave, d0, d1, before[k], account);
    ScanKeeps(enclave, d0, d, d1, before, account, k, exact);
  }

  /** One turn of the one-pass loop: the entry at `i` goes, or the scan moves on. */
  method ScanOne(volume: Volume, enclave: Enclave, store: CredentialStore, account: Account, iv: seq<byte>, i: nat,
                 ghost d0: Disk, ghost before: seq<IndexEntry>, ghost k: nat)
      returns (ok: bool, belongs: bool)
    requires volume.Valid() && store.Valid() && enclave.ready && enclave.Ideal() && |iv| == 16
    requires i < store.count && k < |before| && ProperIds(before) && DistinctIds(before)
    requires ScannedTo(enclave, d0, volume.files, before, store.Live(), account, k, i, Faultless(volume, enclave))
    modifies volume, store, store.records
    ensures volume.Valid() && store.Valid() && old(volume.history) <= volume.history &&
      store.records == old(store.records)
    ensures belongs && ok ==>
      && store.Live() == old(store.Live()[..i]) + old(store.Live()[i + 1..])
      && store.records[store.count..] == [BLANK] + old(store.records[store.count..])
    ensures !(belongs && ok) ==>
      store.Live() == old(store.Live()) && store.records[store.count..] == old(store.records[store.count..])
    ensures ok ==>
      ScannedTo(enclave, d0, volume.files, before, store.Live(), account, k + 1, if belongs then i else i + 1,
                             Faultless(volume, enclave))
    ensures !belongs || Faultless(volume, enclave) ==> ok
  {
    hide Doomed, Survivors, FilesOf, HexEncode, RemovalStage, LoadingStage, ScannedTo, NameOf, LoadedExactly, Looked,
         Candidate, DistinctIds;
    ghost var d, live := volume.files, store.Live();
    ghost var exact := Faultless(volume, enclave);
    ScanSees(enclave, d0, d, before, live, account, k, i, exact);
    ok := true;
    var e := store.records[i];
    assert e == before[k];
    NameLength(e);
    belongs := BelongsTo(volume, enclave, e, account, iv);
    ghost var d1 := volume.files;
    if !belongs {
      if exact {
        ScanLooks(enclave, d0, d, d1, before, live, account, k, i);
      }
      ScanPasses(enclave, d0, d, d1, before, live, account, k, i, exact);
      return;
    }
    ok := RemoveRecordPaths(volume, NameOf(e));
    if ok {
      store.CompactAfterDelete(i);
      FilesTaken(d, d1, FilesOf(NameOf(e)));
      ScanRemoves(enclave, d0, d, volume.files, before, live, store.Live(), account, k, i, exact);
    }
  }

  lemma ScanLooks(enclave: Enclave, d0: Disk, d: Disk, d1: Disk, before: seq<IndexEntry>, live: seq<IndexEntry>,
                  account: Account, k: nat, i: nat)
    requires ScannedTo(enclave, d0, d, before, live, account, k, i, true) && k < |before|
    requires if Candidate(before[k], account) then LoadedExactly(enclave, d, d1, NameOf(before[k])) else d1 == d
    ensures Looked(enclave, d0, d1, before[k], account)
  {
    hide Candidate, LoadedExactly, Looked, NameOf, FilesOf, Doomed, Survivors, Outcome, ElsewhereIntact;
    LoadIsLooked(enclave, d0, d, d1, before[k], account);
  }

  lemma FilesTaken(d: Disk, d1: Disk, files: set<Path>)
    requires AgreeOutside(d, d1, files)
    ensures AgreeOutside(d, d1 - files, files) && AllGone(d1 - files, files)
  {
  }

  /** `zf_store_delete_resident_credentials_for_user_with_buffer`: compacts the index while scanning it. */
  method DeleteOnePass(volume: Volume, enclave: Enclave, store: CredentialStore, account: Account,
                       ivs: nat -> seq<byte>)
      returns (ok: bool, removed: nat)
    requires volume.Valid() && store.Valid() && enclave.ready && enclave.Ideal() && forall i :: |ivs(i)| == 16
    requires ProperIds(store.Live()) && DistinctIds(store.Live())
    modifies volume, store, store.records
    ensures volume.Valid() && store.Valid() && old(volume.history) <= volume.history &&
      store.records == old(store.records)
    ensures Faultless(volume, enclave) ==>
      ok && IsDeleted(enclave, old(volume.files), volume.files, old(store.Live()), store.Live(), account)
    ensures OnlyDoomedLeave(enclave, old(volume.files), old(store.Live()), store.Live(), account)
    ensures store.count + removed == old(store.count)
    ensures store.records[store.count..] == Blanks(old(store.count) - store.count) + old(store.records[store.count..])
  {
    hide ScannedTo, IsDeleted, DistinctIds, ProperIds, Blanks, BLANK, OnlyDoomedLeave;
    ghost var d0, before, k := volume.files, store.Live(), 0;
    ghost var tail := store.records[store.count..];
    ghost var exact := Faultless(volume, enclave);
    NoBlanks(tail);
    ok, removed := true, 0;
    ScanStarts(enclave, d0, before, account, exact);
    var i := 0;
    while i < store.count
      invariant volume.Valid() && store.Valid() && old(volume.history) <= volume.history &&
        store.records == old(store.records)
      invariant i <= store.count && k == i + removed && store.count + removed == |before|
      invariant ScannedTo(enclave, d0, volume.files, before, store.Live(), account, k, i, exact)
      invariant store.records[store.count..] == Blanks(removed) + tail
      decreases |before| - k
    {
      ScanLeaves(enclave, d0, volume.files, before, store.Live(), account, k, i, exact);
      var belongs;
      ok, belongs := ScanOne(volume, enclave, store, account, ivs(i + removed), i, d0, before, k);
      if !ok {
        return;
      }
      k := k + 1;
      if belongs {
        OneMoreBlank(removed, tail);
        removed := removed + 1;
      } else {
        i := i + 1;
      }
    }
    ScanLeaves(enclave, d0, volume.files, before, store.Live(), account, k, i, exact);
    if exact {
      ScanEnds(enclave, d0, volume.files, before, store.Live(), account, k, i);
    }
  }

  lemma ScanStarts(enclave: Enclave, d: Disk, before: seq<IndexEntry>, account: Account, exact: bool)
    ensures ScannedTo(enclave, d, d, before, before, account, 0, 0, exact)
  {
  }

  lemma ScanLeaves(enclave: Enclave, d0: Disk, d: Disk, before: seq<IndexEntry>, live: seq<IndexEntry>,
                   account: Account, k: nat, i: nat, exact: bool)
    requires ScannedTo(enclave, d0, d, before, live, account, k, i, exact)
    ensures OnlyDoomedLeave(enclave, d0, before, live, account)
  {
    hide Doomed, FilesOf, NameOf, Outcome, Survivors, ElsewhereIntact;
    forall j | 0 <= j < |before| && !Doomed(enclave, d0, before[j], account)
      ensures before[j] in live
    {
      if j >= k {
        assert before[j] == before[k..][j - k] == live[i..][j - k];
      }
    }
  }

  lemma ScanEnds(enclave: Enclave, d0: Disk, d: Disk, before: seq<IndexEntry>, live: seq<IndexEntry>,
                 account: Account, k: nat, i: nat)
    requires ScannedTo(enclave, d0, d, before, live, account, k, i, true) && k == |before|
    ensures IsDeleted(enclave, d0, d, before, live, account)
  {
    hide Survivors, Outcome, ElsewhereIntact;
    assert before[..k] == before && before[k..] == [] && live[..i] == live;
  }

  // Manual deletion.

  datatype DeleteResult = Deleted | NotFound | RemoveFailed

  /** `zf_store_delete_record`: files first, then the entry. */
  method DeleteRecord(volume: Volume, store: CredentialStore, id: seq<byte>) returns (result: DeleteResult,
                      ghost index: nat)
    requires volume.Valid() && store.Valid() && |id| == 32
    modifies volume, store, store.records
    ensures volume.Valid() && store.Valid() && old(volume.history) <= volume.history &&
      store.records == old(store.records)
    ensures result == NotFound ==> volume.files == old(volume.files) && volume.history == old(volume.history)
    ensures forall i :: |old(volume.history)| <= i < |volume.history| ==>
      RemovalStage(old(volume.files), volume.history[i], HexEncode(id))
    ensures result == Deleted ==>
      && IsEntryAt(old(store.Live()), id, index) && volume.files == old(volume.files) - FilesOf(HexEncode(id))
      && store.Live() == old(store.Live()[..index]) + old(store.Live()[index + 1..])
    ensures result != Deleted ==> store.Live() == old(store.Live())
    ensures result == NotFound <==>
      forall i :: 0 <= i < |old(store.Live())| ==>
        !(old(store.Live())[i].inUse && old(store.Live())[i].credentialId == id)
  {
    hide RemovalStage, FilesOf, HexEncode;
    index := 0;
    var found, at := store.FindIndexById(id);
    if !found {
      assert forall i :: 0 <= i < |store.Live()| ==> store.Live()[i] == store.records[i];
      return NotFound, 0;
    }
    assert store.Live()[at] == store.records[at];
    index := at;
    var ok := RemoveRecordPaths(volume, HexEncode(id));
    if !ok {
      return RemoveFailed, index;
    }
    store.CompactAfterDelete(at);
    result := Deleted;
  }
}
