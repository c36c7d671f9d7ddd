/**
 What deleting a user's resident credentials comes to (src/zerofido_store.c): which entries go, what
 becomes of the files of each, and that any two deletions that keep to it agree.
 */
module DeleteOutcome {
  import opened Bytes
  import opened AtomicFile
  import opened Record
  import opened RecordFormat
  import opened RecordCodec
  import opened CounterGuard
  import opened CounterStore
  import opened StoreIndex
  import opened StorePaths
  import opened StoreLookup
  import opened Recovery
  import Sha256

  function NameOf(e: IndexEntry): string {
    HexEncode(e.credentialId)
  }

  /** The user account whose credentials go. */
  datatype Account = Account(rpId: seq<byte>, userId: seq<byte>)

  /** The index alone makes the entry a candidate. */
  predicate Candidate(e: IndexEntry, account: Account) {
    e.inUse && e.residentKey && e.rpIdHash == Sha256.Hash(account.rpId)
  }

  /** A candidate whose record loads and names the account. */
  ghost predicate Doomed(enclave: Enclave, d: Disk, e: IndexEntry, account: Account) {
    && Candidate(e, account) && LoadVerdict(enclave, d, NameOf(e)).Accepted?
    && PrimaryRecord(enclave, d, NameOf(e)).Some?
    && PrimaryRecord(enclave, d, NameOf(e)).value.record.rpId == account.rpId
    && PrimaryRecord(enclave, d, NameOf(e)).value.record.userId == account.userId
  }

  ghost function DoomedBy(enclave: Enclave, d: Disk, account: Account): IndexEntry -> bool {
    (e: IndexEntry) => Doomed(enclave, d, e, account)
  }

  /** The entries that stay, in order. */
  function Remaining(entries: seq<IndexEntry>, gone: IndexEntry -> bool): (s: seq<IndexEntry>)
    ensures |s| <= |entries|
  {
    if entries == [] then []
    else
      var n := |entries| - 1;
      Remaining(entries[..n], gone) + (if gone(entries[n]) then [] else [entries[n]])
  }

  /** The files of the entries that go. */
  function FilesGone(entries: seq<IndexEntry>, gone: IndexEntry -> bool): set<Path> {
    if entries == [] then {}
    else
      var n := |entries| - 1;
      FilesGone(entries[..n], gone) + (if gone(entries[n]) then FilesOf(NameOf(entries[n])) else {})
  }

  ghost function Survivors(enclave: Enclave, d: Disk, entries: seq<IndexEntry>, account: Account): (s: seq<IndexEntry>)
    ensures |s| <= |entries|
  {
    Remaining(entries, DoomedBy(enclave, d, account))
  }

  ghost function DoomedFiles(enclave: Enclave, d: Disk, entries: seq<IndexEntry>, account: Account): set<Path> {
    FilesGone(entries, DoomedBy(enclave, d, account))
  }

  lemma NamesDiffer(entries: seq<IndexEntry>, i: nat, j: nat)
    requires ProperIds(entries) && DistinctIds(entries) && i < |entries| && j < |entries| && i != j
    ensures NameOf(entries[i]) != NameOf(entries[j]) && |NameOf(entries[i])| == |NameOf(entries[j])| == 64
  {
    if NameOf(entries[i]) == NameOf(entries[j]) {
      HexEncodeInjective(entries[i].credentialId, entries[j].credentialId);
    }
  }

  lemma NameLength(e: IndexEntry)
    ensures |NameOf(e)| == 2 * |e.credentialId|
  {
  }

  lemma SurvivorsStep(enclave: Enclave, d: Disk, entries: seq<IndexEntry>, account: Account, n: nat)
    requires n < |entries|
    ensures Survivors(enclave, d, entries[..n + 1], account) ==
      Survivors(enclave, d, entries[..n], account) +
        (if Doomed(enclave, d, entries[n], account) then [] else [entries[n]])
  {
    hide Doomed, FilesOf, NameOf;
    assert entries[..n + 1][..n] == entries[..n];
  }

  // What becomes of one entry and its files.

  /** The files of the entry are as a load in which nothing fails leaves them; only candidates are loaded. */
  ghost predicate Looked(enclave: Enclave, d0: Disk, d: Disk, e: IndexEntry, account: Account) {
    exists d1 :: SameOn(d1, d, FilesOf(NameOf(e))) &&
      if Candidate(e, account) then LoadedExactly(enclave, d0, d1, NameOf(e)) else d1 == d0
  }

  /** None of these files is there. */
  predicate AllGone(d: Disk, files: set<Path>) {
    forall p :: p in files ==> p !in d
  }

  ghost predicate Outcome(enclave: Enclave, d0: Disk, d: Disk, e: IndexEntry, account: Account) {
    if Doomed(enclave, d0, e, account) then AllGone(d, FilesOf(NameOf(e))) else Looked(enclave, d0, d, e, account)
  }

  /** Files of none of these entries are as they were. */
  ghost predicate ElsewhereIntact(d0: Disk, d: Disk, entries: seq<IndexEntry>) {
    forall p :: Lookup(d, p) != Lookup(d0, p) ==> exists i :: 0 <= i < |entries| && p in FilesOf(NameOf(entries[i]))
  }

  /**
   What both deletions leave: the survivors in order, no file of a doomed entry, every other file as a load leaves
   it.
   */
  ghost predicate IsDeleted(enclave: Enclave, d0: Disk, d: Disk, before: seq<IndexEntry>, after: seq<IndexEntry>,
                            account: Account) {
    && after == Survivors(enclave, d0, before, account) && ElsewhereIntact(d0, d, before)
    && forall i :: 0 <= i < |before| ==> Outcome(enclave, d0, d, before[i], account)
  }

  /** Whatever fails, only doomed entries leave the index. */
  ghost predicate OnlyDoomedLeave(enclave: Enclave, d0: Disk, before: seq<IndexEntry>, after: seq<IndexEntry>,
                                  account: Account) {
    forall i :: 0 <= i < |before| && !Doomed(enclave, d0, before[i], account) ==> before[i] in after
  }

  /** What becomes of an entry depends on its own files alone. */
  lemma DoomIsLocal(enclave: Enclave, d0: Disk, d: Disk, e: IndexEntry, account: Account)
    requires SameOn(d0, d, FilesOf(NameOf(e)))
    ensures Doomed(enclave, d, e, account) == Doomed(enclave, d0, e, account)
    ensures SameOn(d0, d, DurableFiles(NameOf(e)))
  {
    hide LoadVerdict, PrimaryRecord, HexEncode, RecordPath, RecordTemp, CounterPath, CounterTemp, Candidate;
    var name := NameOf(e);
    assert DurableFiles(name) <= FilesOf(name);
    LoadIsLocal(enclave, d0, d, name);
  }

  /** A load of the entry has the same effect on its files wherever it starts with them. */
  lemma LoadIsLooked(enclave: Enclave, d0: Disk, d: Disk, d1: Disk, e: IndexEntry, account: Account)
    requires SameOn(d0, d, FilesOf(NameOf(e)))
    requires if Candidate(e, account) then LoadedExactly(enclave, d, d1, NameOf(e)) else d1 == d
    ensures Looked(enclave, d0, d1, e, account)
  {
    hide HexEncode, Candidate, LoadVerdict, PrimaryRecord, NameOf, RecordPath, RecordTemp, CounterPath, CounterTemp,
         FilesOf;
    var name := NameOf(e);
    DoomIsLocal(enclave, d0, d, e, account);
    LoadIsLocal(enclave, d0, d, name);
    var primary, verdict := PrimaryRecord(enclave, d, name), LoadVerdict(enclave, d, name);
    if Candidate(e, account) && primary.Some? && verdict.Accepted? && verdict.write {
      var c := CredentialOf(primary.value.record);
      var path, temp := CounterPath(c.Name()), CounterTemp(c.Name());
      var data :| IsCounterFile(enclave, c, data, verdict.value) && d1 == Replaced(d, path, temp, data);
      ReplacedAlike(d0, d, path, temp, data, FilesOf(name));
      assert LoadedExactly(enclave, d0, Replaced(d0, path, temp, data), name);
    } else {
      assert d1 == d && (Candidate(e, account) ==> LoadedExactly(enclave, d0, d0, name));
    }
  }

  lemma ReplacedAlike(d0: Disk, d: Disk, path: Path, temp: Path, data: Content, files: set<Path>)
    requires SameOn(d0, d, files)
    ensures SameOn(Replaced(d0, path, temp, data), Replaced(d, path, temp, data), files)
  {
  }

  lemma OutcomeStays(enclave: Enclave, d0: Disk, d: Disk, d1: Disk, e: IndexEntry, account: Account)
    requires SameOn(d, d1, FilesOf(NameOf(e)))
    ensures Looked(enclave, d0, d, e, account) ==> Looked(enclave, d0, d1, e, account)
    ensures Outcome(enclave, d0, d, e, account) ==> Outcome(enclave, d0, d1, e, account)
  {
    hide Doomed, LoadedExactly, FilesOf, NameOf, Candidate;
    assert forall p :: p in FilesOf(NameOf(e)) ==> Lookup(d1, p) == Lookup(d, p);
    if Looked(enclave, d0, d, e, account) {
      var d2 :| SameOn(d2, d, FilesOf(NameOf(e))) &&
        if Candidate(e, account) then LoadedExactly(enclave, d0, d2, NameOf(e)) else d2 == d0;
      assert SameOn(d2, d1, FilesOf(NameOf(e)));
    }
  }

  lemma OutcomeDecided(enclave: Enclave, d0: Disk, d: Disk, e: IndexEntry, account: Account)
    ensures Doomed(enclave, d0, e, account) && AllGone(d, FilesOf(NameOf(e))) ==> Outcome(enclave, d0, d, e, account)
    ensures !Doomed(enclave, d0, e, account) && Looked(enclave, d0, d, e, account) ==>
      Outcome(enclave, d0, d, e, account)
  {
    hide Doomed, Looked, FilesOf, NameOf;
  }

  /** What touches one entry's files leaves the others' alone. */
  lemma OthersUntouched(d: Disk, d1: Disk, entries: seq<IndexEntry>, k: nat)
    requires ProperIds(entries) && DistinctIds(entries) && k < |entries| &&
      AgreeOutside(d, d1, FilesOf(NameOf(entries[k])))
    ensures forall j :: 0 <= j < |entries| && j != k ==> SameOn(d, d1, FilesOf(NameOf(entries[j])))
  {
    hide FilesOf, NameOf, ProperIds, DistinctIds, DurableFiles;
    forall j | 0 <= j < |entries| && j != k
      ensures SameOn(d, d1, FilesOf(NameOf(entries[j])))
    {
      NamesDiffer(entries, k, j);
      OtherCredential(d, d1, NameOf(entries[k]), NameOf(entries[j]));
    }
  }

  lemma ElsewhereStays(d0: Disk, d: Disk, d1: Disk, entries: seq<IndexEntry>, k: nat)
    requires ElsewhereIntact(d0, d, entries) && k < |entries| && AgreeOutside(d, d1, FilesOf(NameOf(entries[k])))
    ensures ElsewhereIntact(d0, d1, entries)
  {
    hide FilesOf, NameOf;
    forall p | Lookup(d1, p) != Lookup(d0, p)
      ensures exists i :: 0 <= i < |entries| && p in FilesOf(NameOf(entries[i]))
    {
      if p !in FilesOf(NameOf(entries[k])) {
        assert Lookup(d, p) != Lookup(d0, p);
      }
    }
  }

  /** Whether the record behind the entry loads and names the account. */
  method BelongsTo(volume: Volume, enclave: Enclave, e: IndexEntry, account: Account,
                   iv: seq<byte>) returns (belongs: bool)
    requires volume.Valid() && enclave.ready && enclave.Ideal() && |iv| == 16 && |e.credentialId| == 32
    modifies volume
    ensures volume.Valid() && old(volume.history) <= volume.history
    ensures belongs ==> Doomed(enclave, old(volume.files), e, account)
    ensures AgreeOutside(old(volume.files), volume.files, FilesOf(NameOf(e)))
    ensures forall i :: |old(volume.history)| <= i < |volume.history| ==>
      LoadingStage(enclave, old(volume.files), volume.history[i], NameOf(e))
    ensures Faultless(volume, enclave) ==>
      && belongs == Doomed(enclave, old(volume.files), e, account)
      && if Candidate(e, account) then LoadedExactly(enclave, old(volume.files), volume.files, NameOf(e))
         else volume.files == old(volume.files)
  {
    hide LoadVerdict, PrimaryRecord, HexEncode, InBounds, LoadingStage, LoadedExactly, LoadDone, Sha256.Hash, FilesOf,
         CounterFiles;
    belongs := false;
    if !e.inUse || !e.residentKey || e.rpIdHash != Sha256.Hash(account.rpId) {
      return;
    }
    var ok, record := LoadRecord(volume, enclave, NameOf(e), iv);
    NameLength(e);
    LoadLeavesRecord(enclave, old(volume.files), volume.files, NameOf(e));
    CounterFilesAreOwn(NameOf(e));
    LoadedShows(enclave, old(volume.files), NameOf(e), record);
    belongs := ok && record.value.rpId == account.rpId && record.value.userId == account.userId;
  }

  lemma LoadedShows(enclave: Enclave, d: Disk, name: string, record: Option<CredentialRecord>)
    ensures Loaded(enclave, d, name, record) ==>
      && record.Some? && PrimaryRecord(enclave, d, name).Some?
      && record.value.rpId == PrimaryRecord(enclave, d, name).value.record.rpId
      && record.value.userId == PrimaryRecord(enclave, d, name).value.record.userId
  {
  }

  // The two deletions agree.

  /** What a load writes is the companion of the credential, and it opens to the counter that was loaded. */
  ghost predicate SameCompanion(enclave: Enclave, d0: Disk, e: IndexEntry, p: Path, content: Content, other: Content) {
    && LoadVerdict(enclave, d0, NameOf(e)).Accepted? && LoadVerdict(enclave, d0, NameOf(e)).write &&
      p == CounterPath(NameOf(e))
    && PrimaryRecord(enclave, d0, NameOf(e)).Some?
    && var c := CredentialOf(PrimaryRecord(enclave, d0, NameOf(e)).value.record);
       IsCounterFile(enclave, c, content, LoadVerdict(enclave, d0, NameOf(e)).value) &&
       IsCounterFile(enclave, c, other, LoadVerdict(enclave, d0, NameOf(e)).value)
  }

  /** Two runs of a load in which nothing fails make the same file names, and differ in one sealed companion at most. */
  lemma LoadsAgree(enclave: Enclave, d0: Disk, d: Disk, other: Disk, e: IndexEntry, p: Path)
    requires LoadedExactly(enclave, d0, d, NameOf(e)) && LoadedExactly(enclave, d0, other, NameOf(e))
    ensures p in d <==> p in other
    ensures p in d ==> d[p] == other[p] || SameCompanion(enclave, d0, e, p, d[p], other[p])
  {
    hide DecodeRecord, HexEncode, Validate, CounterPath, CounterTemp, RecordPath, IsCounterFile;
    if PrimaryRecord(enclave, d0, NameOf(e)).Some? {
      DecodedName(enclave, d0[RecordPath(NameOf(e))], NameOf(e));
    }
  }

  lemma OutcomesAgree(enclave: Enclave, d0: Disk, d: Disk, other: Disk, e: IndexEntry, account: Account, p: Path)
    requires Outcome(enclave, d0, d, e, account) && Outcome(enclave, d0, other, e, account) && p in FilesOf(NameOf(e))
    ensures p in d <==> p in other
    ensures p in d ==> d[p] == other[p] || SameCompanion(enclave, d0, e, p, d[p], other[p])
  {
    hide Doomed, LoadedExactly, FilesOf, NameOf, Candidate, SameCompanion;
    if !Doomed(enclave, d0, e, account) {
      var d1 :| SameOn(d1, d, FilesOf(NameOf(e))) &&
        if Candidate(e, account) then LoadedExactly(enclave, d0, d1, NameOf(e)) else d1 == d0;
      var d2 :| SameOn(d2, other, FilesOf(NameOf(e))) &&
        if Candidate(e, account) then LoadedExactly(enclave, d0, d2, NameOf(e)) else d2 == d0;
      if Candidate(e, account) {
        LoadsAgree(enclave, d0, d1, d2, e, p);
      }
      assert Lookup(d, p) == Lookup(d1, p) && Lookup(other, p) == Lookup(d2, p);
    }
  }

  /**
   From the same disk and index both deletions leave the same index and the same file names; the only
   files that may differ are companions made on the way, and those open to the same counter.
   */
  lemma DeletionsAgree(enclave: Enclave, d0: Disk, d: Disk, other: Disk, before: seq<IndexEntry>,
                       after: seq<IndexEntry>, otherAfter: seq<IndexEntry>, account: Account)
    requires IsDeleted(enclave, d0, d, before, after, account) &&
      IsDeleted(enclave, d0, other, before, otherAfter, account)
    ensures after == otherAfter && d.Keys == other.Keys
    ensures forall p :: p in d && d[p] != other[p] ==>
      exists i :: 0 <= i < |before| && SameCompanion(enclave, d0, before[i], p, d[p], other[p])
  {
    hide Outcome, Survivors, FilesOf, NameOf, SameCompanion;
    forall p
      ensures p in d <==> p in other
      ensures p in d && d[p] != other[p] ==>
        exists i :: 0 <= i < |before| && SameCompanion(enclave, d0, before[i], p, d[p], other[p])
    {
      if i :| 0 <= i < |before| && p in FilesOf(NameOf(before[i])) {
        OutcomesAgree(enclave, d0, d, other, before[i], account, p);
      } else {
        assert Lookup(d, p) == Lookup(d0, p) == Lookup(other, p);
      }
    }
  }
}
