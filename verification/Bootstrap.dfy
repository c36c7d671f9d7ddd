/**
 Start-up: temporaries are removed, backups recovered, and the index rebuilt from whatever the
 directory listing shows (src/store/bootstrap.c, src/store/recovery.c).  The listings are
 parameters: any names in any order, complete or not.
 */
module Bootstrap {
  import opened Bytes
  import opened AtomicFile
  import opened BackupListing
  import opened Record
  import opened RecordFormat
  import opened CounterGuard
  import opened CounterStore
  import opened StoreIndex
  import opened StorePaths
  import opened Recovery

  /** Every counter bound that held before holds after, for all credentials but those called by these names. */
  ghost predicate KeepsBut(enclave: Enclave, d0: Disk, d: Disk, met: set<string>) {
    forall c: Credential, lo: nat, hi: nat
        {:trigger Settled(enclave, c, d0, lo, hi)} {:trigger Settled(enclave, c, d, lo, hi)} ::
      Proper(c) && c.Name() !in met && Settled(enclave, c, d0, lo, hi) ==> Settled(enclave, c, d, lo, hi)
  }

  lemma KeepsTransitively(enclave: Enclave, d0: Disk, d1: Disk, d2: Disk, met: set<string>, more: set<string>)
    requires KeepsBut(enclave, d0, d1, met) && KeepsBut(enclave, d1, d2, more)
    ensures KeepsBut(enclave, d0, d2, met + more)
  {
    hide Settled, HexEncode;
  }

  lemma KeepsFewer(enclave: Enclave, d0: Disk, d: Disk, met: set<string>, more: set<string>)
    requires KeepsBut(enclave, d0, d, met) && met <= more
    ensures KeepsBut(enclave, d0, d, more)
  {
    hide Settled, HexEncode;
  }

  lemma NothingLost(enclave: Enclave, d: Disk, met: set<string>)
    ensures KeepsBut(enclave, d, d, met)
  {
  }

  // Temporaries.

  ghost predicate OnlyTempsGone(d0: Disk, d: Disk) {
    forall p :: Lookup(d, p) != Lookup(d0, p) ==> HasSuffix(p, ".tmp")
  }

  lemma DurableIsNoTemp(name: string, p: Path)
    requires IsRecordName(name) && p in DurableFiles(name)
    ensures !HasSuffix(p, ".tmp")
  {
    var last := p[|p| - 1];
    if p == RecordPath(name) {
      assert last == name[63];
    }
    TempEndsInP(p);
  }

  lemma TempEndsInP(p: Path)
    ensures HasSuffix(p, ".tmp") ==> p[|p| - 1] == 'p'
  {
  }

  lemma TempsDoNotMatter(enclave: Enclave, d0: Disk, d: Disk)
    requires OnlyTempsGone(d0, d)
    ensures KeepsBut(enclave, d0, d, {})
  {
    hide Settled, HasSuffix, HexEncode;
    forall c: Credential, lo: nat, hi: nat | Proper(c) && Settled(enclave, c, d0, lo, hi)
      ensures Settled(enclave, c, d, lo, hi)
    {
      forall p | p in DurableFiles(c.Name())
        ensures Lookup(d, p) == Lookup(d0, p)
      {
        DurableIsNoTemp(c.Name(), p);
      }
      OthersDoNotMatter(enclave, c, d0, d, lo, hi);
    }
  }

  /** `zf_storage_remove_dir_entries_with_suffix` for `.tmp`; it stops at the first file that cannot be removed. */
  method RemoveTemps(volume: Volume, entries: seq<DirEntry>) returns (ok: bool)
    requires volume.Valid()
    modifies volume
    ensures volume.Valid() && old(volume.history) <= volume.history
    ensures forall i :: |old(volume.history)| <= i < |volume.history| ==>
      OnlyTempsGone(old(volume.files), volume.history[i])
    ensures OnlyTempsGone(old(volume.files), volume.files)
    ensures ok ==> forall e :: e in entries && !e.isDir && HasSuffix(e.name, ".tmp") ==> Child(e.name) !in volume.files
  {
    var i := 0;
    while i < |entries|
      invariant i <= |entries| && volume.Valid() && old(volume.history) <= volume.history
      invariant forall k :: |old(volume.history)| <= k < |volume.history| ==>
        OnlyTempsGone(old(volume.files), volume.history[k])
      invariant OnlyTempsGone(old(volume.files), volume.files)
      invariant forall k :: 0 <= k < i && !entries[k].isDir && HasSuffix(entries[k].name, ".tmp") ==>
        Child(entries[k].name) !in volume.files
    {
      var e := entries[i];
      if !e.isDir && HasSuffix(e.name, ".tmp") {
        ChildKeepsSuffix(e.name);
        var removed := volume.RemoveOptional(Child(e.name));
        if !removed {
          return false;
        }
      }
      i := i + 1;
    }
    ok := true;
  }

  lemma ChildKeepsSuffix(name: string)
    requires HasSuffix(name, ".tmp")
    ensures HasSuffix(Child(name), ".tmp")
  {
  }

  // Backups.

  /** A load of `name` would overwrite a companion that is stranded: its bounds may be lost. */
  ghost function Overwritten(enclave: Enclave, d: Disk, name: string): set<string> {
    if WouldOverwrite(enclave, d, name) then {name} else {}
  }

  /** What one credential's recovery keeps for itself, and leaves alone for the others. */
  lemma RecoverKeepsBut(enclave: Enclave, d0: Disk, d: Disk, name: string)
    requires RecoverStage(enclave, d0, d, name) && |name| == 64
    ensures KeepsBut(enclave, d0, d, Overwritten(enclave, d0, name))
  {
    hide Settled, RecoverStage, WouldOverwrite, HexEncode, FilesOf, DurableFiles;
    RecoverTouchesOwnFiles(enclave, d0, d, name);
    forall c: Credential, lo: nat, hi: nat |
        Proper(c) && c.Name() !in Overwritten(enclave, d0, name) && Settled(enclave, c, d0, lo, hi)
      ensures Settled(enclave, c, d, lo, hi)
    {
      if c.Name() == name {
        RecoverKeeps(enclave, c, d0, d, lo, hi);
      } else {
        OtherCredential(d0, d, name, c.Name());
        OthersDoNotMatter(enclave, c, d0, d, lo, hi);
      }
    }
  }

  lemma LoadingKeepsBut(enclave: Enclave, d0: Disk, d: Disk, name: string)
    requires LoadingStage(enclave, d0, d, name) && |name| == 64
    ensures KeepsBut(enclave, d0, d, Overwritten(enclave, d0, name))
  {
    hide LoadingStage, WouldOverwrite, KeepsBut;
    assert Recovers(d, d, name);
    RecoverKeepsBut(enclave, d0, d, name);
  }

  lemma CompanionKeepsAll(enclave: Enclave, d0: Disk, d: Disk, name: string)
    requires OldStage(d0, d, CounterPath(name), CounterTemp(name)) && |name| == 64
    ensures KeepsBut(enclave, d0, d, {})
  {
    hide Settled, HexEncode, CounterPath, CounterTemp, DurableFiles;
    forall c: Credential, lo: nat, hi: nat | Proper(c) && Settled(enclave, c, d0, lo, hi)
      ensures Settled(enclave, c, d, lo, hi)
    {
      if c.Name() == name {
        CompanionRecoveryKeeps(enclave, c, d0, d, lo, hi);
      } else {
        assert AgreeOutside(d0, d, FilesOf(name));
        OtherCredential(d0, d, name, c.Name());
        OthersDoNotMatter(enclave, c, d0, d, lo, hi);
      }
    }
  }

  // Loads that meet a stranded companion.

  ghost predicate KeepsOf(enclave: Enclave, d0: Disk, d: Disk, name: string) {
    forall c: Credential, lo: nat, hi: nat {:trigger Settled(enclave, c, d0, lo, hi)} ::
      Proper(c) && c.Name() == name && Settled(enclave, c, d0, lo, hi) ==> Settled(enclave, c, d, lo, hi)
  }

  /**
   At some disk since `mark` the companion of `name` was in its backup only, and up to there no bound
   of the credential had been lost.
   */
  ghost predicate Stranded(enclave: Enclave, history: seq<Disk>, mark: nat, name: string) {
    exists i :: mark <= i < |history| && Orphaned(history[i], CounterPath(name)) &&
      forall k :: mark <= k <= i ==> KeepsOf(enclave, history[mark], history[k], name)
  }

  /** Each of these names was met stranded. */
  ghost predicate MetStranded(enclave: Enclave, history: seq<Disk>, mark: nat, met: set<string>) {
    forall name :: name in met ==> IsRecordName(name) && Stranded(enclave, history, mark, name)
  }

  ghost predicate AllKeepBut(enclave: Enclave, history: seq<Disk>, mark: nat, met: set<string>) {
    forall k :: mark <= k < |history| ==> KeepsBut(enclave, history[mark], history[k], met)
  }

  lemma StrandedStays(enclave: Enclave, history: seq<Disk>, longer: seq<Disk>, mark: nat, met: set<string>)
    requires MetStranded(enclave, history, mark, met) && history <= longer
    ensures MetStranded(enclave, longer, mark, met)
  {
    hide KeepsOf, Orphaned, IsRecordName;
    forall name | name in met
      ensures Stranded(enclave, longer, mark, name)
    {
      var i :| mark <= i < |history| && Orphaned(history[i], CounterPath(name)) &&
        forall k :: mark <= k <= i ==> KeepsOf(enclave, history[mark], history[k], name);
      assert longer[i] == history[i];
    }
  }

  /** The credential of `name` has just been found stranded. */
  lemma NowStranded(enclave: Enclave, history: seq<Disk>, mark: nat, met: set<string>, name: string)
    requires mark < |history| && MetStranded(enclave, history, mark, met) && AllKeepBut(enclave, history, mark, met)
    requires IsRecordName(name) && Orphaned(history[|history| - 1], CounterPath(name))
    ensures MetStranded(enclave, history, mark, met + {name})
  {
    hide Orphaned, IsRecordName, Settled, HexEncode, CounterPath;
    if name !in met {
      assert forall k :: mark <= k < |history| ==>
        KeepsBut(enclave, history[mark], history[k], met) && KeepsOf(enclave, history[mark], history[k], name);
    }
  }

  /** What a visit that began at the end of `history` keeps, is kept from the beginning. */
  lemma VisitedKeeps(enclave: Enclave, history: seq<Disk>, longer: seq<Disk>, mark: nat, met: set<string>,
                     more: set<string>)
    requires mark < |history| && history <= longer && AllKeepBut(enclave, history, mark, met)
    requires forall k :: |history| <= k < |longer| ==> KeepsBut(enclave, history[|history| - 1], longer[k], more)
    ensures AllKeepBut(enclave, longer, mark, met + more)
  {
    hide KeepsBut;
    forall k | mark <= k < |longer|
      ensures KeepsBut(enclave, longer[mark], longer[k], met + more)
    {
      if k < |history| {
        KeepsFewer(enclave, longer[mark], longer[k], met, met + more);
      } else {
        KeepsTransitively(enclave, longer[mark], history[|history| - 1], longer[k], met, more);
      }
    }
  }

  /** What visiting the entry may lose. */
  ghost function LostByVisit(enclave: Enclave, d: Disk, e: DirEntry): set<string> {
    if Target(e).OfRecord? then Overwritten(enclave, d, Target(e).name) else {}
  }

  /** `zf_store_recovery_cleanup_visitor`. */
  method CleanupVisitor(volume: Volume, enclave: Enclave, e: DirEntry, iv: seq<byte>) returns (ok: bool)
    requires volume.Valid() && enclave.ready && enclave.Ideal() && |iv| == 16
    modifies volume
    ensures volume.Valid() && old(volume.history) <= volume.history
    ensures VisitStage(enclave, old(volume.files), volume.files, e)
    ensures forall i :: |old(volume.history)| <= i < |volume.history| ==>
      VisitStage(enclave, old(volume.files), volume.history[i], e)
    ensures ok && Target(e).OfCompanion? ==> !Orphaned(volume.files, CounterPath(Target(e).name))
    ensures Faultless(volume, enclave) ==>
      CleanedExactly(enclave, old(volume.files), volume.files, e) && ok == VisitSucceeds(enclave, old(volume.files), e)
  {
    hide OldStage, RecoverStage, CounterPath, CounterTemp, ClassifyBackup, RecoveredExactly, Recovered, LoadVerdict,
         PrimaryKept, BackupTook, RecordPath, IsRecordName;
    ok := true;
    if e.isDir {
      return;
    }
    match ClassifyBackup(e.name) {
      case NoBackup =>
      case OfRecord(name) =>
        RecordNameLength(name);
        ok := RecoverRecordBackup(volume, enclave, name, iv);
      case OfCompanion(name) =>
        RecordNameLength(name);
        OwnFilesDiffer(name);
        ok := volume.RecoverAtomicFile(CounterPath(name), CounterTemp(name));
        RecoveredIsNotOrphaned(old(volume.files), volume.files, CounterPath(name));
    }
  }

  lemma VisitKeepsBut(enclave: Enclave, d0: Disk, d: Disk, e: DirEntry)
    requires VisitStage(enclave, d0, d, e)
    ensures KeepsBut(enclave, d0, d, LostByVisit(enclave, d0, e))
  {
    hide KeepsBut, RecoverStage, Target, WouldOverwrite, OldStage, CounterPath, CounterTemp;
    match Target(e)
    case NoBackup => NothingLost(enclave, d0, {});
    case OfRecord(name) =>
      RecordNameLength(name);
      RecoverKeepsBut(enclave, d0, d, name);
    case OfCompanion(name) =>
      RecordNameLength(name);
      CompanionKeepsAll(enclave, d0, d, name);
  }

  lemma RecoveredIsNotOrphaned(d0: Disk, d: Disk, path: Path)
    ensures Lookup(d, path) == Logical(d0, path) && Logical(d, path) == Logical(d0, path) ==> !Orphaned(d, path)
  {
  }

  /** The volume has stayed consistent, and lost nothing but what was met stranded. */
  ghost predicate LostOnlyMet(enclave: Enclave, history: seq<Disk>, mark: nat, met: set<string>) {
    mark < |history| && AllKeepBut(enclave, history, mark, met) && MetStranded(enclave, history, mark, met)
  }

  /** Names met by a visit that began at the end of `history`. */
  lemma VisitLoses(enclave: Enclave, history: seq<Disk>, longer: seq<Disk>, mark: nat, met: set<string>,
                   more: set<string>)
    requires LostOnlyMet(enclave, history, mark, met) && history <= longer
    requires forall k :: |history| <= k < |longer| ==> KeepsBut(enclave, history[|history| - 1], longer[k], more)
    requires more == {} ||
      exists name :: more == {name} && IsRecordName(name) && Orphaned(history[|history| - 1], CounterPath(name))
    ensures LostOnlyMet(enclave, longer, mark, met + more)
  {
    hide AllKeepBut, MetStranded, KeepsBut, Orphaned, IsRecordName;
    VisitedKeeps(enclave, history, longer, mark, met, more);
    if more != {} {
      var name :| more == {name} && IsRecordName(name) && Orphaned(history[|history| - 1], CounterPath(name));
      NowStranded(enclave, history, mark, met, name);
    } else {
      assert met + more == met;
    }
    StrandedStays(enclave, history, longer, mark, met + more);
  }

  lemma LostByVisitIsStranded(enclave: Enclave, d: Disk, e: DirEntry)
    ensures var lost := LostByVisit(enclave, d, e);
      lost == {} || exists name :: lost == {name} && IsRecordName(name) && Orphaned(d, CounterPath(name))
  {
    hide PrimaryRecord, ClassifyBackup, CounterPath;
    if LostByVisit(enclave, d, e) != {} {
      assert LostByVisit(enclave, d, e) == {Target(e).name};
    }
  }

  lemma NothingMet(enclave: Enclave, history: seq<Disk>)
    requires |history| > 0
    ensures LostOnlyMet(enclave, history, |history| - 1, {})
  {
    NothingLost(enclave, history[|history| - 1], {});
    hide KeepsBut;
  }

  /** Only files of credentials have changed, and, where the listing was true, no record has been lost. */
  ghost predicate RecordsSafe(history: seq<Disk>, mark: nat, listing: bool) {
    && mark < |history|
    && forall k :: mark <= k < |history| ==>
         OwnFilesOnly(history[mark], history[k]) && (listing ==> RecordsKept(history[mark], history[k]))
  }

  lemma RecordsStartSafe(history: seq<Disk>, listing: bool)
    requires |history| > 0
    ensures RecordsSafe(history, |history| - 1, listing)
  {
    var d := history[|history| - 1];
    assert SameRecords(d, d);
    SameRecordsAreKept(d, d);
    hide RecordsKept, FilesOf, HasSuffix, IsRecordName, RecordPath;
  }

  lemma RecordsStaySafe(history: seq<Disk>, longer: seq<Disk>, mark: nat, listing: bool)
    requires RecordsSafe(history, mark, listing) && history <= longer
    requires forall k :: |history| <= k < |longer| ==>
      OwnFilesOnly(history[|history| - 1], longer[k]) && (listing ==> RecordsKept(history[|history| - 1], longer[k]))
    ensures RecordsSafe(longer, mark, listing)
  {
    hide OwnFilesOnly, RecordsKept;
    forall k | |history| <= k < |longer|
      ensures OwnFilesOnly(longer[mark], longer[k]) && (listing ==> RecordsKept(longer[mark], longer[k]))
    {
      OwnFilesTransitively(longer[mark], history[|history| - 1], longer[k]);
      if listing {
        RecordsKeptTransitively(longer[mark], history[|history| - 1], longer[k]);
      }
    }
  }

  /** The records and their backups are as they were. */
  ghost predicate SameRecords(d0: Disk, d: Disk) {
    forall name {:trigger RecordPath(name)} :: IsRecordName(name) ==>
      SameOn(d0, d, {RecordPath(name), Backup(RecordPath(name))})
  }

  lemma SameRecordsAreKept(d0: Disk, d: Disk)
    requires SameRecords(d0, d)
    ensures RecordsKept(d0, d)
  {
    hide RecordKept, IsRecordName, RecordPath;
    forall name | IsRecordName(name)
      ensures RecordKept(d0, d, name)
    {
      assert RecordPath(name) == RecordPath(name);
      SameRecordIsKept(d0, d, name);
    }
  }

  lemma TempsKeepRecords(d0: Disk, d: Disk)
    requires OnlyTempsGone(d0, d)
    ensures OwnFilesOnly(d0, d) && SameRecords(d0, d)
  {
    hide FilesOf, HasSuffix, IsRecordName, RecordPath;
    forall name | IsRecordName(name)
      ensures SameOn(d0, d, {RecordPath(name), Backup(RecordPath(name))})
    {
      forall p | p in {RecordPath(name), Backup(RecordPath(name))}
        ensures Lookup(d, p) == Lookup(d0, p)
      {
        assert p in DurableFiles(name);
        DurableIsNoTemp(name, p);
      }
    }
  }

  /** The first pass of the clean-up. */
  method DropTemporaries(volume: Volume, ghost enclave: Enclave, temps: seq<DirEntry>, ghost listing: bool)
    requires volume.Valid()
    modifies volume
    ensures volume.Valid() && old(volume.history) <= volume.history
    ensures LostOnlyMet(enclave, volume.history, |old(volume.history)| - 1, {})
    ensures Cleaned(enclave, old(volume.files), volume.files, [], {})
    ensures RecordsSafe(volume.history, |old(volume.history)| - 1, listing) &&
      SameRecords(old(volume.files), volume.files)
  {
    hide OnlyTempsGone, KeepsBut, LostOnlyMet, Cleaned, RecordsSafe, SameRecords, RecordsKept, OwnFilesOnly;
    ghost var d0, history := volume.files, volume.history;
    NothingMet(enclave, history);
    RecordsStartSafe(history, listing);
    var _ := RemoveTemps(volume, temps);
    forall k | |history| <= k < |volume.history|
      ensures KeepsBut(enclave, d0, volume.history[k], {})
      ensures OwnFilesOnly(d0, volume.history[k]) && RecordsKept(d0, volume.history[k])
    {
      TempsDoNotMatter(enclave, d0, volume.history[k]);
      TempsKeepRecords(d0, volume.history[k]);
      SameRecordsAreKept(d0, volume.history[k]);
    }
    RecordsStaySafe(history, volume.history, |history| - 1, listing);
    TempsKeepRecords(d0, volume.files);
    ghost var none: set<string> := {};
    VisitLoses(enclave, history, volume.history, |history| - 1, none, none);
    assert none + none == none;
    TempsAreNotListed(enclave, d0, volume.files);
  }

  lemma TempsAreNotListed(enclave: Enclave, d0: Disk, d: Disk)
    requires OnlyTempsGone(d0, d)
    ensures Cleaned(enclave, d0, d, [], {})
  {
    hide IsRecordName, HasSuffix, RecordPath, CounterPath;
    forall name | IsRecordName(name)
      ensures SameOn(d0, d, DurableFiles(name))
    {
      forall p | p in DurableFiles(name)
        ensures Lookup(d, p) == Lookup(d0, p)
      {
        DurableIsNoTemp(name, p);
      }
    }
    CleanedNothing(enclave, d0, d);
  }

  /**
   `zf_store_recovery_cleanup_temp_files_with_buffer`; what the two passes report is not looked at.
   `met` are the credentials whose record was recovered over a stranded companion: nobody else's
   bounds are lost, and when nothing fails it is exactly those whose record backup comes first.
   */
  method CleanupTempFiles(volume: Volume, enclave: Enclave, temps: seq<DirEntry>, backups: seq<DirEntry>,
                          ivs: nat -> seq<byte>)
      returns (ghost met: set<string>)
    requires volume.Valid() && enclave.ready && enclave.Ideal() && forall i :: |ivs(i)| == 16
    modifies volume
    ensures volume.Valid() && old(volume.history) <= volume.history
    ensures LostOnlyMet(enclave, volume.history, |old(volume.history)| - 1, met)
    ensures RecordsSafe(volume.history, |old(volume.history)| - 1, ListsBackups(old(volume.files), backups))
    ensures Faultless(volume, enclave) && ListsBackups(old(volume.files), backups) ==>
      && NoneStranded(volume.files) && RecordsRecovered(enclave, old(volume.files), volume.files, backups)
      && forall name :: name in met <==>
           IsRecordName(name) && WouldOverwrite(enclave, old(volume.files), name) && RecordFirst(backups, name)
  {
    hide KeepsBut, LostOnlyMet, WouldOverwrite, ListsBackups, Cleaned, CleanedExactly, VisitSucceeds, Target,
         LostByVisit, IsRecordName, RecordFirst, NoneStranded, RecordsSafe, NotYetVisited, VisitStage, SameRecords,
         RecordsRecovered;
    ghost var d0, mark := volume.files, |volume.history| - 1;
    ghost var listing := ListsBackups(d0, backups);
    ghost var exact := Faultless(volume, enclave) && listing;
    met := {};
    DropTemporaries(volume, enclave, temps, listing);
    assert backups[..0] == [];
    NoneVisited(d0, volume.files);
    var i := 0;
    while i < |backups|
      invariant i <= |backups| && volume.Valid() && old(volume.history) <= volume.history
      invariant LostOnlyMet(enclave, volume.history, mark, met)
      invariant RecordsSafe(volume.history, mark, listing)
      invariant listing ==> NotYetVisited(d0, volume.files, backups[..i])
      invariant exact ==> Cleaned(enclave, d0, volume.files, backups[..i], met)
    {
      ghost var d1, history := volume.files, volume.history;
      var ok := CleanupVisitor(volume, enclave, backups[i], ivs(i));
      ghost var lost := LostByVisit(enclave, d1, backups[i]);
      VisitIsSafe(enclave, d0, history, volume.history, mark, met, backups, i, listing);
      if listing {
        NotYetVisitedMore(enclave, d0, d1, volume.files, backups, i);
      }
      if exact {
        ListedVisitSucceeds(enclave, d0, d1, backups, i, met);
        CleanedNext(enclave, d0, d1, volume.files, backups, i, met);
      }
      met := met + lost;
      if !ok {
        break;
      }
      i := i + 1;
    }
    assert backups[..|backups|] == backups;
    if exact {
      CleanedLeavesNone(enclave, d0, volume.files, backups, met);
    }
  }

  lemma NoneVisited(d0: Disk, d: Disk)
    requires SameRecords(d0, d)
    ensures NotYetVisited(d0, d, [])
  {
    hide IsRecordName, RecordPath;
  }

  lemma VisitIsSafe(enclave: Enclave, d0: Disk, history: seq<Disk>, longer: seq<Disk>, mark: nat, met: set<string>,
                    backups: seq<DirEntry>, i: nat, listing: bool)
    requires i < |backups| && history <= longer
    requires LostOnlyMet(enclave, history, mark, met) && RecordsSafe(history, mark, listing)
    requires listing ==>
      ListsBackups(d0, backups) && NotYetVisited(d0, history[|history| - 1], backups[..i])
    requires forall k :: |history| <= k < |longer| ==>
      VisitStage(enclave, history[|history| - 1], longer[k], backups[i])
    ensures LostOnlyMet(enclave, longer, mark, met + LostByVisit(enclave, history[|history| - 1], backups[i]))
    ensures RecordsSafe(longer, mark, listing)
  {
    hide KeepsBut, AllKeepBut, MetStranded, Target, VisitStage, OwnFilesOnly, RecordsKept, NotYetVisited, LostByVisit,
         ListsBackups, RecordPath;
    var d1 := history[|history| - 1];
    LostByVisitIsStranded(enclave, d1, backups[i]);
    if listing {
      BackupAwaitsItsTurn(d0, d1, backups, i);
    }
    forall k | |history| <= k < |longer|
      ensures KeepsBut(enclave, d1, longer[k], LostByVisit(enclave, d1, backups[i]))
      ensures OwnFilesOnly(d1, longer[k]) && (listing ==> RecordsKept(d1, longer[k]))
    {
      VisitKeepsBut(enclave, d1, longer[k], backups[i]);
      VisitTouchesTarget(enclave, d1, longer[k], backups[i]);
      if listing {
        VisitKeepsRecords(enclave, d1, longer[k], backups[i]);
      }
    }
    VisitLoses(enclave, history, longer, mark, met, LostByVisit(enclave, d1, backups[i]));
    RecordsStaySafe(history, longer, mark, listing);
  }

  lemma CleanedNext(enclave: Enclave, d0: Disk, d1: Disk, d: Disk, backups: seq<DirEntry>, i: nat, met: set<string>)
    requires ListsBackups(d0, backups) && i < |backups| && Cleaned(enclave, d0, d1, backups[..i], met)
    requires CleanedExactly(enclave, d1, d, backups[i])
    ensures Cleaned(enclave, d0, d, backups[..i + 1], met + LostByVisit(enclave, d1, backups[i]))
  {
    hide Cleaned, CleanedExactly, WouldOverwrite, Target, Visited;
    if !Target(backups[i]).NoBackup? {
      TargetsAreNew(backups, i);
    }
    CleanedMore(enclave, d0, d1, d, backups[..i], backups[i], met, LostByVisit(enclave, d1, backups[i]));
    assert backups[..i] + [backups[i]] == backups[..i + 1];
  }

  // The index.

  function CredentialOfEntry(e: IndexEntry): Credential {
    Credential(e.credentialId, e.createdAt)
  }

  /**
   The entry stands where the disk does now, and no lower than the disk `d0` did: `lo` is any
   bound the counter of the credential had there.
   */
  ghost predicate Covered(enclave: Enclave, d0: Disk, d: Disk, e: IndexEntry) {
    && |e.credentialId| == 32 && e.counterHighWater == e.signCount
    && forall c: Credential, lo: nat, hi: nat {:trigger Settled(enclave, c, d0, lo, hi)} ::
         c.id == e.credentialId && Settled(enclave, c, d0, lo, hi) ==>
           c == CredentialOfEntry(e) && lo <= e.signCount <= hi && Settled(enclave, c, d, e.signCount, hi)
  }

  lemma LoadedEntry(enclave: Enclave, d: Disk, name: string, r: CredentialRecord)
    requires Loaded(enclave, d, name, Some(r))
    ensures var e := EntryOf(r);
      && |e.credentialId| == 32 && CredentialOfEntry(e).Name() == name
      && CredentialOfEntry(e) == CredentialOf(PrimaryRecord(enclave, d, name).value.record)
      && e.signCount == e.counterHighWater == LoadVerdict(enclave, d, name).value
  {
  }

  /** A completed load yields a covered entry, unless the companion was stranded. */
  lemma LoadCovers(enclave: Enclave, d0: Disk, d1: Disk, d: Disk, name: string, r: CredentialRecord, met: set<string>)
    requires KeepsBut(enclave, d0, d1, met) && |name| == 64 && name !in met && !Orphaned(d1, CounterPath(name))
    requires Loaded(enclave, d1, name, Some(r)) && LoadDone(enclave, d1, d, name)
    ensures HexEncode(EntryOf(r).credentialId) == name
    ensures Covered(enclave, d0, d, EntryOf(r))
  {
    hide Settled, Loaded, LoadDone, LoadVerdict, PrimaryRecord, HexEncode, Orphaned, EntryOf;
    LoadedEntry(enclave, d1, name, r);
    LoadDoneAccepted(enclave, d1, d, name);
    var e := EntryOf(r);
    forall c: Credential, lo: nat, hi: nat | c.id == e.credentialId && Settled(enclave, c, d0, lo, hi)
      ensures c == CredentialOfEntry(e) && lo <= e.signCount <= hi && Settled(enclave, c, d, e.signCount, hi)
    {
      assert Settled(enclave, c, d1, lo, hi);
      LoadKeepsBound(enclave, c, d1, lo, hi);
      LoadDoneSettles(enclave, c, d1, d, lo, hi);
    }
  }

  /** Loading another credential leaves an entry covered. */
  lemma StaysCovered(enclave: Enclave, d0: Disk, d1: Disk, d: Disk, e: IndexEntry, name: string)
    requires Covered(enclave, d0, d1, e) && LoadingStage(enclave, d1, d, name) && |name| == 64
    requires HexEncode(e.credentialId) != name
    ensures Covered(enclave, d0, d, e)
  {
    hide Settled, LoadingStage, HexEncode, DurableFiles;
    LoadLeavesRecord(enclave, d1, d, name);
    assert AgreeOutside(d1, d, FilesOf(name));
    var c := CredentialOfEntry(e);
    OtherCredential(d1, d, name, c.Name());
    forall k: Credential, lo: nat, hi: nat | k.id == e.credentialId && Settled(enclave, k, d0, lo, hi)
      ensures Settled(enclave, k, d, e.signCount, hi)
    {
      OthersDoNotMatter(enclave, c, d1, d, e.signCount, hi);
    }
  }

  predicate IsRecordEntry(e: DirEntry) {
    !e.isDir && IsRecordName(e.name)
  }

  /** The entry is that of a record whose companion is in its backup only. */
  function StrandedEntry(d: Disk, e: DirEntry): set<string> {
    if IsRecordEntry(e) && Orphaned(d, CounterPath(e.name)) then {e.name} else {}
  }

  /** `zf_store_bootstrap_index_visitor`: broken files are skipped, a failed load leaves its slot behind uncounted. */
  method IndexVisitor(volume: Volume, enclave: Enclave, store: CredentialStore, e: DirEntry, iv: seq<byte>)
      returns (ok: bool)
    requires volume.Valid() && store.Valid() && enclave.ready && enclave.Ideal() && |iv| == 16
    modifies volume, store, store.records
    ensures volume.Valid() && store.Valid() && old(volume.history) <= volume.history
    ensures store.records == old(store.records) || fresh(store.records)
    ensures forall i :: |old(volume.history)| <= i < |volume.history| ==>
      IsRecordEntry(e) && LoadingStage(enclave, old(volume.files), volume.history[i], e.name)
    ensures LoadingStage(enclave, old(volume.files), volume.files, e.name)
    ensures !IsRecordEntry(e) ==> volume.files == old(volume.files) && store.Live() == old(store.Live())
    ensures store.Live() == old(store.Live()) ||
      Enters(enclave, old(volume.files), volume.files, e.name, old(store.Live()), store.Live())
    ensures store.ample ==> ok
    ensures Faultless(volume, enclave) ==>
      volume.files == old(volume.files) || LoadedExactly(enclave, old(volume.files), volume.files, e.name)
    ensures Faultless(volume, enclave) && store.ample && IsRecordEntry(e) && old(store.count) < MAX_CREDENTIALS &&
            LoadVerdict(enclave, old(volume.files), e.name).Accepted? ==>
      Enters(enclave, old(volume.files), volume.files, e.name, old(store.Live()), store.Live())
  {
    hide LoadingStage, Loaded, LoadDone, EntryOf, LoadVerdict, LoadedExactly, IsRecordName;
    assert LoadingStage(enclave, volume.files, volume.files, e.name) by { NothingLoads(enclave, volume.files, e.name); }
    ok := true;
    if e.isDir || !IsRecordName(e.name) || store.count >= MAX_CREDENTIALS {
      return;
    }
    ok := store.EnsureCapacity(store.count + 1);
    if !ok {
      return;
    }
    var loaded, entry := LoadIndex(volume, enclave, e.name, iv);
    if entry.Some? {
      store.records[store.count] := entry.value;
    }
    if loaded {
      store.count := store.count + 1;
      assert store.Live() == old(store.Live()) + [entry.value];
    }
  }

  /** A completed load of `name` has put its entry at the end of the index. */
  ghost predicate Enters(enclave: Enclave, d0: Disk, d: Disk, name: string, live: seq<IndexEntry>,
                         next: seq<IndexEntry>) {
    && LoadDone(enclave, d0, d, name)
    && exists r :: Loaded(enclave, d0, name, Some(r)) && next == live + [EntryOf(r)]
  }

  predicate Listed(entries: seq<DirEntry>, name: string) {
    exists j :: 0 <= j < |entries| && entries[j].name == name
  }

  lemma ListedLater(entries: seq<DirEntry>, n: nat, m: nat, name: string)
    requires n <= m <= |entries| && Listed(entries[..n], name)
    ensures Listed(entries[..m], name)
  {
  }

  /** The index so far: entries of names that were listed, all covered but those met stranded. */
  ghost predicate IndexCovered(enclave: Enclave, d0: Disk, d: Disk, live: seq<IndexEntry>, listed: seq<DirEntry>,
                               met: set<string>) {
    forall k :: 0 <= k < |live| ==>
      && Listed(listed, HexEncode(live[k].credentialId))
      && (HexEncode(live[k].credentialId) !in met ==> Covered(enclave, d0, d, live[k]))
  }

  lemma ListedMore(enclave: Enclave, d0: Disk, d: Disk, live: seq<IndexEntry>, listed: seq<DirEntry>, n: nat, m: nat,
                   met: set<string>, more: set<string>)
    requires n <= m <= |listed| && IndexCovered(enclave, d0, d, live, listed[..n], met) && met <= more
    ensures IndexCovered(enclave, d0, d, live, listed[..m], more)
  {
    hide Covered, HexEncode;
  }

  /** One more record has been visited. */
  lemma IndexGrows(enclave: Enclave, d0: Disk, d1: Disk, d: Disk, live: seq<IndexEntry>, next: seq<IndexEntry>,
                   listed: seq<DirEntry>, n: nat, met: set<string>)
    requires n < |listed| && DistinctNames(listed) && IsRecordName(listed[n].name)
    requires KeepsBut(enclave, d0, d1, met) && IndexCovered(enclave, d0, d1, live, listed[..n], met)
    requires LoadingStage(enclave, d1, d, listed[n].name)
    requires next == live || Enters(enclave, d1, d, listed[n].name, live, next)
    requires Orphaned(d1, CounterPath(listed[n].name)) ==> listed[n].name in met
    ensures IndexCovered(enclave, d0, d, next, listed[..n + 1], met)
  {
    hide Covered, LoadingStage, Loaded, LoadDone, EntryOf, Orphaned, HexEncode, KeepsBut;
    var name := listed[n].name;
    forall k | 0 <= k < |next|
      ensures Listed(listed[..n + 1], HexEncode(next[k].credentialId))
      ensures HexEncode(next[k].credentialId) !in met ==> Covered(enclave, d0, d, next[k])
    {
      if k < |live| {
        var j :| 0 <= j < |listed[..n]| && listed[..n][j].name == HexEncode(live[k].credentialId);
        assert listed[..n][j] == listed[j];
        ListedLater(listed, n, n + 1, HexEncode(live[k].credentialId));
        if HexEncode(live[k].credentialId) !in met {
          StaysCovered(enclave, d0, d1, d, live[k], name);
        }
      } else {
        var r :| Loaded(enclave, d1, name, Some(r)) && next == live + [EntryOf(r)];
        LoadedEntry(enclave, d1, name, r);
        if name !in met {
          LoadCovers(enclave, d0, d1, d, name, r, met);
        }
        assert listed[..n + 1][n].name == HexEncode(next[k].credentialId);
      }
    }
  }

  /** What one visit of the index pass does to what is known so far. */
  lemma VisitKeeps(enclave: Enclave, d0: Disk, d1: Disk, d: Disk, listed: seq<DirEntry>, n: nat,
                   live: seq<IndexEntry>, next: seq<IndexEntry>, met: set<string>)
    requires n < |listed| && DistinctNames(listed)
    requires KeepsBut(enclave, d0, d1, met) && IndexCovered(enclave, d0, d1, live, listed[..n], met)
    requires LoadingStage(enclave, d1, d, listed[n].name)
    requires next == live || Enters(enclave, d1, d, listed[n].name, live, next)
    requires !IsRecordEntry(listed[n]) ==> d == d1 && next == live
    ensures IndexCovered(enclave, d0, d, next, listed[..n + 1], met + StrandedEntry(d1, listed[n]))
  {
    hide KeepsBut, LoadingStage, Enters, Covered, HexEncode, Orphaned, IndexCovered, IsRecordName, CounterPath;
    var more := met + StrandedEntry(d1, listed[n]);
    KeepsFewer(enclave, d0, d1, met, more);
    ListedMore(enclave, d0, d1, live, listed, n, n, met, more);
    if IsRecordEntry(listed[n]) {
      IndexGrows(enclave, d0, d1, d, live, next, listed, n, more);
    } else {
      ListedMore(enclave, d0, d, live, listed, n, n + 1, more, more);
    }
  }

  /** What one visit of the index pass may lose, it loses for the record it visits. */
  lemma IndexVisitLoses(enclave: Enclave, history: seq<Disk>, longer: seq<Disk>, mark: nat, met: set<string>,
                        e: DirEntry)
    requires LostOnlyMet(enclave, history, mark, met) && history <= longer
    requires forall k :: |history| <= k < |longer| ==>
      IsRecordEntry(e) && LoadingStage(enclave, history[|history| - 1], longer[k], e.name)
    ensures LostOnlyMet(enclave, longer, mark, met + StrandedEntry(history[|history| - 1], e))
  {
    hide AllKeepBut, MetStranded, LoadingStage, KeepsBut, CounterPath, WouldOverwrite, IsRecordName, Orphaned;
    var d1 := history[|history| - 1];
    var more := StrandedEntry(d1, e);
    forall k | |history| <= k < |longer|
      ensures KeepsBut(enclave, d1, longer[k], more)
    {
      RecordNameLength(e.name);
      LoadingKeepsBut(enclave, d1, longer[k], e.name);
      OnlyStrandedIsOverwritten(enclave, d1, e.name);
      KeepsFewer(enclave, d1, longer[k], Overwritten(enclave, d1, e.name), more);
    }
    if more != {} {
      assert more == {e.name};
    }
    VisitLoses(enclave, history, longer, mark, met, more);
  }

  /** Loading leaves every record as it is. */
  lemma LoadingKeepsRecords(enclave: Enclave, d0: Disk, d: Disk, name: string)
    requires LoadingStage(enclave, d0, d, name) && IsRecordName(name)
    ensures OwnFilesOnly(d0, d) && SameRecords(d0, d)
  {
    hide LoadingStage, IsRecordName, FilesOf, HasSuffix, RecordPath, CounterPath, CounterTemp;
    RecordNameLength(name);
    LoadLeavesRecord(enclave, d0, d, name);
    CounterFilesAreOwn(name);
    forall other | IsRecordName(other)
      ensures SameOn(d0, d, {RecordPath(other), Backup(RecordPath(other))})
    {
      RecordNameLength(other);
      if other == name {
        CompanionLeavesRecord(d0, d, name);
      } else {
        OtherCredential(d0, d, name, other);
        OthersStayClean(d0, d0, d, other);
      }
    }
  }

  lemma IndexVisitIsSafe(enclave: Enclave, history: seq<Disk>, longer: seq<Disk>, mark: nat, listing: bool, e: DirEntry)
    requires RecordsSafe(history, mark, listing) && history <= longer
    requires forall k :: |history| <= k < |longer| ==>
      IsRecordEntry(e) && LoadingStage(enclave, history[|history| - 1], longer[k], e.name)
    ensures RecordsSafe(longer, mark, listing)
  {
    hide LoadingStage, OwnFilesOnly, RecordsKept, SameRecords, IsRecordName;
    var d1 := history[|history| - 1];
    forall k | |history| <= k < |longer|
      ensures OwnFilesOnly(d1, longer[k]) && RecordsKept(d1, longer[k])
    {
      LoadingKeepsRecords(enclave, d1, longer[k], e.name);
      SameRecordsAreKept(d1, longer[k]);
    }
    RecordsStaySafe(history, longer, mark, listing);
  }

  lemma SameRecordsTransitively(d0: Disk, d1: Disk, d2: Disk)
    requires SameRecords(d0, d1) && SameRecords(d1, d2)
    ensures SameRecords(d0, d2)
  {
    hide IsRecordName, RecordPath;
    forall name | IsRecordName(name)
      ensures SameOn(d0, d2, {RecordPath(name), Backup(RecordPath(name))})
    {
      assert RecordPath(name) == RecordPath(name);
      assert SameOn(d0, d1, {RecordPath(name), Backup(RecordPath(name))});
    }
  }

  lemma SameRecordsAreRecovered(enclave: Enclave, d0: Disk, d1: Disk, d: Disk, backups: seq<DirEntry>)
    requires RecordsRecovered(enclave, d0, d1, backups) && SameRecords(d1, d)
    ensures RecordsRecovered(enclave, d0, d, backups)
  {
    hide IsRecordName, RecordPath, RecordSource;
    forall name | IsRecordName(name)
      ensures Lookup(d, RecordPath(name)) == Lookup(d0, RecordSource(enclave, d0, backups, name))
    {
      assert RecordPath(name) == RecordPath(name);
      assert RecordPath(name) in {RecordPath(name), Backup(RecordPath(name))};
    }
  }

  // A start-up in which nothing fails.

  ghost predicate LoadsEntry(enclave: Enclave, d: Disk, e: DirEntry) {
    IsRecordEntry(e) && LoadVerdict(enclave, d, e.name).Accepted?
  }

  /** Every listed record that loads has an entry. */
  ghost predicate IndexComplete(enclave: Enclave, d: Disk, live: seq<IndexEntry>, listed: seq<DirEntry>) {
    forall i :: 0 <= i < |listed| && LoadsEntry(enclave, d, listed[i]) ==>
      HasEntry(live, listed[i].name)
  }

  ghost predicate HasEntry(live: seq<IndexEntry>, name: string) {
    exists k :: 0 <= k < |live| && HexEncode(live[k].credentialId) == name
  }

  /** A load in which nothing fails decides as the next one will. */
  lemma LoadsAgain(enclave: Enclave, d0: Disk, d: Disk, name: string)
    requires LoadedExactly(enclave, d0, d, name) && |name| == 64
    ensures LoadVerdict(enclave, d, name).Accepted? == LoadVerdict(enclave, d0, name).Accepted?
  {
    hide DecodeRecord, HexEncode, RecordPath, RecordTemp, CounterPath, CounterTemp, DecodeFloor;
    if d != d0 {
      var c := CredentialOf(PrimaryRecord(enclave, d0, name).value.record);
      DecodedName(enclave, d0[RecordPath(name)], name);
      OwnFilesDiffer(name);
      assert Lookup(d, RecordPath(name)) == Lookup(d0, RecordPath(name));
    }
  }

  lemma OthersLoadAlike(enclave: Enclave, d0: Disk, d: Disk, name: string, other: string)
    requires LoadedExactly(enclave, d0, d, name) && |name| == |other| == 64
    ensures LoadVerdict(enclave, d, other).Accepted? == LoadVerdict(enclave, d0, other).Accepted?
  {
    hide LoadedExactly, LoadVerdict, PrimaryRecord, RecordPath, RecordTemp, CounterPath, CounterTemp, DurableFiles;
    if other == name {
      LoadsAgain(enclave, d0, d, name);
    } else {
      ExactLoadOwnsCompanion(enclave, d0, d, name);
      assert AgreeOutside(d0, d, FilesOf(name));
      OtherCredential(d0, d, name, other);
      LoadIsLocal(enclave, d0, d, other);
    }
  }

  lemma CompleteAfterVisit(enclave: Enclave, d0: Disk, d: Disk, live: seq<IndexEntry>, next: seq<IndexEntry>,
                           listed: seq<DirEntry>, n: nat)
    requires n < |listed| && IndexComplete(enclave, d0, live, listed[..n])
    requires d == d0 || (IsRecordEntry(listed[n]) && LoadedExactly(enclave, d0, d, listed[n].name))
    requires next == live || Enters(enclave, d0, d, listed[n].name, live, next)
    requires LoadsEntry(enclave, d0, listed[n]) ==>
      Enters(enclave, d0, d, listed[n].name, live, next)
    ensures IndexComplete(enclave, d, next, listed[..n + 1])
  {
    hide LoadedExactly, LoadVerdict, Loaded, LoadDone, HexEncode, EntryOf, IsRecordName;
    assert forall i :: 0 <= i < n ==> listed[..n][i] == listed[i] == listed[..n + 1][i];
    forall i | 0 <= i < n + 1 && LoadsEntry(enclave, d, listed[i])
      ensures HasEntry(next, listed[i].name)
    {
      RecordNameLength(listed[i].name);
      RecordNameLength(listed[n].name);
      if d != d0 {
        OthersLoadAlike(enclave, d0, d, listed[n].name, listed[i].name);
      }
      if i < n {
        var k :| 0 <= k < |live| && HexEncode(live[k].credentialId) == listed[i].name;
        assert next[k] == live[k];
      } else {
        var r :| Loaded(enclave, d0, listed[n].name, Some(r)) && next == live + [EntryOf(r)];
        LoadedEntry(enclave, d0, listed[n].name, r);
        assert HexEncode(next[|live|].credentialId) == listed[n].name;
      }
    }
  }

  lemma NoneStrandedAfterVisit(enclave: Enclave, d0: Disk, d: Disk, name: string)
    requires NoneStranded(d0) && LoadedExactly(enclave, d0, d, name) && IsRecordName(name)
    ensures NoneStranded(d)
  {
    hide LoadedExactly, CounterPath, CounterTemp, RecordPath, RecordTemp, IsRecordName, Orphaned, DurableFiles;
    ExactLoadOwnsCompanion(enclave, d0, d, name);
    RecordNameLength(name);
    assert AgreeOutside(d0, d, FilesOf(name));
    forall other | IsRecordName(other)
      ensures !Orphaned(d, CounterPath(other))
    {
      RecordNameLength(other);
      if other != name {
        OtherCredential(d0, d, name, other);
        OthersStayClean(d0, d0, d, other);
      }
    }
  }

  /** What the index pass knows after `n` entries when nothing fails. */
  ghost predicate IndexedExactly(enclave: Enclave, d: Disk, live: seq<IndexEntry>, listed: seq<DirEntry>, ample: bool) {
    NoneStranded(d) && (ample ==> |live| >= MAX_CREDENTIALS || IndexComplete(enclave, d, live, listed))
  }

  lemma IndexedMore(enclave: Enclave, d0: Disk, d: Disk, live: seq<IndexEntry>, next: seq<IndexEntry>,
                    listed: seq<DirEntry>, n: nat, ample: bool)
    requires n < |listed| && IndexedExactly(enclave, d0, live, listed[..n], ample)
    requires d == d0 || (IsRecordEntry(listed[n]) && LoadedExactly(enclave, d0, d, listed[n].name))
    requires next == live || Enters(enclave, d0, d, listed[n].name, live, next)
    requires ample && |live| < MAX_CREDENTIALS && LoadsEntry(enclave, d0, listed[n]) ==>
      Enters(enclave, d0, d, listed[n].name, live, next)
    ensures IndexedExactly(enclave, d, next, listed[..n + 1], ample)
    ensures StrandedEntry(d0, listed[n]) == {}
  {
    hide IndexComplete, LoadedExactly, LoadVerdict, Loaded, LoadDone, EntryOf, IsRecordName, Orphaned;
    if d != d0 {
      NoneStrandedAfterVisit(enclave, d0, d, listed[n].name);
    }
    if ample && |live| < MAX_CREDENTIALS {
      CompleteAfterVisit(enclave, d0, d, live, next, listed, n);
    }
  }

  /** The second half of the start-up. */
  method BuildIndex(volume: Volume, enclave: Enclave, store: CredentialStore, listed: seq<DirEntry>,
                    ivs: nat -> seq<byte>,
                    ghost d0: Disk, ghost mark: nat, ghost met0: set<string>, ghost listing: bool)
      returns (ok: bool, ghost met: set<string>)
    requires volume.Valid() && store.Valid() && enclave.ready && enclave.Ideal() && store.Live() == []
    requires DistinctNames(listed) && forall i :: |ivs(i)| == 16
    requires LostOnlyMet(enclave, volume.history, mark, met0) && volume.history[mark] == d0
    requires RecordsSafe(volume.history, mark, listing)
    modifies volume, store, store.records
    ensures volume.Valid() && store.Valid() && old(volume.history) <= volume.history
    ensures store.records == old(store.records) || fresh(store.records)
    ensures LostOnlyMet(enclave, volume.history, mark, met)
    ensures IndexCovered(enclave, d0, volume.files, store.Live(), listed, met)
    ensures store.ample ==> ok
    ensures RecordsSafe(volume.history, mark, listing) && SameRecords(old(volume.files), volume.files)
    ensures Faultless(volume, enclave) && NoneStranded(old(volume.files)) ==>
      met == met0 && IndexedExactly(enclave, volume.files, store.Live(), listed, store.ample)
  {
    hide KeepsBut, LostOnlyMet, LoadingStage, Enters, Covered, HexEncode, Orphaned, IndexCovered, IndexedExactly,
         NoneStranded, LoadedExactly, LoadVerdict, IsRecordEntry, StrandedEntry, RecordsSafe, SameRecords;
    ghost var exact := Faultless(volume, enclave) && NoneStranded(volume.files);
    ok, met := true, met0;
    assert SameRecords(volume.files, volume.files) by { NoRecordsChanged(volume.files); }
    LastKept(enclave, volume.history, mark, met);
    assert listed[..0] == [];
    IndexStarts(enclave, d0, volume.files, met, store.ample);
    var n := 0;
    while n < |listed|
      invariant n <= |listed| && volume.Valid() && store.Valid() && old(volume.history) <= volume.history
      invariant store.records == old(store.records) || fresh(store.records)
      invariant mark < |volume.history| && volume.history[mark] == d0
      invariant LostOnlyMet(enclave, volume.history, mark, met)
      invariant RecordsSafe(volume.history, mark, listing) && SameRecords(old(volume.files), volume.files)
      invariant IndexCovered(enclave, d0, volume.files, store.Live(), listed[..n], met)
      invariant exact ==> met == met0 && IndexedExactly(enclave, volume.files, store.Live(), listed[..n], store.ample)
      invariant store.ample ==> ok
    {
      ghost var d1, live, history := volume.files, store.Live(), volume.history;
      LastKept(enclave, history, mark, met);
      ok := IndexVisitor(volume, enclave, store, listed[n], ivs(n));
      VisitKeeps(enclave, d0, d1, volume.files, listed, n, live, store.Live(), met);
      IndexVisitLoses(enclave, history, volume.history, mark, met, listed[n]);
      IndexVisitIsSafe(enclave, history, volume.history, mark, listing, listed[n]);
      IndexVisitSameRecords(enclave, old(volume.files), d1, volume.files, listed[n]);
      if exact {
        IndexedMore(enclave, d1, volume.files, live, store.Live(), listed, n, store.ample);
      }
      met := met + StrandedEntry(d1, listed[n]);
      n := n + 1;
      if !ok {
        ListedMore(enclave, d0, volume.files, store.Live(), listed, n, |listed|, met, met);
        assert listed[..|listed|] == listed;
        IndexedShort(enclave, volume.files, store.Live(), listed, n, store.ample);
        return;
      }
    }
    assert listed[..n] == listed;
  }

  lemma NoRecordsChanged(d: Disk)
    ensures SameRecords(d, d)
  {
  }

  lemma IndexVisitSameRecords(enclave: Enclave, d0: Disk, d1: Disk, d: Disk, e: DirEntry)
    requires SameRecords(d0, d1) && LoadingStage(enclave, d1, d, e.name) && (!IsRecordEntry(e) ==> d == d1)
    ensures SameRecords(d0, d)
  {
    hide SameRecords, LoadingStage, IsRecordName, OwnFilesOnly;
    if IsRecordEntry(e) {
      LoadingKeepsRecords(enclave, d1, d, e.name);
      SameRecordsTransitively(d0, d1, d);
    }
  }

  lemma IndexStarts(enclave: Enclave, d0: Disk, d: Disk, met: set<string>, ample: bool)
    ensures IndexCovered(enclave, d0, d, [], [], met)
    ensures NoneStranded(d) ==> IndexedExactly(enclave, d, [], [], ample)
  {
    hide Covered, NoneStranded;
  }

  lemma IndexedShort(enclave: Enclave, d: Disk, live: seq<IndexEntry>, listed: seq<DirEntry>, n: nat, ample: bool)
    requires n <= |listed|
    ensures IndexedExactly(enclave, d, live, listed[..n], ample) && !ample ==>
      IndexedExactly(enclave, d, live, listed, ample)
  {
    hide NoneStranded;
  }

  lemma LastKept(enclave: Enclave, history: seq<Disk>, mark: nat, met: set<string>)
    requires LostOnlyMet(enclave, history, mark, met)
    ensures mark < |history| && KeepsBut(enclave, history[mark], history[|history| - 1], met)
  {
    hide KeepsBut, MetStranded;
  }

  /**
   `zf_store_bootstrap_init_with_buffer`.  `met` are the credentials of which a load met a stranded
   companion.  For every other one each counter bound that held on the disk holds at every point of
   the start-up, and its entry in the new index stands at or above it.  When no primitive fails and
   the listing shows the backups that are there, a credential is met if and only if its record
   carries no floor and its backup is listed before that of its companion; every record is then its
   primary, or its backup if the primary was refused; and every record that loads gets an entry, as
   long as there is room.  Whatever fails, no other file is touched and, if the listing is true, no
   record is lost.
   */
  method Init(volume: Volume, enclave: Enclave, store: CredentialStore, temps: seq<DirEntry>, backups: seq<DirEntry>,
              listed: seq<DirEntry>, ivs: nat -> seq<byte>) returns (ok: bool, ghost met: set<string>)
    requires volume.Valid() && store.Valid() && enclave.ready && enclave.Ideal()
    requires DistinctNames(listed) && forall i :: |ivs(i)| == 16
    modifies volume, store, store.records
    ensures volume.Valid() && store.Valid() && old(volume.history) <= volume.history
    ensures LostOnlyMet(enclave, volume.history, |old(volume.history)| - 1, met)
    ensures IndexCovered(enclave, old(volume.files), volume.files, store.Live(), listed, met)
    ensures volume.sound && store.ample ==> ok
    ensures RecordsSafe(volume.history, |old(volume.history)| - 1, ListsBackups(old(volume.files), backups))
    ensures Faultless(volume, enclave) && ListsBackups(old(volume.files), backups) ==>
      && RecordsRecovered(enclave, old(volume.files), volume.files, backups)
      && (forall name :: name in met <==>
            IsRecordName(name) && WouldOverwrite(enclave, old(volume.files), name) && RecordFirst(backups, name))
      && IndexedExactly(enclave, volume.files, store.Live(), listed, store.ample)
  {
    hide KeepsBut, LostOnlyMet, Covered, IndexCovered, IndexedExactly, NoneStranded, WouldOverwrite, ListsBackups,
         RecordFirst, IsRecordName, RecordsSafe, RecordsRecovered, SameRecords;
    ghost var d0, mark, listing := volume.files, |volume.history| - 1, ListsBackups(volume.files, backups);
    NothingMet(enclave, volume.history);
    RecordsStartSafe(volume.history, listing);
    ok, met := false, {};
    store.Clear();
    IndexStarts(enclave, d0, d0, met, store.ample);
    IndexCoveredUnlisted(enclave, d0, d0, listed, met);
    var noDirectory := volume.Fault();
    if noDirectory {
      return;
    }
    met := CleanupTempFiles(volume, enclave, temps, backups, ivs);
    IndexCoveredUnlisted(enclave, d0, volume.files, listed, met);
    var unreadable := volume.Fault();
    if unreadable {
      return;
    }
    ghost var d1 := volume.files;
    ok, met := BuildIndex(volume, enclave, store, listed, ivs, d0, mark, met, listing);
    if Faultless(volume, enclave) && listing {
      SameRecordsAreRecovered(enclave, d0, d1, volume.files, backups);
    }
  }

  lemma IndexCoveredUnlisted(enclave: Enclave, d0: Disk, d: Disk, listed: seq<DirEntry>, met: set<string>)
    ensures IndexCovered(enclave, d0, d, [], listed, met)
  {
    hide Covered;
  }
}
