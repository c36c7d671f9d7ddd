/**
 What the recovery pass of start-up makes of a directory listing (src/store/recovery.c): which names
 are backups of what, and what a pass in which nothing fails leaves of the stranded companions.
 */
module BackupListing {
  import opened Bytes
  import opened AtomicFile
  import opened Record
  import opened RecordFormat
  import opened CounterGuard
  import opened CounterStore
  import opened StorePaths
  import opened Recovery

  datatype DirEntry = DirEntry(name: string, isDir: bool)

  predicate DistinctNames(entries: seq<DirEntry>) {
    forall i, j :: 0 <= i < j < |entries| ==> entries[i].name != entries[j].name
  }

  /** `zf_store_has_suffix`. */
  predicate HasSuffix(s: string, suffix: string) {
    |s| >= |suffix| && s[|s| - |suffix|..] == suffix
  }

  /** What a backup file is a backup of. */
  datatype BackupOf = NoBackup | OfRecord(name: string) | OfCompanion(name: string)

  function ClassifyBackup(name: string): (b: BackupOf)
    ensures !b.NoBackup? ==> IsRecordName(b.name)
  {
    if !HasSuffix(name, ".bak") || |name| == 4 || |name| - 4 >= 96 then NoBackup
    else
      var base := name[..|name| - 4];
      if IsRecordName(base) then OfRecord(base)
      else if HasSuffix(base, ".counter") && IsRecordName(base[..|base| - 8]) then OfCompanion(base[..|base| - 8])
      else NoBackup
  }

  /** What visiting the entry recovers. */
  function Target(e: DirEntry): (b: BackupOf)
    ensures !b.NoBackup? ==> IsRecordName(b.name)
  {
    if e.isDir then NoBackup else ClassifyBackup(e.name)
  }

  lemma SuffixSplits(s: string, suffix: string)
    requires HasSuffix(s, suffix)
    ensures s == s[..|s| - |suffix|] + suffix
  {
  }

  /** A target is listed under one name only. */
  lemma TargetHasOneName(e: DirEntry)
    ensures Target(e).OfRecord? ==> e == DirEntry(Target(e).name + ".bak", false)
    ensures Target(e).OfCompanion? ==> e == DirEntry(Target(e).name + ".counter" + ".bak", false)
  {
    if !Target(e).NoBackup? {
      SuffixSplits(e.name, ".bak");
      var base := e.name[..|e.name| - 4];
      if Target(e).OfCompanion? {
        SuffixSplits(base, ".counter");
      }
    }
  }

  lemma CompanionTarget(name: string)
    requires IsRecordName(name)
    ensures Target(DirEntry(name + ".counter" + ".bak", false)) == OfCompanion(name)
  {
    var base := name + ".counter";
    assert (base + ".bak")[..|base|] == base && base[..|name|] == name;
  }

  predicate Visited(entries: seq<DirEntry>, b: BackupOf) {
    exists i :: 0 <= i < |entries| && Target(entries[i]) == b
  }

  /** The backup of the record comes up before that of its companion. */
  predicate RecordFirst(entries: seq<DirEntry>, name: string) {
    exists i :: 0 <= i < |entries| && Target(entries[i]) == OfRecord(name) && !Visited(entries[..i], OfCompanion(name))
  }

  /** The listing shows every backup of a companion, and no backup of a record that is not there. */
  ghost predicate ListsBackups(d: Disk, entries: seq<DirEntry>) {
    && DistinctNames(entries)
    && (forall e :: e in entries && Target(e).OfRecord? ==> Backup(RecordPath(Target(e).name)) in d)
    && (forall name :: IsRecordName(name) && Backup(CounterPath(name)) in d ==>
          DirEntry(name + ".counter" + ".bak", false) in entries)
  }

  /** A listing of the whole directory is such a listing. */
  lemma WholeDirectoryListsBackups(d: Disk, entries: seq<DirEntry>)
    requires DistinctNames(entries)
    requires forall name :: DirEntry(name, false) in entries <==> Child(name) in d
    ensures ListsBackups(d, entries)
  {
    hide IsRecordName, Target, DistinctNames;
    forall e | e in entries && Target(e).OfRecord?
      ensures Backup(RecordPath(Target(e).name)) in d
    {
      TargetHasOneName(e);
      assert Child(Target(e).name + ".bak") == Backup(RecordPath(Target(e).name));
    }
    forall name | IsRecordName(name) && Backup(CounterPath(name)) in d
      ensures DirEntry(name + ".counter" + ".bak", false) in entries
    {
      assert Child(name + ".counter" + ".bak") == Backup(CounterPath(name));
    }
  }

  lemma VisitedMore(entries: seq<DirEntry>, e: DirEntry, b: BackupOf)
    ensures Visited(entries + [e], b) <==> Visited(entries, b) || Target(e) == b
  {
    var more := entries + [e];
    if Visited(entries, b) {
      var i :| 0 <= i < |entries| && Target(entries[i]) == b;
      assert Target(more[i]) == b;
    }
    if Target(e) == b {
      assert Target(more[|entries|]) == b;
    }
  }

  lemma RecordFirstMore(entries: seq<DirEntry>, e: DirEntry, name: string)
    ensures RecordFirst(entries + [e], name) <==>
      RecordFirst(entries, name) || (Target(e) == OfRecord(name) && !Visited(entries, OfCompanion(name)))
  {
    hide Visited, Target;
    var more := entries + [e];
    assert more[..|entries|] == entries;
    if RecordFirst(entries, name) {
      var i :| 0 <= i < |entries| && Target(entries[i]) == OfRecord(name) && !Visited(entries[..i], OfCompanion(name));
      assert more[..i] == entries[..i] && Target(more[i]) == OfRecord(name);
    }
    if RecordFirst(more, name) {
      var i :| 0 <= i < |more| && Target(more[i]) == OfRecord(name) && !Visited(more[..i], OfCompanion(name));
      if i < |entries| {
        assert more[..i] == entries[..i] && Target(entries[i]) == OfRecord(name);
      }
    }
    if Target(e) == OfRecord(name) && !Visited(entries, OfCompanion(name)) {
      assert Target(more[|entries|]) == OfRecord(name);
    }
  }

  // What every visit does, whatever fails.

  /** Some point of visiting the entry. */
  ghost predicate VisitStage(enclave: Enclave, d0: Disk, d: Disk, e: DirEntry) {
    match Target(e)
    case NoBackup => d == d0
    case OfRecord(name) => RecoverStage(enclave, d0, d, name)
    case OfCompanion(name) => OldStage(d0, d, CounterPath(name), CounterTemp(name))
  }

  /** One of the two copies is lost at most, and then the other is there: a primary without a backup stays. */
  predicate RecordKept(d0: Disk, d: Disk, name: string) {
    var path := RecordPath(name);
    var was, backup := Lookup(d0, path), Lookup(d0, Backup(path));
    (Lookup(d, path), Lookup(d, Backup(path))) in
      if backup.None? then {(was, None)}
      else if was.None? then {(was, backup), (backup, None)}
      else {(was, backup), (was, None), (None, backup), (backup, None)}
  }

  /** No record is lost. */
  ghost predicate RecordsKept(d0: Disk, d: Disk) {
    forall name {:trigger RecordPath(name)} :: IsRecordName(name) ==> RecordKept(d0, d, name)
  }

  /** Nothing but temporaries and the files of credentials has changed. */
  ghost predicate OwnFilesOnly(d0: Disk, d: Disk) {
    forall p :: Lookup(d, p) != Lookup(d0, p) ==>
      HasSuffix(p, ".tmp") || exists name :: IsRecordName(name) && p in FilesOf(name)
  }

  lemma RecordsKeptTransitively(d0: Disk, d1: Disk, d2: Disk)
    requires RecordsKept(d0, d1) && RecordsKept(d1, d2)
    ensures RecordsKept(d0, d2)
  {
    hide IsRecordName, RecordPath;
    forall name | IsRecordName(name)
      ensures RecordKept(d0, d2, name)
    {
      assert RecordPath(name) == RecordPath(name);
    }
  }

  lemma OwnFilesTransitively(d0: Disk, d1: Disk, d2: Disk)
    requires OwnFilesOnly(d0, d1) && OwnFilesOnly(d1, d2)
    ensures OwnFilesOnly(d0, d2)
  {
    hide IsRecordName, FilesOf, HasSuffix;
    forall p | Lookup(d2, p) != Lookup(d0, p)
      ensures HasSuffix(p, ".tmp") || exists name :: IsRecordName(name) && p in FilesOf(name)
    {
      assert Lookup(d2, p) != Lookup(d1, p) || Lookup(d1, p) != Lookup(d0, p);
    }
  }

  lemma SameRecordIsKept(d0: Disk, d: Disk, name: string)
    requires SameOn(d0, d, {RecordPath(name), Backup(RecordPath(name))})
    ensures RecordKept(d0, d, name)
  {
    SameRecordAndCompanion(d0, d, name);
    hide RecordPath;
  }

  /** A recovery keeps one of the copies at every point. */
  lemma RecoveryKeepsRecord(enclave: Enclave, d0: Disk, d: Disk, name: string)
    requires RecoverStage(enclave, d0, d, name) && |name| == 64 && Backup(RecordPath(name)) in d0
    ensures RecordKept(d0, d, name)
  {
    hide LoadingStage, RecordPath, CounterFiles;
    var d1 :| LoadingStage(enclave, d0, d1, name) && Recovers(d1, d, name);
    LoadLeavesRecord(enclave, d0, d1, name);
    CounterNotRecord(name);
    RecordFilesCover(name);
    assert Lookup(d1, RecordPath(name)) == Lookup(d0, RecordPath(name));
    assert Lookup(d1, Backup(RecordPath(name))) == Lookup(d0, Backup(RecordPath(name)));
  }

  lemma RecordFilesCover(name: string)
    ensures RecordPath(name) in RecordFiles(name) && Backup(RecordPath(name)) in RecordFiles(name)
  {
  }

  lemma RecoverTouchesOwnFiles(enclave: Enclave, d0: Disk, d: Disk, name: string)
    requires RecoverStage(enclave, d0, d, name) && |name| == 64
    ensures AgreeOutside(d0, d, FilesOf(name))
  {
    hide LoadingStage, RecordPath, RecordTemp, CounterPath, CounterTemp;
    var d1 :| LoadingStage(enclave, d0, d1, name) && Recovers(d1, d, name);
    LoadLeavesRecord(enclave, d0, d1, name);
    forall p | p !in FilesOf(name)
      ensures Lookup(d, p) == Lookup(d0, p)
    {
      assert p !in CounterFiles(name) && p !in RecordFiles(name);
      assert Lookup(d1, p) == Lookup(d0, p);
    }
  }

  lemma VisitTouchesTarget(enclave: Enclave, d0: Disk, d: Disk, e: DirEntry)
    requires VisitStage(enclave, d0, d, e)
    ensures Target(e).NoBackup? ==> d == d0
    ensures !Target(e).NoBackup? ==> AgreeOutside(d0, d, FilesOf(Target(e).name))
    ensures OwnFilesOnly(d0, d)
  {
    hide Target, RecoverStage, IsRecordName, FilesOf, HasSuffix;
    match Target(e)
    case NoBackup =>
    case OfRecord(name) =>
      RecordNameLength(name);
      RecoverTouchesOwnFiles(enclave, d0, d, name);
    case OfCompanion(name) => CounterFilesAreOwn(name);
  }

  lemma VisitKeepsRecords(enclave: Enclave, d0: Disk, d: Disk, e: DirEntry)
    requires VisitStage(enclave, d0, d, e) && (Target(e).OfRecord? ==> Backup(RecordPath(Target(e).name)) in d0)
    ensures RecordsKept(d0, d)
    ensures forall name {:trigger RecordPath(name)} :: IsRecordName(name) && Target(e) != OfRecord(name) ==>
      SameOn(d0, d, {RecordPath(name), Backup(RecordPath(name))})
  {
    hide Target, RecoverStage, IsRecordName, FilesOf, RecordPath, RecordKept, DurableFiles;
    VisitTouchesTarget(enclave, d0, d, e);
    forall name | IsRecordName(name)
      ensures RecordKept(d0, d, name)
      ensures Target(e) != OfRecord(name) ==> SameOn(d0, d, {RecordPath(name), Backup(RecordPath(name))})
    {
      RecordNameLength(name);
      if Target(e) == OfRecord(name) {
        RecoveryKeepsRecord(enclave, d0, d, name);
      } else {
        VisitOfAnother(enclave, d0, d, e, name);
        SameRecordIsKept(d0, d, name);
      }
    }
  }

  lemma VisitOfAnother(enclave: Enclave, d0: Disk, d: Disk, e: DirEntry, name: string)
    requires VisitStage(enclave, d0, d, e) && Target(e) != OfRecord(name) && IsRecordName(name)
    ensures SameOn(d0, d, {RecordPath(name), Backup(RecordPath(name))})
  {
    hide Target, RecoverStage, IsRecordName, FilesOf, RecordPath, CounterPath, CounterTemp;
    VisitTouchesTarget(enclave, d0, d, e);
    RecordNameLength(name);
    if Target(e) == OfCompanion(name) {
      CompanionLeavesRecord(d0, d, name);
    } else if !Target(e).NoBackup? {
      RecordNameLength(Target(e).name);
      OtherCredential(d0, d, Target(e).name, name);
      OthersStayClean(d0, d0, d, name);
    }
  }

  /** Records whose backup has not come up yet are as they were. */
  ghost predicate NotYetVisited(d0: Disk, d: Disk, visited: seq<DirEntry>) {
    forall name {:trigger RecordPath(name)} :: IsRecordName(name) && !Visited(visited, OfRecord(name)) ==>
      SameOn(d0, d, {RecordPath(name), Backup(RecordPath(name))})
  }

  /** The backup of a record that is listed is still there when its turn comes. */
  lemma BackupAwaitsItsTurn(d0: Disk, d: Disk, entries: seq<DirEntry>, i: nat)
    requires ListsBackups(d0, entries) && i < |entries| && NotYetVisited(d0, d, entries[..i])
    ensures Target(entries[i]).OfRecord? ==> Backup(RecordPath(Target(entries[i]).name)) in d
  {
    hide Visited, IsRecordName, Target;
    if Target(entries[i]).OfRecord? {
      var name := Target(entries[i]).name;
      TargetsAreNew(entries, i);
      assert Backup(RecordPath(name)) in {RecordPath(name), Backup(RecordPath(name))};
      assert Lookup(d, Backup(RecordPath(name))) == Lookup(d0, Backup(RecordPath(name)));
    }
  }

  lemma NotYetVisitedMore(enclave: Enclave, d0: Disk, d1: Disk, d: Disk, entries: seq<DirEntry>, i: nat)
    requires ListsBackups(d0, entries) && i < |entries| && NotYetVisited(d0, d1, entries[..i])
    requires VisitStage(enclave, d1, d, entries[i])
    ensures NotYetVisited(d0, d, entries[..i + 1])
  {
    hide Visited, IsRecordName, Target, VisitStage, RecordPath;
    assert entries[..i] + [entries[i]] == entries[..i + 1];
    forall name | IsRecordName(name) && !Visited(entries[..i + 1], OfRecord(name))
      ensures SameOn(d0, d, {RecordPath(name), Backup(RecordPath(name))})
    {
      VisitedMore(entries[..i], entries[i], OfRecord(name));
      VisitOfAnother(enclave, d1, d, entries[i], name);
      assert RecordPath(name) == RecordPath(name);
      assert SameOn(d0, d1, {RecordPath(name), Backup(RecordPath(name))});
    }
  }

  // A pass in which nothing fails.

  /** What visiting the entry leaves. */
  ghost predicate CleanedExactly(enclave: Enclave, d0: Disk, d: Disk, e: DirEntry) {
    match Target(e)
    case NoBackup => d == d0
    case OfRecord(name) => RecoveredExactly(enclave, d0, d, name)
    case OfCompanion(name) => d == Recovered(d0, CounterPath(name), CounterTemp(name))
  }

  /** The visit asks the pass to go on. */
  ghost predicate VisitSucceeds(enclave: Enclave, d: Disk, e: DirEntry) {
    Target(e).OfRecord? ==>
      LoadVerdict(enclave, d, Target(e).name).Accepted? || Backup(RecordPath(Target(e).name)) in d
  }

  /** No companion is in its backup only. */
  ghost predicate NoneStranded(d: Disk) {
    forall name {:trigger CounterPath(name)} :: IsRecordName(name) ==> !Orphaned(d, CounterPath(name))
  }

  /**
   What is known of one credential after these entries have been visited; `met`: its companion has been overwritten.
   */
  ghost predicate CleanedOne(enclave: Enclave, d0: Disk, d: Disk, visited: seq<DirEntry>, name: string, met: bool) {
    && (!Visited(visited, OfRecord(name)) ==> SameOn(d0, d, {RecordPath(name), Backup(RecordPath(name))}))
    && (!Visited(visited, OfRecord(name)) && !Visited(visited, OfCompanion(name)) ==> SameOn(d0, d, DurableFiles(name)))
    && (Orphaned(d, CounterPath(name)) ==> Orphaned(d0, CounterPath(name)) && !Visited(visited, OfCompanion(name)))
    && (met <==> WouldOverwrite(enclave, d0, name) && RecordFirst(visited, name))
  }

  /** What the load of `name` comes to when its turn is reached. */
  ghost function VerdictAt(enclave: Enclave, d0: Disk, visited: seq<DirEntry>, name: string): Verdict {
    VerdictWith(enclave, d0, name,
                if RecordFirst(visited, name) then Lookup(d0, CounterPath(name)) else Logical(d0, CounterPath(name)))
  }

  /** The record is the primary if that loaded or was not visited, and the backup if it was refused. */
  ghost function RecordSource(enclave: Enclave, d0: Disk, visited: seq<DirEntry>, name: string): Path {
    if Visited(visited, OfRecord(name)) && !VerdictAt(enclave, d0, visited, name).Accepted?
    then Backup(RecordPath(name)) else RecordPath(name)
  }

  /** What is known of its record, and of the companion it is about to be loaded with. */
  ghost predicate RecordSettled(enclave: Enclave, d0: Disk, d: Disk, visited: seq<DirEntry>, name: string) {
    && Lookup(d, RecordPath(name)) == Lookup(d0, RecordSource(enclave, d0, visited, name))
    && (Visited(visited, OfRecord(name)) ==> Backup(RecordPath(name)) !in d)
    && (!Visited(visited, OfRecord(name)) && Visited(visited, OfCompanion(name)) ==>
          Lookup(d, CounterPath(name)) == Logical(d0, CounterPath(name)))
  }

  ghost predicate Cleaned(enclave: Enclave, d0: Disk, d: Disk, visited: seq<DirEntry>, met: set<string>) {
    forall name {:trigger CounterPath(name)} {:trigger name in met} ::
      if IsRecordName(name)
      then CleanedOne(enclave, d0, d, visited, name, name in met) && RecordSettled(enclave, d0, d, visited, name)
      else name !in met
  }

  /** After a pass over `entries` every record is the one that recovery is meant to settle on. */
  ghost predicate RecordsRecovered(enclave: Enclave, d0: Disk, d: Disk, entries: seq<DirEntry>) {
    forall name {:trigger RecordPath(name)} :: IsRecordName(name) ==>
      Lookup(d, RecordPath(name)) == Lookup(d0, RecordSource(enclave, d0, entries, name))
  }

  lemma CleanedNothing(enclave: Enclave, d0: Disk, d: Disk)
    requires forall name {:trigger CounterPath(name)} :: IsRecordName(name) ==> SameOn(d0, d, DurableFiles(name))
    ensures Cleaned(enclave, d0, d, [], {})
  {
    hide CounterPath, RecordPath, IsRecordName, WouldOverwrite, VerdictAt;
    forall name | IsRecordName(name)
      ensures CleanedOne(enclave, d0, d, [], name, false) && RecordSettled(enclave, d0, d, [], name)
    {
      assert CounterPath(name) == CounterPath(name);
      OthersStayClean(d0, d0, d, name);
      assert Lookup(d, RecordPath(name)) == Lookup(d0, RecordPath(name));
    }
  }

  lemma RecoveredFacts(enclave: Enclave, d0: Disk, d: Disk, name: string)
    requires RecoveredExactly(enclave, d0, d, name) && |name| == 64
    ensures AgreeOutside(d0, d, FilesOf(name))
    ensures Orphaned(d, CounterPath(name)) ==> Orphaned(d0, CounterPath(name))
    ensures Backup(RecordPath(name)) !in d
    ensures Lookup(d, RecordPath(name)) ==
      Lookup(d0, if LoadVerdict(enclave, d0, name).Accepted? then RecordPath(name) else Backup(RecordPath(name)))
  {
    hide LoadVerdict, LoadedExactly, RecordPath, RecordTemp, CounterPath, CounterTemp;
    CounterNotRecord(name);
    OwnFilesDiffer(name);
    if LoadVerdict(enclave, d0, name).Accepted? {
      var d1 :| LoadedExactly(enclave, d0, d1, name) && d == d1 - {Backup(RecordPath(name))};
      ExactLoadOwnsCompanion(enclave, d0, d1, name);
      assert AgreeOutside(d0, d1, FilesOf(name));
    }
  }

  /** Every visit recovers one credential and leaves the others alone. */
  lemma CleanedOneMore(enclave: Enclave, d0: Disk, d1: Disk, d: Disk, visited: seq<DirEntry>, e: DirEntry,
                       name: string, met: bool)
    requires IsRecordName(name) && CleanedOne(enclave, d0, d1, visited, name, met) && CleanedExactly(enclave, d1, d, e)
    requires !Target(e).NoBackup? ==> !Visited(visited, Target(e))
    ensures CleanedOne(enclave, d0, d, visited + [e], name,
                       met || (Target(e) == OfRecord(name) && WouldOverwrite(enclave, d1, name)))
  {
    hide IsRecordName, RecoveredExactly, WouldOverwrite, Recovered, Visited, RecordFirst, Target, RecordPath,
         RecordTemp, CounterPath, CounterTemp;
    VisitedMore(visited, e, OfRecord(name));
    VisitedMore(visited, e, OfCompanion(name));
    RecordFirstMore(visited, e, name);
    RecordNameLength(name);
    OwnFilesDiffer(name);
    match Target(e)
    case NoBackup =>
    case OfRecord(other) =>
      RecordNameLength(other);
      RecoveredFacts(enclave, d1, d, other);
      if other == name {
        if !Visited(visited, OfCompanion(name)) {
          OverwriteIsLocal(enclave, d0, d1, name);
        } else {
          OnlyStrandedIsOverwritten(enclave, d1, name);
        }
        RecordComesOnce(visited, name);
      } else {
        OtherCredential(d1, d, other, name);
        OthersStayClean(d0, d1, d, name);
      }
    case OfCompanion(other) =>
      RecordNameLength(other);
      CompanionRecovered(d1, d, other);
      if other == name {
        CompanionLeavesRecord(d1, d, name);
      } else {
        OtherCredential(d1, d, other, name);
        OthersStayClean(d0, d1, d, name);
      }
  }

  lemma RecordSettledMore(enclave: Enclave, d0: Disk, d1: Disk, d: Disk, visited: seq<DirEntry>, e: DirEntry,
                          name: string, met: bool)
    requires IsRecordName(name) && CleanedOne(enclave, d0, d1, visited, name, met) && CleanedExactly(enclave, d1, d, e)
    requires RecordSettled(enclave, d0, d1, visited, name)
    requires !Target(e).NoBackup? ==> !Visited(visited, Target(e))
    ensures RecordSettled(enclave, d0, d, visited + [e], name)
  {
    hide IsRecordName, RecoveredExactly, WouldOverwrite, Recovered, Visited, RecordFirst, Target, RecordPath,
         RecordTemp, CounterPath, CounterTemp, VerdictWith, LoadVerdict;
    VisitedMore(visited, e, OfRecord(name));
    VisitedMore(visited, e, OfCompanion(name));
    RecordFirstMore(visited, e, name);
    RecordNameLength(name);
    OwnFilesDiffer(name);
    match Target(e)
    case NoBackup =>
    case OfRecord(other) =>
      RecordNameLength(other);
      RecoveredFacts(enclave, d1, d, other);
      if other == name {
        RecordComesOnce(visited, name);
        SameRecordAndCompanion(d0, d1, name);
        VerdictFrom(enclave, d1, d0, name);
      } else {
        OtherCredential(d1, d, other, name);
        SameRecordAndCompanion(d1, d, name);
      }
    case OfCompanion(other) =>
      RecordNameLength(other);
      CompanionRecovered(d1, d, other);
      if other == name {
        CompanionLeavesRecord(d1, d, name);
        SameRecordAndCompanion(d0, d1, name);
        SameRecordAndCompanion(d1, d, name);
      } else {
        OtherCredential(d1, d, other, name);
        SameRecordAndCompanion(d1, d, name);
      }
  }

  lemma SameRecordAndCompanion(d0: Disk, d: Disk, name: string)
    ensures SameOn(d0, d, {RecordPath(name), Backup(RecordPath(name))}) || SameOn(d0, d, DurableFiles(name)) ==>
      && Lookup(d, RecordPath(name)) == Lookup(d0, RecordPath(name))
      && Lookup(d, Backup(RecordPath(name))) == Lookup(d0, Backup(RecordPath(name)))
    ensures SameOn(d0, d, DurableFiles(name)) ==>
      Lookup(d, CounterPath(name)) == Lookup(d0, CounterPath(name)) &&
      Logical(d, CounterPath(name)) == Logical(d0, CounterPath(name))
  {
    hide RecordPath, CounterPath;
  }

  /** The verdict on a record depends on its content and on that of its companion. */
  lemma VerdictFrom(enclave: Enclave, d: Disk, d0: Disk, name: string)
    requires Lookup(d, RecordPath(name)) == Lookup(d0, RecordPath(name))
    ensures LoadVerdict(enclave, d, name) == VerdictWith(enclave, d0, name, Lookup(d, CounterPath(name)))
  {
    hide DecodeRecord, Validate;
  }

  lemma RecordNameLength(name: string)
    ensures IsRecordName(name) ==> |name| == 64
  {
  }

  lemma OverwriteIsLocal(enclave: Enclave, d0: Disk, d: Disk, name: string)
    requires SameOn(d0, d, DurableFiles(name))
    ensures WouldOverwrite(enclave, d, name) == WouldOverwrite(enclave, d0, name)
  {
    hide PrimaryRecord, LoadVerdict;
    LoadIsLocal(enclave, d0, d, name);
  }

  lemma OnlyStrandedIsOverwritten(enclave: Enclave, d: Disk, name: string)
    ensures WouldOverwrite(enclave, d, name) ==> Orphaned(d, CounterPath(name))
  {
  }

  lemma RecordComesOnce(visited: seq<DirEntry>, name: string)
    requires !Visited(visited, OfRecord(name))
    ensures !RecordFirst(visited, name)
  {
  }

  lemma OthersStayClean(d0: Disk, d1: Disk, d: Disk, name: string)
    requires SameOn(d1, d, DurableFiles(name))
    ensures SameOn(d0, d1, {RecordPath(name), Backup(RecordPath(name))}) ==>
      SameOn(d0, d, {RecordPath(name), Backup(RecordPath(name))})
    ensures SameOn(d0, d1, DurableFiles(name)) ==> SameOn(d0, d, DurableFiles(name))
    ensures Orphaned(d, CounterPath(name)) == Orphaned(d1, CounterPath(name))
  {
    hide RecordPath, CounterPath;
    assert forall p :: p in {RecordPath(name), Backup(RecordPath(name))} ==> p in DurableFiles(name);
    assert Lookup(d, CounterPath(name)) == Lookup(d1, CounterPath(name));
    assert Lookup(d, Backup(CounterPath(name))) == Lookup(d1, Backup(CounterPath(name)));
  }

  lemma CompanionRecovered(d0: Disk, d: Disk, name: string)
    requires |name| == 64 && d == Recovered(d0, CounterPath(name), CounterTemp(name))
    ensures AgreeOutside(d0, d, FilesOf(name)) && AgreeOutside(d0, d, CounterFiles(name))
    ensures !Orphaned(d, CounterPath(name)) && Lookup(d, CounterPath(name)) == Logical(d0, CounterPath(name))
  {
    hide RecordPath, RecordTemp, CounterPath, CounterTemp;
    OwnFilesDiffer(name);
  }

  lemma CompanionLeavesRecord(d0: Disk, d: Disk, name: string)
    requires |name| == 64 && AgreeOutside(d0, d, CounterFiles(name))
    ensures SameOn(d0, d, {RecordPath(name), Backup(RecordPath(name))})
  {
    hide RecordPath, RecordTemp, CounterPath, CounterTemp;
    OwnFilesDiffer(name);
  }

  lemma CleanedMore(enclave: Enclave, d0: Disk, d1: Disk, d: Disk, visited: seq<DirEntry>, e: DirEntry,
                    met: set<string>, more: set<string>)
    requires Cleaned(enclave, d0, d1, visited, met) && CleanedExactly(enclave, d1, d, e)
    requires !Target(e).NoBackup? ==> !Visited(visited, Target(e))
    requires more == if Target(e).OfRecord? && WouldOverwrite(enclave, d1, Target(e).name) then {Target(e).name} else {}
    ensures Cleaned(enclave, d0, d, visited + [e], met + more)
  {
    hide CleanedOne, RecordSettled, CleanedExactly, WouldOverwrite, Visited, IsRecordName;
    forall name | IsRecordName(name)
      ensures CleanedOne(enclave, d0, d, visited + [e], name, name in met + more)
      ensures RecordSettled(enclave, d0, d, visited + [e], name)
    {
      assert CounterPath(name) == CounterPath(name);
      CleanedOneMore(enclave, d0, d1, d, visited, e, name, name in met);
      RecordSettledMore(enclave, d0, d1, d, visited, e, name, name in met);
    }
  }

  /** Distinct names make distinct targets. */
  lemma TargetsAreNew(entries: seq<DirEntry>, i: nat)
    requires DistinctNames(entries) && i < |entries| && !Target(entries[i]).NoBackup?
    ensures !Visited(entries[..i], Target(entries[i]))
  {
    hide ClassifyBackup, Target;
    if Visited(entries[..i], Target(entries[i])) {
      var j :| 0 <= j < i && Target(entries[..i][j]) == Target(entries[i]);
      TargetHasOneName(entries[i]);
      TargetHasOneName(entries[j]);
    }
  }

  /** The backup of a record that is listed is still there when its turn comes. */
  lemma ListedVisitSucceeds(enclave: Enclave, d0: Disk, d: Disk, entries: seq<DirEntry>, i: nat, met: set<string>)
    requires ListsBackups(d0, entries) && i < |entries| && Cleaned(enclave, d0, d, entries[..i], met)
    ensures VisitSucceeds(enclave, d, entries[i])
  {
    hide LoadVerdict, Visited, WouldOverwrite, RecordFirst, IsRecordName, Target;
    if Target(entries[i]).OfRecord? {
      var name := Target(entries[i]).name;
      TargetsAreNew(entries, i);
      assert CounterPath(name) == CounterPath(name);
      assert Backup(RecordPath(name)) in {RecordPath(name), Backup(RecordPath(name))};
      assert Lookup(d, Backup(RecordPath(name))) == Lookup(d0, Backup(RecordPath(name)));
    }
  }

  /** After a pass over all of them no companion is stranded. */
  lemma CleanedLeavesNone(enclave: Enclave, d0: Disk, d: Disk, entries: seq<DirEntry>, met: set<string>)
    requires ListsBackups(d0, entries) && Cleaned(enclave, d0, d, entries, met)
    ensures NoneStranded(d) && RecordsRecovered(enclave, d0, d, entries)
    ensures forall name :: name in met <==>
      IsRecordName(name) && WouldOverwrite(enclave, d0, name) && RecordFirst(entries, name)
  {
    hide WouldOverwrite, RecordFirst, IsRecordName, Target, CounterPath, RecordSource;
    forall name | IsRecordName(name)
      ensures Lookup(d, RecordPath(name)) == Lookup(d0, RecordSource(enclave, d0, entries, name))
    {
      assert CounterPath(name) == CounterPath(name);
    }
    forall name | IsRecordName(name)
      ensures !Orphaned(d, CounterPath(name))
    {
      if Backup(CounterPath(name)) in d0 {
        CompanionTarget(name);
        assert Visited(entries, OfCompanion(name));
      }
    }
    forall name
      ensures name in met <==> IsRecordName(name) && WouldOverwrite(enclave, d0, name) && RecordFirst(entries, name)
    {
      assert CounterPath(name) == CounterPath(name);
    }
  }
}
