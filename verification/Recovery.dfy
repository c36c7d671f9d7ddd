/** Start-up recovery of interrupted writes, and removal of a credential's files (src/store/recovery.c). */
module Recovery {
  import opened Bytes
  import opened AtomicFile
  import opened Record
  import opened RecordFormat
  import opened RecordCodec
  import opened CounterGuard
  import opened CounterStore
  import opened StorePaths
  import RecordRoundTrip

  // Removal.

  /** Some point of removing a credential: first its record files, and only then its companion. */
  ghost predicate RemovalStage(d0: Disk, d: Disk, name: string) {
    || RemoveStage(d0, d, RecordPath(name), RecordTemp(name))
    || RemoveStage(d0 - RecordFiles(name), d, CounterPath(name), CounterTemp(name))
  }

  /** `zf_store_recovery_remove_record_paths`. */
  method RemoveRecordPaths(volume: Volume, name: string) returns (ok: bool)
    requires volume.Valid() && |name| == 64
    modifies volume
    ensures volume.Valid() && old(volume.history) <= volume.history
    ensures forall i :: |old(volume.history)| <= i < |volume.history| ==>
      RemovalStage(old(volume.files), volume.history[i], name)
    ensures RemovalStage(old(volume.files), volume.files, name)
    ensures ok ==> volume.files == old(volume.files) - FilesOf(name)
    ensures volume.sound ==> ok
  {
    OwnFilesDiffer(name);
    hide RecordPath, RecordTemp, CounterPath, CounterTemp;
    ok := volume.RemoveAtomicFile(RecordPath(name), RecordTemp(name));
    if ok {
      ok := volume.RemoveAtomicFile(CounterPath(name), CounterTemp(name));
    }
  }

  /** No copy of the record is left: nothing can bring the credential back. */
  predicate Gone(d: Disk, name: string) {
    RecordPath(name) !in d && Backup(RecordPath(name)) !in d
  }

  /**
   Wherever a removal is cut off, the backup of the record goes before the record itself, and the
   companion is touched only when both are gone.
   */
  lemma RemovalIsOrdered(d0: Disk, d: Disk, name: string)
    requires |name| == 64 && RemovalStage(d0, d, name)
    ensures RecordPath(name) in d0 && RecordPath(name) !in d ==> Gone(d, name)
    ensures RecordPath(name) in d ==> d[RecordPath(name)] == d0[RecordPath(name)]
    ensures !SameOn(d0, d, CounterFiles(name)) ==> Gone(d, name)
  {
  }

  /** A removal keeps the counter bound wherever it is cut off. */
  lemma RemovalKeeps(enclave: Enclave, c: Credential, d0: Disk, d: Disk, lo: nat, hi: nat)
    requires Proper(c) && Settled(enclave, c, d0, lo, hi) && RemovalStage(d0, d, c.Name())
    ensures Settled(enclave, c, d, lo, hi)
  {
    hide CopyWithin, DecodeFloor, HexEncode, RecordPath, RecordTemp, CounterPath, CounterTemp, RemovalStage;
    RemovalIsOrdered(d0, d, c.Name());
    if SameOn(d0, d, CounterFiles(c.Name())) {
      RecordRemovalKeeps(enclave, c, d0, d, lo, hi);
    } else {
      CompanionOnlyShrinks(c, d0, d);
    }
  }

  lemma RecordRemovalKeeps(enclave: Enclave, c: Credential, d0: Disk, d: Disk, lo: nat, hi: nat)
    requires Proper(c) && Settled(enclave, c, d0, lo, hi) && RemovalStage(d0, d, c.Name())
    requires SameOn(d0, d, CounterFiles(c.Name()))
    ensures Settled(enclave, c, d, lo, hi)
  {
    hide CopyWithin, DecodeFloor, HexEncode, RecordPath, RecordTemp, CounterPath, CounterTemp;
    var name := c.Name();
    assert Lookup(d, CounterPath(name)) == Lookup(d0, CounterPath(name));
    assert Lookup(d, Backup(CounterPath(name))) == Lookup(d0, Backup(CounterPath(name)));
    assert forall p :: p in d ==> p in d0 && d[p] == d0[p];
  }

  lemma CompanionOnlyShrinks(c: Credential, d0: Disk, d: Disk)
    requires Proper(c) && RemovalStage(d0, d, c.Name())
    ensures CounterFile(d, c) == CounterFile(d0, c) || CounterFile(d, c).None?
  {
  }

  // Recovery of a record from its backup.

  /**
   Some point of recovering the record called `name`: loading it, dropping a copy, or moving the backup into place.
   */
  ghost predicate RecoverStage(enclave: Enclave, d0: Disk, d: Disk, name: string) {
    exists d1 :: LoadingStage(enclave, d0, d1, name) && Recovers(d1, d, name)
  }

  predicate Recovers(d1: Disk, d: Disk, name: string) {
    || d == d1
    || (RecordPath(name) in d1 && d == d1 - {Backup(RecordPath(name))})
    || d == d1 - {RecordPath(name)}
    || (Backup(RecordPath(name)) in d1 && d == Restored(d1, name))
  }

  /** The backup under the name of the record. */
  function Restored(d: Disk, name: string): Disk
    requires Backup(RecordPath(name)) in d
  {
    d[RecordPath(name) := d[Backup(RecordPath(name))]] - {Backup(RecordPath(name))}
  }

  /** What follows the verdict on the primary: the backup is dropped, or takes the place of the primary. */
  method SettleBackup(volume: Volume, name: string, valid: bool) returns (ok: bool)
    requires volume.Valid() && |name| == 64 && (valid ==> RecordPath(name) in volume.files)
    modifies volume
    ensures volume.Valid() && old(volume.history) <= volume.history
    ensures forall i :: |old(volume.history)| <= i < |volume.history| ==>
      Recovers(old(volume.files), volume.history[i], name)
    ensures Recovers(old(volume.files), volume.files, name)
    ensures ok && valid ==> volume.files == old(volume.files) - {Backup(RecordPath(name))}
    ensures ok && !valid ==>
      Backup(RecordPath(name)) in old(volume.files) && volume.files == Restored(old(volume.files), name)
    ensures volume.sound ==> ok == (valid || Backup(RecordPath(name)) in old(volume.files))
    ensures volume.sound && !ok ==> volume.files == old(volume.files) - {RecordPath(name)}
  {
    hide RecordPath;
    var path := RecordPath(name);
    ghost var d := volume.files;
    CounterNotRecord(name);
    if valid {
      ok := volume.RemoveOptional(Backup(path));
      return;
    }
    ok := volume.RemoveOptional(path);
    if ok {
      assert d - {path} - {path} == d - {path};
      ok := volume.Rename(Backup(path), path);
      assert ok ==> volume.files == Restored(d, name);
    }
  }

  /** The primary has been loaded and kept; its backup is gone. */
  ghost predicate PrimaryKept(enclave: Enclave, d0: Disk, d: Disk, name: string) {
    exists d1 :: LoadDone(enclave, d0, d1, name) && d == d1 - {Backup(RecordPath(name))}
  }

  /** The backup has taken the place of the primary, whatever became of the load before. */
  ghost predicate BackupTook(enclave: Enclave, d0: Disk, d: Disk, name: string) {
    exists d1 :: LoadingStage(enclave, d0, d1, name) && Backup(RecordPath(name)) in d1 && d == Restored(d1, name)
  }

  /** What recovery leaves when nothing fails: a primary that loads stays, any other gives way to the backup. */
  ghost predicate RecoveredExactly(enclave: Enclave, d0: Disk, d: Disk, name: string) {
    if LoadVerdict(enclave, d0, name).Accepted?
    then exists d1 :: LoadedExactly(enclave, d0, d1, name) && d == d1 - {Backup(RecordPath(name))}
    else d == if Backup(RecordPath(name)) in d0 then Restored(d0, name) else d0 - {RecordPath(name)}
  }

  /** `zf_store_recovery_record_primary_is_valid` and `zf_store_recovery_recover_record_backup`. */
  method RecoverRecordBackup(volume: Volume, enclave: Enclave, name: string, iv: seq<byte>) returns (ok: bool)
    requires volume.Valid() && |name| == 64 && enclave.ready && enclave.Ideal() && |iv| == 16
    modifies volume
    ensures volume.Valid() && old(volume.history) <= volume.history
    ensures forall i :: |old(volume.history)| <= i < |volume.history| ==>
      RecoverStage(enclave, old(volume.files), volume.history[i], name)
    ensures RecoverStage(enclave, old(volume.files), volume.files, name)
    ensures ok ==>
      PrimaryKept(enclave, old(volume.files), volume.files, name) ||
        BackupTook(enclave, old(volume.files), volume.files, name)
    ensures ok && LoadVerdict(enclave, old(volume.files), name) == Refused ==>
      Backup(RecordPath(name)) in old(volume.files) && volume.files == Restored(old(volume.files), name)
    ensures ok ==> RecordPath(name) in volume.files && Backup(RecordPath(name)) !in volume.files
    ensures Faultless(volume, enclave) ==>
      && ok == (LoadVerdict(enclave, old(volume.files), name).Accepted? ||
        Backup(RecordPath(name)) in old(volume.files))
      && RecoveredExactly(enclave, old(volume.files), volume.files, name)
  {
    hide LoadDone, LoadVerdict, RecordPath, LoadingStage, LoadedExactly, RecoverStage, Recovers;
    ghost var d0, mark := volume.files, |volume.history|;
    var valid := false;
    CounterNotRecord(name);
    NothingLoads(enclave, d0, name);
    NothingLoadsExactly(enclave, d0, name);
    var primaryExists := volume.Exists(RecordPath(name));
    if primaryExists {
      var entry;
      valid, entry := LoadIndex(volume, enclave, name, iv);
    } else {
      AbsentIsRefused(enclave, d0, name);
    }
    ghost var d1, loaded := volume.files, |volume.history|;
    LoadLeavesRecord(enclave, d0, d1, name);
    RefusedLoadWritesNothing(enclave, d0, d1, name);
    if valid {
      LoadDoneAccepted(enclave, d0, d1, name);
    }
    ok := SettleBackup(volume, name, valid);
    RecoversIsStage(enclave, d0, d1, volume.files, name);
    RecoverHistory(enclave, d0, d1, volume.history, mark, loaded, name);
  }

  lemma RecoversIsStage(enclave: Enclave, d0: Disk, d1: Disk, d: Disk, name: string)
    requires LoadingStage(enclave, d0, d1, name) && Recovers(d1, d, name)
    ensures RecoverStage(enclave, d0, d, name)
  {
  }

  lemma RecoverHistory(enclave: Enclave, d0: Disk, d1: Disk, history: seq<Disk>, mark: nat, loaded: nat, name: string)
    requires mark <= loaded <= |history| && LoadingStage(enclave, d0, d1, name)
    requires forall i :: mark <= i < loaded ==> LoadingStage(enclave, d0, history[i], name)
    requires forall i :: loaded <= i < |history| ==> Recovers(d1, history[i], name)
    ensures forall i :: mark <= i < |history| ==> RecoverStage(enclave, d0, history[i], name)
  {
  }

  lemma NothingLoadsExactly(enclave: Enclave, d: Disk, name: string)
    ensures !LoadVerdict(enclave, d, name).Accepted? ==> LoadedExactly(enclave, d, d, name)
  {
    hide DecodeRecord, Validate;
  }

  lemma AbsentIsRefused(enclave: Enclave, d: Disk, name: string)
    requires RecordPath(name) !in d
    ensures LoadVerdict(enclave, d, name) == Refused
  {
  }

  lemma LoadDoneAccepted(enclave: Enclave, d0: Disk, d: Disk, name: string)
    requires LoadDone(enclave, d0, d, name)
    ensures LoadVerdict(enclave, d0, name).Accepted?
  {
  }

  lemma RefusedLoadWritesNothing(enclave: Enclave, d0: Disk, d: Disk, name: string)
    requires LoadingStage(enclave, d0, d, name)
    ensures LoadVerdict(enclave, d0, name) == Refused ==> d == d0
  {
  }

  /** A load writes at most the companion of the credential it loads. */
  lemma LoadLeavesRecord(enclave: Enclave, d0: Disk, d: Disk, name: string)
    requires LoadingStage(enclave, d0, d, name) && |name| == 64
    ensures AgreeOutside(d0, d, CounterFiles(name))
    ensures RecordPath(name) in d0 <==> RecordPath(name) in d
    ensures SameOn(d0, d, RecordFiles(name))
  {
    hide DecodeRecord, HexEncode, IsCounterFile, Validate, RecordPath, RecordTemp, CounterPath, CounterTemp;
    if d != d0 {
      DecodedName(enclave, d0[RecordPath(name)], name);
    }
    OwnFilesDiffer(name);
  }

  /** The primary is missing, or a record file cut short, or not a file of this credential at all. */
  ghost predicate TornPrimary(enclave: Enclave, d: Disk, name: string) {
    RecordPath(name) in d ==> Torn(enclave, d[RecordPath(name)])
  }

  ghost predicate Torn(enclave: Enclave, content: Content) {
    exists whole, r :: IsRecordFile(enclave, whole, r) && |content| < |whole| && content == whole[..|content|]
  }

  /** A torn primary is always recognised, so recovery puts the backup back, byte for byte. */
  lemma TornPrimaryIsRefused(enclave: Enclave, d: Disk, name: string)
    requires TornPrimary(enclave, d, name) && enclave.Ideal()
    ensures LoadVerdict(enclave, d, name) == Refused
  {
    hide DecodeRecord, EncodeRecord, InBounds, Validate, RecordPath, Logical;
    if RecordPath(name) in d {
      var content := d[RecordPath(name)];
      var whole, r :| IsRecordFile(enclave, whole, r) && |content| < |whole| && content == whole[..|content|];
      var floorIv, hmacIv :| |floorIv| == |hmacIv| == 16 && EncodeRecord(enclave, r, floorIv, hmacIv) == Some(whole);
      if DecodeRecord(enclave, content, name).Some? {
        RecordRoundTrip.OnlyWholeRecordDecodes(enclave, r, floorIv, hmacIv, whole, |content|, name);
      }
    }
  }

  /** Recovering a record keeps its counter bound at every point. */
  lemma RecoverKeeps(enclave: Enclave, c: Credential, d0: Disk, d: Disk, lo: nat, hi: nat)
    requires Proper(c) && Settled(enclave, c, d0, lo, hi) && RecoverStage(enclave, d0, d, c.Name())
    requires !WouldOverwrite(enclave, d0, c.Name())
    ensures Settled(enclave, c, d, lo, hi)
  {
    hide Settled, LoadingStage, WouldOverwrite, HexEncode;
    var d1 :| LoadingStage(enclave, d0, d1, c.Name()) && Recovers(d1, d, c.Name());
    LoadingKeeps(enclave, c, d0, d1, lo, hi);
    RecoversKeeps(enclave, c, d1, d, lo, hi);
  }

  /** Dropping a copy, or putting one in the place of the other, keeps the bound. */
  lemma RecoversKeeps(enclave: Enclave, c: Credential, d1: Disk, d: Disk, lo: nat, hi: nat)
    requires Proper(c) && Settled(enclave, c, d1, lo, hi) && Recovers(d1, d, c.Name())
    ensures Settled(enclave, c, d, lo, hi)
  {
    hide CopyWithin, DecodeFloor, HexEncode, RecordPath, CounterPath;
    OwnFilesDiffer(c.Name());
    var name := c.Name();
    assert Lookup(d, CounterPath(name)) == Lookup(d1, CounterPath(name)) by { CounterNotRecord(name); }
    assert Lookup(d, Backup(CounterPath(name))) == Lookup(d1, Backup(CounterPath(name))) by { CounterNotRecord(name); }
  }

  lemma CounterNotRecord(name: string)
    requires |name| == 64
    ensures CounterPath(name) != RecordPath(name) && CounterPath(name) != Backup(RecordPath(name))
    ensures Backup(CounterPath(name)) != RecordPath(name) && Backup(CounterPath(name)) != Backup(RecordPath(name))
    ensures Backup(RecordPath(name)) != RecordPath(name)
  {
  }

  /** Recovery never brings a removed credential back. */
  lemma GoneStaysGone(enclave: Enclave, d0: Disk, d: Disk, name: string)
    requires Gone(d0, name) && |name| == 64
    ensures LoadingStage(enclave, d0, d, name) ==> Gone(d, name)
    ensures RecoverStage(enclave, d0, d, name) ==> Gone(d, name)
    ensures OldStage(d0, d, CounterPath(name), CounterTemp(name)) ==> Gone(d, name)
  {
    hide RecordPath, CounterPath, CounterTemp, Validate, DecodeRecord;
    CounterNotRecord(name);
    assert OldStage(d0, d, CounterPath(name), CounterTemp(name)) ==>
      SameOn(d0, d, {RecordPath(name), Backup(RecordPath(name))}) by {
      TempNotRecord(name);
    }
  }

  lemma TempNotRecord(name: string)
    requires |name| == 64
    ensures CounterTemp(name) != RecordPath(name) && CounterTemp(name) != Backup(RecordPath(name))
  {
  }

  /** Recovering the companion keeps the bound; when it succeeds nothing is left stranded. */
  lemma CompanionRecoveryKeeps(enclave: Enclave, c: Credential, d0: Disk, d: Disk, lo: nat, hi: nat)
    requires Proper(c) && Settled(enclave, c, d0, lo, hi)
    requires OldStage(d0, d, CounterPath(c.Name()), CounterTemp(c.Name()))
    ensures Settled(enclave, c, d, lo, hi)
  {
    hide CopiesWithin, DecodeFloor, HexEncode, CounterPath, CounterTemp;
    CounterWriteLeavesRecord(enclave, c, d0, d);
  }
}
