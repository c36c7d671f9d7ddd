/**
 The atomic file protocol of zerofido_storage.c over a file system that can fail at every
 primitive and lose power between any two of them.

 A disk is a map from paths to contents.  `Volume.history` records every disk a power loss
 could leave behind: each primitive appends the states it passes through, so a statement about
 all of `history` is a statement about every crash point.  `Rename` unlinks its destination
 first and moves afterwards; a write or copy passes through every prefix of its data.

 On a `sound` volume no primitive fails, so what an operation owes its caller when nothing goes
 wrong is stated under that hypothesis; power may be lost all the same.
 */
module AtomicFile {
  import opened Bytes

  type Path = string
  type Content = seq<byte>
  type Disk = map<Path, Content>

  const PATH_BUFFER_SIZE := 192
  const BACKUP_SUFFIX := ".bak"

  function Backup(path: Path): Path {
    path + BACKUP_SUFFIX
  }

  /** The condition under which a suffixed path fits the fixed path buffer. */
  predicate BackupPathFits(path: Path) {
    0 < |path| && |path| + |BACKUP_SUFFIX| + 1 <= PATH_BUFFER_SIZE
  }

  function Lookup(d: Disk, path: Path): Option<Content> {
    if path in d then Some(d[path]) else None
  }

  /** What a file holds as far as the protocol is concerned: the primary, else the backup. */
  function Logical(d: Disk, path: Path): Option<Content> {
    if path in d then Some(d[path]) else Lookup(d, Backup(path))
  }

  /** The three names the protocol may touch for one file. */
  function Names(path: Path, temp: Path): set<Path> {
    {path, Backup(path), temp}
  }

  predicate ProperNames(path: Path, temp: Path) {
    temp != path && temp != Backup(path)
  }

  ghost predicate AgreeOutside(d0: Disk, d: Disk, names: set<Path>) {
    forall p: Path :: p !in names ==> Lookup(d, p) == Lookup(d0, p)
  }

  /** A backup that is the only copy left: power was lost, or a rename failed, half way. */
  predicate Orphaned(d: Disk, path: Path) {
    path !in d && Backup(path) in d
  }

  /** A backup is the one that was there, or a copy, perhaps cut short, of the old content. */
  predicate BackupFrom(d0: Disk, d: Disk, path: Path) {
    Backup(path) in d ==>
      || Lookup(d0, Backup(path)) == Lookup(d, Backup(path))
      || (Logical(d0, path).Some? && d[Backup(path)] <= Logical(d0, path).value)
  }

  /** Reached from `d0` without disturbing any other file; the file still holds its old content. */
  ghost predicate OldStage(d0: Disk, d: Disk, path: Path, temp: Path) {
    && AgreeOutside(d0, d, Names(path, temp))
    && Logical(d, path) == Logical(d0, path)
    && BackupFrom(d0, d, path)
  }

  /** Reached from `d0` without disturbing any other file; the primary is exactly `data`. */
  ghost predicate NewStage(d0: Disk, d: Disk, path: Path, temp: Path, data: Content) {
    && AgreeOutside(d0, d, Names(path, temp))
    && Lookup(d, path) == Some(data)
    && BackupFrom(d0, d, path)
  }

  /** `path` has been created and some prefix of `data` has reached it. */
  ghost predicate WriteState(d0: Disk, d: Disk, path: Path, data: Content) {
    exists k :: 0 <= k <= |data| && d == d0[path := data[..k]]
  }

  ghost predicate CopyState(d0: Disk, d: Disk, from: Path, to: Path) {
    from in d0 && WriteState(d0, d, to, d0[from])
  }

  /** A state of a removal: names disappear in the order temporary, backup, primary. */
  predicate RemoveStage(d0: Disk, d: Disk, path: Path, temp: Path) {
    d in {d0, d0 - {temp}, d0 - {temp, Backup(path)}, d0 - Names(path, temp)}
  }

  function Promoted(d: Disk, path: Path): Disk
    requires Orphaned(d, path)
  {
    d[path := d[Backup(path)]] - {Backup(path)}
  }

  function Published(d: Disk, path: Path, temp: Path): Disk
    requires temp in d
  {
    d[path := d[temp]] - {temp}
  }

  /** What a recovery leaves when no primitive fails. */
  function Recovered(d: Disk, path: Path, temp: Path): Disk {
    (if Orphaned(d, path) then d[path := d[Backup(path)]] else d) - {Backup(path), temp}
  }

  /** What an atomic write leaves when no primitive fails. */
  function Replaced(d: Disk, path: Path, temp: Path, data: Content): Disk {
    (d - Names(path, temp))[path := data]
  }

  // Every primitive the protocol performs keeps the stage it is in.

  lemma OldDropTemp(d0: Disk, d: Disk, path: Path, temp: Path)
    requires OldStage(d0, d, path, temp) && ProperNames(path, temp)
    ensures OldStage(d0, d - {temp}, path, temp)
  {
  }

  lemma OldDropBackup(d0: Disk, d: Disk, path: Path, temp: Path)
    requires OldStage(d0, d, path, temp) && path in d
    ensures OldStage(d0, d - {Backup(path)}, path, temp)
  {
  }

  lemma NewDrops(d0: Disk, d: Disk, path: Path, temp: Path, data: Content)
    requires NewStage(d0, d, path, temp, data) && ProperNames(path, temp)
    ensures NewStage(d0, d - {Backup(path)}, path, temp, data)
    ensures NewStage(d0, d - {temp}, path, temp, data)
  {
  }

  lemma OldPromote(d: Disk, path: Path, temp: Path)
    requires Orphaned(d, path)
    ensures OldStage(d, Promoted(d, path), path, temp)
    ensures Lookup(Promoted(d, path), path) == Logical(d, path)
  {
  }

  /** Writing the temporary, at whatever point it is interrupted. */
  lemma OldWriteTemp(d0: Disk, d: Disk, path: Path, temp: Path)
    requires OldStage(d0, d, path, temp) && ProperNames(path, temp)
    ensures forall next: Disk, data: Content :: WriteState(d, next, temp, data) ==> OldStage(d0, next, path, temp)
  {
  }

  /** Copying the primary to the backup, at whatever point it is interrupted. */
  lemma OldCopyBackup(d0: Disk, d: Disk, path: Path, temp: Path)
    requires OldStage(d0, d, path, temp) && path in d
    ensures forall next: Disk :: CopyState(d, next, path, Backup(path)) ==> OldStage(d0, next, path, temp)
  {
  }

  /**
   The two states a rename of the temporary onto the primary passes through.  The gap between
   them loses nothing exactly because the backup is a complete copy by then.
   */
  lemma RenameStages(d0: Disk, d: Disk, path: Path, temp: Path)
    requires OldStage(d0, d, path, temp) && temp in d && ProperNames(path, temp)
    requires path in d ==> Lookup(d, Backup(path)) == Lookup(d, path)
    ensures OldStage(d0, d - {path}, path, temp)
    ensures path in d || Backup(path) !in d ==> NewStage(d0, Published(d, path, temp), path, temp, d[temp])
  {
  }

  /** Stages compose: what a sub-operation does to an old stage, it does to the start. */
  lemma StagesCompose(d0: Disk, d1: Disk, path: Path, temp: Path)
    requires OldStage(d0, d1, path, temp)
    ensures forall d :: OldStage(d1, d, path, temp) ==> OldStage(d0, d, path, temp)
    ensures forall d, data :: NewStage(d1, d, path, temp, data) ==> NewStage(d0, d, path, temp, data)
  {
  }

  /** Publishing without a fault, from a primary that is in place. */
  lemma PublishedIsReplaced(d: Disk, path: Path, temp: Path)
    requires temp in d && !Orphaned(d, path) && ProperNames(path, temp)
    ensures path !in d ==> Published(d, path, temp) - {temp} == Replaced(d, path, temp, d[temp])
    ensures path in d ==>
      Published(d[Backup(path) := d[path]], path, temp) - {Backup(path)} - {temp} == Replaced(d, path, temp, d[temp])
  {
  }

  /** A recovery and a new temporary make no difference to what a write without a fault leaves. */
  lemma ReplacedFromStart(d: Disk, path: Path, temp: Path, data: Content)
    requires ProperNames(path, temp)
    ensures Replaced(Recovered(d, path, temp)[temp := data], path, temp, data) - {temp} == Replaced(d, path, temp, data)
  {
  }

  /** Power lost anywhere in a write, then a recovery that succeeds: the file is the old one or the new one, whole. */
  lemma CrashedWriteRecovers(d0: Disk, crashed: Disk, recovered: Disk, path: Path, temp: Path, data: Content)
    requires OldStage(d0, crashed, path, temp) || NewStage(d0, crashed, path, temp, data)
    requires OldStage(crashed, recovered, path, temp) && Lookup(recovered, path) == Logical(crashed, path)
    ensures Lookup(recovered, path) == Logical(d0, path) || Lookup(recovered, path) == Some(data)
    ensures AgreeOutside(d0, recovered, Names(path, temp))
  {
  }

  datatype RemoveResult = Removed | NotExist | RemoveError

  class Volume {
    const sound: bool
    var files: Disk
    ghost var history: seq<Disk>

    ghost predicate Valid()
      reads this
    {
      |history| > 0 && history[|history| - 1] == files
    }

    constructor (initial: Disk, sound: bool)
      ensures Valid() && files == initial && history == [initial] && this.sound == sound
    {
      this.sound := sound;
      files := initial;
      history := [initial];
    }

    /** Power is lost: the disk is left as one of the states recorded since `mark`. */
    method PowerLoss(ghost mark: nat, survivor: Disk)
      requires Valid() && exists i :: mark <= i < |history| && survivor == history[i]
      modifies this
      ensures Valid() && files == survivor && history == old(history) + [survivor]
    {
      files := survivor;
      history := history + [files];
    }

    /** Whether the primitive at hand fails: any of them may, unless the volume is sound. */
    method Fault() returns (fault: bool)
      ensures sound ==> !fault
    {
      fault := *;
      fault := fault && !sound;
    }

    method Exists(path: Path) returns (present: bool)
      ensures present <==> path in files
    {
      present := path in files;
    }

    method Remove(path: Path) returns (result: RemoveResult)
      requires Valid()
      modifies this
      ensures Valid() && history == old(history) + [files]
      ensures result == NotExist <==> path !in old(files)
      ensures files == if result == Removed then old(files) - {path} else old(files)
      ensures sound ==> result != RemoveError
    {
      var fault := Fault();
      if path !in files {
        result := NotExist;
      } else if fault {
        result := RemoveError;
      } else {
        files := files - {path};
        result := Removed;
      }
      history := history + [files];
    }

    method Rename(from: Path, to: Path) returns (ok: bool)
      requires Valid() && from != to
      modifies this
      ensures Valid() && |history| == |old(history)| + 2 && old(history) <= history
      ensures history[|old(history)|] in {old(files), old(files) - {to}}
      ensures ok ==> from in old(files) && files == old(files)[to := old(files)[from]] - {from}
      ensures !ok ==> files in {old(files), old(files) - {to}}
      ensures from !in old(files) ==> !ok && files == old(files) && history[|old(history)|] == files
      ensures sound && from in old(files) ==> ok
    {
      var unlinkFault := Fault();
      var moveFault := Fault();
      if from !in files || unlinkFault {
        history := history + [files, files];
        return false;
      }
      files := files - {to};
      history := history + [files];
      if !moveFault {
        files := files[to := files[from]] - {from};
      }
      history := history + [files];
      ok := !moveFault;
    }

    /** Fills `path` byte by byte; a fault leaves what was written so far. */
    method Fill(path: Path, data: Content) returns (written: nat)
      requires Valid()
      modifies this
      ensures Valid() && written <= |data| && old(history) <= history
      ensures files == old(files)[path := data[..written]]
      ensures forall i :: |old(history)| <= i < |history| ==> WriteState(old(files), history[i], path, data)
      ensures sound ==> written == |data|
    {
      written := 0;
      files := files[path := []];
      history := history + [files];
      assert data[..0] == [];
      var fault := Fault();
      while written < |data| && !fault
        invariant sound ==> !fault
        invariant written <= |data| && Valid() && old(history) <= history
        invariant files == old(files)[path := data[..written]]
        invariant forall i :: |old(history)| <= i < |history| ==> WriteState(old(files), history[i], path, data)
        decreases |data| - written
      {
        written := written + 1;
        files := files[path := data[..written]];
        history := history + [files];
        fault := Fault();
      }
    }

    method CreateAndWrite(path: Path, data: Content) returns (created: bool, written: nat)
      requires Valid()
      modifies this
      ensures Valid() && written <= |data| && old(history) <= history
      ensures files == if created then old(files)[path := data[..written]] else old(files)
      ensures !created ==> written == 0
      ensures forall i :: |old(history)| <= i < |history| ==> WriteState(old(files), history[i], path, data)
      ensures sound ==> created && written == |data|
    {
      written := 0;
      var fault := Fault();
      created := !fault;
      if created {
        written := Fill(path, data);
      }
    }

    method Copy(from: Path, to: Path) returns (ok: bool)
      requires Valid() && from != to
      modifies this
      ensures Valid() && old(history) <= history
      ensures ok ==> from in old(files) && files == old(files)[to := old(files)[from]]
      ensures files == old(files) || CopyState(old(files), files, from, to)
      ensures forall i :: |old(history)| <= i < |history| ==> CopyState(old(files), history[i], from, to)
      ensures sound && from in old(files) ==> ok
    {
      var openFault := Fault();
      if from !in files || openFault {
        return false;
      }
      var data := files[from];
      var written := Fill(to, data);
      assert data[..|data|] == data;
      ok := written == |data|;
    }

    method RemoveOptional(path: Path) returns (ok: bool)
      requires Valid()
      modifies this
      ensures Valid() && history == old(history) + [files]
      ensures files == if ok then old(files) - {path} else old(files)
      ensures !ok ==> path in old(files)
      ensures sound ==> ok
    {
      var result := Remove(path);
      ok := result == Removed || result == NotExist;
    }

    /** `zf_storage_recover_atomic_file`. */
    method RecoverAtomicFile(path: Path, temp: Path) returns (ok: bool)
      requires Valid() && ProperNames(path, temp)
      modifies this
      ensures Valid() && old(history) <= history
      ensures forall i :: |old(history)| <= i < |history| ==> OldStage(old(files), history[i], path, temp)
      ensures OldStage(old(files), files, path, temp)
      ensures ok ==> Lookup(files, path) == Logical(old(files), path)
      ensures ok ==> BackupPathFits(path)
      ensures !ok && BackupPathFits(path) ==> Orphaned(old(files), path) && Orphaned(files, path)
      ensures sound && BackupPathFits(path) ==> ok && files == Recovered(old(files), path, temp)
    {
      if !BackupPathFits(path) {
        return false;
      }
      var primaryExists := Exists(path);
      var backupExists := Exists(Backup(path));
      if !primaryExists && backupExists {
        var renamed := Rename(Backup(path), path);
        assert old(files) - {path} == old(files);
        if !renamed {
          OldDropTemp(old(files), files, path, temp);
          var _ := RemoveOptional(temp);
          return false;
        }
        OldPromote(old(files), path, temp);
        primaryExists := true;
      }
      if primaryExists {
        OldDropBackup(old(files), files, path, temp);
        var _ := RemoveOptional(Backup(path));
      }
      OldDropTemp(old(files), files, path, temp);
      var _ := RemoveOptional(temp);
      ok := true;
    }

    /** `zf_storage_remove_atomic_file`. */
    method RemoveAtomicFile(path: Path, temp: Path) returns (ok: bool)
      requires Valid() && ProperNames(path, temp)
      modifies this
      ensures Valid() && old(history) <= history
      ensures forall i :: |old(history)| <= i < |history| ==> RemoveStage(old(files), history[i], path, temp)
      ensures RemoveStage(old(files), files, path, temp)
      ensures ok ==> files == old(files) - Names(path, temp)
      ensures sound && BackupPathFits(path) ==> ok
    {
      if !BackupPathFits(path) {
        return false;
      }
      ok := RemoveOptional(temp);
      if ok {
        ok := RemoveOptional(Backup(path));
        assert ok ==> files == old(files) - {temp, Backup(path)};
      }
      if ok {
        ok := RemoveOptional(path);
        assert ok ==> files == old(files) - Names(path, temp);
      }
    }

    /** `zf_storage_prepare_atomic_backup`. */
    method PrepareAtomicBackup(path: Path, ghost temp: Path) returns (ok: bool, backupActive: bool)
      requires Valid() && ProperNames(path, temp)
      modifies this
      ensures Valid() && old(history) <= history
      ensures forall i :: |old(history)| <= i < |history| ==> OldStage(old(files), history[i], path, temp)
      ensures OldStage(old(files), files, path, temp)
      ensures Lookup(files, path) == Lookup(old(files), path) && Lookup(files, temp) == Lookup(old(files), temp)
      ensures backupActive ==> ok
      ensures ok ==> (backupActive <==> path in files)
      ensures backupActive ==> Lookup(files, Backup(path)) == Lookup(files, path)
      ensures ok && !backupActive ==> files == old(files)
      ensures backupActive ==> files == old(files)[Backup(path) := old(files)[path]]
      ensures sound ==> ok
    {
      ok, backupActive := true, false;
      var primaryExists := Exists(path);
      if !primaryExists {
        return;
      }
      OldDropBackup(files, files, path, temp);
      ok := RemoveOptional(Backup(path));
      if ok {
        OldCopyBackup(old(files), files, path, temp);
        ok := Copy(path, Backup(path));
        backupActive := ok;
      }
    }

    /**
     `zf_storage_publish_atomic_temp`.  `switched` is the point of `history` from which on the
     new content is the one a reader or a recovery would see.
     */
    method PublishAtomicTemp(path: Path, temp: Path) returns (ok: bool, ghost switched: nat)
      requires Valid() && ProperNames(path, temp) && temp in files && !Orphaned(files, path)
      modifies this
      ensures Valid() && old(history) <= history && |old(history)| <= switched <= |history|
      ensures forall i :: |old(history)| <= i < switched ==> OldStage(old(files), history[i], path, temp)
      ensures forall i :: switched <= i < |history| ==>
        NewStage(old(files), history[i], path, temp, old(files)[temp])
      ensures ok ==> switched < |history| && NewStage(old(files), files, path, temp, old(files)[temp])
      ensures !ok ==> switched == |history| && OldStage(old(files), files, path, temp)
      ensures sound && BackupPathFits(path) ==> ok && files == Replaced(old(files), path, temp, old(files)[temp])
    {
      hide OldStage, NewStage, Replaced, Recovered;
      Untouched(files, path, temp);
      PublishedIsReplaced(files, path, temp);
      ghost var d0 := files;
      if !BackupPathFits(path) {
        OldDropTemp(d0, files, path, temp);
        var _ := RemoveOptional(temp);
        return false, |history|;
      }
      var prepared, backupActive := PrepareAtomicBackup(path, temp);
      if !prepared {
        OldDropTemp(d0, files, path, temp);
        var _ := RemoveOptional(temp);
        return false, |history|;
      }
      ghost var data := files[temp];
      RenameStages(d0, files, path, temp);
      ok := Rename(temp, path);
      if ok {
        switched := |history| - 1;
        NewDrops(d0, files, path, temp, data);
        if backupActive {
          var _ := RemoveOptional(Backup(path));
        }
        NewDrops(d0, files, path, temp, data);
        var _ := Remove(temp);
      } else {
        StagesCompose(d0, files, path, temp);
        var _ := RecoverAtomicFile(path, temp);
        switched := |history|;
      }
    }

    /** The temporary is made from scratch; anything short of all of `data` counts as failure. */
    method WriteTemp(path: Path, temp: Path, data: Content) returns (complete: bool)
      requires Valid() && ProperNames(path, temp)
      modifies this
      ensures Valid() && old(history) <= history
      ensures forall i :: |old(history)| <= i < |history| ==> OldStage(old(files), history[i], path, temp)
      ensures OldStage(old(files), files, path, temp)
      ensures Orphaned(files, path) == Orphaned(old(files), path)
      ensures complete ==> Lookup(files, temp) == Some(data)
      ensures sound ==> complete && files == old(files)[temp := data]
    {
      OldDropTemp(files, files, path, temp);
      var _ := Remove(temp);
      OldWriteTemp(old(files), files, path, temp);
      var created, written := CreateAndWrite(temp, data);
      complete := created && written == |data|;
      assert data[..|data|] == data;
    }

    /** `zf_storage_write_file_atomic`. */
    method WriteFileAtomic(path: Path, temp: Path, data: Content) returns (ok: bool, ghost switched: nat)
      requires Valid() && ProperNames(path, temp)
      modifies this
      ensures Valid() && old(history) <= history && |old(history)| <= switched <= |history|
      ensures forall i :: |old(history)| <= i < switched ==> OldStage(old(files), history[i], path, temp)
      ensures forall i :: switched <= i < |history| ==> NewStage(old(files), history[i], path, temp, data)
      ensures ok ==> NewStage(old(files), files, path, temp, data)
      ensures !ok ==> switched == |history| && OldStage(old(files), files, path, temp)
      ensures ok ==> data != [] && BackupPathFits(path)
      ensures sound && data != [] && BackupPathFits(path) ==> ok && files == Replaced(old(files), path, temp, data)
    {
      hide OldStage, NewStage, Replaced, Recovered;
      ghost var d0 := files;
      Untouched(d0, path, temp);
      ReplacedFromStart(d0, path, temp, data);
      if data == [] {
        return false, |history|;
      }
      var recovered := RecoverAtomicFile(path, temp);
      if !recovered {
        return false, |history|;
      }
      var noHandle := Fault();
      if noHandle {
        return false, |history|;
      }
      RecoveredInPlace(d0, files, path, temp);
      StagesCompose(d0, files, path, temp);
      var complete := WriteTemp(path, temp, data);
      StagesCompose(d0, files, path, temp);
      ok, switched := false, |history|;
      if complete {
        ok, switched := PublishAtomicTemp(path, temp);
      }
      if ok {
        NewDrops(d0, files, path, temp, data);
      } else {
        OldDropTemp(d0, files, path, temp);
      }
      var _ := Remove(temp);
      if !ok {
        switched := |history|;
      }
    }
  }

  lemma Untouched(d: Disk, path: Path, temp: Path)
    ensures OldStage(d, d, path, temp)
  {
  }

  lemma RecoveredInPlace(d0: Disk, d: Disk, path: Path, temp: Path)
    requires OldStage(d0, d, path, temp) && Lookup(d, path) == Logical(d0, path)
    ensures !Orphaned(d, path)
  {
  }
}
