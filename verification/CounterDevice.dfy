/**
 The running device as seen by one credential: its volume, its index, and the largest counter it has
 shown.  Every operation of the firmware keeps the disk at or above what was shown, at every point
 at which power may be lost.
 */
module CounterDevice {
  import opened Bytes
  import opened AtomicFile
  import opened BackupListing
  import opened Record
  import opened RecordCodec
  import opened CounterGuard
  import opened CounterStore
  import opened CounterAdvance
  import opened StoreIndex
  import opened Bootstrap
  import opened CounterRuns
  import opened Recovery
  import opened StoreDelete
  import opened StorePaths

  class Device {
    const volume: Volume
    const store: CredentialStore
    const enclave: Enclave
    const credential: Credential
    const buffer: array<byte>
    ghost var shown: Option<uint32>

    ghost function Floor(): nat
      reads this
    {
      if shown.Some? then shown.value else 0
    }

    ghost predicate Working()
      reads this, volume, store
    {
      volume.Valid() && store.Valid() && enclave.ready && enclave.Ideal() && Proper(credential)
    }

    /** Starting up from this disk yields no less than what was shown. */
    ghost predicate Covers(d: Disk)
      reads this
    {
      Bounded(enclave, credential, d, Floor(), UINT32_MAX)
    }

    /** The entry lies between what was shown and what the disk holds. */
    ghost predicate Backed(e: IndexEntry, d: Disk)
      reads this
    {
      && CredentialOfEntry(e) == credential && Floor() <= e.signCount <= e.counterHighWater
      && Settled(enclave, credential, d, e.counterHighWater, UINT32_MAX)
    }

    ghost predicate Safe()
      reads this, volume, store, store.records
    {
      && Working() && Covers(volume.files)
      && forall i: nat :: IsEntryAt(store.Live(), credential.id, i) ==> Backed(store.Live()[i], volume.files)
    }

    constructor (volume: Volume, store: CredentialStore, enclave: Enclave, credential: Credential, buffer: array<byte>)
      requires volume.Valid() && store.Valid() && store.Live() == [] && enclave.ready && enclave.Ideal() &&
        Proper(credential)
      requires Bounded(enclave, credential, volume.files, 0, UINT32_MAX)
      ensures Safe() && shown == None
      ensures this.volume == volume && this.store == store && this.buffer == buffer
    {
      this.volume := volume;
      this.store := store;
      this.enclave := enclave;
      this.credential := credential;
      this.buffer := buffer;
      this.shown := None;
    }

    /** Using a counter: it is shown only after the disk covers it. */
    method Use(r: CredentialRecord, counterIv: seq<byte>, floorIv: seq<byte>, hmacIv: seq<byte>) returns (ok: bool)
      requires Safe() && InBounds(r) && CredentialOf(r) == credential && |counterIv| == |floorIv| == |hmacIv| == 16
      modifies this, volume, buffer, store.records
      ensures Safe() && old(volume.history) <= volume.history
      ensures AllBounded(enclave, credential, volume.history[|old(volume.history)|..], old(Floor()))
      ensures shown == if ok then Some(r.signCount) else old(shown)
      ensures ok ==> old(Floor()) <= r.signCount
      ensures Faultless(volume, enclave) && Storable(r, buffer) && NotAhead(old(store.Live()), r) ==> ok
    {
      hide Settled, PrepareStage, PrepareDone, Bounded, AllBounded;
      ghost var d0, mark, live, floor := volume.files, |volume.history|, store.Live(), Floor();
      ghost var index;
      ok, index := AdvanceCounter(volume, enclave, store, r, buffer, counterIv, floorIv, hmacIv);
      UseCovers(enclave, credential, d0, volume.history, mark, live, index, r, floor);
      ghost var d := volume.files;
      assert d == if |volume.history| > mark then volume.history[|volume.history| - 1] else d0;
      if d != d0 || ok {
        assert ok ==> PrepareDone(enclave, d0, d, live[index], r);
        UseBacks(enclave, credential, d0, d, live[index], r);
        ghost var mark1 := live[index].counterHighWater;
        if ok {
          SettledCovers(enclave, credential, d, RaisedHigh(mark1, r.signCount), r.signCount);
        } else {
          SettledCovers(enclave, credential, d, mark1, floor);
        }
      }
      if ok {
        shown := Some(r.signCount);
      }
      if ok || d != d0 {
        EntryStaysPut(live, store.Live(), credential.id, index);
      }
    }

    /** Registering: the record is on disk before its counter is shown. */
    method Register(r: CredentialRecord, floorIv: seq<byte>, hmacIv: seq<byte>) returns (ok: bool)
      requires Safe() && InBounds(r) && CredentialOf(r) == credential && |floorIv| == |hmacIv| == 16
      requires shown.None? && Fresh(volume.files, credential)
      requires forall i :: 0 <= i < |store.Live()| ==> store.Live()[i].credentialId != credential.id
      modifies this, volume, buffer, store, store.records
      ensures Safe() && old(volume.history) <= volume.history
      ensures AllBounded(enclave, credential, volume.history[|old(volume.history)|..], 0)
      ensures shown == if ok then Some(r.signCount) else None
      ensures Faultless(volume, enclave) && Storable(r, buffer) && store.ample ==>
        ok == (old(store.count) < MAX_CREDENTIALS)
    {
      hide Settled, RecordStage, RecordWritten, Bounded, AllBounded, EntryOf, Fresh, OldStage, HexEncode;
      EntryCounters(r);
      ghost var d0, mark, live := volume.files, |volume.history|, store.Live();
      ok := AddRecord(volume, enclave, store, r, buffer, floorIv, hmacIv);
      RegisterCovers(enclave, credential, d0, volume.history, mark, r);
      RegisterBacks(enclave, credential, d0, volume.files, r);
      SettledCovers(enclave, credential, volume.files, r.signCount, if ok then r.signCount else 0);
      if ok {
        shown := Some(r.signCount);
        assert forall i: nat :: IsEntryAt(store.Live(), credential.id, i) ==> i == |live|;
      }
    }

    /** Removing the credential. */
    method Remove() returns (result: DeleteResult)
      requires Safe() && DistinctIds(store.Live())
      modifies volume, store, store.records
      ensures Safe() && old(volume.history) <= volume.history
      ensures AllBounded(enclave, credential, volume.history[|old(volume.history)|..], Floor())
    {
      hide Settled, RemovalStage, Bounded, AllBounded, HexEncode;
      ghost var d0, mark, live, floor := volume.files, |volume.history|, store.Live(), Floor();
      ghost var index;
      result, index := DeleteRecord(volume, store, credential.id);
      ghost var d := volume.files;
      assert d == if |volume.history| > mark then volume.history[|volume.history| - 1] else d0;
      RemoveCovers(enclave, credential, d0, volume.history, mark, floor);
      if d != d0 {
        RemoveCoversLast(enclave, credential, d0, d, floor);
      }
      if result == Deleted {
        NoEntryLeft(live, credential.id, index, store.Live());
      } else {
        forall i: nat | IsEntryAt(store.Live(), credential.id, i)
          ensures Settled(enclave, credential, d, live[i].counterHighWater, UINT32_MAX)
        {
          if d != d0 {
            RemovalKeeps(enclave, credential, d0, d, live[i].counterHighWater, UINT32_MAX);
          }
        }
      }
    }

    /** Rewriting the record. */
    method Change(r: CredentialRecord, counterIv: seq<byte>, floorIv: seq<byte>, hmacIv: seq<byte>) returns (ok: bool)
      requires Safe() && InBounds(r) && CredentialOf(r) == credential && |counterIv| == |floorIv| == |hmacIv| == 16
      modifies this, volume, buffer, store.records
      ensures Safe() && old(volume.history) <= volume.history
      ensures AllBounded(enclave, credential, volume.history[|old(volume.history)|..], old(Floor()))
      ensures shown == if ok then Some(r.signCount) else old(shown)
      ensures ok ==> old(Floor()) <= r.signCount
      ensures Faultless(volume, enclave) && Storable(r, buffer) && NotAhead(old(store.Live()), r) ==> ok
    {
      hide Settled, UpdateStage, UpdateDone, Bounded, AllBounded, EntryOf;
      EntryCounters(r);
      ghost var d0, mark, live, floor := volume.files, |volume.history|, store.Live(), Floor();
      ghost var index;
      ok, index := UpdateRecord(volume, enclave, store, r, buffer, counterIv, floorIv, hmacIv);
      ChangeCovers(enclave, credential, d0, volume.history, mark, live, index, r, floor);
      ghost var d := volume.files;
      assert d == if |volume.history| > mark then volume.history[|volume.history| - 1] else d0;
      if d != d0 || ok {
        assert ok ==> UpdateDone(enclave, d0, d, live[index], r);
        ChangeBacks(enclave, credential, d0, d, live[index], r);
        ghost var mark1 := live[index].counterHighWater;
        if ok {
          SettledCovers(enclave, credential, d, RaisedHigh(mark1, r.signCount), r.signCount);
        } else {
          SettledCovers(enclave, credential, d, mark1, floor);
        }
      }
      if ok {
        shown := Some(r.signCount);
      }
      if ok || d != d0 {
        EntryStaysPut(live, store.Live(), credential.id, index);
      }
    }

    /** Loading the record, which the assertion handlers count on from. */
    method Load(iv: seq<byte>) returns (ok: bool, record: Option<CredentialRecord>, ghost stranded: bool)
      requires Safe() && |iv| == 16
      modifies volume
      ensures old(volume.history) <= volume.history
      ensures stranded == CounterOrphaned(old(volume.files), credential)
      ensures !stranded ==> Safe() && AllBounded(enclave, credential, volume.history[|old(volume.history)|..], Floor())
      ensures !stranded && ok ==> record.Some? && Floor() <= record.value.signCount
      ensures !stranded && ok ==> forall i: nat :: IsEntryAt(store.Live(), credential.id, i) ==>
        store.Live()[i].counterHighWater <= record.value.signCount
      ensures Faultless(volume, enclave) ==> ok == LoadVerdict(enclave, old(volume.files), credential.Name()).Accepted?
    {
      hide Settled, LoadingStage, Loaded, LoadDone, CounterOrphaned, Bounded, AllBounded, HexEncode;
      ghost var d0, mark, live, floor := volume.files, |volume.history|, store.Live(), Floor();
      stranded := CounterOrphaned(d0, credential);
      ok, record := LoadRecord(volume, enclave, credential.Name(), iv);
      if !stranded {
        LoadCovered(enclave, credential, d0, volume.history, mark, floor);
        LoadBacked(enclave, credential, d0, volume.files, floor, ok, record);
        forall i: nat | IsEntryAt(store.Live(), credential.id, i)
          ensures Settled(enclave, credential, volume.files, store.Live()[i].counterHighWater, UINT32_MAX)
          ensures ok ==> store.Live()[i].counterHighWater <= record.value.signCount
        {
          LoadAbove(enclave, credential, d0, volume.files, store.Live()[i].counterHighWater, ok, record);
        }
      }
    }

    /**
     Power fails, leaving any disk that covers what was shown, and the device starts again.  The index
     is safe, its counter not behind, unless some load met the companion of the credential stranded;
     and when nothing fails that only happens to a record without a floor whose backup is listed
     before that of its companion, and every listed record that loads is in the index.
     */
    method Restart(survivor: Disk, temps: seq<DirEntry>, backups: seq<DirEntry>, listed: seq<DirEntry>,
                   ivs: nat -> seq<byte>)
        returns (ok: bool)
      requires Working() && survivor in volume.history && Covers(survivor)
      requires DistinctNames(listed) && forall i :: |ivs(i)| == 16
      modifies volume, store, store.records
      ensures Working() && old(volume.history) + [survivor] <= volume.history && shown == old(shown)
      ensures
        || (Safe() && AllBounded(enclave, credential, volume.history[|old(volume.history)|..], Floor()))
        || Stranded(enclave, volume.history, |old(volume.history)|, credential.Name())
      ensures volume.sound && store.ample ==> ok
      ensures Faultless(volume, enclave) && ListsBackups(survivor, backups) ==>
        && RecordsRecovered(enclave, survivor, volume.files, backups)
        && IndexedExactly(enclave, volume.files, store.Live(), listed, store.ample)
        && !CounterOrphaned(volume.files, credential)
        && ((WouldOverwrite(enclave, survivor, credential.Name()) && RecordFirst(backups, credential.Name())) ||
            (Safe() && AllBounded(enclave, credential, volume.history[|old(volume.history)|..], Floor())))
    {
      hide Settled, KeepsBut, LostOnlyMet, IndexCovered, IndexedExactly, Bounded, AllBounded, CredentialOfEntry,
           Stranded, ListsBackups, WouldOverwrite, RecordFirst, HexEncode, CounterOrphaned, RecordsRecovered;
      ghost var mark, floor, name := |volume.history|, Floor(), credential.Name();
      ghost var k :| 0 <= k < mark && volume.history[k] == survivor;
      volume.PowerLoss(0, survivor);
      ghost var met;
      ok, met := Init(volume, enclave, store, temps, backups, listed, ivs);
      IsName(credential);
      MetIsStranded(enclave, volume.history, mark, met, name);
      if name !in met {
        RestartCovers(enclave, credential, volume.history, mark, met, floor);
        RestartBacks(enclave, credential, survivor, volume.files, store.Live(), listed, met, floor);
      }
      NotOrphanedAfter(enclave, credential, volume.files, store.Live(), listed, store.ample);
    }
  }

  /** Replacing an entry by one with the same id does not change which entry is found. */
  lemma EntryStaysPut(live: seq<IndexEntry>, next: seq<IndexEntry>, id: seq<byte>, index: nat)
    requires IsEntryAt(live, id, index) && |next| == |live| && next[index].inUse && next[index].credentialId == id
    requires forall i :: 0 <= i < |live| && i != index ==> next[i] == live[i]
    ensures forall i: nat :: IsEntryAt(next, id, i) ==> i == index
  {
  }

  /** Distinct ids leave no second entry to be found. */
  lemma NoEntryLeft(live: seq<IndexEntry>, id: seq<byte>, index: nat, next: seq<IndexEntry>)
    requires DistinctIds(live) && IsEntryAt(live, id, index) && next == live[..index] + live[index + 1..]
    ensures forall i: nat :: !IsEntryAt(next, id, i)
  {
  }

  /** Every one of these disks covers `floor`. */
  ghost predicate AllBounded(enclave: Enclave, c: Credential, disks: seq<Disk>, floor: nat) {
    forall i :: 0 <= i < |disks| ==> Bounded(enclave, c, disks[i], floor, UINT32_MAX)
  }

  lemma SettledCovers(enclave: Enclave, c: Credential, d: Disk, at: nat, floor: nat)
    requires Settled(enclave, c, d, at, UINT32_MAX) && floor <= at
    ensures Bounded(enclave, c, d, floor, UINT32_MAX)
  {
  }

  /** A prepared advance, wherever it is cut off, leaves the old mark covered; done, it covers the new one. */
  lemma UseBacks(enclave: Enclave, c: Credential, d0: Disk, d: Disk, e: IndexEntry, r: CredentialRecord)
    requires Proper(c) && CredentialOf(r) == c && enclave.Ideal() &&
      Settled(enclave, c, d0, e.counterHighWater, UINT32_MAX)
    ensures PrepareStage(enclave, d0, d, e, r) ==> Settled(enclave, c, d, e.counterHighWater, UINT32_MAX)
    ensures PrepareDone(enclave, d0, d, e, r) ==>
      Settled(enclave, c, d, RaisedHigh(e.counterHighWater, r.signCount), UINT32_MAX)
  {
    hide Settled, PrepareStage, PrepareDone;
    PrepareKeeps(enclave, c, d0, d, e, r, UINT32_MAX);
  }

  lemma UseCovers(enclave: Enclave, c: Credential, d0: Disk, history: seq<Disk>, mark: nat, live: seq<IndexEntry>,
                  index: nat, r: CredentialRecord, floor: nat)
    requires Proper(c) && CredentialOf(r) == c && enclave.Ideal() && mark <= |history| &&
      Bounded(enclave, c, d0, floor, UINT32_MAX)
    requires IsEntryAt(live, c.id, index) ==>
      floor <= live[index].counterHighWater && Settled(enclave, c, d0, live[index].counterHighWater, UINT32_MAX)
    requires forall i :: mark <= i < |history| ==>
      history[i] == d0 || (IsEntryAt(live, c.id, index) && PrepareStage(enclave, d0, history[i], live[index], r))
    ensures AllBounded(enclave, c, history[mark..], floor)
  {
    hide Settled, PrepareStage, Bounded;
    forall i | 0 <= i < |history[mark..]|
      ensures Bounded(enclave, c, history[mark..][i], floor, UINT32_MAX)
    {
      var d := history[mark..][i];
      if d != d0 {
        UseBacks(enclave, c, d0, d, live[index], r);
        SettledCovers(enclave, c, d, live[index].counterHighWater, floor);
      }
    }
  }

  lemma ChangeBacks(enclave: Enclave, c: Credential, d0: Disk, d: Disk, e: IndexEntry, r: CredentialRecord)
    requires Proper(c) && CredentialOf(r) == c && enclave.Ideal() &&
      Settled(enclave, c, d0, e.counterHighWater, UINT32_MAX)
    ensures UpdateStage(enclave, d0, d, e, r) ==> Settled(enclave, c, d, e.counterHighWater, UINT32_MAX)
    ensures UpdateDone(enclave, d0, d, e, r) ==>
      Settled(enclave, c, d, RaisedHigh(e.counterHighWater, r.signCount), UINT32_MAX)
  {
    hide Settled, UpdateStage, UpdateDone;
    if UpdateDone(enclave, d0, d, e, r) {
      UpdateDoneIsStage(enclave, d0, d, e, r);
    }
    if UpdateStage(enclave, d0, d, e, r) {
      UpdateKeeps(enclave, c, d0, d, e, r, UINT32_MAX);
    }
  }

  lemma ChangeCovers(enclave: Enclave, c: Credential, d0: Disk, history: seq<Disk>, mark: nat,
                     live: seq<IndexEntry>, index: nat, r: CredentialRecord, floor: nat)
    requires Proper(c) && CredentialOf(r) == c && enclave.Ideal() && mark <= |history| &&
      Bounded(enclave, c, d0, floor, UINT32_MAX)
    requires IsEntryAt(live, c.id, index) ==>
      floor <= live[index].counterHighWater && Settled(enclave, c, d0, live[index].counterHighWater, UINT32_MAX)
    requires forall i :: mark <= i < |history| ==>
      history[i] == d0 || (IsEntryAt(live, c.id, index) && UpdateStage(enclave, d0, history[i], live[index], r))
    ensures AllBounded(enclave, c, history[mark..], floor)
  {
    hide Settled, UpdateStage, Bounded;
    forall i | 0 <= i < |history[mark..]|
      ensures Bounded(enclave, c, history[mark..][i], floor, UINT32_MAX)
    {
      var d := history[mark..][i];
      if d != d0 {
        ChangeBacks(enclave, c, d0, d, live[index], r);
        SettledCovers(enclave, c, d, live[index].counterHighWater, floor);
      }
    }
  }

  lemma LoadCovered(enclave: Enclave, c: Credential, d0: Disk, history: seq<Disk>, mark: nat, floor: nat)
    requires Proper(c) && enclave.Ideal() && mark <= |history| && Bounded(enclave, c, d0, floor, UINT32_MAX) &&
      !CounterOrphaned(d0, c)
    requires forall i :: mark <= i < |history| ==> LoadingStage(enclave, d0, history[i], c.Name())
    ensures AllBounded(enclave, c, history[mark..], floor)
  {
    hide Settled, LoadingStage, CounterOrphaned, HexEncode;
    NotOrphaned(enclave, c, d0);
    var at: nat :| floor <= at && Settled(enclave, c, d0, at, UINT32_MAX);
    forall i | 0 <= i < |history[mark..]|
      ensures Bounded(enclave, c, history[mark..][i], floor, UINT32_MAX)
    {
      LoadingKeeps(enclave, c, d0, history[mark..][i], at, UINT32_MAX);
    }
  }

  /** A load keeps any bound and, when it succeeds, yields at least it. */
  lemma LoadAbove(enclave: Enclave, c: Credential, d0: Disk, d: Disk, at: nat, ok: bool,
                  record: Option<CredentialRecord>)
    requires Proper(c) && enclave.Ideal() && Settled(enclave, c, d0, at, UINT32_MAX) && !CounterOrphaned(d0, c)
    requires LoadingStage(enclave, d0, d, c.Name())
    requires ok ==> Loaded(enclave, d0, c.Name(), record) && LoadDone(enclave, d0, d, c.Name())
    ensures Settled(enclave, c, d, at, UINT32_MAX)
    ensures ok ==> record.Some? && at <= record.value.signCount
  {
    hide Settled, LoadingStage, LoadDone, CounterOrphaned, HexEncode, LoadVerdict, PrimaryRecord, InBounds;
    NotOrphaned(enclave, c, d0);
    LoadingKeeps(enclave, c, d0, d, at, UINT32_MAX);
    if ok {
      LoadDoneSettles(enclave, c, d0, d, at, UINT32_MAX);
    }
  }

  lemma LoadBacked(enclave: Enclave, c: Credential, d0: Disk, d: Disk, floor: nat, ok: bool,
                   record: Option<CredentialRecord>)
    requires Proper(c) && enclave.Ideal() && Bounded(enclave, c, d0, floor, UINT32_MAX) && !CounterOrphaned(d0, c)
    requires LoadingStage(enclave, d0, d, c.Name())
    requires ok ==> Loaded(enclave, d0, c.Name(), record) && LoadDone(enclave, d0, d, c.Name())
    ensures Bounded(enclave, c, d, floor, UINT32_MAX)
    ensures ok ==> record.Some? && floor <= record.value.signCount
  {
    hide Settled, LoadingStage, Loaded, LoadDone, CounterOrphaned, HexEncode;
    var at: nat :| floor <= at && Settled(enclave, c, d0, at, UINT32_MAX);
    LoadAbove(enclave, c, d0, d, at, ok, record);
  }

  lemma IsName(c: Credential)
    requires Proper(c)
    ensures IsRecordName(c.Name())
  {
  }

  lemma MetIsStranded(enclave: Enclave, history: seq<Disk>, mark: nat, met: set<string>, name: string)
    requires LostOnlyMet(enclave, history, mark, met)
    ensures name in met ==> Stranded(enclave, history, mark, name)
  {
    hide Stranded;
  }

  lemma NotOrphanedAfter(enclave: Enclave, c: Credential, d: Disk, live: seq<IndexEntry>, listed: seq<DirEntry>,
                         ample: bool)
    requires Proper(c)
    ensures IndexedExactly(enclave, d, live, listed, ample) ==> !CounterOrphaned(d, c)
  {
    IsName(c);
    hide IsRecordName, HexEncode, CounterPath, IndexComplete;
  }

  lemma RestartCovers(enclave: Enclave, c: Credential, history: seq<Disk>, mark: nat, met: set<string>, floor: nat)
    requires Proper(c) && LostOnlyMet(enclave, history, mark, met) && c.Name() !in met
    requires Bounded(enclave, c, history[mark], floor, UINT32_MAX)
    ensures AllBounded(enclave, c, history[mark..], floor)
    ensures Bounded(enclave, c, history[|history| - 1], floor, UINT32_MAX)
  {
    hide Settled, HexEncode, MetStranded;
    var at: nat :| floor <= at && Settled(enclave, c, history[mark], at, UINT32_MAX);
    forall k | mark <= k < |history|
      ensures Bounded(enclave, c, history[k], floor, UINT32_MAX)
    {
      assert KeepsBut(enclave, history[mark], history[k], met);
      assert Settled(enclave, c, history[k], at, UINT32_MAX);
    }
  }

  lemma RestartBacks(enclave: Enclave, c: Credential, d0: Disk, d: Disk, live: seq<IndexEntry>,
                     listed: seq<DirEntry>, met: set<string>, floor: nat)
    requires Proper(c) && Bounded(enclave, c, d0, floor, UINT32_MAX) && c.Name() !in met
    requires IndexCovered(enclave, d0, d, live, listed, met)
    ensures forall i: nat :: IsEntryAt(live, c.id, i) ==>
      && CredentialOfEntry(live[i]) == c && floor <= live[i].signCount == live[i].counterHighWater
      && Settled(enclave, c, d, live[i].counterHighWater, UINT32_MAX)
  {
    hide Settled, HexEncode, Listed;
    var at: nat :| floor <= at && Settled(enclave, c, d0, at, UINT32_MAX);
  }

  lemma RegisterBacks(enclave: Enclave, c: Credential, d0: Disk, d: Disk, r: CredentialRecord)
    requires Proper(c) && CredentialOf(r) == c && enclave.Ideal() && Fresh(d0, c) && RecordStage(enclave, d0, d, r)
    ensures Settled(enclave, c, d, r.signCount, UINT32_MAX)
  {
    hide Settled, Fresh, RecordStage, CounterFile;
    FreshIsSettled(enclave, c, d0, r.signCount, UINT32_MAX);
    RecordWriteKeeps(enclave, c, d0, d, r, r.signCount, UINT32_MAX);
  }

  lemma RegisterCovers(enclave: Enclave, c: Credential, d0: Disk, history: seq<Disk>, mark: nat, r: CredentialRecord)
    requires Proper(c) && CredentialOf(r) == c && enclave.Ideal() && Fresh(d0, c) && mark <= |history|
    requires forall i :: mark <= i < |history| ==> RecordStage(enclave, d0, history[i], r)
    ensures AllBounded(enclave, c, history[mark..], 0)
  {
    hide Settled, Fresh, RecordStage, Bounded;
    forall i | 0 <= i < |history[mark..]|
      ensures Bounded(enclave, c, history[mark..][i], 0, UINT32_MAX)
    {
      RegisterBacks(enclave, c, d0, history[mark + i], r);
      SettledCovers(enclave, c, history[mark + i], r.signCount, 0);
    }
  }

  lemma RemoveCoversLast(enclave: Enclave, c: Credential, d0: Disk, d: Disk, floor: nat)
    requires Proper(c) && Bounded(enclave, c, d0, floor, UINT32_MAX) && RemovalStage(d0, d, c.Name())
    ensures Bounded(enclave, c, d, floor, UINT32_MAX)
  {
    hide Settled, RemovalStage, HexEncode;
    var at: nat :| floor <= at && Settled(enclave, c, d0, at, UINT32_MAX);
    RemovalKeeps(enclave, c, d0, d, at, UINT32_MAX);
  }

  lemma RemoveCovers(enclave: Enclave, c: Credential, d0: Disk, history: seq<Disk>, mark: nat, floor: nat)
    requires Proper(c) && mark <= |history| && Bounded(enclave, c, d0, floor, UINT32_MAX)
    requires forall i :: mark <= i < |history| ==> RemovalStage(d0, history[i], c.Name())
    ensures AllBounded(enclave, c, history[mark..], floor)
  {
    hide RemovalStage, Bounded, HexEncode;
    forall i | 0 <= i < |history[mark..]|
      ensures Bounded(enclave, c, history[mark..][i], floor, UINT32_MAX)
    {
      RemoveCoversLast(enclave, c, d0, history[mark + i], floor);
    }
  }
}
