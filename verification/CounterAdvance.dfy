/** Using and raising counters: prepare, publish, advance and update (src/zerofido_store.c). */
module CounterAdvance {
  import opened Bytes
  import opened AtomicFile
  import opened Record
  import opened RecordCodec
  import opened CounterGuard
  import opened CounterStore
  import opened StoreIndex
  import opened StorePaths

  /** The high-water mark after `signCount` has been asked for. */
  function RaisedHigh(highWater: uint32, signCount: uint32): (high: uint32)
    ensures highWater <= high && signCount <= high
  {
    if signCount > highWater then HighWater(signCount) else highWater
  }

  /** Some point of preparing an advance: nothing happens on disk while the mark is high enough. */
  ghost predicate PrepareStage(enclave: Enclave, d0: Disk, d: Disk, entry: IndexEntry, r: CredentialRecord) {
    d == d0 || (r.signCount > entry.counterHighWater && ReserveStage(enclave, d0, d, r))
  }

  ghost predicate PrepareDone(enclave: Enclave, d0: Disk, d: Disk, entry: IndexEntry, r: CredentialRecord) {
    if r.signCount > entry.counterHighWater then ReserveDone(enclave, d0, d, r) else d == d0
  }

  /** `zf_store_prepare_counter_advance`: the disk covers the counter before anybody sees it. */
  method PrepareCounterAdvance(volume: Volume, enclave: Enclave, entry: IndexEntry, r: CredentialRecord,
                               buffer: array<byte>,
                               counterIv: seq<byte>, floorIv: seq<byte>, hmacIv: seq<byte>)
      returns (ok: bool, highWater: uint32)
    requires volume.Valid() && InBounds(r) && enclave.ready && enclave.Ideal() &&
      |counterIv| == |floorIv| == |hmacIv| == 16
    modifies volume, buffer
    ensures volume.Valid() && old(volume.history) <= volume.history
    ensures forall i :: |old(volume.history)| <= i < |volume.history| ==>
      PrepareStage(enclave, old(volume.files), volume.history[i], entry, r)
    ensures PrepareStage(enclave, old(volume.files), volume.files, entry, r)
    ensures ok ==> r.signCount >= entry.signCount && highWater == RaisedHigh(entry.counterHighWater, r.signCount)
    ensures ok ==> PrepareDone(enclave, old(volume.files), volume.files, entry, r)
    ensures r.signCount < entry.signCount ==> !ok && volume.files == old(volume.files)
    ensures Faultless(volume, enclave) && Storable(r, buffer) && entry.signCount <= r.signCount ==> ok
  {
    hide ReserveStage, ReserveDone;
    ok, highWater := false, entry.counterHighWater;
    if buffer.Length < RECORD_MAX_SIZE || r.signCount < entry.signCount {
      return;
    }
    ok := true;
    if r.signCount > highWater {
      ok, highWater := ReserveCounter(volume, enclave, r, buffer, counterIv, floorIv, hmacIv);
    }
  }

  /** The first entry in use with this id. */
  predicate IsEntryAt(entries: seq<IndexEntry>, id: seq<byte>, index: nat) {
    && index < |entries| && entries[index].inUse && entries[index].credentialId == id
    && forall i :: 0 <= i < index ==> !(entries[i].inUse && entries[i].credentialId == id)
  }

  function Advanced(entry: IndexEntry, signCount: uint32, highWater: uint32): IndexEntry {
    entry.(signCount := signCount,
           counterHighWater := if signCount > entry.counterHighWater then highWater else entry.counterHighWater)
  }

  /** `zf_store_publish_counter_advance`: RAM follows the disk, never the other way round. */
  method PublishCounterAdvance(store: CredentialStore, r: CredentialRecord, highWater: uint32) returns (ok: bool,
                               ghost index: nat)
    requires store.Valid()
    modifies store.records
    ensures store.Valid()
    ensures ok ==>
      && IsEntryAt(old(store.Live()), r.credentialId, index)
      && old(store.Live())[index].signCount <= r.signCount <= highWater
      && store.Live() == old(store.Live())[index := Advanced(old(store.Live())[index], r.signCount, highWater)]
    ensures !ok ==> store.Live() == old(store.Live())
    ensures !ok && r.signCount <= highWater ==>
      forall i: nat :: IsEntryAt(store.Live(), r.credentialId, i) ==> r.signCount < store.Live()[i].signCount
  {
    ok, index := false, 0;
    if highWater < r.signCount {
      return;
    }
    var found, at := store.FindIndexById(r.credentialId);
    assert forall i: nat :: IsEntryAt(store.Live(), r.credentialId, i) ==> found && i == at;
    if !found || r.signCount < store.records[at].signCount {
      return;
    }
    index := at;
    var entry := store.records[at];
    if r.signCount > entry.counterHighWater {
      entry := entry.(counterHighWater := highWater);
    }
    store.records[at] := entry.(signCount := r.signCount);
    ok := true;
  }

  /** An advance to `r.signCount` is complete: on disk, and in the entry that takes the place of `entry`. */
  ghost predicate AdvanceDone(enclave: Enclave, d0: Disk, d: Disk, entry: IndexEntry, next: IndexEntry,
                              r: CredentialRecord) {
    && PrepareDone(enclave, d0, d, entry, r) && entry.signCount <= r.signCount
    && next == entry.(signCount := r.signCount, counterHighWater := RaisedHigh(entry.counterHighWater, r.signCount))
  }

  /** The entry that an operation on `r` would find is not ahead of it. */
  ghost predicate NotAhead(entries: seq<IndexEntry>, r: CredentialRecord) {
    exists i: nat :: IsEntryAt(entries, r.credentialId, i) && entries[i].signCount <= r.signCount
  }

  /** `zf_store_advance_counter`. */
  method AdvanceCounter(volume: Volume, enclave: Enclave, store: CredentialStore, r: CredentialRecord,
                        buffer: array<byte>,
                        counterIv: seq<byte>, floorIv: seq<byte>, hmacIv: seq<byte>)
      returns (ok: bool, ghost index: nat)
    requires volume.Valid() && store.Valid() && InBounds(r) && enclave.ready && enclave.Ideal()
    requires |counterIv| == |floorIv| == |hmacIv| == 16
    modifies volume, buffer, store.records
    ensures volume.Valid() && store.Valid() && old(volume.history) <= volume.history
    ensures forall i :: |old(volume.history)| <= i < |volume.history| ==>
      volume.history[i] == old(volume.files) ||
      (IsEntryAt(old(store.Live()), r.credentialId, index) &&
       PrepareStage(enclave, old(volume.files), volume.history[i], old(store.Live())[index], r))
    ensures ok ==>
      && IsEntryAt(old(store.Live()), r.credentialId, index) && index < store.count
      && AdvanceDone(enclave, old(volume.files), volume.files, old(store.Live())[index], store.Live()[index], r)
      && store.Live() == old(store.Live())[index := store.Live()[index]]
    ensures !ok ==> store.Live() == old(store.Live())
    ensures Faultless(volume, enclave) && Storable(r, buffer) && NotAhead(old(store.Live()), r) ==> ok
  {
    hide PrepareStage, PrepareDone;
    ok, index := false, 0;
    var found, at := store.FindIndexById(r.credentialId);
    if !found {
      return;
    }
    index := at;
    var highWater;
    ok, highWater := PrepareCounterAdvance(volume, enclave, store.records[at], r, buffer, counterIv, floorIv, hmacIv);
    if ok {
      ghost var published;
      ok, published := PublishCounterAdvance(store, r, highWater);
      assert published == index;
    }
  }

  // Updating a record: its counter is raised to the mark, so that the file never falls behind.

  function Raised(entry: IndexEntry, r: CredentialRecord): CredentialRecord {
    r.(signCount := RaisedHigh(entry.counterHighWater, r.signCount))
  }

  ghost predicate UpdateStage(enclave: Enclave, d0: Disk, d: Disk, entry: IndexEntry, r: CredentialRecord) {
    || PrepareStage(enclave, d0, d, entry, r)
    || exists d1 :: PrepareDone(enclave, d0, d1, entry, r) && RecordStage(enclave, d1, d, Raised(entry, r))
  }

  ghost predicate UpdateDone(enclave: Enclave, d0: Disk, d: Disk, entry: IndexEntry, r: CredentialRecord) {
    exists d1 :: PrepareDone(enclave, d0, d1, entry, r) && RecordWritten(enclave, d1, d, Raised(entry, r))
  }

  /** The part of `zf_store_update_record_with_buffer` that writes. */
  method WriteRaised(volume: Volume, enclave: Enclave, entry: IndexEntry, r: CredentialRecord, buffer: array<byte>,
                     counterIv: seq<byte>, floorIv: seq<byte>, hmacIv: seq<byte>) returns (ok: bool, highWater: uint32)
    requires volume.Valid() && InBounds(r) && enclave.ready && enclave.Ideal() &&
      |counterIv| == |floorIv| == |hmacIv| == 16
    modifies volume, buffer
    ensures volume.Valid() && old(volume.history) <= volume.history
    ensures forall i :: |old(volume.history)| <= i < |volume.history| ==>
      UpdateStage(enclave, old(volume.files), volume.history[i], entry, r)
    ensures UpdateStage(enclave, old(volume.files), volume.files, entry, r)
    ensures ok ==> UpdateDone(enclave, old(volume.files), volume.files, entry, r)
    ensures ok ==> highWater == RaisedHigh(entry.counterHighWater, r.signCount)
    ensures Faultless(volume, enclave) && Storable(r, buffer) ==> ok
  {
    hide ReserveStage, ReserveDone, OldStage, RecordWritten, HexEncode;
    ok, highWater := true, entry.counterHighWater;
    if r.signCount > highWater {
      ok, highWater := ReserveCounter(volume, enclave, r, buffer, counterIv, floorIv, hmacIv);
      if !ok {
        return;
      }
    }
    var toWrite := r;
    if highWater > toWrite.signCount {
      toWrite := toWrite.(signCount := highWater);
    }
    assert toWrite == Raised(entry, r);
    assert PrepareDone(enclave, old(volume.files), volume.files, entry, r);
    ok := WriteRecord(volume, enclave, toWrite, buffer, floorIv, hmacIv);
  }

  /** `zf_store_update_record_with_buffer`. */
  method UpdateRecord(volume: Volume, enclave: Enclave, store: CredentialStore, r: CredentialRecord,
                      buffer: array<byte>,
                      counterIv: seq<byte>, floorIv: seq<byte>, hmacIv: seq<byte>) returns (ok: bool, ghost index: nat)
    requires volume.Valid() && store.Valid() && InBounds(r) && enclave.ready && enclave.Ideal()
    requires |counterIv| == |floorIv| == |hmacIv| == 16
    modifies volume, buffer, store.records
    ensures volume.Valid() && store.Valid() && old(volume.history) <= volume.history
    ensures forall i :: |old(volume.history)| <= i < |volume.history| ==>
      volume.history[i] == old(volume.files) ||
      (IsEntryAt(old(store.Live()), r.credentialId, index) && old(store.Live())[index].signCount <= r.signCount &&
       UpdateStage(enclave, old(volume.files), volume.history[i], old(store.Live())[index], r))
    ensures ok ==>
      && IsEntryAt(old(store.Live()), r.credentialId, index)
      && var entry := old(store.Live())[index];
         UpdateDone(enclave, old(volume.files), volume.files, entry, r) &&
         entry.signCount <= r.signCount &&
         store.Live() == old(store.Live())[index :=
           EntryOf(r).(counterHighWater := RaisedHigh(entry.counterHighWater, r.signCount))]
    ensures !ok ==> store.Live() == old(store.Live())
    ensures Faultless(volume, enclave) && Storable(r, buffer) && NotAhead(old(store.Live()), r) ==> ok
  {
    hide UpdateStage, UpdateDone, EntryOf;
    ok, index := false, 0;
    if buffer.Length < RECORD_MAX_SIZE {
      return;
    }
    var found, at := store.FindIndexById(r.credentialId);
    if !found || r.signCount < store.records[at].signCount {
      return;
    }
    index := at;
    var highWater;
    ok, highWater := WriteRaised(volume, enclave, store.records[at], r, buffer, counterIv, floorIv, hmacIv);
    if ok {
      store.records[at] := EntryOf(r).(counterHighWater := highWater);
    }
  }

  /** `zf_store_add_record_with_buffer`: the file first, then the entry. */
  method AddRecord(volume: Volume, enclave: Enclave, store: CredentialStore, r: CredentialRecord, buffer: array<byte>,
                   floorIv: seq<byte>, hmacIv: seq<byte>) returns (ok: bool)
    requires volume.Valid() && store.Valid() && InBounds(r) && enclave.ready && enclave.Ideal()
    requires |floorIv| == |hmacIv| == 16
    modifies volume, buffer, store, store.records
    ensures volume.Valid() && store.Valid() && old(volume.history) <= volume.history
    ensures forall i :: |old(volume.history)| <= i < |volume.history| ==>
      RecordStage(enclave, old(volume.files), volume.history[i], r)
    ensures ok ==>
      RecordWritten(enclave, old(volume.files), volume.files, r) && store.Live() == old(store.Live()) + [EntryOf(r)]
    ensures !ok ==> store.Live() == old(store.Live())
    ensures RecordStage(enclave, old(volume.files), volume.files, r)
    ensures !ok ==>
      OldStage(old(volume.files), volume.files, RecordPath(HexEncode(r.credentialId)),
               RecordTemp(HexEncode(r.credentialId)))
    ensures old(store.count) >= MAX_CREDENTIALS ==> !ok
    ensures Faultless(volume, enclave) && Storable(r, buffer) && store.ample ==>
      ok == (old(store.count) < MAX_CREDENTIALS)
  {
    hide EntryOf, OldStage, HexEncode, RecordWritten, RecordPath, RecordTemp;
    Untouched(volume.files, RecordPath(HexEncode(r.credentialId)), RecordTemp(HexEncode(r.credentialId)));
    if buffer.Length < RECORD_MAX_SIZE || store.count >= MAX_CREDENTIALS {
      return false;
    }
    ok := store.EnsureCapacity(store.count + 1);
    if !ok {
      return;
    }
    ghost var live := store.Live();
    ok := WriteRecord(volume, enclave, r, buffer, floorIv, hmacIv);
    assert store.Live() == live;
    if ok {
      store.Append(EntryOf(r));
    }
  }

  // What these operations keep.

  lemma PrepareKeeps(enclave: Enclave, c: Credential, d0: Disk, d: Disk, entry: IndexEntry, r: CredentialRecord,
                     hi: nat)
    requires Proper(c) && CredentialOf(r) == c && enclave.Ideal() && Settled(enclave, c, d0, entry.counterHighWater, hi)
    requires RaisedHigh(entry.counterHighWater, r.signCount) <= hi
    ensures PrepareStage(enclave, d0, d, entry, r) ==> Settled(enclave, c, d, entry.counterHighWater, hi)
    ensures PrepareDone(enclave, d0, d, entry, r) ==>
      Settled(enclave, c, d, RaisedHigh(entry.counterHighWater, r.signCount), hi)
    ensures PrepareDone(enclave, d0, d, entry, r) ==> PrepareStage(enclave, d0, d, entry, r)
  {
    hide Settled, ReserveStage, ReserveDone;
    if r.signCount > entry.counterHighWater {
      if ReserveDone(enclave, d0, d, r) {
        ReserveDoneIsStage(enclave, d0, d, r);
      }
      if ReserveStage(enclave, d0, d, r) {
        ReserveKeeps(enclave, c, d0, d, r, entry.counterHighWater, hi);
      }
    }
  }

  lemma ReserveDoneIsStage(enclave: Enclave, d0: Disk, d: Disk, r: CredentialRecord)
    requires ReserveDone(enclave, d0, d, r)
    ensures ReserveStage(enclave, d0, d, r)
  {
    hide CounterWritten, OldStage, HexEncode;
  }

  lemma UpdateKeeps(enclave: Enclave, c: Credential, d0: Disk, d: Disk, entry: IndexEntry, r: CredentialRecord, hi: nat)
    requires Proper(c) && CredentialOf(r) == c && enclave.Ideal() && Settled(enclave, c, d0, entry.counterHighWater, hi)
    requires RaisedHigh(entry.counterHighWater, r.signCount) <= hi
    requires UpdateStage(enclave, d0, d, entry, r)
    ensures Settled(enclave, c, d, entry.counterHighWater, hi)
    ensures UpdateDone(enclave, d0, d, entry, r) ==>
      Settled(enclave, c, d, RaisedHigh(entry.counterHighWater, r.signCount), hi)
  {
    hide Settled, PrepareStage, PrepareDone, RecordStage, RecordWritten, HexEncode;
    PrepareKeeps(enclave, c, d0, d, entry, r, hi);
    if !PrepareStage(enclave, d0, d, entry, r) {
      var d1 :| PrepareDone(enclave, d0, d1, entry, r) && RecordStage(enclave, d1, d, Raised(entry, r));
      RaisedWriteKeeps(enclave, c, d0, d1, d, entry, r, hi);
    }
    if UpdateDone(enclave, d0, d, entry, r) {
      var d1 :| PrepareDone(enclave, d0, d1, entry, r) && RecordWritten(enclave, d1, d, Raised(entry, r));
      WrittenIsStage(enclave, d1, d, Raised(entry, r));
      RaisedWriteKeeps(enclave, c, d0, d1, d, entry, r, hi);
    }
  }

  lemma RaisedWriteKeeps(enclave: Enclave, c: Credential, d0: Disk, d1: Disk, d: Disk, entry: IndexEntry,
                         r: CredentialRecord, hi: nat)
    requires Proper(c) && CredentialOf(r) == c && enclave.Ideal() && Settled(enclave, c, d0, entry.counterHighWater, hi)
    requires RaisedHigh(entry.counterHighWater, r.signCount) <= hi
    requires PrepareDone(enclave, d0, d1, entry, r) && RecordStage(enclave, d1, d, Raised(entry, r))
    ensures Settled(enclave, c, d, entry.counterHighWater, hi)
    ensures Settled(enclave, c, d, RaisedHigh(entry.counterHighWater, r.signCount), hi)
  {
    hide Settled, RecordStage, RecordWritten, HexEncode, CounterWritten, CounterFile;
    var high := RaisedHigh(entry.counterHighWater, r.signCount);
    PrepareKeeps(enclave, c, d0, d1, entry, r, hi);
    RecordWriteKeeps(enclave, c, d1, d, Raised(entry, r), high, hi);
    if high != entry.counterHighWater {
      ReservedHasCompanion(enclave, c, d0, d1, r);
      RecordStageLeavesCounter(enclave, c, d1, d, Raised(entry, r));
      SettledLower(enclave, c, d, high, hi, entry.counterHighWater);
    }
  }

  lemma ReservedHasCompanion(enclave: Enclave, c: Credential, d0: Disk, d: Disk, r: CredentialRecord)
    requires Proper(c) && CredentialOf(r) == c && ReserveDone(enclave, d0, d, r)
    ensures CounterFile(d, c).Some?
  {
    hide CounterWritten, HexEncode, RecordWritten, CounterFile;
    var d1 :| CounterWritten(enclave, c, d0, d1, HighWater(r.signCount)) && RecordWritten(enclave, d1, d, Reserved(r));
    CompanionWritten(enclave, c, d0, d1, HighWater(r.signCount));
    WrittenIsStage(enclave, d1, d, Reserved(r));
    RecordStageLeavesCounter(enclave, c, d1, d, Reserved(r));
  }

  lemma RecordStageLeavesCounter(enclave: Enclave, c: Credential, d0: Disk, d: Disk, r: CredentialRecord)
    requires Proper(c) && CredentialOf(r) == c && RecordStage(enclave, d0, d, r)
    ensures CounterFile(d, c) == CounterFile(d0, c)
  {
    hide HexEncode, IsRecordFile, CounterFile;
    RecordWriteLeavesCounter(enclave, c, d0, d);
  }

  // Reservation arithmetic.

  /** Completed advances, one after the other, each to the next counter. */
  ghost predicate AdvanceRun(enclave: Enclave, disks: seq<Disk>, entries: seq<IndexEntry>,
                             records: seq<CredentialRecord>) {
    && |disks| == |entries| == |records| + 1
    && forall i :: 0 <= i < |records| ==>
         && records[i].signCount == entries[i].signCount + 1
         && AdvanceDone(enclave, disks[i], disks[i + 1], entries[i], entries[i + 1], records[i])
  }

  /** How many of the first `n` advances reserve. */
  ghost function Reservations(entries: seq<IndexEntry>, records: seq<CredentialRecord>, n: nat): nat
    requires n <= |records| < |entries|
  {
    if n == 0 then 0
    else
      var before := Reservations(entries, records, n - 1);
      if records[n - 1].signCount > entries[n - 1].counterHighWater then before + 1 else before
  }

  /** Those that reserve have completed a reservation on disk; the others have not touched it. */
  lemma ReservationsReachTheDisk(enclave: Enclave, disks: seq<Disk>, entries: seq<IndexEntry>,
                                 records: seq<CredentialRecord>, i: nat)
    requires AdvanceRun(enclave, disks, entries, records) && i < |records|
    ensures Reservations(entries, records, i + 1) == Reservations(entries, records, i) + 1 ==>
      ReserveDone(enclave, disks[i], disks[i + 1], records[i])
    ensures Reservations(entries, records, i + 1) == Reservations(entries, records, i) ==> disks[i + 1] == disks[i]
  {
    hide ReserveDone;
    assert AdvanceDone(enclave, disks[i], disks[i + 1], entries[i], entries[i + 1], records[i]);
  }

  /**
   From a freshly loaded entry, `n` unit advances make exactly `n / 33`, rounded up, reservations,
   and what the disk then covers is that many windows of 33 above the loaded value.
   */
  lemma {:induction false} ReservationsPerAdvance(enclave: Enclave, disks: seq<Disk>, entries: seq<IndexEntry>,
                                                  records: seq<CredentialRecord>, n: nat)
    requires AdvanceRun(enclave, disks, entries, records) && n <= |records|
    requires entries[0].counterHighWater == entries[0].signCount
    requires entries[0].signCount + 33 * ((n + 32) / 33) <= UINT32_MAX
    ensures Reservations(entries, records, n) == (n + 32) / 33
    ensures entries[n].signCount == entries[0].signCount + n
    ensures entries[n].counterHighWater == entries[0].signCount + 33 * ((n + 32) / 33)
  {
    hide PrepareDone;
    if n > 0 {
      ReservationsPerAdvance(enclave, disks, entries, records, n - 1);
      assert AdvanceDone(enclave, disks[n - 1], disks[n], entries[n - 1], entries[n], records[n - 1]);
    }
  }

  /** At saturation the mark stays at the largest counter: it never wraps. */
  lemma {:induction false} MarkNeverWraps(enclave: Enclave, disks: seq<Disk>, entries: seq<IndexEntry>,
                                          records: seq<CredentialRecord>, n: nat)
    requires AdvanceRun(enclave, disks, entries, records) && n <= |records|
    requires entries[0].counterHighWater == entries[0].signCount
    ensures entries[n].signCount == entries[0].signCount + n <= entries[n].counterHighWater
    ensures entries[n].counterHighWater <= entries[n].signCount + 32
  {
    hide PrepareDone;
    if n > 0 {
      MarkNeverWraps(enclave, disks, entries, records, n - 1);
      assert AdvanceDone(enclave, disks[n - 1], disks[n], entries[n - 1], entries[n], records[n - 1]);
    }
  }
}
