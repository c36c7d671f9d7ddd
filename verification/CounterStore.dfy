/**
 Writing and loading credential files (src/store/record_format.c): the companion counter, the
 record, the reservation that writes one before the other, and the load that reconciles them.

 Every contract speaks of all disks a power loss could leave: those that entered the history of the
 volume since the call.  What a caller is owed when nothing goes wrong is stated for the case that
 the environment is `Faultless`.
 */
module CounterStore {
  import opened Bytes
  import opened AtomicFile
  import opened Record
  import opened RecordFormat
  import opened RecordCodec
  import opened CounterGuard
  import opened StorePaths
  import RecordIo
  import RecordRoundTrip
  import Sha256

  /** `zf_counter_reserved_high_water`: 32 counters past the one being used. */
  function HighWater(signCount: uint32): (high: uint32)
    ensures signCount <= high && (high == signCount + 32 || (high == UINT32_MAX && signCount + 32 > UINT32_MAX))
  {
    if UINT32_MAX - signCount < 32 then UINT32_MAX else signCount + 32
  }

  /** An entry of the index kept in RAM, `ZfCredentialIndexEntry`. */
  datatype IndexEntry = IndexEntry(
    inUse: bool,
    residentKey: bool,
    credentialId: seq<byte>,
    rpIdHash: seq<byte>,
    signCount: uint32,
    counterHighWater: uint32,
    createdAt: uint32,
    credProtect: nat)

  /** `zf_store_index_entry_from_record`. */
  function EntryOf(r: CredentialRecord): IndexEntry {
    IndexEntry(true, r.residentKey, r.credentialId, Sha256.Hash(r.rpId), r.signCount, r.signCount, r.createdAt,
               EffectiveProtection(r.credProtect))
  }

  /** No primitive of the volume fails, and the key slot loads every time. */
  ghost predicate Faultless(volume: Volume, enclave: Enclave) {
    volume.sound && enclave.steady
  }

  /** Whether the key slot loads this time. */
  method LoadKey(enclave: Enclave) returns (ready: bool)
    ensures enclave.steady ==> ready
  {
    ready := *;
    ready := ready || enclave.steady;
  }

  /** `zf_storage_read_file`: the whole file, or nothing. */
  method ReadFile(volume: Volume, path: Path, capacity: nat) returns (data: Option<Content>)
    ensures data.Some? ==> Lookup(volume.files, path) == data && 0 < |data.value| <= capacity
    ensures volume.sound && path in volume.files && 0 < |volume.files[path]| <= capacity ==> data.Some?
  {
    var fault := volume.Fault();
    data := None;
    if !fault && path in volume.files && 0 < |volume.files[path]| <= capacity {
      data := Some(volume.files[path]);
    }
  }

  /** `zf_store_counter_floor_write_value_fields`. */
  method WriteCounter(volume: Volume, enclave: Enclave, c: Credential, value: uint32, iv: seq<byte>) returns (ok: bool)
    requires volume.Valid() && Proper(c) && enclave.ready && enclave.Ideal() && |iv| == 16
    modifies volume
    ensures volume.Valid() && old(volume.history) <= volume.history
    ensures forall i :: |old(volume.history)| <= i < |volume.history| ==>
      CounterStage(enclave, c, old(volume.files), volume.history[i], value)
    ensures ok ==> CounterWritten(enclave, c, old(volume.files), volume.files, value)
    ensures !ok ==> OldStage(old(volume.files), volume.files, CounterPath(c.Name()), CounterTemp(c.Name()))
    ensures Faultless(volume, enclave) ==> ok && CounterReplaced(enclave, c, old(volume.files), volume.files, value)
  {
    hide OldStage, NewStage, Replaced, DecodeFloor, HexEncode, EncodeFloor, CounterPath, CounterTemp;
    var ready := LoadKey(enclave);
    assert ready ==> enclave.(ready := ready) == enclave;
    KeySeals(enclave, c, value, iv);
    var file := EncodeFloor(enclave.(ready := ready), iv, c.id, c.createdAt, value);
    OwnFilesDiffer(c.Name());
    if file.None? {
      Untouched(volume.files, CounterPath(c.Name()), CounterTemp(c.Name()));
      return false;
    }
    CounterFileOpens(enclave, ready, c, value, iv);
    ghost var switched;
    ok, switched := volume.WriteFileAtomic(CounterPath(c.Name()), CounterTemp(c.Name()), file.value);
  }

  lemma KeySeals(enclave: Enclave, c: Credential, value: uint32, iv: seq<byte>)
    requires enclave.ready
    ensures EncodeFloor(enclave, iv, c.id, c.createdAt, value).Some?
  {
  }

  lemma CounterFileOpens(enclave: Enclave, ready: bool, c: Credential, value: uint32, iv: seq<byte>)
    requires enclave.ready && enclave.Ideal() && |iv| == 16
    requires EncodeFloor(enclave.(ready := ready), iv, c.id, c.createdAt, value).Some?
    ensures IsCounterFile(enclave, c, EncodeFloor(enclave.(ready := ready), iv, c.id, c.createdAt, value).value, value)
  {
    FloorRoundTrip(enclave, iv, c.id, c.createdAt, value, c.id, c.createdAt);
    hide FloorPlain, DecodeFloor;
  }

  /** The record fits the buffer it is encoded in. */
  predicate Storable(r: CredentialRecord, buffer: array<byte>) {
    EffectiveProtection(r.credProtect) < 24 && buffer.Length >= RECORD_MAX_SIZE
  }

  /** `zf_store_record_format_write_record_with_buffer`. */
  method WriteRecord(volume: Volume, enclave: Enclave, r: CredentialRecord, buffer: array<byte>,
                     floorIv: seq<byte>, hmacIv: seq<byte>) returns (ok: bool)
    requires volume.Valid() && InBounds(r) && enclave.ready && enclave.Ideal() && |floorIv| == |hmacIv| == 16
    modifies volume, buffer
    ensures volume.Valid() && old(volume.history) <= volume.history
    ensures forall i :: |old(volume.history)| <= i < |volume.history| ==>
      RecordStage(enclave, old(volume.files), volume.history[i], r)
    ensures ok ==> RecordWritten(enclave, old(volume.files), volume.files, r)
    ensures !ok ==>
      OldStage(old(volume.files), volume.files, RecordPath(HexEncode(r.credentialId)),
               RecordTemp(HexEncode(r.credentialId)))
    ensures Faultless(volume, enclave) && Storable(r, buffer) ==> ok
  {
    hide OldStage, NewStage, Replaced, HexEncode, EncodeRecord, RecordPath, RecordTemp;
    var name := HexEncode(r.credentialId);
    Untouched(volume.files, RecordPath(name), RecordTemp(name));
    OwnFilesDiffer(name);
    if buffer.Length < RECORD_MAX_SIZE {
      return false;
    }
    var ready := LoadKey(enclave);
    assert ready ==> enclave.(ready := ready) == enclave;
    if EffectiveProtection(r.credProtect) < 24 {
      RecordRoundTrip.EncodingFits(enclave, r, floorIv, hmacIv);
    }
    var size;
    ok, size := RecordIo.Encode(enclave.(ready := ready), r, floorIv, hmacIv, buffer);
    if ok {
      RecordFileIsOne(enclave, ready, r, floorIv, hmacIv, buffer[..size]);
      RecordRoundTrip.EncodedSize(enclave.(ready := ready), r, floorIv, hmacIv);
      ghost var switched;
      ok, switched := volume.WriteFileAtomic(RecordPath(name), RecordTemp(name), buffer[..size]);
    }
  }

  lemma RecordFileIsOne(enclave: Enclave, ready: bool, r: CredentialRecord, floorIv: seq<byte>, hmacIv: seq<byte>,
                        data: Content)
    requires enclave.ready && InBounds(r) && |floorIv| == |hmacIv| == 16
    requires EncodeRecord(enclave.(ready := ready), r, floorIv, hmacIv) == Some(data)
    ensures IsRecordFile(enclave, data, r)
  {
    assert ready by { KeylessEncodes(enclave.(ready := ready), r, floorIv, hmacIv); }
    hide EncodeRecord;
  }

  lemma KeylessEncodes(enclave: Enclave, r: CredentialRecord, floorIv: seq<byte>, hmacIv: seq<byte>)
    ensures EncodeRecord(enclave, r, floorIv, hmacIv).Some? ==> enclave.ready
  {
  }

  // Reservation: the companion first, then the record, both at the new high-water mark.

  function Reserved(r: CredentialRecord): CredentialRecord {
    r.(signCount := HighWater(r.signCount))
  }

  /** Some point of a reservation: in the companion write, or, that done, in the record write. */
  ghost predicate ReserveStage(enclave: Enclave, d0: Disk, d: Disk, r: CredentialRecord) {
    || CounterStage(enclave, CredentialOf(r), d0, d, HighWater(r.signCount))
    || exists d1 :: CounterWritten(enclave, CredentialOf(r), d0, d1, HighWater(r.signCount)) &&
         RecordStage(enclave, d1, d, Reserved(r))
  }

  ghost predicate ReserveDone(enclave: Enclave, d0: Disk, d: Disk, r: CredentialRecord) {
    exists d1 :: CounterWritten(enclave, CredentialOf(r), d0, d1, HighWater(r.signCount)) &&
      RecordWritten(enclave, d1, d, Reserved(r))
  }

  /** `zf_store_record_format_reserve_counter_with_buffer`. */
  method ReserveCounter(volume: Volume, enclave: Enclave, r: CredentialRecord, buffer: array<byte>,
                        counterIv: seq<byte>, floorIv: seq<byte>, hmacIv: seq<byte>)
      returns (ok: bool, highWater: uint32)
    requires volume.Valid() && InBounds(r) && enclave.ready && enclave.Ideal() &&
      |counterIv| == |floorIv| == |hmacIv| == 16
    modifies volume, buffer
    ensures volume.Valid() && old(volume.history) <= volume.history
    ensures forall i :: |old(volume.history)| <= i < |volume.history| ==>
      ReserveStage(enclave, old(volume.files), volume.history[i], r)
    ensures ReserveStage(enclave, old(volume.files), volume.files, r)
    ensures ok ==> ReserveDone(enclave, old(volume.files), volume.files, r) && highWater == HighWater(r.signCount)
    ensures Faultless(volume, enclave) && Storable(r, buffer) ==> ok
  {
    hide OldStage, NewStage, IsCounterFile, IsRecordFile, HexEncode, RecordPath, RecordTemp, CounterPath, CounterTemp;
    ok, highWater := false, HighWater(r.signCount);
    Untouched(volume.files, CounterPath(HexEncode(r.credentialId)), CounterTemp(HexEncode(r.credentialId)));
    if buffer.Length < RECORD_MAX_SIZE {
      return;
    }
    ok := WriteCounter(volume, enclave, CredentialOf(r), highWater, counterIv);
    if ok {
      ok := WriteRecord(volume, enclave, Reserved(r), buffer, floorIv, hmacIv);
    }
  }

  /** A reservation keeps the bound wherever it is interrupted, and once done it is the new bound. */
  lemma ReserveKeeps(enclave: Enclave, c: Credential, d0: Disk, d: Disk, r: CredentialRecord, lo: nat, hi: nat)
    requires Proper(c) && CredentialOf(r) == c && enclave.Ideal() && Settled(enclave, c, d0, lo, hi)
    requires lo <= HighWater(r.signCount) <= hi && ReserveStage(enclave, d0, d, r)
    ensures Settled(enclave, c, d, lo, hi)
    ensures ReserveDone(enclave, d0, d, r) ==> Settled(enclave, c, d, HighWater(r.signCount), hi)
  {
    hide Settled, CounterStage, CounterWritten, RecordStage, RecordWritten, HexEncode;
    var high := HighWater(r.signCount);
    if CounterStage(enclave, c, d0, d, high) {
      CounterWriteKeeps(enclave, c, d0, d, high, lo, hi);
    } else {
      var d1 :| CounterWritten(enclave, c, d0, d1, high) && RecordStage(enclave, d1, d, Reserved(r));
      AfterCompanion(enclave, c, d0, d1, d, r, lo, hi);
    }
    if ReserveDone(enclave, d0, d, r) {
      var d1 :| CounterWritten(enclave, c, d0, d1, high) && RecordWritten(enclave, d1, d, Reserved(r));
      WrittenIsStage(enclave, d1, d, Reserved(r));
      AfterCompanion(enclave, c, d0, d1, d, r, lo, hi);
    }
  }

  lemma WrittenIsStage(enclave: Enclave, d0: Disk, d: Disk, r: CredentialRecord)
    requires RecordWritten(enclave, d0, d, r)
    ensures RecordStage(enclave, d0, d, r)
  {
  }

  lemma AfterCompanion(enclave: Enclave, c: Credential, d0: Disk, d1: Disk, d: Disk, r: CredentialRecord, lo: nat,
                       hi: nat)
    requires Proper(c) && CredentialOf(r) == c && enclave.Ideal() && Settled(enclave, c, d0, lo, hi)
    requires lo <= HighWater(r.signCount) <= hi && CounterWritten(enclave, c, d0, d1, HighWater(r.signCount))
    requires RecordStage(enclave, d1, d, Reserved(r))
    ensures Settled(enclave, c, d, HighWater(r.signCount), hi) && Settled(enclave, c, d, lo, hi)
  {
    hide Settled, CounterWritten, HexEncode, IsCounterFile, CounterFile;
    var high := HighWater(r.signCount);
    assert CounterStage(enclave, c, d0, d1, high);
    CounterWriteKeeps(enclave, c, d0, d1, high, lo, hi);
    CompanionWritten(enclave, c, d0, d1, high);
    RecordWriteKeeps(enclave, c, d1, d, Reserved(r), high, hi);
    RecordWriteLeavesCounter(enclave, c, d1, d);
    SettledLower(enclave, c, d, high, hi, lo);
  }

  lemma CompanionWritten(enclave: Enclave, c: Credential, d0: Disk, d: Disk, value: uint32)
    requires CounterWritten(enclave, c, d0, d, value)
    ensures CounterFile(d, c).Some? && !CounterOrphaned(d, c)
  {
    hide HexEncode, IsCounterFile;
  }

  // Loading.

  /** Some point of a load that came to `verdict`: nothing is written unless the companion lags behind. */
  ghost predicate LoadStage(enclave: Enclave, c: Credential, d0: Disk, d: Disk, verdict: Verdict) {
    d == d0 || (verdict.Accepted? && verdict.write && CounterStage(enclave, c, d0, d, verdict.value))
  }

  /** What a load that came to `verdict` leaves when nothing fails. */
  ghost predicate LoadExact(enclave: Enclave, c: Credential, d0: Disk, d: Disk, verdict: Verdict) {
    if verdict.Accepted? && verdict.write then CounterReplaced(enclave, c, d0, d, verdict.value) else d == d0
  }

  lemma KeylessValidate(enclave: Enclave, ready: bool, c: Credential, companion: Option<Content>, signCount: uint32,
                        embedded: Option<seq<byte>>)
    requires enclave.ready
    ensures var verdict := Validate(enclave.(ready := ready), c, companion, signCount, embedded);
      verdict.Accepted? ==> verdict == Validate(enclave, c, companion, signCount, embedded)
  {
  }

  /** `zf_store_counter_floor_validate_fields`; the value is both the counter and its high-water mark. */
  method ValidateFloor(volume: Volume, enclave: Enclave, c: Credential, signCount: uint32,
                       embedded: Option<seq<byte>>, iv: seq<byte>)
      returns (ok: bool, value: uint32)
    requires volume.Valid() && Proper(c) && enclave.ready && enclave.Ideal() && |iv| == 16
    modifies volume
    ensures volume.Valid() && old(volume.history) <= volume.history
    ensures var verdict := Validate(enclave, c, Lookup(old(volume.files), CounterPath(c.Name())), signCount, embedded);
      && (ok ==> verdict.Accepted? && value == verdict.value)
      && (ok && verdict.write ==> CounterWritten(enclave, c, old(volume.files), volume.files, value))
      && (ok && !verdict.write ==> volume.files == old(volume.files))
      && LoadStage(enclave, c, old(volume.files), volume.files, verdict)
      && (forall i :: |old(volume.history)| <= i < |volume.history| ==>
           LoadStage(enclave, c, old(volume.files), volume.history[i], verdict))
      && (Faultless(volume, enclave) ==>
        ok == verdict.Accepted? && LoadExact(enclave, c, old(volume.files), volume.files, verdict))
  {
    hide OldStage, NewStage, Replaced, IsCounterFile, HexEncode, DecodeFloor, CounterPath, CounterTemp;
    ok, value := false, signCount;
    var ready := LoadKey(enclave);
    assert ready ==> enclave.(ready := ready) == enclave;
    FloorsHaveOneSize(enclave, c);
    var key := enclave.(ready := ready);
    var path := CounterPath(c.Name());
    KeylessValidate(enclave, ready, c, Lookup(volume.files, path), signCount, embedded);
    if path !in volume.files {
      if embedded.Some? {
        ok := CounterValue(key, c, embedded.value) == Some(signCount);
      } else {
        ok := WriteCounter(volume, enclave, c, signCount, iv);
      }
      return;
    }
    var file := ReadFile(volume, path, COUNTER_FLOOR_SIZE);
    if file.None? || |file.value| != COUNTER_FLOOR_SIZE {
      return;
    }
    var stored := CounterValue(key, c, file.value);
    if stored.None? {
      return;
    }
    if stored.value > signCount {
      value := stored.value;
      ok := true;
    } else if stored.value < signCount {
      ok := WriteCounter(volume, enclave, c, signCount, iv);
    } else {
      ok := true;
    }
  }

  lemma FloorsHaveOneSize(enclave: Enclave, c: Credential)
    ensures forall content {:trigger CounterValue(enclave, c, content)} ::
      CounterValue(enclave, c, content).Some? ==> |content| == COUNTER_FLOOR_SIZE
  {
  }

  /** Some point of loading the credential called `name`. */
  ghost predicate LoadingStage(enclave: Enclave, d0: Disk, d: Disk, name: string) {
    || d == d0
    || (PrimaryRecord(enclave, d0, name).Some? &&
        LoadStage(enclave, CredentialOf(PrimaryRecord(enclave, d0, name).value.record), d0, d,
                  LoadVerdict(enclave, d0, name)))
  }

  /** Such a load has been completed. */
  ghost predicate LoadDone(enclave: Enclave, d0: Disk, d: Disk, name: string) {
    && PrimaryRecord(enclave, d0, name).Some? && LoadVerdict(enclave, d0, name).Accepted?
    && var c := CredentialOf(PrimaryRecord(enclave, d0, name).value.record);
       if LoadVerdict(enclave, d0, name).write
         then CounterWritten(enclave, c, d0, d, LoadVerdict(enclave, d0, name).value)
       else d == d0
  }

  /** Such a load has been completed or refused, and nothing failed. */
  ghost predicate LoadedExactly(enclave: Enclave, d0: Disk, d: Disk, name: string) {
    if PrimaryRecord(enclave, d0, name).Some?
    then LoadExact(enclave, CredentialOf(PrimaryRecord(enclave, d0, name).value.record), d0, d,
                   LoadVerdict(enclave, d0, name))
    else d == d0
  }

  /** It has written the companion of its credential, or nothing. */
  lemma ExactLoadOwnsCompanion(enclave: Enclave, d0: Disk, d: Disk, name: string)
    requires LoadedExactly(enclave, d0, d, name)
    ensures d == d0 || exists data :: d == Replaced(d0, CounterPath(name), CounterTemp(name), data)
    ensures AgreeOutside(d0, d, CounterFiles(name))
    ensures Orphaned(d, CounterPath(name)) ==> d == d0
  {
    hide HexEncode, IsCounterFile, Validate, DecodeRecord, RecordPath, CounterPath, CounterTemp;
    if d != d0 {
      DecodedName(enclave, d0[RecordPath(name)], name);
    }
  }

  /** The part of every load that only reads: the record behind its name. */
  method ReadRecord(volume: Volume, enclave: Enclave, name: string) returns (decoded: Option<Decoded>)
    requires enclave.ready
    ensures decoded.Some? ==> PrimaryRecord(enclave, volume.files, name) == decoded
    ensures decoded.Some? ==> InBounds(decoded.value.record)
    ensures decoded.Some? ==> HexEncode(decoded.value.record.credentialId) == name
    ensures Faultless(volume, enclave) ==> decoded == PrimaryRecord(enclave, volume.files, name)
  {
    hide DecodeRecord, InBounds;
    var data := ReadFile(volume, RecordPath(name), RECORD_MAX_SIZE);
    if data.None? {
      return None;
    }
    var ready := LoadKey(enclave);
    assert ready ==> enclave.(ready := ready) == enclave;
    decoded := RecordIo.Decode(enclave.(ready := ready), data.value, name);
    if decoded.Some? {
      RecordRoundTrip.KeylessDecode(enclave, ready, data.value, name);
      RecordRoundTrip.DecodedInBounds(enclave, data.value, name);
      DecodedName(enclave, data.value, name);
    }
  }

  lemma NothingLoads(enclave: Enclave, d: Disk, name: string)
    ensures LoadingStage(enclave, d, d, name)
  {
  }

  /** `zf_store_record_format_load_record_with_buffer`. */
  method LoadRecord(volume: Volume, enclave: Enclave, name: string, iv: seq<byte>) returns (ok: bool,
                    record: Option<CredentialRecord>)
    requires volume.Valid() && enclave.ready && enclave.Ideal() && |iv| == 16
    modifies volume
    ensures volume.Valid() && old(volume.history) <= volume.history
    ensures LoadingStage(enclave, old(volume.files), volume.files, name)
    ensures forall i :: |old(volume.history)| <= i < |volume.history| ==>
      LoadingStage(enclave, old(volume.files), volume.history[i], name)
    ensures ok ==> Loaded(enclave, old(volume.files), name, record)
    ensures ok ==> LoadDone(enclave, old(volume.files), volume.files, name)
    ensures Faultless(volume, enclave) ==>
      && ok == LoadVerdict(enclave, old(volume.files), name).Accepted?
      && LoadedExactly(enclave, old(volume.files), volume.files, name)
  {
    hide PrimaryRecord, InBounds, HexEncode, Validate, LoadStage, LoadExact;
    ok, record := false, None;
    var decoded := ReadRecord(volume, enclave, name);
    if decoded.None? {
      return;
    }
    var r := decoded.value.record;
    BoundsOfId(r);
    assert LoadVerdict(enclave, volume.files, name) ==
      Validate(enclave, CredentialOf(r), Lookup(volume.files, CounterPath(name)), r.signCount, decoded.value.floor);
    var value;
    ok, value := ValidateFloor(volume, enclave, CredentialOf(r), r.signCount, decoded.value.floor, iv);
    record := Some(r.(signCount := value));
  }

  /** The record under `name`, with the counter the load settled on. */
  ghost predicate Loaded(enclave: Enclave, d: Disk, name: string, record: Option<CredentialRecord>) {
    && PrimaryRecord(enclave, d, name).Some? && LoadVerdict(enclave, d, name).Accepted?
    && InBounds(PrimaryRecord(enclave, d, name).value.record)
    && HexEncode(PrimaryRecord(enclave, d, name).value.record.credentialId) == name
    && record == Some(PrimaryRecord(enclave, d, name).value.record.(signCount := LoadVerdict(enclave, d, name).value))
  }

  lemma BoundsOfId(r: CredentialRecord)
    requires InBounds(r)
    ensures |r.credentialId| == 32
  {
  }

  /**
   `zf_store_record_format_load_index_with_buffer`: the entry starts with nothing reserved beyond the
   loaded counter.  A load that fails late has filled the entry all the same.
   */
  method LoadIndex(volume: Volume, enclave: Enclave, name: string, iv: seq<byte>) returns (ok: bool,
                   entry: Option<IndexEntry>)
    requires volume.Valid() && enclave.ready && enclave.Ideal() && |iv| == 16
    modifies volume
    ensures volume.Valid() && old(volume.history) <= volume.history
    ensures LoadingStage(enclave, old(volume.files), volume.files, name)
    ensures forall i :: |old(volume.history)| <= i < |volume.history| ==>
      LoadingStage(enclave, old(volume.files), volume.history[i], name)
    ensures ok ==> exists r :: Loaded(enclave, old(volume.files), name, Some(r)) && entry == Some(EntryOf(r))
    ensures ok ==> LoadDone(enclave, old(volume.files), volume.files, name)
    ensures Faultless(volume, enclave) ==>
      && ok == LoadVerdict(enclave, old(volume.files), name).Accepted?
      && LoadedExactly(enclave, old(volume.files), volume.files, name)
  {
    hide Loaded, LoadingStage, LoadDone, LoadedExactly;
    var record;
    entry := None;
    ok, record := LoadRecord(volume, enclave, name, iv);
    LoadedSome(enclave, old(volume.files), name, record);
    if record.Some? {
      entry := Some(EntryOf(record.value));
    }
  }

  lemma LoadedSome(enclave: Enclave, d: Disk, name: string, record: Option<CredentialRecord>)
    ensures Loaded(enclave, d, name, record) ==> record.Some?
  {
  }

  /**
   A load keeps the bound wherever it is interrupted, unless it makes a companion for a record
   without an embedded floor while the real one is stranded in its backup.
   */
  lemma LoadingKeeps(enclave: Enclave, c: Credential, d0: Disk, d: Disk, lo: nat, hi: nat)
    requires Proper(c) && Settled(enclave, c, d0, lo, hi) && LoadingStage(enclave, d0, d, c.Name())
    requires !WouldOverwrite(enclave, d0, c.Name())
    ensures Settled(enclave, c, d, lo, hi)
  {
    hide Settled, CounterStage, PrimaryRecord, HexEncode, DecodeFloor;
    if d != d0 {
      LoadKeepsBound(enclave, c, d0, lo, hi);
      CounterWriteKeeps(enclave, c, d0, d, LoadVerdict(enclave, d0, c.Name()).value, lo, hi);
    }
  }

  /** After a load the disk stands at the counter that was loaded. */
  lemma LoadDoneSettles(enclave: Enclave, c: Credential, d0: Disk, d: Disk, lo: nat, hi: nat)
    requires Proper(c) && Settled(enclave, c, d0, lo, hi) && LoadDone(enclave, d0, d, c.Name()) &&
      !CounterOrphaned(d0, c)
    ensures lo <= LoadVerdict(enclave, d0, c.Name()).value <= hi
    ensures Settled(enclave, c, d, LoadVerdict(enclave, d0, c.Name()).value, hi)
  {
    hide Settled, CounterWritten, PrimaryRecord, HexEncode, DecodeFloor, Validate;
    var v := LoadVerdict(enclave, d0, c.Name()).value;
    LoadKeepsBound(enclave, c, d0, lo, hi);
    if LoadVerdict(enclave, d0, c.Name()).write {
      assert CounterStage(enclave, c, d0, d, v);
      CounterWriteKeeps(enclave, c, d0, d, v, lo, hi);
    } else {
      LoadSettles(enclave, c, d0, lo, hi);
    }
  }
}
