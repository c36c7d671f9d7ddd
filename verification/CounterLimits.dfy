/**
 Where the counter guarantee ends: what a load goes by, what a later reservation does to an earlier
 one, and two runs in which a counter that was shown is not given back.
 */
module CounterLimits {
  import opened Bytes
  import opened AtomicFile
  import opened Record
  import opened RecordFormat
  import opened RecordCodec
  import opened CounterGuard
  import opened CounterStore
  import opened CounterAdvance
  import opened StorePaths
  import opened CounterRuns
  import RecordRoundTrip

  /** A load gives the companion's value or more exactly if the companion is in place or the record is up to date. */
  lemma LoadBelowCompanionExactly(enclave: Enclave, c: Credential, d: Disk, reserved: uint32)
    requires CounterFile(d, c).Some? && CounterValue(enclave, c, CounterFile(d, c).value) == Some(reserved)
    requires LoadVerdict(enclave, d, c.Name()).Accepted?
    requires CredentialOf(PrimaryRecord(enclave, d, c.Name()).value.record) == c
    ensures reserved <= LoadVerdict(enclave, d, c.Name()).value <==>
      !CounterOrphaned(d, c) || reserved <= PrimaryRecord(enclave, d, c.Name()).value.record.signCount
  {
    hide PrimaryRecord, DecodeFloor, HexEncode;
  }

  /**
   Loading a record without a floor over a stranded companion makes the record's counter the new
   companion: what stood above it is lost for good.
   */
  lemma OverwriteLowers(enclave: Enclave, c: Credential, d0: Disk, d: Disk, stood: uint32)
    requires Proper(c) && WouldOverwrite(enclave, d0, c.Name()) && LoadDone(enclave, d0, d, c.Name())
    requires CredentialOf(PrimaryRecord(enclave, d0, c.Name()).value.record) == c
    requires CounterValue(enclave, c, CounterFile(d0, c).value) == Some(stood)
    ensures var count := PrimaryRecord(enclave, d0, c.Name()).value.record.signCount;
      && LoadVerdict(enclave, d0, c.Name()).value == count
      && !CounterOrphaned(d, c) && CounterFile(d, c).Some?
      && CounterValue(enclave, c, CounterFile(d, c).value) == Some(count)
      && (stood <= CounterValue(enclave, c, CounterFile(d, c).value).value <==> stood <= count)
  {
    hide PrimaryRecord, DecodeFloor, HexEncode, CounterPath, CounterTemp;
  }

  /**
   Whatever stood there before, after a completed reservation the disk covers exactly the marks up to
   its own, and that is what a load yields.
   */
  lemma LaterReservationLowers(enclave: Enclave, c: Credential, d0: Disk, d: Disk, r: CredentialRecord)
    requires Proper(c) && CredentialOf(r) == c && enclave.Ideal() && ReserveDone(enclave, d0, d, r)
    ensures forall mark: nat :: CoversMark(enclave, c, d, mark) <==> mark <= HighWater(r.signCount)
    ensures !CounterOrphaned(d, c)
    ensures PrimaryRecord(enclave, d, c.Name()).Some? ==>
      LoadVerdict(enclave, d, c.Name()) == Accepted(HighWater(r.signCount), false)
  {
    hide HexEncode, DecodeFloor, IsRecordFile, InBounds, CounterPath, CounterTemp, RecordPath, RecordTemp,
         DecodeRecord;
    var high := HighWater(r.signCount);
    var d1 :| CounterWritten(enclave, c, d0, d1, high) && RecordWritten(enclave, d1, d, Reserved(r));
    WrittenIsStage(enclave, d1, d, Reserved(r));
    RecordWriteLeavesCounter(enclave, c, d1, d);
    var data :| IsRecordFile(enclave, data, Reserved(r)) &&
      NewStage(d1, d, RecordPath(c.Name()), RecordTemp(c.Name()), data);
    WrittenCounterReads(enclave, c, data, Reserved(r));
  }

  lemma WrittenCounterReads(enclave: Enclave, c: Credential, data: Content, r: CredentialRecord)
    requires Proper(c) && IsRecordFile(enclave, data, r) && CredentialOf(r) == c && enclave.Ideal()
    ensures DecodeRecord(enclave, data, c.Name()).Some? ==>
      var read := DecodeRecord(enclave, data, c.Name()).value.record;
        CredentialOf(read) == c && read.signCount == r.signCount
  {
    hide DecodeRecord, HexEncode, IsRecordFile;
    RecordFileWithin(enclave, c, data, r, r.signCount, r.signCount);
    assert data[..|data|] == data;
    if DecodeRecord(enclave, data, c.Name()).Some? {
      DecodedIdentity(enclave, data, c.id);
    }
  }

  // A run that meets a stranded companion.

  /** The disks of the run: a new record, the same with a companion, and the companion stranded in its backup. */
  function WithRecord(name: string, record: Content): Disk {
    map[RecordPath(name) := record]
  }

  function WithCompanion(name: string, record: Content, companion: Content): Disk {
    map[RecordPath(name) := record, CounterPath(name) := companion]
  }

  function WithStranded(name: string, record: Content, companion: Content): Disk {
    map[RecordPath(name) := record, Backup(CounterPath(name)) := companion]
  }

  lemma DiskLookups(name: string, record: Content, companion: Content)
    requires |name| == 64
    ensures Lookup(WithCompanion(name, record, companion), RecordPath(name)) == Some(record)
    ensures Lookup(WithCompanion(name, record, companion), CounterPath(name)) == Some(companion)
    ensures Backup(CounterPath(name)) !in WithCompanion(name, record, companion)
    ensures Lookup(WithStranded(name, record, companion), RecordPath(name)) == Some(record)
    ensures CounterPath(name) !in WithStranded(name, record, companion)
    ensures Lookup(WithStranded(name, record, companion), Backup(CounterPath(name))) == Some(companion)
  {
  }

  lemma RecordAppears(name: string, record: Content)
    ensures NewStage(map[], WithRecord(name, record), RecordPath(name), RecordTemp(name), record)
  {
  }

  lemma CompanionAppears(name: string, record: Content, companion: Content)
    requires |name| == 64
    ensures NewStage(WithRecord(name, record), WithCompanion(name, record, companion), CounterPath(name),
                     CounterTemp(name), companion)
  {
  }

  /** Between the two halves of a rename the companion is in its backup only. */
  lemma CompanionStrands(name: string, record: Content, companion: Content)
    requires |name| == 64
    ensures OldStage(WithCompanion(name, record, companion), WithStranded(name, record, companion), CounterPath(name),
                     CounterTemp(name))
  {
  }

  /** Loading either disk of the run. */
  lemma RunLoads(enclave: Enclave, c: Credential, r: CredentialRecord, record: Content, companion: Content,
                 floorIv: seq<byte>, hmacIv: seq<byte>)
    requires Proper(c) && enclave.ready && enclave.Ideal() && InBounds(r) && Decodable(r) && CredentialOf(r) == c &&
      r.signCount == 0
    requires |floorIv| == |hmacIv| == 16 && EncodeRecord(enclave, r, floorIv, hmacIv) == Some(record)
    requires CounterValue(enclave, c, companion) == Some(34)
    ensures RunLoadsAs(enclave, c, WithCompanion(c.Name(), record, companion), 34)
    ensures RunLoadsAs(enclave, c, WithStranded(c.Name(), record, companion), 0)
  {
    hide HexEncode, DecodeRecord, DecodeFloor, InBounds, Decodable, WithCompanion, WithStranded, SealRecord, MapBytes;
    DiskLookups(c.Name(), record, companion);
    RecordRoundTrip.RecordComesBack(enclave, r, floorIv, hmacIv, record);
    RecordRoundTrip.EncodedSize(enclave, r, floorIv, hmacIv);
  }

  /**
   Registration, a reservation that fails after the companion, a restart, one assertion at the loaded
   counter, a reservation cut off in the rename of the companion, and another restart.
   */
  function RunEvent(r: CredentialRecord, n: nat): Event {
    if n == 0 then Register(r)
    else if n == 1 then PrepareFails(r.(signCount := 2))
    else if n == 2 then PowerLoss
    else if n == 3 then BootLoad
    else if n == 4 then Prepare(r.(signCount := 34))
    else if n == 5 then Publish(Pending(34, 34))
    else if n == 6 then PrepareFails(r.(signCount := 35))
    else if n == 7 then PowerLoss
    else BootLoad
  }

  function RunDisk(name: string, record: Content, companion: Content, n: nat): Disk {
    if n == 0 then map[]
    else if n == 1 then WithRecord(name, record)
    else if n <= 6 then WithCompanion(name, record, companion)
    else WithStranded(name, record, companion)
  }

  function RunState(r: CredentialRecord, name: string, record: Content, companion: Content, n: nat): State {
    var loaded := EntryOf(r).(signCount := 34, counterHighWater := 34);
    State(RunDisk(name, record, companion, n),
          if n == 0 || n == 3 || n == 8 then None else if n < 3 || n > 8 then Some(EntryOf(r)) else Some(loaded),
          if n == 5 then {Pending(34, 34)} else {},
          if n == 0 then None else if n < 6 then Some(0) else Some(34))
  }

  function RunStates(r: CredentialRecord, name: string, record: Content, companion: Content): seq<State> {
    seq(10, n requires 0 <= n => RunState(r, name, record, companion, n))
  }

  function RunEvents(r: CredentialRecord): seq<Event> {
    seq(9, n requires 0 <= n => RunEvent(r, n))
  }

  lemma RunDiskSteps(enclave: Enclave, c: Credential, r: CredentialRecord, record: Content, companion: Content)
    requires Proper(c) && CredentialOf(r) == c && r.signCount == 0
    requires IsRecordFile(enclave, record, r) && IsCounterFile(enclave, c, companion, 34)
    ensures RecordWritten(enclave, map[], WithRecord(c.Name(), record), r)
    ensures PrepareStage(enclave, WithRecord(c.Name(), record), WithCompanion(c.Name(), record, companion), EntryOf(r),
                         r.(signCount := 2))
    ensures forall e: IndexEntry | e.counterHighWater == 34 ::
      PrepareStage(enclave, WithCompanion(c.Name(), record, companion), WithStranded(c.Name(), record, companion), e,
                   r.(signCount := 35))
  {
    var name := c.Name();
    hide HexEncode, IsRecordFile, IsCounterFile, RecordPath, RecordTemp, CounterPath, CounterTemp, WithRecord,
         WithCompanion, WithStranded, OldStage, NewStage, EntryOf;
    EntryCounters(r);
    RecordAppears(name, record);
    CompanionAppears(name, record, companion);
    CompanionStrands(name, record, companion);
    assert CounterWritten(enclave, c, WithRecord(name, record), WithCompanion(name, record, companion), 34);
    assert HighWater(2) == 34;
    assert CounterStage(enclave, c, WithRecord(name, record), WithCompanion(name, record, companion), HighWater(2));
    assert CounterStage(enclave, c, WithCompanion(name, record, companion), WithStranded(name, record, companion),
                        HighWater(35));
  }

  lemma RunStep(enclave: Enclave, c: Credential, r: CredentialRecord, record: Content, companion: Content, n: nat)
    requires Proper(c) && CredentialOf(r) == c && r.signCount == 0 && n < 9
    requires IsRecordFile(enclave, record, r) && IsCounterFile(enclave, c, companion, 34)
    requires RunLoadsAs(enclave, c, WithCompanion(c.Name(), record, companion), 34)
    requires RunLoadsAs(enclave, c, WithStranded(c.Name(), record, companion), 0)
    ensures Step(enclave, c, RunState(r, c.Name(), record, companion, n),
                 RunState(r, c.Name(), record, companion, n + 1), RunEvent(r, n))
    ensures n < 8 ==> Guarded(enclave, c, RunState(r, c.Name(), record, companion, n), RunEvent(r, n))
  {
    hide HexEncode, IsRecordFile, IsCounterFile, WithRecord, WithCompanion, WithStranded, RecordWritten, EntryOf,
         LoadVerdict, PrepareStage, PrimaryRecord, RecordPath, CounterPath, CoversMark;
    EntryCounters(r);
    RunDiskSteps(enclave, c, r, record, companion);
    DiskLookups(c.Name(), record, companion);
  }

  ghost predicate RunLoadsAs(enclave: Enclave, c: Credential, d: Disk, count: uint32) {
    && LoadVerdict(enclave, d, c.Name()) == Accepted(count, false) && PrimaryRecord(enclave, d, c.Name()).Some?
    && CredentialOf(PrimaryRecord(enclave, d, c.Name()).value.record) == c
  }

  /**
   The guard on loads is needed: all steps but the last are guarded and show the counter 34; if the
   stranded companion cannot be moved back at start-up the credential then loads with counter 0.
   */
  lemma StrandedCompanionRollsBack(enclave: Enclave, c: Credential, r: CredentialRecord, record: Content,
                                   companion: Content,
                                   floorIv: seq<byte>, hmacIv: seq<byte>)
    requires Proper(c) && enclave.ready && enclave.Ideal() && InBounds(r) && Decodable(r) && CredentialOf(r) == c &&
      r.signCount == 0
    requires |floorIv| == |hmacIv| == 16 && EncodeRecord(enclave, r, floorIv, hmacIv) == Some(record)
    requires IsCounterFile(enclave, c, companion, 34)
    ensures var states := RunStates(r, c.Name(), record, companion);
      && Start(c, states[0]) && Run(enclave, c, states, RunEvents(r)) && GuardedTo(enclave, c, states, RunEvents(r), 8)
      && states[8].published == Some(34) && CounterOrphaned(states[8].disk, c)
      && RunEvents(r)[8] == BootLoad && LoadVerdict(enclave, states[8].disk, c.Name()) == Accepted(0, false)
      && states[9].ram.Some? && states[9].ram.value.counterHighWater == 0
  {
    hide HexEncode, DecodeFloor, WithRecord, WithCompanion, WithStranded, EntryOf, LoadVerdict, Step, Guarded,
         PrimaryRecord, InBounds, Decodable, EncodeRecord, RecordPath, CounterPath, RunEvent;
    assert IsRecordFile(enclave, record, r);
    RunLoads(enclave, c, r, record, companion, floorIv, hmacIv);
    DiskLookups(c.Name(), record, companion);
    EntryCounters(r);
    forall n | 0 <= n < 9
      ensures Step(enclave, c, RunState(r, c.Name(), record, companion, n),
                   RunState(r, c.Name(), record, companion, n + 1), RunEvent(r, n))
      ensures n < 8 ==> Guarded(enclave, c, RunState(r, c.Name(), record, companion, n), RunEvent(r, n))
    {
      RunStep(enclave, c, r, record, companion, n);
    }
    assert RunEvent(r, 8) == BootLoad by { LastRunEvent(r); }
  }

  lemma LastRunEvent(r: CredentialRecord)
    ensures RunEvent(r, 8) == BootLoad
  {
  }

  // A run that publishes late.

  /** A record file and a companion, both written for the same counter. */
  datatype Copies = Copies(record: Content, companion: Content)

  ghost predicate CopiesOf(enclave: Enclave, c: Credential, r: CredentialRecord, count: uint32, copies: Copies) {
    IsRecordFile(enclave, copies.record, r.(signCount := count)) && IsCounterFile(enclave, c, copies.companion, count)
  }

  /** Registration, two advances prepared, the second for a smaller counter, and the first one published. */
  function LateEvent(r: CredentialRecord, n: nat): Event {
    if n == 0 then Register(r)
    else if n == 1 then Prepare(r.(signCount := 100))
    else if n == 2 then Prepare(r.(signCount := 50))
    else Publish(Pending(100, 132))
  }

  function LateState(r: CredentialRecord, name: string, record: Content, high: Copies, low: Copies, n: nat): State {
    State(if n == 0 then map[] else if n == 1 then WithRecord(name, record)
          else if n == 2 then WithCompanion(name, high.record, high.companion)
          else WithCompanion(name, low.record, low.companion),
          if n == 0 then None else if n <= 3 then Some(EntryOf(r))
          else Some(EntryOf(r).(signCount := 100, counterHighWater := 132)),
          if n <= 1 then {} else if n == 2 then {Pending(100, 132)}
          else if n == 3 then {Pending(100, 132), Pending(50, 82)} else {Pending(50, 82)},
          if n == 0 then None else if n <= 3 then Some(0) else Some(100))
  }

  function LateStates(r: CredentialRecord, name: string, record: Content, high: Copies, low: Copies): seq<State> {
    seq(5, n requires 0 <= n => LateState(r, name, record, high, low, n))
  }

  function LateEvents(r: CredentialRecord): seq<Event> {
    seq(4, n requires 0 <= n => LateEvent(r, n))
  }

  lemma CompanionReplaces(name: string, record: Content, companion: Content, next: Content)
    requires |name| == 64
    ensures NewStage(WithCompanion(name, record, companion), WithCompanion(name, record, next), CounterPath(name),
                     CounterTemp(name), next)
  {
  }

  lemma RecordReplaces(name: string, record: Content, companion: Content, next: Content)
    requires |name| == 64
    ensures NewStage(WithCompanion(name, record, companion), WithCompanion(name, next, companion), RecordPath(name),
                     RecordTemp(name), next)
  {
  }

  lemma LateReservations(enclave: Enclave, c: Credential, r: CredentialRecord, record: Content, high: Copies,
                         low: Copies)
    requires Proper(c) && CredentialOf(r) == c && r.signCount == 0 && IsRecordFile(enclave, record, r)
    requires CopiesOf(enclave, c, r, 132, high) && CopiesOf(enclave, c, r, 82, low)
    ensures RecordWritten(enclave, map[], WithRecord(c.Name(), record), r)
    ensures ReserveDone(enclave, WithRecord(c.Name(), record), WithCompanion(c.Name(), high.record, high.companion),
                        r.(signCount := 100))
    ensures ReserveDone(enclave, WithCompanion(c.Name(), high.record, high.companion),
                        WithCompanion(c.Name(), low.record, low.companion), r.(signCount := 50))
  {
    hide HexEncode, IsRecordFile, IsCounterFile, RecordPath, RecordTemp, CounterPath, CounterTemp, WithRecord,
         WithCompanion, OldStage, NewStage;
    var name := c.Name();
    RecordAppears(name, record);
    CompanionAppears(name, record, high.companion);
    RecordReplaces(name, record, high.companion, high.record);
    CompanionReplaces(name, high.record, high.companion, low.companion);
    RecordReplaces(name, high.record, low.companion, low.record);
    assert HighWater(100) == 132 && HighWater(50) == 82;
    assert CounterWritten(enclave, c, WithRecord(name, record), WithCompanion(name, record, high.companion), 132);
    assert RecordWritten(enclave, WithCompanion(name, record, high.companion),
                         WithCompanion(name, high.record, high.companion),
                         Reserved(r.(signCount := 100)));
    assert CounterWritten(enclave, c, WithCompanion(name, high.record, high.companion),
                          WithCompanion(name, high.record, low.companion), 82);
    assert RecordWritten(enclave, WithCompanion(name, high.record, low.companion),
                         WithCompanion(name, low.record, low.companion),
                         Reserved(r.(signCount := 50)));
  }

  lemma LateStep(enclave: Enclave, c: Credential, r: CredentialRecord, record: Content, high: Copies, low: Copies,
                 n: nat)
    requires Proper(c) && CredentialOf(r) == c && r.signCount == 0 && IsRecordFile(enclave, record, r) && n < 4
    requires CopiesOf(enclave, c, r, 132, high) && CopiesOf(enclave, c, r, 82, low)
    ensures Step(enclave, c, LateState(r, c.Name(), record, high, low, n),
                 LateState(r, c.Name(), record, high, low, n + 1), LateEvent(r, n))
    ensures n < 3 ==> Guarded(enclave, c, LateState(r, c.Name(), record, high, low, n), LateEvent(r, n))
  {
    hide HexEncode, IsRecordFile, IsCounterFile, WithRecord, WithCompanion, RecordWritten, EntryOf, ReserveDone,
         CopiesOf, RecordPath, CounterPath, CoversMark;
    EntryCounters(r);
    LateReservations(enclave, c, r, record, high, low);
    assert HighWater(100) == 132 && HighWater(50) == 82;
    if n == 3 {
      assert {Pending(100, 132), Pending(50, 82)} - {Pending(100, 132)} == {Pending(50, 82)};
    }
  }

  lemma LateRecordReads(enclave: Enclave, c: Credential, r: CredentialRecord, low: Copies)
    requires Proper(c) && enclave.Ideal() && CredentialOf(r) == c && CopiesOf(enclave, c, r, 82, low) && Decodable(r)
    ensures PrimaryRecord(enclave, WithCompanion(c.Name(), low.record, low.companion), c.Name()).Some?
  {
    hide HexEncode, DecodeRecord, EncodeRecord, WithCompanion, DecodeFloor, InBounds;
    var r82 := r.(signCount := 82);
    var floorIv, hmacIv :| |floorIv| == |hmacIv| == 16 &&
      EncodeRecord(enclave, r82, floorIv, hmacIv) == Some(low.record);
    DiskLookups(c.Name(), low.record, low.companion);
    RecordRoundTrip.RecordComesBack(enclave, r82, floorIv, hmacIv, low.record);
    RecordRoundTrip.EncodedSize(enclave, r82, floorIv, hmacIv);
  }

  /**
   Publishing late is not safe: after a smaller counter has been prepared, publishing the first advance
   shows 100 over a disk that loads with 82.
   */
  lemma LatePublicationRollsBack(enclave: Enclave, c: Credential, r: CredentialRecord, record: Content, high: Copies,
                                 low: Copies)
    requires Proper(c) && enclave.Ideal() && CredentialOf(r) == c && r.signCount == 0 &&
      IsRecordFile(enclave, record, r)
    requires Decodable(r)
    requires CopiesOf(enclave, c, r, 132, high) && CopiesOf(enclave, c, r, 82, low)
    ensures var states := LateStates(r, c.Name(), record, high, low);
      && Start(c, states[0]) && Run(enclave, c, states, LateEvents(r)) &&
        GuardedTo(enclave, c, states, LateEvents(r), 3)
      && states[4].published == Some(100) && !CounterOrphaned(states[4].disk, c)
      && !PublishCovered(enclave, c, states[3], Pending(100, 132))
      && LoadVerdict(enclave, states[4].disk, c.Name()) == Accepted(82, false)
  {
    hide HexEncode, WithRecord, WithCompanion, EntryOf, LoadVerdict, Step, Guarded, IsRecordFile, CopiesOf,
         ReserveDone, LateEvent, CoversMark, CounterOrphaned, Decodable, PrimaryRecord;
    EntryCounters(r);
    LateRecordReads(enclave, c, r, low);
    LateReservations(enclave, c, r, record, high, low);
    LaterReservationLowers(enclave, c, WithCompanion(c.Name(), high.record, high.companion),
                           WithCompanion(c.Name(), low.record, low.companion), r.(signCount := 50));
    forall n | 0 <= n < 4
      ensures Step(enclave, c, LateState(r, c.Name(), record, high, low, n),
                   LateState(r, c.Name(), record, high, low, n + 1), LateEvent(r, n))
      ensures n < 3 ==> Guarded(enclave, c, LateState(r, c.Name(), record, high, low, n), LateEvent(r, n))
    {
      LateStep(enclave, c, r, record, high, low, n);
    }
  }
}
