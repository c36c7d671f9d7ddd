/**
 How long a prepared advance stays good: as long as power lasts, the credential is not removed and
 nobody reserves for a smaller counter, publishing it leaves RAM with a mark that the disk covers.
 */
module CounterPending {
  import opened Bytes
  import opened AtomicFile
  import opened Record
  import opened CounterGuard
  import opened CounterStore
  import opened CounterAdvance
  import opened StorePaths
  import opened Recovery
  import opened CounterRuns

  /** With a companion, covering a mark and standing at it are the same. */
  lemma CoveredStands(enclave: Enclave, c: Credential, d: Disk, at: nat, mark: nat)
    requires Settled(enclave, c, d, at, UINT32_MAX)
    ensures CoversMark(enclave, c, d, mark) ==> Settled(enclave, c, d, mark, UINT32_MAX)
    ensures CounterFile(d, c).Some? && Settled(enclave, c, d, mark, UINT32_MAX) ==> CoversMark(enclave, c, d, mark)
  {
    hide HexEncode, DecodeFloor, CopiesWithin, CounterFile;
  }

  lemma CompanionSurvives(enclave: Enclave, c: Credential, d0: Disk, d: Disk, value: uint32)
    requires CounterStage(enclave, c, d0, d, value) && CounterFile(d0, c).Some?
    ensures CounterFile(d, c).Some?
  {
    hide HexEncode, IsCounterFile, CounterPath, CounterTemp;
  }

  /** A reservation that asks for enough keeps a mark covered, wherever it is cut off. */
  lemma ReservationKeepsMark(enclave: Enclave, c: Credential, d0: Disk, d: Disk, r: CredentialRecord, at: nat,
                             mark: nat)
    requires Proper(c) && CredentialOf(r) == c && enclave.Ideal() && Settled(enclave, c, d0, at, UINT32_MAX)
    requires CoversMark(enclave, c, d0, mark) && mark <= HighWater(r.signCount) && ReserveStage(enclave, d0, d, r)
    ensures CoversMark(enclave, c, d, mark)
  {
    hide Settled, HexEncode, CounterStage, RecordStage, CounterFile, CoversMark;
    CoveredStands(enclave, c, d0, at, mark);
    ReserveKeeps(enclave, c, d0, d, r, mark, UINT32_MAX);
    MarkNeedsCompanion(enclave, c, d0, mark);
    if CounterStage(enclave, c, d0, d, HighWater(r.signCount)) {
      CompanionSurvives(enclave, c, d0, d, HighWater(r.signCount));
    } else {
      var d1 :| CounterWritten(enclave, c, d0, d1, HighWater(r.signCount)) && RecordStage(enclave, d1, d, Reserved(r));
      CompanionWritten(enclave, c, d0, d1, HighWater(r.signCount));
      RecordStageLeavesCounter(enclave, c, d1, d, Reserved(r));
    }
    CoveredStands(enclave, c, d, mark, mark);
  }

  lemma MarkNeedsCompanion(enclave: Enclave, c: Credential, d: Disk, mark: nat)
    requires CoversMark(enclave, c, d, mark)
    ensures CounterFile(d, c).Some?
  {
  }

  lemma SameCompanionCovers(enclave: Enclave, c: Credential, d0: Disk, d: Disk, mark: nat)
    requires CounterFile(d, c) == CounterFile(d0, c)
    ensures CoversMark(enclave, c, d, mark) == CoversMark(enclave, c, d0, mark)
  {
  }

  lemma PrepareKeepsMark(enclave: Enclave, c: Credential, d0: Disk, d: Disk, e: IndexEntry, r: CredentialRecord,
                         mark: nat)
    requires Proper(c) && CredentialOf(r) == c && enclave.Ideal() &&
      Settled(enclave, c, d0, e.counterHighWater, UINT32_MAX)
    requires CoversMark(enclave, c, d0, mark) && (r.signCount > e.counterHighWater ==> mark <= HighWater(r.signCount))
    ensures PrepareStage(enclave, d0, d, e, r) || PrepareDone(enclave, d0, d, e, r) ==> CoversMark(enclave, c, d, mark)
  {
    hide Settled, ReserveStage, ReserveDone, CoversMark;
    if r.signCount > e.counterHighWater {
      if ReserveDone(enclave, d0, d, r) {
        ReserveDoneIsStage(enclave, d0, d, r);
      }
      if ReserveStage(enclave, d0, d, r) {
        ReservationKeepsMark(enclave, c, d0, d, r, e.counterHighWater, mark);
      }
    }
  }

  lemma UpdateKeepsMark(enclave: Enclave, c: Credential, d0: Disk, d: Disk, e: IndexEntry, r: CredentialRecord,
                        mark: nat)
    requires Proper(c) && CredentialOf(r) == c && enclave.Ideal() &&
      Settled(enclave, c, d0, e.counterHighWater, UINT32_MAX)
    requires CoversMark(enclave, c, d0, mark) && (r.signCount > e.counterHighWater ==> mark <= HighWater(r.signCount))
    requires UpdateStage(enclave, d0, d, e, r)
    ensures CoversMark(enclave, c, d, mark)
  {
    hide Settled, PrepareStage, PrepareDone, RecordStage, CoversMark, CounterFile;
    if PrepareStage(enclave, d0, d, e, r) {
      PrepareKeepsMark(enclave, c, d0, d, e, r, mark);
    } else {
      var d1 :| PrepareDone(enclave, d0, d1, e, r) && RecordStage(enclave, d1, d, Raised(e, r));
      PrepareKeepsMark(enclave, c, d0, d1, e, r, mark);
      RecordStageLeavesCounter(enclave, c, d1, d, Raised(e, r));
      SameCompanionCovers(enclave, c, d1, d, mark);
    }
  }

  lemma LoadingKeepsMark(enclave: Enclave, c: Credential, d0: Disk, d: Disk, at: nat, mark: nat)
    requires Proper(c) && enclave.Ideal() && Settled(enclave, c, d0, at, UINT32_MAX) && CoversMark(enclave, c, d0, mark)
    requires LoadingStage(enclave, d0, d, c.Name()) && !WouldOverwrite(enclave, d0, c.Name())
    ensures CoversMark(enclave, c, d, mark)
  {
    hide Settled, HexEncode, CoversMark, CounterFile, CounterStage, PrimaryRecord, LoadVerdict, WouldOverwrite;
    CoveredStands(enclave, c, d0, at, mark);
    LoadingKeeps(enclave, c, d0, d, mark, UINT32_MAX);
    MarkNeedsCompanion(enclave, c, d0, mark);
    if d != d0 {
      LoadKeepsBound(enclave, c, d0, at, UINT32_MAX);
      CompanionSurvives(enclave, c, d0, d, LoadVerdict(enclave, d0, c.Name()).value);
    }
    CoveredStands(enclave, c, d, mark, mark);
  }

  /** The step reserves for a mark below this one. */
  predicate Lowers(s: State, event: Event, mark: nat) {
    match event
    case Prepare(r) => s.ram.Some? && s.ram.value.counterHighWater < r.signCount && HighWater(r.signCount) < mark
    case PrepareFails(r) => s.ram.Some? && s.ram.value.counterHighWater < r.signCount && HighWater(r.signCount) < mark
    case Update(r) => s.ram.Some? && s.ram.value.counterHighWater < r.signCount && HighWater(r.signCount) < mark
    case UpdateFails(r) => s.ram.Some? && s.ram.value.counterHighWater < r.signCount && HighWater(r.signCount) < mark
    case _ => false
  }

  lemma MarkStays(enclave: Enclave, c: Credential, s: State, t: State, event: Event, mark: nat)
    requires Proper(c) && enclave.Ideal() && Inv(enclave, c, s, UINT32_MAX) && s.ram.Some? &&
      Step(enclave, c, s, t, event)
    requires Guarded(enclave, c, s, event) && !Lowers(s, event, mark) && !event.Remove?
    requires CoversMark(enclave, c, s.disk, mark)
    ensures CoversMark(enclave, c, t.disk, mark)
  {
    hide Settled, HexEncode, PrepareStage, PrepareDone, UpdateStage, UpdateDone, LoadingStage, LoadDone, LoadVerdict,
         CoversMark, CounterOrphaned, WouldOverwrite, DurableFiles, CounterPath;
    var e := s.ram.value;
    match event
    case Prepare(r) => PrepareKeepsMark(enclave, c, s.disk, t.disk, e, r, mark);
    case PrepareFails(r) => PrepareKeepsMark(enclave, c, s.disk, t.disk, e, r, mark);
    case Update(r) =>
      UpdateDoneIsStage(enclave, s.disk, t.disk, e, r);
      UpdateKeepsMark(enclave, c, s.disk, t.disk, e, r, mark);
    case UpdateFails(r) => UpdateKeepsMark(enclave, c, s.disk, t.disk, e, r, mark);
    case Load =>
      LoadDoneIsStage(enclave, c, s.disk, t.disk);
      NotOrphaned(enclave, c, s.disk);
      LoadingKeepsMark(enclave, c, s.disk, t.disk, e.counterHighWater, mark);
    case LoadFails => LoadingKeepsMark(enclave, c, s.disk, t.disk, e.counterHighWater, mark);
    case Others =>
      SameDurable(c, s.disk, t.disk);
      SameCompanionCovers(enclave, c, s.disk, t.disk, mark);
    case _ =>
  }

  lemma SameDurable(c: Credential, d0: Disk, d: Disk)
    requires SameOn(d0, d, DurableFiles(c.Name()))
    ensures CounterFile(d, c) == CounterFile(d0, c)
  {
  }

  /** What is in RAM while power lasts: its mark only grows. */
  lemma RamGrows(enclave: Enclave, c: Credential, s: State, t: State, event: Event)
    requires s.ram.Some? && Step(enclave, c, s, t, event) && !event.Remove? && !event.PowerLoss?
    ensures t.ram.Some? && s.ram.value.counterHighWater <= t.ram.value.counterHighWater
  {
    hide HexEncode, DiskStep, PrepareDone, UpdateDone, RecordWritten, RecordStage, LoadDone, RemovalStage, Fresh,
         LoadVerdict;
  }

  /** A completed reservation covers its own mark. */
  lemma PreparedIsCovered(enclave: Enclave, c: Credential, s: State, t: State, r: CredentialRecord)
    requires Proper(c) && enclave.Ideal() && Inv(enclave, c, s, UINT32_MAX) && Step(enclave, c, s, t, Prepare(r))
    ensures PendingOf(s.ram.value, r) in t.pending && PublishCovered(enclave, c, t, PendingOf(s.ram.value, r))
  {
    hide Settled, HexEncode, ReserveDone, CoversMark;
    if r.signCount > s.ram.value.counterHighWater {
      ReserveDoneIsStage(enclave, s.disk, t.disk, r);
      PrepareKeeps(enclave, c, s.disk, t.disk, s.ram.value, r, UINT32_MAX);
      ReservedHasCompanion(enclave, c, s.disk, t.disk, r);
      CoveredStands(enclave, c, t.disk, HighWater(r.signCount), HighWater(r.signCount));
    }
  }

  /**
   A prepared advance can be published as long as power lasts, the credential is not removed and no
   reservation for a lower mark is made; in particular right after it was prepared.
   */
  lemma {:induction false} PreparedStaysCovered(enclave: Enclave, c: Credential, states: seq<State>, events: seq<Event>,
                                                i: nat, j: nat, r: CredentialRecord)
    requires Proper(c) && enclave.Ideal() && Run(enclave, c, states, events) && Start(c, states[0])
    requires i < j <= |events| && events[i] == Prepare(r) && states[i].ram.Some?
    requires GuardedTo(enclave, c, states, events, j)
    requires forall k :: i < k < j ==>
      !events[k].PowerLoss? && !events[k].Remove? &&
        !Lowers(states[k], events[k], PendingOf(states[i].ram.value, r).highWater)
    ensures states[j].ram.Some? && PublishCovered(enclave, c, states[j], PendingOf(states[i].ram.value, r))
    decreases j
  {
    hide Settled, HexEncode, Inv, Start, CoversMark, Guarded, Step;
    var p := PendingOf(states[i].ram.value, r);
    GuardedEarlier(enclave, c, states, events, j - 1, j);
    InvAlongRun(enclave, c, states, events, j - 1);
    assert Step(enclave, c, states[j - 1], states[j], events[j - 1]) &&
      Guarded(enclave, c, states[j - 1], events[j - 1]);
    RamStays(enclave, c, states[j - 1], states[j], events[j - 1]);
    if i == j - 1 {
      PreparedIsCovered(enclave, c, states[i], states[j], r);
    } else {
      PreparedStaysCovered(enclave, c, states, events, i, j - 1, r);
      if CoversMark(enclave, c, states[j - 1].disk, p.highWater) {
        MarkStays(enclave, c, states[j - 1], states[j], events[j - 1], p.highWater);
      }
    }
  }

  /** Some counter below `n` is asked for, and a reservation is due for it. */
  predicate AsksLess(s: State, event: Event, n: nat) {
    match event
    case Prepare(r) => s.ram.Some? && s.ram.value.counterHighWater < r.signCount < n
    case PrepareFails(r) => s.ram.Some? && s.ram.value.counterHighWater < r.signCount < n
    case Update(r) => s.ram.Some? && s.ram.value.counterHighWater < r.signCount < n
    case UpdateFails(r) => s.ram.Some? && s.ram.value.counterHighWater < r.signCount < n
    case _ => false
  }

  lemma {:induction false} RamLasts(enclave: Enclave, c: Credential, states: seq<State>, events: seq<Event>, i: nat,
                                    j: nat)
    requires Run(enclave, c, states, events) && i <= j <= |events| && states[i].ram.Some?
    requires forall k :: i <= k < j ==> !events[k].PowerLoss? && !events[k].Remove?
    ensures states[j].ram.Some? && states[i].ram.value.counterHighWater <= states[j].ram.value.counterHighWater
    decreases j
  {
    hide Step;
    if i < j {
      RamLasts(enclave, c, states, events, i, j - 1);
      RamStays(enclave, c, states[j - 1], states[j], events[j - 1]);
    }
  }

  /** In the caller's terms: nobody has asked for a smaller counter in between. */
  lemma PreparedInOrderStaysCovered(enclave: Enclave, c: Credential, states: seq<State>, events: seq<Event>,
                                    i: nat, j: nat, r: CredentialRecord)
    requires Proper(c) && enclave.Ideal() && Run(enclave, c, states, events) && Start(c, states[0])
    requires i < j <= |events| && events[i] == Prepare(r) && states[i].ram.Some?
    requires GuardedTo(enclave, c, states, events, j)
    requires forall k :: i < k < j ==>
      !events[k].PowerLoss? && !events[k].Remove? && !AsksLess(states[k], events[k], r.signCount)
    ensures states[j].ram.Some? && PublishCovered(enclave, c, states[j], PendingOf(states[i].ram.value, r))
  {
    hide Run, Start, CoversMark, Guarded;
    if r.signCount <= states[i].ram.value.counterHighWater {
      RamLasts(enclave, c, states, events, i, j);
    } else {
      PreparedStaysCovered(enclave, c, states, events, i, j, r);
    }
  }

  lemma RamStays(enclave: Enclave, c: Credential, s: State, t: State, event: Event)
    requires Step(enclave, c, s, t, event)
    ensures s.ram.Some? && !event.Remove? && !event.PowerLoss? ==>
      t.ram.Some? && s.ram.value.counterHighWater <= t.ram.value.counterHighWater
  {
    hide Step;
    if s.ram.Some? && !event.Remove? && !event.PowerLoss? {
      RamGrows(enclave, c, s, t, event);
    }
  }
}
