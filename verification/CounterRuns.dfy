/**
 Whole runs of the counter of one credential: registration, use, updates, loads, failed and
 interrupted writes, power loss, recovery, start-up and removal, in any order.

 A state is the disk, the index entry in RAM, the advances that were prepared and not yet published,
 and the counter already shown to the outside.  Power may fail at any primitive: a failed step may
 leave any disk of its stage predicate, and `PowerLoss` then drops RAM.

 The steps are what the code does, without any condition of ours.  What the safety theorems need of
 a run is `Guarded`: no load goes by a stranded companion, and no prepared advance is published
 over a disk that has stopped covering its mark.
 */
module CounterRuns {
  import opened Bytes
  import opened AtomicFile
  import opened BackupListing
  import opened Record
  import opened RecordFormat
  import opened CounterGuard
  import opened CounterStore
  import opened CounterAdvance
  import opened StorePaths
  import opened Recovery
  import opened Bootstrap

  /** A prepared advance: what its caller holds until it publishes it. */
  datatype Pending = Pending(signCount: uint32, highWater: uint32)

  datatype State = State(
    disk: Disk,
    ram: Option<IndexEntry>,
    pending: set<Pending>,
    published: Option<uint32>)

  datatype Event =
    | Register(r: CredentialRecord)
    | RegisterFails(r: CredentialRecord)
    | Prepare(r: CredentialRecord)
    | PrepareFails(r: CredentialRecord)
    | Publish(p: Pending)
    | Update(r: CredentialRecord)
    | UpdateFails(r: CredentialRecord)
    | Load
    | LoadFails
    | BootLoad
    | RecoverRecord
    | RecoverCompanion
    | DropTemporaries
    | Remove
    | PowerLoss
    | Others

  /** No file of the credential exists. */
  ghost predicate Fresh(d: Disk, c: Credential) {
    forall p :: p in DurableFiles(c.Name()) ==> p !in d
  }

  /** What a load of the credential yields on this disk. */
  ghost function LoadedValue(enclave: Enclave, c: Credential, d: Disk): uint32
    requires LoadVerdict(enclave, d, c.Name()).Accepted?
  {
    LoadVerdict(enclave, d, c.Name()).value
  }

  /** The disk after the event, when the event leaves RAM and the published counter alone. */
  ghost predicate DiskStep(enclave: Enclave, c: Credential, s: State, d: Disk, event: Event) {
    match event
    case PrepareFails(r) => s.ram.Some? && CredentialOf(r) == c && PrepareStage(enclave, s.disk, d, s.ram.value, r)
    case UpdateFails(r) =>
      s.ram.Some? && CredentialOf(r) == c && s.ram.value.signCount <= r.signCount &&
        UpdateStage(enclave, s.disk, d, s.ram.value, r)
    case Load => LoadDone(enclave, s.disk, d, c.Name())
    case LoadFails => LoadingStage(enclave, s.disk, d, c.Name())
    case RecoverRecord => s.ram.None? && RecoverStage(enclave, s.disk, d, c.Name())
    case RecoverCompanion => s.ram.None? && OldStage(s.disk, d, CounterPath(c.Name()), CounterTemp(c.Name()))
    case DropTemporaries => s.ram.None? && OnlyTempsGone(s.disk, d)
    case Others => SameOn(s.disk, d, DurableFiles(c.Name()))
    case _ => false
  }

  ghost predicate Step(enclave: Enclave, c: Credential, s: State, t: State, event: Event) {
    match event
    case Register(r) =>
      && s.ram.None? && s.published.None? && Fresh(s.disk, c) && CredentialOf(r) == c
      && RecordWritten(enclave, s.disk, t.disk, r)
      && t == s.(disk := t.disk, ram := Some(EntryOf(r)), published := Some(r.signCount))
    case RegisterFails(r) =>
      && s.ram.None? && s.published.None? && Fresh(s.disk, c) && CredentialOf(r) == c
      && RecordStage(enclave, s.disk, t.disk, r) && t == s.(disk := t.disk)
    case Prepare(r) =>
      && s.ram.Some? && CredentialOf(r) == c && s.ram.value.signCount <= r.signCount
      && PrepareDone(enclave, s.disk, t.disk, s.ram.value, r)
      && t == s.(disk := t.disk, pending := s.pending + {PendingOf(s.ram.value, r)})
    case Publish(p) =>
      && s.ram.Some? && p in s.pending && s.ram.value.signCount <= p.signCount <= p.highWater
      && t == s.(ram := Some(Advanced(s.ram.value, p.signCount, p.highWater)), pending := s.pending - {p},
                 published := Some(p.signCount))
    case Update(r) =>
      && s.ram.Some? && CredentialOf(r) == c && s.ram.value.signCount <= r.signCount
      && UpdateDone(enclave, s.disk, t.disk, s.ram.value, r)
      && t == s.(disk := t.disk, published := Some(r.signCount),
                 ram := Some(EntryOf(r).(counterHighWater := RaisedHigh(s.ram.value.counterHighWater, r.signCount))))
    case BootLoad =>
      && s.ram.None? && LoadDone(enclave, s.disk, t.disk, c.Name()) && LoadVerdict(enclave, s.disk, c.Name()).Accepted?
      && t.ram.Some? && CredentialOfEntry(t.ram.value) == c
      && t.ram.value.signCount == t.ram.value.counterHighWater == LoadedValue(enclave, c, s.disk)
      && t == s.(disk := t.disk, ram := t.ram)
    case Remove => RemovalStage(s.disk, t.disk, c.Name()) && t == s.(disk := t.disk, ram := t.ram) &&
      t.ram in {s.ram, None}
    case PowerLoss => t == s.(ram := None, pending := {})
    case _ => DiskStep(enclave, c, s, t.disk, event) && t == s.(disk := t.disk)
  }

  function PendingOf(e: IndexEntry, r: CredentialRecord): Pending {
    Pending(r.signCount, RaisedHigh(e.counterHighWater, r.signCount))
  }

  /** The companion, in place or in its backup, opens to `mark` or more. */
  ghost predicate CoversMark(enclave: Enclave, c: Credential, d: Disk, mark: nat) {
    match CounterFile(d, c)
    case Some(file) => CounterValue(enclave, c, file).Some? && mark <= CounterValue(enclave, c, file).value
    case None => false
  }

  /** Publishing `p` leaves RAM with a mark that the disk covers. */
  ghost predicate PublishCovered(enclave: Enclave, c: Credential, s: State, p: Pending) {
    s.ram.Some? ==> p.signCount <= s.ram.value.counterHighWater || CoversMark(enclave, c, s.disk, p.highWater)
  }

  /**
   What safety needs of a step: a load finds the companion in place (one that fails, or a recovery,
   only must not overwrite a stranded one), and what is published is covered.
   */
  ghost predicate Guarded(enclave: Enclave, c: Credential, s: State, event: Event) {
    match event
    case Load => !CounterOrphaned(s.disk, c)
    case BootLoad => !CounterOrphaned(s.disk, c)
    case LoadFails => !WouldOverwrite(enclave, s.disk, c.Name())
    case RecoverRecord => !WouldOverwrite(enclave, s.disk, c.Name())
    case Publish(p) => PublishCovered(enclave, c, s, p)
    case _ => true
  }

  /** The largest counter shown so far, as a lower bound. */
  function Shown(s: State): nat {
    if s.published.Some? then s.published.value else 0
  }

  /** RAM never promises more than the disk holds, and the disk holds whatever was shown. */
  ghost predicate Inv(enclave: Enclave, c: Credential, s: State, hi: nat) {
    match s.ram
    case Some(e) =>
      && CredentialOfEntry(e) == c && Shown(s) <= e.signCount <= e.counterHighWater
      && Settled(enclave, c, s.disk, e.counterHighWater, hi)
    case None => Bounded(enclave, c, s.disk, Shown(s), hi)
  }

  /** The counter a reservation in this step asks for stays below `hi`. */
  predicate Asks(s: State, event: Event, hi: nat) {
    match event
    case Register(r) => r.signCount <= hi
    case RegisterFails(r) => r.signCount <= hi
    case Prepare(r) => s.ram.Some? ==> RaisedHigh(s.ram.value.counterHighWater, r.signCount) <= hi
    case PrepareFails(r) => s.ram.Some? ==> RaisedHigh(s.ram.value.counterHighWater, r.signCount) <= hi
    case Update(r) => s.ram.Some? ==> RaisedHigh(s.ram.value.counterHighWater, r.signCount) <= hi
    case UpdateFails(r) => s.ram.Some? ==> RaisedHigh(s.ram.value.counterHighWater, r.signCount) <= hi
    case _ => true
  }

  lemma FreshIsSettled(enclave: Enclave, c: Credential, d: Disk, at: nat, hi: nat)
    requires Fresh(d, c) && at <= hi
    ensures Settled(enclave, c, d, at, hi) && CounterFile(d, c).None?
  {
  }

  /** Events that only touch the disk keep every bound. */
  lemma DiskStepKeeps(enclave: Enclave, c: Credential, s: State, d: Disk, event: Event, lo: nat, hi: nat)
    requires Proper(c) && enclave.Ideal() && Settled(enclave, c, s.disk, lo, hi)
    requires DiskStep(enclave, c, s, d, event) && Guarded(enclave, c, s, event)
    requires event.Load? || event.LoadFails? || event.RecoverRecord? || event.RecoverCompanion? ||
      event.DropTemporaries? || event.Others?
    ensures Settled(enclave, c, d, lo, hi)
  {
    hide Settled, LoadingStage, LoadDone, RecoverStage, OldStage, OnlyTempsGone, SameOn, HexEncode, WouldOverwrite,
         CounterOrphaned;
    match event
    case Load =>
      LoadDoneIsStage(enclave, c, s.disk, d);
      NotOrphaned(enclave, c, s.disk);
      LoadingKeeps(enclave, c, s.disk, d, lo, hi);
    case LoadFails => LoadingKeeps(enclave, c, s.disk, d, lo, hi);
    case RecoverRecord => RecoverKeeps(enclave, c, s.disk, d, lo, hi);
    case RecoverCompanion => CompanionRecoveryKeeps(enclave, c, s.disk, d, lo, hi);
    case DropTemporaries => TempsDoNotMatter(enclave, s.disk, d);
    case Others => OthersDoNotMatter(enclave, c, s.disk, d, lo, hi);
  }

  lemma NotOrphaned(enclave: Enclave, c: Credential, d: Disk)
    requires !CounterOrphaned(d, c)
    ensures !WouldOverwrite(enclave, d, c.Name())
  {
  }

  lemma LoadDoneIsStage(enclave: Enclave, c: Credential, d0: Disk, d: Disk)
    requires LoadDone(enclave, d0, d, c.Name())
    ensures LoadingStage(enclave, d0, d, c.Name())
  {
    hide PrimaryRecord, LoadVerdict, CounterWritten, OldStage, HexEncode;
  }

  lemma EntryCounters(r: CredentialRecord)
    ensures CredentialOfEntry(EntryOf(r)) == CredentialOf(r)
    ensures EntryOf(r).signCount == EntryOf(r).counterHighWater == r.signCount && EntryOf(r).inUse
  {
  }

  lemma RegisterKeeps(enclave: Enclave, c: Credential, s: State, t: State, event: Event, hi: nat)
    requires Proper(c) && enclave.Ideal() && Inv(enclave, c, s, hi) && Step(enclave, c, s, t, event) &&
      Asks(s, event, hi)
    requires event.Register? || event.RegisterFails?
    ensures Inv(enclave, c, t, hi)
  {
    hide Settled, Fresh, RecordStage, RecordWritten, HexEncode, EntryOf, CounterFile;
    var r := event.r;
    EntryCounters(r);
    FreshIsSettled(enclave, c, s.disk, r.signCount, hi);
    if event.Register? {
      WrittenIsStage(enclave, s.disk, t.disk, r);
    }
    RecordWriteKeeps(enclave, c, s.disk, t.disk, r, r.signCount, hi);
  }

  lemma PrepareStepKeeps(enclave: Enclave, c: Credential, s: State, t: State, event: Event, hi: nat)
    requires Proper(c) && enclave.Ideal() && Inv(enclave, c, s, hi) && Step(enclave, c, s, t, event) &&
      Asks(s, event, hi)
    requires event.Prepare? || event.PrepareFails?
    ensures Inv(enclave, c, t, hi)
  {
    hide Settled, PrepareStage, PrepareDone, HexEncode;
    PrepareKeeps(enclave, c, s.disk, t.disk, s.ram.value, event.r, hi);
  }

  lemma UpdateStepKeeps(enclave: Enclave, c: Credential, s: State, t: State, event: Event, hi: nat)
    requires Proper(c) && enclave.Ideal() && Inv(enclave, c, s, hi) && Step(enclave, c, s, t, event) &&
      Asks(s, event, hi)
    requires event.Update? || event.UpdateFails?
    ensures Inv(enclave, c, t, hi)
  {
    hide Settled, UpdateStage, UpdateDone, HexEncode;
    if event.Update? {
      UpdateDoneIsStage(enclave, s.disk, t.disk, s.ram.value, event.r);
    }
    UpdateKeeps(enclave, c, s.disk, t.disk, s.ram.value, event.r, hi);
  }

  lemma UpdateDoneIsStage(enclave: Enclave, d0: Disk, d: Disk, entry: IndexEntry, r: CredentialRecord)
    requires UpdateDone(enclave, d0, d, entry, r)
    ensures UpdateStage(enclave, d0, d, entry, r)
  {
    hide PrepareDone, PrepareStage, RecordWritten, RecordStage;
    var d1 :| PrepareDone(enclave, d0, d1, entry, r) && RecordWritten(enclave, d1, d, Raised(entry, r));
    WrittenIsStage(enclave, d1, d, Raised(entry, r));
  }

  /** The steps that move only RAM, or only the disk. */
  lemma OtherStepKeeps(enclave: Enclave, c: Credential, s: State, t: State, event: Event, hi: nat)
    requires Proper(c) && enclave.Ideal() && Inv(enclave, c, s, hi)
    requires Step(enclave, c, s, t, event) && Guarded(enclave, c, s, event)
    requires event.Load? || event.LoadFails? || event.RecoverRecord? || event.RecoverCompanion? ||
      event.DropTemporaries? || event.Others?
    ensures Inv(enclave, c, t, hi)
  {
    hide Settled, DiskStep, HexEncode;
    match s.ram
    case None =>
      var at :| Shown(s) <= at && Settled(enclave, c, s.disk, at, hi);
      DiskStepKeeps(enclave, c, s, t.disk, event, at, hi);
    case Some(e) =>
      DiskStepKeeps(enclave, c, s, t.disk, event, e.counterHighWater, hi);
  }

  lemma RemoveKeeps(enclave: Enclave, c: Credential, s: State, t: State, hi: nat)
    requires Proper(c) && Inv(enclave, c, s, hi) && Step(enclave, c, s, t, Remove)
    ensures Inv(enclave, c, t, hi)
  {
    hide Settled, RemovalStage, HexEncode;
    match s.ram
    case None =>
      var at :| Shown(s) <= at && Settled(enclave, c, s.disk, at, hi);
      RemovalKeeps(enclave, c, s.disk, t.disk, at, hi);
    case Some(e) => RemovalKeeps(enclave, c, s.disk, t.disk, e.counterHighWater, hi);
  }

  /** Start-up: the loaded counter is at least whatever was shown, and at most the bound. */
  lemma BootLoadKeeps(enclave: Enclave, c: Credential, s: State, t: State, hi: nat)
    requires Proper(c) && enclave.Ideal() && Inv(enclave, c, s, hi) && Step(enclave, c, s, t, BootLoad)
    requires !CounterOrphaned(s.disk, c)
    ensures Inv(enclave, c, t, hi)
    ensures Shown(s) <= LoadedValue(enclave, c, s.disk) <= hi
  {
    hide Settled, LoadDone, LoadVerdict, HexEncode, CounterOrphaned;
    var at :| Shown(s) <= at && Settled(enclave, c, s.disk, at, hi);
    LoadDoneSettles(enclave, c, s.disk, t.disk, at, hi);
  }

  /** The same for a load while running, which the assertion handlers count on from. */
  lemma LoadIsNotBehind(enclave: Enclave, c: Credential, s: State, d: Disk, hi: nat)
    requires Proper(c) && enclave.Ideal() && Inv(enclave, c, s, hi) && DiskStep(enclave, c, s, d, Load)
    requires !CounterOrphaned(s.disk, c)
    ensures LoadVerdict(enclave, s.disk, c.Name()).Accepted?
    ensures Shown(s) <= LoadedValue(enclave, c, s.disk) <= hi
    ensures s.ram.Some? ==> s.ram.value.counterHighWater <= LoadedValue(enclave, c, s.disk)
  {
    hide Settled, LoadDone, LoadVerdict, HexEncode, CounterOrphaned;
    LoadDoneAccepted(enclave, s.disk, d, c.Name());
    match s.ram
    case None =>
      var at :| Shown(s) <= at && Settled(enclave, c, s.disk, at, hi);
      LoadDoneSettles(enclave, c, s.disk, d, at, hi);
    case Some(e) => LoadDoneSettles(enclave, c, s.disk, d, e.counterHighWater, hi);
  }

  lemma PublishKeeps(enclave: Enclave, c: Credential, s: State, t: State, p: Pending, hi: nat)
    requires Inv(enclave, c, s, hi) && Step(enclave, c, s, t, Publish(p)) && PublishCovered(enclave, c, s, p)
    ensures Inv(enclave, c, t, hi)
  {
    hide HexEncode, DecodeFloor, CopiesWithin, CounterFile;
  }

  /**
   With a companion on disk the condition is exact: after any other publication RAM promises
   counters that a load would not give back.
   */
  lemma PublishIsSafeExactly(enclave: Enclave, c: Credential, s: State, t: State, p: Pending, hi: nat)
    requires Inv(enclave, c, s, hi) && Step(enclave, c, s, t, Publish(p)) && CounterFile(s.disk, c).Some?
    ensures Inv(enclave, c, t, hi) <==> PublishCovered(enclave, c, s, p)
  {
    hide HexEncode, DecodeFloor, CopiesWithin, CounterFile;
  }

  /** What has been shown stays shown. */
  lemma ShownGrows(enclave: Enclave, c: Credential, s: State, t: State, event: Event, hi: nat)
    requires Inv(enclave, c, s, hi) && Step(enclave, c, s, t, event)
    ensures Shown(s) <= Shown(t)
  {
    hide Settled, HexEncode, DiskStep, PrepareDone, UpdateDone, RecordWritten, RecordStage, LoadDone, RemovalStage,
         Fresh;
  }

  /** Every guarded step of every kind keeps the invariant. */
  lemma StepKeeps(enclave: Enclave, c: Credential, s: State, t: State, event: Event, hi: nat)
    requires Proper(c) && enclave.Ideal() && Inv(enclave, c, s, hi) && Step(enclave, c, s, t, event) &&
      Asks(s, event, hi)
    requires Guarded(enclave, c, s, event)
    ensures Inv(enclave, c, t, hi)
    ensures Shown(s) <= Shown(t)
  {
    hide Inv, Step, Asks, Shown;
    ShownGrows(enclave, c, s, t, event, hi);
    match event
    case Register(r) => RegisterKeeps(enclave, c, s, t, event, hi);
    case RegisterFails(r) => RegisterKeeps(enclave, c, s, t, event, hi);
    case Prepare(r) => PrepareStepKeeps(enclave, c, s, t, event, hi);
    case PrepareFails(r) => PrepareStepKeeps(enclave, c, s, t, event, hi);
    case Publish(p) => PublishKeeps(enclave, c, s, t, p, hi);
    case Update(r) => UpdateStepKeeps(enclave, c, s, t, event, hi);
    case UpdateFails(r) => UpdateStepKeeps(enclave, c, s, t, event, hi);
    case BootLoad => BootLoadKeeps(enclave, c, s, t, hi);
    case Remove => RemoveKeeps(enclave, c, s, t, hi);
    case PowerLoss => PowerLossKeeps(enclave, c, s, t, hi);
    case Load => OtherStepKeeps(enclave, c, s, t, event, hi);
    case LoadFails => OtherStepKeeps(enclave, c, s, t, event, hi);
    case RecoverRecord => OtherStepKeeps(enclave, c, s, t, event, hi);
    case RecoverCompanion => OtherStepKeeps(enclave, c, s, t, event, hi);
    case DropTemporaries => OtherStepKeeps(enclave, c, s, t, event, hi);
    case Others => OtherStepKeeps(enclave, c, s, t, event, hi);
  }

  lemma PowerLossKeeps(enclave: Enclave, c: Credential, s: State, t: State, hi: nat)
    requires Inv(enclave, c, s, hi) && Step(enclave, c, s, t, PowerLoss)
    ensures Inv(enclave, c, t, hi)
  {
    hide Settled, HexEncode;
    if s.ram.Some? {
      assert Settled(enclave, c, t.disk, s.ram.value.counterHighWater, hi);
    }
  }

  // Runs.

  ghost predicate Run(enclave: Enclave, c: Credential, states: seq<State>, events: seq<Event>) {
    && |states| == |events| + 1
    && forall i :: 0 <= i < |events| ==> Step(enclave, c, states[i], states[i + 1], events[i])
  }

  /** The first `n` steps are guarded. */
  ghost predicate GuardedTo(enclave: Enclave, c: Credential, states: seq<State>, events: seq<Event>, n: nat) {
    && n <= |events| <= |states|
    && forall i :: 0 <= i < n ==> Guarded(enclave, c, states[i], events[i])
  }

  ghost predicate Start(c: Credential, s: State) {
    s.ram.None? && s.pending == {} && s.published.None? && Fresh(s.disk, c)
  }

  lemma StartIsSafe(enclave: Enclave, c: Credential, s: State, hi: nat)
    requires Start(c, s)
    ensures Inv(enclave, c, s, hi)
  {
    FreshIsSettled(enclave, c, s.disk, 0, hi);
    hide Settled, HexEncode;
  }

  lemma {:induction false} InvAlongRun(enclave: Enclave, c: Credential, states: seq<State>, events: seq<Event>, n: nat)
    requires Proper(c) && enclave.Ideal() && Run(enclave, c, states, events) && Start(c, states[0])
    requires GuardedTo(enclave, c, states, events, n)
    ensures Inv(enclave, c, states[n], UINT32_MAX)
    ensures forall i :: 0 <= i <= n ==> Shown(states[i]) <= Shown(states[n])
  {
    hide Step, Inv, Start, Guarded;
    if n == 0 {
      StartIsSafe(enclave, c, states[0], UINT32_MAX);
    } else {
      InvAlongRun(enclave, c, states, events, n - 1);
      StepKeeps(enclave, c, states[n - 1], states[n], events[n - 1], UINT32_MAX);
    }
  }

  /**
   The exact limit, at every state a guarded run can reach: a load gives back what has been shown if and
   only if the companion is in place or the record itself is not behind.
   */
  lemma LoadFallsBehindExactly(enclave: Enclave, c: Credential, states: seq<State>, events: seq<Event>, n: nat)
    requires Proper(c) && enclave.Ideal() && Run(enclave, c, states, events) && Start(c, states[0])
    requires GuardedTo(enclave, c, states, events, n) && LoadVerdict(enclave, states[n].disk, c.Name()).Accepted?
    ensures PrimaryRecord(enclave, states[n].disk, c.Name()).Some?
    ensures Shown(states[n]) <= LoadedValue(enclave, c, states[n].disk) <==>
      !CounterOrphaned(states[n].disk, c) ||
      Shown(states[n]) <= PrimaryRecord(enclave, states[n].disk, c.Name()).value.record.signCount
  {
    InvAlongRun(enclave, c, states, events, n);
    hide Settled, HexEncode, LoadVerdict, PrimaryRecord, CounterOrphaned, Run, Start, Guarded;
    var s := states[n];
    match s.ram
    case None =>
      var at :| Shown(s) <= at && Settled(enclave, c, s.disk, at, UINT32_MAX);
      LoadKeepsBound(enclave, c, s.disk, at, UINT32_MAX);
    case Some(e) => LoadKeepsBound(enclave, c, s.disk, e.counterHighWater, UINT32_MAX);
  }

  /**
   Counters never roll back: in a run that is guarded up to and including this load, every counter
   shown up to step `i` is at most what the load or start-up yields.
   */
  lemma CountersNeverRollBack(enclave: Enclave, c: Credential, states: seq<State>, events: seq<Event>, i: nat, j: nat)
    requires Proper(c) && enclave.Ideal() && Run(enclave, c, states, events) && Start(c, states[0])
    requires i <= j < |events| && (events[j].Load? || events[j].BootLoad?)
    requires GuardedTo(enclave, c, states, events, j + 1)
    ensures LoadVerdict(enclave, states[j].disk, c.Name()).Accepted?
    ensures states[i].published.Some? ==> states[i].published.value <= LoadedValue(enclave, c, states[j].disk)
  {
    hide Settled, HexEncode, LoadDone, LoadVerdict, CounterOrphaned, LoadedValue, Inv, Start;
    GuardedEarlier(enclave, c, states, events, j, j + 1);
    InvAlongRun(enclave, c, states, events, j);
    assert Step(enclave, c, states[j], states[j + 1], events[j]) && Guarded(enclave, c, states[j], events[j]);
    if events[j].Load? {
      LoadIsNotBehind(enclave, c, states[j], states[j + 1].disk, UINT32_MAX);
    } else {
      BootLoadKeeps(enclave, c, states[j], states[j + 1], UINT32_MAX);
    }
  }

  lemma GuardedEarlier(enclave: Enclave, c: Credential, states: seq<State>, events: seq<Event>, n: nat, m: nat)
    requires GuardedTo(enclave, c, states, events, m) && n <= m
    ensures GuardedTo(enclave, c, states, events, n)
  {
    hide Guarded;
  }

  // Where a stranded companion can come from.

  lemma RecordStageStrandsNothing(enclave: Enclave, c: Credential, d0: Disk, d: Disk, r: CredentialRecord)
    requires Proper(c) && CredentialOf(r) == c && RecordStage(enclave, d0, d, r)
    ensures CounterOrphaned(d, c) == CounterOrphaned(d0, c)
  {
    hide HexEncode, IsRecordFile, CounterOrphaned;
    RecordWriteLeavesCounter(enclave, c, d0, d);
  }

  lemma ReservationStrandsNothing(enclave: Enclave, c: Credential, d0: Disk, d: Disk, r: CredentialRecord)
    requires Proper(c) && CredentialOf(r) == c && ReserveDone(enclave, d0, d, r)
    ensures !CounterOrphaned(d, c)
  {
    hide HexEncode, CounterWritten, RecordWritten, RecordStage, CounterOrphaned;
    var d1 :| CounterWritten(enclave, c, d0, d1, HighWater(r.signCount)) && RecordWritten(enclave, d1, d, Reserved(r));
    CompanionWritten(enclave, c, d0, d1, HighWater(r.signCount));
    WrittenIsStage(enclave, d1, d, Reserved(r));
    RecordStageStrandsNothing(enclave, c, d1, d, Reserved(r));
  }

  lemma PrepareStrandsNothing(enclave: Enclave, c: Credential, d0: Disk, d: Disk, e: IndexEntry, r: CredentialRecord)
    requires Proper(c) && CredentialOf(r) == c && PrepareDone(enclave, d0, d, e, r) && !CounterOrphaned(d0, c)
    ensures !CounterOrphaned(d, c)
  {
    hide HexEncode, ReserveDone, CounterOrphaned;
    if r.signCount > e.counterHighWater {
      ReservationStrandsNothing(enclave, c, d0, d, r);
    }
  }

  lemma UpdateStrandsNothing(enclave: Enclave, c: Credential, d0: Disk, d: Disk, e: IndexEntry, r: CredentialRecord)
    requires Proper(c) && CredentialOf(r) == c && UpdateDone(enclave, d0, d, e, r) && !CounterOrphaned(d0, c)
    ensures !CounterOrphaned(d, c)
  {
    hide HexEncode, PrepareDone, RecordWritten, RecordStage, CounterOrphaned;
    var d1 :| PrepareDone(enclave, d0, d1, e, r) && RecordWritten(enclave, d1, d, Raised(e, r));
    PrepareStrandsNothing(enclave, c, d0, d1, e, r);
    WrittenIsStage(enclave, d1, d, Raised(e, r));
    RecordStageStrandsNothing(enclave, c, d1, d, Raised(e, r));
  }

  lemma LoadStrandsNothing(enclave: Enclave, c: Credential, d0: Disk, d: Disk)
    requires Proper(c) && LoadDone(enclave, d0, d, c.Name()) && !CounterOrphaned(d0, c)
    ensures !CounterOrphaned(d, c)
  {
    hide DecodeRecord, HexEncode, Validate, IsCounterFile, CounterPath, CounterTemp;
    if d != d0 {
      DecodedName(enclave, d0[RecordPath(c.Name())], c.Name());
    }
  }

  lemma RemovalStrandsNothing(c: Credential, d0: Disk, d: Disk)
    requires Proper(c) && RemovalStage(d0, d, c.Name()) && !CounterOrphaned(d0, c)
    ensures !CounterOrphaned(d, c)
  {
  }

  lemma ElsewhereStrandsNothing(c: Credential, d0: Disk, d: Disk)
    requires Proper(c) && (SameOn(d0, d, DurableFiles(c.Name())) || OnlyTempsGone(d0, d))
    ensures CounterOrphaned(d, c) == CounterOrphaned(d0, c)
  {
    hide HexEncode, HasSuffix, CounterPath, RecordPath;
    forall p | p in {CounterPath(c.Name()), Backup(CounterPath(c.Name()))}
      ensures Lookup(d, p) == Lookup(d0, p)
    {
      assert p in DurableFiles(c.Name());
      DurableIsNoTemp(c.Name(), p);
    }
    assert Lookup(d, CounterPath(c.Name())) == Lookup(d0, CounterPath(c.Name()));
    assert Lookup(d, Backup(CounterPath(c.Name()))) == Lookup(d0, Backup(CounterPath(c.Name())));
  }

  /** A companion is stranded only by an operation that failed or was cut off, or by a recovery that did not succeed. */
  lemma OnlyFailureStrands(enclave: Enclave, c: Credential, s: State, t: State, event: Event)
    requires Proper(c) && Step(enclave, c, s, t, event) && !CounterOrphaned(s.disk, c)
    requires !event.PrepareFails? && !event.UpdateFails? && !event.LoadFails?
    requires !event.RecoverRecord? && !event.RecoverCompanion?
    ensures !CounterOrphaned(t.disk, c)
  {
    hide HexEncode, PrepareDone, UpdateDone, RecordWritten, RecordStage, LoadDone, LoadVerdict, RemovalStage,
         OnlyTempsGone, SameOn, CounterOrphaned, Fresh, EntryOf, RaisedHigh, Advanced;
    match event
    case Register(r) =>
      WrittenIsStage(enclave, s.disk, t.disk, r);
      RecordStageStrandsNothing(enclave, c, s.disk, t.disk, r);
    case RegisterFails(r) => RecordStageStrandsNothing(enclave, c, s.disk, t.disk, r);
    case Prepare(r) => PrepareStrandsNothing(enclave, c, s.disk, t.disk, s.ram.value, r);
    case Update(r) => UpdateStrandsNothing(enclave, c, s.disk, t.disk, s.ram.value, r);
    case Load => LoadStrandsNothing(enclave, c, s.disk, t.disk);
    case BootLoad => LoadStrandsNothing(enclave, c, s.disk, t.disk);
    case DropTemporaries => ElsewhereStrandsNothing(c, s.disk, t.disk);
    case Others => ElsewhereStrandsNothing(c, s.disk, t.disk);
    case Remove => RemovalStrandsNothing(c, s.disk, t.disk);
    case _ =>
  }

  /** The event shows a counter, and one above what RAM had. */
  predicate ShowsMore(s: State, event: Event) {
    match event
    case Publish(p) => s.ram.Some? && s.ram.value.signCount < p.signCount
    case Update(r) => s.ram.Some? && s.ram.value.signCount < r.signCount
    case _ => false
  }

  /** When the caller always asks for more than it saw, no counter is shown twice, not even across power loss. */
  lemma UsedCountersIncrease(enclave: Enclave, c: Credential, states: seq<State>, events: seq<Event>, i: nat, j: nat)
    requires Proper(c) && enclave.Ideal() && Run(enclave, c, states, events) && Start(c, states[0])
    requires i <= j < |events| && ShowsMore(states[j], events[j]) && GuardedTo(enclave, c, states, events, j)
    ensures states[j + 1].published.Some?
    ensures states[i].published.Some? ==> states[i].published.value < states[j + 1].published.value
  {
    InvAlongRun(enclave, c, states, events, j);
    hide Settled, HexEncode, PrepareStage, PrepareDone, UpdateDone, Start;
    assert Step(enclave, c, states[j], states[j + 1], events[j]);
  }

  /** The largest counter shown or loaded in the first `n` steps. */
  ghost function Top(enclave: Enclave, c: Credential, states: seq<State>, events: seq<Event>, n: nat): nat
    requires n <= |events| && |states| == |events| + 1
  {
    if n == 0 then 0
    else
      var before := Max(Top(enclave, c, states, events, n - 1), Shown(states[n]));
      if (events[n - 1].Load? || events[n - 1].BootLoad?) &&
        LoadVerdict(enclave, states[n - 1].disk, c.Name()).Accepted?
      then Max(before, LoadedValue(enclave, c, states[n - 1].disk)) else before
  }

  function Max(a: nat, b: nat): nat {
    if a < b then b else a
  }

  /** The counter a step asks for. */
  function Asked(event: Event): nat {
    match event
    case Register(r) => r.signCount
    case RegisterFails(r) => r.signCount
    case Prepare(r) => r.signCount
    case PrepareFails(r) => r.signCount
    case Update(r) => r.signCount
    case UpdateFails(r) => r.signCount
    case _ => 0
  }

  /** Nobody asks for more than the next counter. */
  ghost predicate UnitSteps(enclave: Enclave, c: Credential, states: seq<State>, events: seq<Event>)
    requires |states| == |events| + 1
  {
    forall n :: 0 <= n < |events| ==> Asked(events[n]) <= Top(enclave, c, states, events, n) + 1
  }

  function Ceiling(top: nat): nat {
    if top + 33 <= UINT32_MAX then top + 33 else UINT32_MAX
  }

  lemma CeilingGrows(a: nat, b: nat)
    requires a <= b
    ensures Ceiling(a) <= Ceiling(b)
  {
  }

  lemma InvBelow(enclave: Enclave, c: Credential, s: State, hi: nat, hi1: nat)
    requires Inv(enclave, c, s, hi) && hi <= hi1
    ensures Inv(enclave, c, s, hi1)
  {
    hide Settled, HexEncode;
    match s.ram
    case Some(e) =>
      SettledBelow(enclave, c, s.disk, e.counterHighWater, hi, hi1);
    case None =>
      var at :| Shown(s) <= at && Settled(enclave, c, s.disk, at, hi);
      SettledBelow(enclave, c, s.disk, at, hi, hi1);
  }

  lemma UnitStepAsks(enclave: Enclave, c: Credential, s: State, event: Event, top: nat)
    requires Inv(enclave, c, s, Ceiling(top)) && Asked(event) <= top + 1
    ensures Asks(s, event, Ceiling(top))
  {
  }

  lemma TopGrows(enclave: Enclave, c: Credential, states: seq<State>, events: seq<Event>, n: nat)
    requires 0 < n <= |events| && |states| == |events| + 1
    ensures Top(enclave, c, states, events, n - 1) <= Top(enclave, c, states, events, n)
  {
  }

  lemma {:induction false} CeilingAlongRun(enclave: Enclave, c: Credential, states: seq<State>, events: seq<Event>,
                                           n: nat)
    requires Proper(c) && enclave.Ideal() && Run(enclave, c, states, events) && Start(c, states[0])
    requires GuardedTo(enclave, c, states, events, n) && UnitSteps(enclave, c, states, events)
    ensures Inv(enclave, c, states[n], Ceiling(Top(enclave, c, states, events, n)))
  {
    hide Step, Inv, Start, Top, Asked, Asks, Ceiling, Guarded;
    if n == 0 {
      StartIsSafe(enclave, c, states[0], Ceiling(Top(enclave, c, states, events, 0)));
    } else {
      var top := Top(enclave, c, states, events, n - 1);
      CeilingAlongRun(enclave, c, states, events, n - 1);
      UnitStepAsks(enclave, c, states[n - 1], events[n - 1], top);
      StepKeeps(enclave, c, states[n - 1], states[n], events[n - 1], Ceiling(top));
      TopGrows(enclave, c, states, events, n);
      CeilingGrows(top, Top(enclave, c, states, events, n));
      InvBelow(enclave, c, states[n], Ceiling(top), Ceiling(Top(enclave, c, states, events, n)));
    }
  }

  /** No load yields more than one window of 33 above the largest counter shown or loaded before. */
  lemma PowerCycleCostsOneWindow(enclave: Enclave, c: Credential, states: seq<State>, events: seq<Event>, n: nat)
    requires Proper(c) && enclave.Ideal() && Run(enclave, c, states, events) && Start(c, states[0])
    requires UnitSteps(enclave, c, states, events) && n < |events| && (events[n].BootLoad? || events[n].Load?)
    requires GuardedTo(enclave, c, states, events, n)
    ensures LoadVerdict(enclave, states[n].disk, c.Name()).Accepted?
    ensures LoadedValue(enclave, c, states[n].disk) <= Top(enclave, c, states, events, n) + 33
  {
    CeilingAlongRun(enclave, c, states, events, n);
    hide Settled, HexEncode, LoadDone, LoadVerdict, PrimaryRecord, CounterOrphaned, Run, Start, Top, Guarded;
    var s, hi := states[n], Ceiling(Top(enclave, c, states, events, n));
    assert Step(enclave, c, s, states[n + 1], events[n]);
    LoadDoneAccepted(enclave, s.disk, states[n + 1].disk, c.Name());
    match s.ram
    case None =>
      var at :| Shown(s) <= at && Settled(enclave, c, s.disk, at, hi);
      LoadKeepsBound(enclave, c, s.disk, at, hi);
    case Some(e) => LoadKeepsBound(enclave, c, s.disk, e.counterHighWater, hi);
  }

  // Removal is for good.

  /** The credential was shown, is not in RAM, and no copy of its record is on disk. */
  ghost predicate Removed(c: Credential, s: State) {
    s.ram.None? && s.published.Some? && Gone(s.disk, c.Name())
  }

  lemma GoneIsRefused(enclave: Enclave, d: Disk, name: string)
    requires Gone(d, name)
    ensures LoadVerdict(enclave, d, name) == Refused
  {
  }

  lemma GoneIsDurable(c: Credential, d0: Disk, d: Disk)
    requires Proper(c) && Gone(d0, c.Name())
    requires OnlyTempsGone(d0, d) || SameOn(d0, d, DurableFiles(c.Name())) || RemovalStage(d0, d, c.Name())
    ensures Gone(d, c.Name())
  {
    hide HexEncode, HasSuffix, RecordPath, RecordTemp, CounterPath, CounterTemp;
    forall p | p in {RecordPath(c.Name()), Backup(RecordPath(c.Name()))}
      ensures p !in d
    {
      assert p in DurableFiles(c.Name()) && p !in d0;
      DurableIsNoTemp(c.Name(), p);
      assert Lookup(d0, p) == None;
      assert OnlyTempsGone(d0, d) || SameOn(d0, d, DurableFiles(c.Name())) ==> Lookup(d, p) == None;
    }
  }

  lemma RemovedStep(enclave: Enclave, c: Credential, s: State, t: State, event: Event)
    requires Proper(c) && Removed(c, s) && Step(enclave, c, s, t, event)
    ensures Removed(c, t) && !event.Load? && !event.BootLoad?
  {
    hide HexEncode, LoadDone, LoadVerdict, LoadingStage, RecoverStage, OldStage, OnlyTempsGone, SameOn, RemovalStage,
         Gone, Fresh;
    GoneIsRefused(enclave, s.disk, c.Name());
    GoneStaysGone(enclave, s.disk, t.disk, c.Name());
    if OnlyTempsGone(s.disk, t.disk) || SameOn(s.disk, t.disk, DurableFiles(c.Name())) ||
      RemovalStage(s.disk, t.disk, c.Name()) {
      GoneIsDurable(c, s.disk, t.disk);
    }
    if LoadDone(enclave, s.disk, t.disk, c.Name()) {
      LoadDoneAccepted(enclave, s.disk, t.disk, c.Name());
    }
  }

  /** Once the record is gone no recovery, start-up or load brings the credential back. */
  lemma {:induction false} RemovedForever(enclave: Enclave, c: Credential, states: seq<State>, events: seq<Event>,
                                          i: nat, j: nat)
    requires Proper(c) && Run(enclave, c, states, events) && i <= j <= |events| && Removed(c, states[i])
    ensures Removed(c, states[j])
    ensures LoadVerdict(enclave, states[j].disk, c.Name()) == Refused
    decreases j
  {
    hide Step, Removed, LoadVerdict;
    if i < j {
      RemovedForever(enclave, c, states, events, i, j - 1);
      RemovedStep(enclave, c, states[j - 1], states[j], events[j - 1]);
    }
    RemovedIsRefused(enclave, c, states[j]);
  }

  lemma RemovedIsRefused(enclave: Enclave, c: Credential, s: State)
    requires Removed(c, s)
    ensures LoadVerdict(enclave, s.disk, c.Name()) == Refused
  {
  }
}
