# A verified model of ZeroFIDO

ZeroFIDO is FIDO2 authenticator firmware for a pocket device that can lose power at any moment and
whose file system can fail at any call.  This project models its credential store, its codecs and
its hashing in Dafny 4.11 and proves the properties the firmware relies on.  `dafny verify
dfyconfig.toml` checks all of it.

## The counter store

The centre of the project is the claim that a signature counter, once shown, is never undercut after
a reboot.  It is built in layers.

- `AtomicFile` is the primary/temporary/backup protocol.  `Volume.history` records every disk a power
  loss could leave, so a statement about all of `history` is a statement about every crash point.
- `Record`, `RecordFormat`, `RecordCodec`, `RecordRoundTrip` and `RecordIo` are the durable record, its
  sealed counter floor, the specification of the codec and the loops that implement it.
- `StorePaths`, `CounterGuard` and `CounterStore` place a counter on disk.  `Settled(c, disk, lo, hi)`
  says that the counter of credential `c` stands at or above `lo` and that nothing on the disk exceeds
  `hi`; every write and load keeps it at every crash point.
- `StoreIndex` and `CounterAdvance` are the index in RAM and the operations on it; `Recovery`,
  `BackupListing` and `Bootstrap` are deletion, recovery and start-up.
- `CounterDevice` runs these methods together against what has been shown to the outside;
  `CounterRuns` proves the same over every sequence of events, with the bounds on how far a counter can
  jump; `CounterPending` says how long a prepared advance may wait; `CounterLimits` shows where the
  guarantee ends.

Contracts speak of every failure and every crash point.  What a caller is owed when nothing goes wrong
is stated for `Faultless` environments: `Volume.sound` and `Enclave.steady` say that no primitive fails
and the key slot always loads, `CredentialStore.ample` that memory is there when it is asked for.

The remaining modules are the CBOR codec (`Utf8`, `CborHead`, `Cbor`, `CborCursor`, `CborSkip`,
`CanonicalCbor`), streaming hashes (`Sha256`, `HmacSha256`), DER (`Der`, `DerBuffer`, `EcdsaDer`,
`Certificate`, `CertificateBuilder`), lookup, policy and deletion (`StoreLookup`, `Policy`,
`DeleteOutcome`, `StoreDelete`, `DeletePhases`), responses (`AuthData`, `Response`, `MakeCredential`)
and relocation rewriting (`Relocation`).

## Assumptions

- A file system is a map from paths to bytes.  A primitive succeeds or fails without effect, except
  that an interrupted write or copy leaves a prefix of its data.  A rename unlinks its destination and
  then moves, and power loss or failure is possible in between; the SDK's `storage_common_rename` is
  not part of this model.  Any primitive, reading included, may fail at any time unless the volume is
  `sound`.
- The answers "exists" and "does not exist" are true.
- Sealing with the device key is ideal: it keeps lengths, and opening undoes it.  Whether the key slot
  loads is decided anew, and arbitrarily, for every use, unless the enclave is `steady`.
- Random initialisation vectors and serial bits, directory listings and the signing key are
  parameters.  A listing may hold any names in any order; no name occurs twice in the one the index is
  built from.  What start-up recovery achieves is stated for a listing that shows the backups that are
  there (`BackupListing.ListsBackups`).
- `record->file_name` is the hex of the credential id, as registration and the decoder make it.
- `size_t` has 32 bits.  Distinctness of credential ids is assumed where a lemma says so.

## What the model showed

- *Stranded companion.*  If power fails between the two halves of a rename of the `.counter` file and
  the rename of its backup fails at start-up (or the recovery pass stops earlier at another file), the
  loader sees no companion and trusts the record.  After a reservation that failed between its two
  writes the record is behind, and the credential loads with a counter below one already shown
  (`CounterLimits.StrandedCompanionRollsBack`).  So the steps of `CounterRuns` carry no condition, and
  the theorems name theirs: the run is `Guarded`.  `CounterRuns.LoadFallsBehindExactly` is the exact
  limit at every state such a run reaches; `CounterRuns.OnlyFailureStrands` says that only failed or
  interrupted operations strand a companion, and `Bootstrap.Init` that a start-up in which nothing
  fails leaves none stranded.
- *The order of a listing.*  Even then one companion can be lost: when a record without an embedded
  floor has its backup listed before that of its companion, the load that checks the record writes a
  new companion over the stranded one (`CounterLimits.OverwriteLowers`).  `Bootstrap.Init` states that
  it is exactly these credentials.
- *Prepare and publish belong together.*  The companion is not monotone: a later reservation for a
  smaller counter lowers it, and publishing the earlier advance then shows 100 over a disk that loads
  with 82 (`CounterLimits.LatePublicationRollsBack`).  `CounterRuns.PublishIsSafeExactly` is the exact
  condition on the disk; `CounterPending.PreparedInOrderStaysCovered` says what callers have to keep to.
- *Equal counters.*  `zf_store_prepare_counter_advance` accepts the counter RAM already holds, so strict
  growth needs callers that increment (`CounterRuns.UsedCountersIncrease`).
- *Lost failure.*  In the assertion response the status of a name that did not fit is overwritten when
  the credential count is written (`src/ctap/response.c:511`).  `Response.EmitAssertion` says exactly
  when success is reported for something else, `Response.TruncationCanBeHidden` for exactly which
  responses there is such a capacity; with 530 bytes it never happens.
- *Unreadable records.*  The encoder does not look at its texts, so it writes records that the decoder
  refuses; `RecordRoundTrip.RecordComesBack` says exactly which.

Where comments and code disagree, the model follows the code.  The comment at
`src/store/record_format.c:37-39` says that no second seal is embedded in the record, but the encoder
embeds one under key 17.  The comment at `src/store/recovery.c:119-122` says backups are restored when
the primary is missing or cannot be decoded; the code also restores them when the primary decodes but
its counter check, its key slot or the read fails.

## Model

| member | source | states |
|---|---|---|
| `AtomicFile.Volume.Rename` | src/zerofido_storage.c:313-313 | a rename unlinks its destination and moves afterwards; either half may fail or be cut off by power loss |
| `AtomicFile.Volume.RecoverAtomicFile` | src/zerofido_storage.c:237-263 | at every point the logical content (primary, else backup) is the old one; on success it is in the primary; failure leaves the backup stranded as it was; without a fault it succeeds and leaves exactly the primary |
| `AtomicFile.Volume.RemoveAtomicFile` | src/zerofido_storage.c:265-276 | names disappear in the order temporary, backup, primary; on success none is left and nothing else changed |
| `AtomicFile.Volume.PrepareAtomicBackup` | src/zerofido_storage.c:278-295 | an active backup is a complete copy of the primary; the logical content never changes |
| `AtomicFile.Volume.PublishAtomicTemp` | src/zerofido_storage.c:297-324 | one switch point: every earlier disk holds the old content, every later one the new; failure means old |
| `AtomicFile.Volume.WriteFileAtomic` | src/zerofido_storage.c:326-354 | from any disk the file is an atomic register: at most one switch from old to new, true means new, false means old, at every crash point; without a fault it succeeds and leaves the new file alone |
| `AtomicFile.CrashedWriteRecovers` | src/zerofido_storage.c:237-263 | power lost anywhere in a write and then a successful recovery leaves the primary old or new, whole, and no other file touched |
| `StorePaths.OwnFilesDiffer` | src/store/internal.h:39-59 | the six files of one credential are six different names that fit the path buffers |
| `StorePaths.CredentialsAreApart` | src/store/internal.h:39-59 | different record names have no file in common |
| `Record.HexEncodeInjective` | src/store/record_format.c:473-481 | the file name determines the credential id |
| `Record.FloorRoundTrip` | src/store/record_format.c:105-163 | a sealed floor is 52 bytes and opens to its counter exactly for the id and creation time it is bound to |
| `RecordFormat.DecodePairsIsLocal` | src/store/record_format.c:628-716 | the decode loop depends on the bytes it consumes and on nothing behind them |
| `RecordFormat.TornRecordIsRejected` | src/store/record_format.c:598-752 | no strict prefix of an accepted record is accepted, under any file name or key |
| `RecordCodec.DecodesListing` | src/store/record_format.c:628-752 | any listing of fields, in any order and among unknown pairs, decodes to what the fields say |
| `RecordRoundTrip.ShuffledRecordDecodes` | src/store/record_format.c:598-752 | a written record decodes to itself after any permutation of its pairs and any admixture of unknown keys whose values `skip` accepts |
| `RecordRoundTrip.EncodingFits` | src/store/record_format.c:383-461 | within field limits encoding succeeds whenever the key slot loads, in at most 776 of the 800 bytes |
| `RecordRoundTrip.BoundIsReached` | src/store/record_format.c:383-461 | the widest record takes exactly 776 bytes |
| `RecordRoundTrip.RecordComesBack` | src/store/record_format.c:383-752 | a written record comes back, with hmac secrets and embedded floor, if and only if its texts are UTF-8, credProtect is a defined value and the RP ID is not empty |
| `RecordRoundTrip.OnlyWholeRecordDecodes` | src/store/record_format.c:383-752 | of a written record nothing shorter than the whole file is accepted, even when the record itself is not decodable |
| `RecordRoundTrip.DecodedInBounds` | src/store/record_format.c:495-752 | what was decoded fits the arrays it is copied to |
| `RecordRoundTrip.KeylessDecode` | src/store/record_format.c:320-341 | a key slot that does not load only makes the decoder refuse more |
| `RecordIo.Encode` | src/store/record_format.c:383-461 | the chain of encoder calls writes the specified map into the 800-byte buffer, or fails exactly when the specification does |
| `RecordIo.ReadValue` | src/store/record_format.c:495-596 | one value is read as the kind of its key prescribes |
| `RecordIo.Decode` | src/store/record_format.c:598-752 | the cursor loop computes the specified decoding on every input |
| `CounterStore.HighWater` | src/store/record_format.c:96-103 | at least the requested counter, 32 above it, saturating instead of wrapping |
| `CounterStore.ReadFile` | src/zerofido_storage.c:96-127 | the whole file or nothing; without a fault, nothing only if it is missing, empty or too long |
| `CounterStore.WriteCounter` | src/store/record_format.c:166-187 | the companion is written atomically; when it succeeds it opens to the value; without a fault it succeeds |
| `CounterStore.WriteRecord` | src/store/record_format.c:865-892 | the record is written atomically; when it succeeds the file encodes it; without a fault every storable record is written |
| `CounterStore.ReserveCounter` | src/store/record_format.c:343-371 | first the companion, then the record, both at the high-water mark; every crash point lies in one of the two writes; without a fault it succeeds |
| `CounterStore.ReserveKeeps` | src/store/record_format.c:343-371 | a reservation keeps every counter bound wherever it is cut off, and once done the mark is the bound |
| `CounterStore.ValidateFloor` | src/store/record_format.c:204-266 | companion present: maximum of both, raised on disk if it lags; absent: embedded floor must equal the record; neither: a companion is made |
| `CounterStore.LoadRecord` | src/store/record_format.c:769-812 | a successful load yields the primary record with the validated counter; it writes nothing but a lagging or missing companion; without a fault it succeeds if and only if record and companion are accepted, and leaves exactly the companion |
| `CounterStore.LoadIndex` | src/store/record_format.c:823-858 | a loaded index entry has counter and high-water mark equal to the validated counter |
| `CounterStore.LoadingKeeps` | src/store/record_format.c:204-266 | a load keeps every counter bound wherever it is cut off, unless it makes a companion while the real one is stranded in its backup |
| `CounterStore.LoadDoneSettles` | src/store/record_format.c:204-266 | after a load the disk stands at exactly the counter that was loaded |
| `CounterGuard.DecodedIdentity` | src/store/record_format.c:483-493 | a record decoded under the name of an id carries that id |
| `CounterGuard.LoadKeepsBound` | src/store/record_format.c:204-266 | a load never yields less than the bound on disk, provided the companion is not stranded |
| `CounterGuard.RecordFileWithin` | src/store/record_format.c:383-752 | whatever can be read out of a written record, whole or torn, carries its counter |
| `CounterGuard.RecordWriteKeeps` | src/store/record_format.c:865-892 | writing a record keeps the counter bound at every crash point |
| `CounterGuard.CounterWriteKeeps` | src/store/record_format.c:166-187 | writing the companion keeps the bound at every crash point; written, it is the bound |
| `CounterAdvance.PrepareCounterAdvance` | src/zerofido_store.c:509-528 | the disk covers the counter before it is handed out; no disk access while the mark suffices |
| `CounterAdvance.PublishCounterAdvance` | src/zerofido_store.c:530-555 | RAM moves to the counter and mark only if the mark covers it and it is not behind; otherwise nothing changes |
| `CounterAdvance.AdvanceCounter` | src/zerofido_store.c:478-507 | prepare and publish of the first entry with the id, with every crash point; without a fault it succeeds for every counter that is not behind |
| `CounterAdvance.UpdateRecord` | src/zerofido_store.c:334-378 | the record is written with its counter raised to the mark, after a reservation when needed; RAM follows |
| `CounterAdvance.AddRecord` | src/zerofido_store.c:281-298 | the file is on disk before the entry is in the index |
| `CounterAdvance.UpdateKeeps` | src/zerofido_store.c:334-378 | an update keeps the bound wherever it is cut off and covers the new mark when done |
| `CounterAdvance.ReservationsPerAdvance` | src/zerofido_store.c:509-555 | n unit advances, each as an advance completes them, from a fresh load make exactly n/33 reservations, rounded up |
| `CounterAdvance.ReservationsReachTheDisk` | src/zerofido_store.c:509-555 | the advances counted are those that completed a reservation on disk; the others left it untouched |
| `CounterAdvance.MarkNeverWraps` | src/store/record_format.c:96-103 | over any number of unit advances the mark covers the counter, stays below 2^32 and at most 32 ahead |
| `CounterDevice.Device.Use` | src/zerofido_store.c:478-507 | the running code: every disk power loss can leave during an advance covers what was shown; success shows the new counter over a disk that covers it |
| `CounterDevice.Device.Change` | src/zerofido_store.c:334-378 | the same for an update |
| `CounterDevice.Device.Register` | src/zerofido_store.c:281-298 | the same for a registration |
| `CounterDevice.Device.Remove` | src/zerofido_store.c:733-757 | the same for a deletion |
| `CounterDevice.Device.Load` | src/store/record_format.c:807-812 | with the companion in place a load yields at least what was shown and at least the mark in RAM |
| `CounterDevice.Device.Restart` | src/store/bootstrap.c:70-101 | after power loss to any covering disk, start-up rebuilds a safe index or met the companion stranded; when nothing fails it met it only if the record has no floor and comes first, every record is recovered, and every listed record that loads is in the index |
| `CounterRuns.StepKeeps` | src/zerofido_store.c:334-555 | shown <= RAM counter <= RAM mark <= disk, over every kind of step that is guarded |
| `CounterRuns.CountersNeverRollBack` | src/zerofido_store.c:334-555 | in every guarded run every counter ever shown is at most what any later load or start-up yields |
| `CounterRuns.UsedCountersIncrease` | src/zerofido_store.c:509-555 | if callers always ask for more than they saw, shown counters strictly increase over the whole run |
| `CounterRuns.PowerCycleCostsOneWindow` | src/store/record_format.c:343-371 | with unit steps a load yields at most 33 above the largest counter shown or loaded before |
| `CounterRuns.RemovedForever` | src/store/recovery.c:146-158 | once no copy of the record is left, no run of recoveries, loads and power losses brings it back |
| `CounterRuns.LoadFallsBehindExactly` | src/store/record_format.c:204-266 | at every state a guarded run reaches, a load gives back what was shown if and only if the companion is in place or the record is not behind it |
| `CounterRuns.OnlyFailureStrands` | src/zerofido_store.c:334-555 | no operation that completes strands a companion |
| `CounterRuns.PublishIsSafeExactly` | src/zerofido_store.c:530-555 | with a companion on disk, publishing keeps the safety of RAM and disk if and only if the mark is covered |
| `CounterPending.PreparedStaysCovered` | src/zerofido_store.c:509-555 | a prepared advance stays publishable while power lasts, the credential is kept and no reservation is made for a lower mark |
| `CounterPending.PreparedInOrderStaysCovered` | src/zerofido_store.c:509-555 | in particular while nobody asks for a smaller counter |
| `CounterLimits.LoadBelowCompanionExactly` | src/store/record_format.c:204-266 | a load yields at least the reserved counter if and only if the companion is in place or the record is up to date |
| `CounterLimits.OverwriteLowers` | src/store/record_format.c:222-242 | loading a record without a floor over a stranded companion leaves a companion at the counter of the record |
| `CounterLimits.LaterReservationLowers` | src/store/record_format.c:343-371 | whatever stood there before, after a reservation the disk covers exactly the marks up to its own, and that is what a load yields |
| `CounterLimits.StrandedCompanionRollsBack` | src/store/recovery.c:67-74 | a concrete run, guarded but for its last step, that shows 34 and then starts up with 0 |
| `CounterLimits.LatePublicationRollsBack` | src/zerofido_store.c:530-555 | a concrete run, guarded but for its last step, that prepares 100 and 50 and publishes 100 over a disk that loads with 82 |
| `Recovery.RemoveRecordPaths` | src/store/recovery.c:146-158 | record files first, then the companion; on success exactly the six files are gone |
| `Recovery.RemovalIsOrdered` | src/store/recovery.c:146-158 | wherever it is cut off, the record backup goes before the record and the companion is touched only when both are gone |
| `Recovery.RemovalKeeps` | src/store/recovery.c:146-158 | a removal cut off anywhere keeps the counter bound |
| `Recovery.SettleBackup` | src/store/recovery.c:57-64 | a valid primary stays and the backup goes; otherwise the backup takes its place |
| `Recovery.RecoverRecordBackup` | src/store/recovery.c:33-65 | a primary that loads is kept and the backup dropped, always so when nothing fails; a refused one is replaced by exactly the backup |
| `Recovery.TornPrimaryIsRefused` | src/store/recovery.c:33-65 | a missing or torn primary is always recognised |
| `Recovery.RecoverKeeps` | src/store/recovery.c:48-65 | recovering a record keeps the counter bound at every crash point |
| `Recovery.GoneStaysGone` | src/store/recovery.c:48-74 | no recovery or load makes a copy of a removed record |
| `Recovery.CompanionRecoveryKeeps` | src/store/recovery.c:67-74 | recovering the companion keeps the bound |
| `Bootstrap.RemoveTemps` | src/zerofido_storage.c:174-216 | only temporaries go, until one cannot be removed |
| `BackupListing.TargetHasOneName` | src/store/recovery.c:87-113 | a backup is recognised under one name only |
| `BackupListing.WholeDirectoryListsBackups` | src/zerofido_storage.c:129-164 | a listing of the whole directory shows the backups that are there |
| `BackupListing.RecoveryKeepsRecord` | src/store/recovery.c:48-65 | wherever a recovery is cut off, one whole copy of the record is there |
| `BackupListing.CleanedOneMore` | src/store/recovery.c:76-117 | each visit recovers one credential and leaves the others alone, so only the order of the two backups of one credential matters |
| `BackupListing.CleanedLeavesNone` | src/store/recovery.c:123-137 | after a pass in which nothing fails no companion is stranded and every record is its primary, or its backup if the primary was refused |
| `Bootstrap.CleanupVisitor` | src/store/recovery.c:76-117 | every crash point lies in the recovery of the one file that is named; a companion backup that was visited is no longer stranded; without a fault the effect is exact |
| `Bootstrap.CleanupTempFiles` | src/store/recovery.c:123-137 | bounds are lost only for credentials met stranded, no file of anything else is touched and, if the listing is true, no record is lost; when nothing fails no companion is left stranded, and those met are exactly the ones whose record has no floor and is listed first |
| `Bootstrap.IndexVisitor` | src/store/bootstrap.c:41-64 | a record that loads gets the next slot; anything else is skipped; without a fault every record that loads gets one |
| `Bootstrap.Init` | src/store/bootstrap.c:70-101 | every bound of every credential not met stranded survives start-up and its entry stands at or above it, at every crash point; when nothing fails those met are exactly known, every record is recovered and every listed record that loads is in the index |
| `StoreIndex.CredentialStore.EnsureCapacity` | src/zerofido_store.c:143-181 | the array doubles up to 32, entries stay, new slots are blank |
| `StoreIndex.CredentialStore.CompactAfterDelete` | src/zerofido_store.c:128-134 | the entry is taken out, order kept, the freed slot blank |
| `StoreIndex.CredentialStore.FindIndexById` | src/zerofido_store.c:759-781 | the first entry in use with the id, or none |
| `StoreIndex.CredentialStore.Clear` | src/zerofido_store.c:223-235 | all slots blank |
| `StoreLookup.NewerIsOrder` | src/zerofido_store.c:101-108 | newer is a strict order, total on distinct ids |
| `StoreLookup.InsertedIsSorted` | src/zerofido_store.c:110-125 | insertion keeps the list newest first |
| `StoreLookup.InsertSortedIndex` | src/zerofido_store.c:110-125 | the in-place shift performs exactly that insertion |
| `StoreLookup.LookupIsComplete` | src/zerofido_store.c:815-866 | a lookup lists each matching entry exactly once, strictly newest first |
| `StoreLookup.NewestFirstIsUnique` | src/zerofido_store.c:815-866 | there is only one such list |
| `StoreLookup.FindByRp` | src/zerofido_store.c:815-837 | the scan computes it for resident credentials of the relying party |
| `StoreLookup.FindByRpFiltered` | src/zerofido_store.c:839-866 | and for any filter |
| `Policy.ResolveAssertionMatches` | src/ctap/policy.c:142-166 | the lookup filtered by credProtect, in order |
| `Policy.AssertionMatchesAreExact` | src/ctap/policy.c:126-166 | exactly the candidates credProtect lets through, each once, newest first; no other list qualifies |
| `Policy.ExcludeListHasVisibleMatch` | src/ctap/policy.c:87-124 | when nothing fails, true exactly if some visible listed entry is not known to belong to another relying party; a failure never hides a match |
| `DeleteOutcome.BelongsTo` | src/zerofido_store.c:571-583 | true only if the entry is a candidate and its record loads and names the account; when nothing fails, exactly then |
| `StoreDelete.DeleteOnePass` | src/zerofido_store.c:557-601 | when nothing fails it succeeds with the survivors in order, no file of a doomed entry and every other file as a load leaves it; whatever fails, only doomed entries leave; freed slots are blank |
| `DeletePhases.FindIndices` | src/zerofido_store.c:621-673 | the ascending positions of doomed entries; when nothing fails, of all of them, and it fails exactly if there are more than fit |
| `DeletePhases.RemoveFilesByIndices` | src/zerofido_store.c:679-715 | exactly the files of those entries go; without a fault it fails only at an index that is not in use |
| `DeletePhases.PublishDeletedIndices` | src/zerofido_store.c:717-730 | taking them out from the back leaves the others in order and blank freed slots |
| `DeletePhases.PhasesAgree` | src/zerofido_store.c:603-730 | both phases name the same entries as the one-pass scan |
| `DeletePhases.DeleteTwoPhase` | src/zerofido_store.c:603-730 | when nothing fails it succeeds with the outcome of the one-pass deletion; whatever fails, only doomed entries leave |
| `DeleteOutcome.DeletionsAgree` | src/zerofido_store.c:557-730 | any two deletions with that outcome leave the same index and the same file names; files differ at most in companions made on the way, which open to the same counter |
| `DeletePhases.QuietDeletion` | src/zerofido_store.c:557-730 | where no companion has to be made, exactly the files of the doomed entries are gone |
| `StoreDelete.DeleteRecord` | src/zerofido_store.c:733-757 | files first, then the entry; a failed removal leaves the index alone |
| `Utf8.IsValid` | src/zerofido_cbor.c:55-122 | accepts exactly the concatenations of encodings of Unicode scalar values |
| `CborHead.HeadBijection` | src/zerofido_cbor.c:134-165 | the strict reader returns a head if and only if the input is its encoding followed by the rest |
| `Cbor.HeadBytes` | src/zerofido_cbor.c:134-165 | the shift-by-shift head is the minimal one |
| `Cbor.IntBijection` | src/zerofido_cbor.c:186-192 | exactly the encodings of int64 are read as ints |
| `Cbor.StringBijection` | src/zerofido_cbor.c:355-372 | exactly the encodings of byte strings are read as such |
| `Cbor.BoolBijection` | src/zerofido_cbor.c:338-353 | exactly the encodings of the two booleans are read as such |
| `Cbor.TextBijection` | src/zerofido_cbor.c:374-394 | and of valid UTF-8 texts |
| `Cbor.CountBijection` | src/zerofido_cbor.c:396-424 | and of array and map headers up to 2^32 - 1 |
| `Cbor.Encoder.Append` | src/zerofido_cbor.c:124-132 | succeeds if and only if it fits; bytes below the entry offset never change |
| `Cbor.Encoder.ByteString` | src/zerofido_cbor.c:199-202 | the encoding is written if and only if it fits |
| `Cbor.Encoder.Text` | src/zerofido_cbor.c:223-230 | likewise; a failure leaves the head if that fits, and else nothing |
| `Cbor.Encoder.ReserveBytes` | src/zerofido_cbor.c:204-221 | room for exactly the bytes asked for, or nothing moves |
| `CborCursor.Cursor.StrictHead` | src/zerofido_cbor.c:254-304 | the cursor reads exactly what the specification reads |
| `CborCursor.Cursor.Int` | src/zerofido_cbor.c:314-336 | the cursor reads exactly the int64 encodings |
| `CborCursor.Cursor.Text` | src/zerofido_cbor.c:374-394 | the cursor reads exactly the valid texts |
| `CborCursor.Cursor.SkipInner` | src/zerofido_cbor.c:478-519 | the recursive skip consumes exactly what the specification says and terminates on every input |
| `CborSkip.SkipIsExact` | src/zerofido_cbor.c:478-523 | on the encoding of any value, whatever follows, skip takes exactly the encoding if it nests at most 16 deep and fails if deeper |
| `CborSkip.SkipIsLocal` | src/zerofido_cbor.c:478-523 | the outcome depends only on the bytes consumed |
| `CborSkip.SkipRejectsTruncation` | src/zerofido_cbor.c:478-523 | no strict prefix of an accepted item is accepted |
| `Sha256.Context.Update` | src/crypto/sha256.c:120-141 | appends to the hashed message for any chunk length |
| `Sha256.Context.Pad` | src/crypto/sha256.c:143-154 | the two updates of the padding give the marked message of section 5.1.1 of FIPS 180-4 |
| `Sha256.Context.Transform` | src/crypto/sha256.c:57-106 | one step of the compression function of section 6.2.2 of FIPS 180-4 |
| `Sha256.Context.Finish` | src/crypto/sha256.c:143-161 | outputs the hash of everything absorbed |
| `Sha256.HashChunks` | src/crypto/sha256.c:108-161 | any chunking gives the one-shot hash of the concatenation |
| `HmacSha256.Scratch.Parts` | src/crypto/hmac_sha256.c:25-65 | the two-part HMAC is HMAC of the concatenation |
| `HmacSha256.HmacSha256` | src/crypto/hmac_sha256.c:76-79 | HMAC-SHA-256 of section 2 of RFC 2104 |
| `HmacSha256.OneBlockHkdf` | src/crypto/hmac_sha256.c:81-106 | 32 bytes of HKDF are one expand block |
| `HmacSha256.HkdfSha256` | src/crypto/hmac_sha256.c:81-106 | extract-then-expand of sections 2.2 and 2.3 of RFC 5869, refusing exactly an info of 64 bytes or more |
| `EcdsaDer.ContentsAreMinimal` | src/crypto/ecdsa_der.c:13-31 | the INTEGER contents are minimal, positive and of the same value |
| `EcdsaDer.MinimalIsUnique` | src/crypto/ecdsa_der.c:13-31 | no other contents are |
| `EcdsaDer.EncodeSignature` | src/crypto/ecdsa_der.c:33-57 | a SEQUENCE of two such INTEGERs in at most 72 bytes, or nothing if it does not fit |
| `EcdsaDer.DecodeSignature` | src/crypto/ecdsa_der.c:115-141 | the decoder computes the specified reading on every input |
| `EcdsaDer.SignatureRoundTrip` | src/crypto/ecdsa_der.c:13-141 | every printed signature reads back as r and s |
| `EcdsaDer.AcceptedSignature` | src/crypto/ecdsa_der.c:86-141 | for every accepted input the fixed-width outputs have the value of the INTEGER contents |
| `Der.DecodeElement` | src/attestation/local.c:199-215 | a tag and its bounded length, on arbitrary bytes |
| `DerBuffer.Buffer.AppendTlv` | src/attestation/local.c:136-140 | appended if and only if it fits |
| `DerBuffer.Buffer.AppendInteger` | src/attestation/local.c:142-159 | the minimal positive INTEGER |
| `DerBuffer.Buffer.WrapTlvInPlace` | src/attestation/local.c:114-134 | the contents, moved in place, become the value of one element, or nothing changes |
| `CertificateBuilder.BuildTbs` | src/attestation/local.c:589-638 | the certificate body, if and only if it fits 512 bytes |
| `CertificateBuilder.BuildCert` | src/attestation/local.c:640-679 | the certificate, if and only if it fits 768 bytes |
| `CertificateBuilder.ShippedProfileFits` | src/zerofido_attestation.c:45-62 | with the shipped profile both buffers always suffice |
| `CertificateBuilder.ShippedSubjectIsSequence` | src/zerofido_attestation.c:45-54 | the shipped subject is one well-formed SEQUENCE |
| `Certificate.ExtractPublicKey` | src/attestation/local.c:429-520 | the parser terminates in bounds on arbitrary bytes and computes the specified extraction |
| `CertificateBuilder.BuiltCertificateYieldsItsPoint` | src/attestation/local.c:429-679 | the parser finds in every built certificate exactly the point it was built with |
| `CertificateBuilder.ExtractedPointOccurs` | src/attestation/local.c:429-520 | an extracted point is a 65-byte run of the input that starts with 0x04 |
| `AuthData.BuildAuthData` | src/ctap/response.c:99-157 | authenticatorData is written in place, in exactly its computed size, or not at all |
| `AuthData.SizeIsExact` | src/ctap/response.c:159-169 | the size computed in advance is the size written |
| `AuthData.ParserRecoversAuthData` | host_tools/ctaphid_probe.py:1243-1263 | the host parser recovers flags, counter, aaguid and credential id from what the device wrote |
| `CanonicalCbor.KeysAscendAppend` | src/ctap/response.c:438-526 | a map stays in CTAP2 key order when a later key is appended |
| `Response.AssertionIsCanonical` | src/ctap/response.c:438-526 | the assertion is a map with as many pairs as declared, keys in CTAP2 canonical order, texts valid UTF-8 |
| `Response.AssertionIsOneItem` | src/ctap/response.c:438-526 | the parser of the device takes the whole response as one item and nothing behind it |
| `Response.AssertionFits` | src/ctap/response.c:438-526 | 530 bytes always suffice |
| `Response.EmitAssertion` | src/ctap/response.c:471-522 | success is reported if and only if all of it fits or a failure of the names is hidden by the count; what is then written is the response exactly in the first case |
| `Response.TruncationCanBeHidden` | src/ctap/response.c:503-512 | exactly which responses have a capacity at which success is reported for something else |
| `Response.BuildAssertionResponse` | src/ctap/response.c:438-526 | authenticatorData, signature over its hash with the client data, and the map; success is reported exactly if it fits or a truncation is hidden; correct for every capacity of at least 530 |
| `MakeCredential.CoseIsCanonical` | src/zerofido_cbor.c:240-247 | the COSE key is one canonical map of 77 bytes |
| `MakeCredential.EncodeCoseKey` | src/ctap/response.c:49-64 | and always fits its scratch |
| `MakeCredential.ExtensionsAreCanonical` | src/ctap/response.c:66-90 | the extension outputs are one canonical map |
| `MakeCredential.ResponseIsCanonical` | src/ctap/response.c:297-349 | the makeCredential response is one canonical map |
| `MakeCredential.EmitAuthData` | src/ctap/response.c:332-338 | authenticatorData is built in the room reserved for exactly its size |
| `MakeCredential.BuildNoneResponse` | src/ctap/response.c:297-349 | succeeds if and only if the response fits, always with 204 bytes, and then is the response |
| `MakeCredential.ResponseIsOneItem` | src/ctap/response.c:297-349 | the parser of the device takes the whole attestation response as one item and nothing behind it |
| `Relocation.SectionRoundTrip` | host_tools/check_symbol_gate.py:247-285 | a section is accepted with these groups if and only if it prints them |
| `Relocation.RemapPreservesStructure` | host_tools/check_symbol_gate.py:247-285 | same length, same groups, only the section index of each flagged group replaced by its image |
| `Relocation.RemapThereAndBack` | host_tools/check_symbol_gate.py:247-285 | remapping with an injective map and its inverse is the identity |
| `Relocation.RemapFastRelocationData` | host_tools/check_symbol_gate.py:247-285 | patching in place while parsing computes exactly that, and raises exactly when it is undefined |

## Left out

- `zf_store_bootstrap_wipe_app_data`, the PIN and U2F files and the encrypted-blob storage format: they remove or wrap files without touching a counter.
- Registration of a credential whose id is already on disk: ids are 32 random bytes, and the run model registers only a fresh one.
- `zf_store_load_record_by_index_with_buffer` and the display loader: they skip the counter check or overwrite its result for the user interface.
- The index with a statically provided array (`capacity` zero): only host tests use it.
- `ZF_HOST_TEST` variants, diagnostics, telemetry and the user interface.
- `zf_ctap_build_packed_make_credential_response_with_scratch` and getInfo: the same encoder calls as the responses modelled here, with more fixed fields.
- getAssertion and makeCredential handlers, the assertion queue, PIN state and transports: they call the store one operation at a time.
- P-256 arithmetic and the hardware AES: signing is a parameter, sealing an ideal pair.
- Zeroing of buffers and constant-time comparison.
- Loading stored attestation certificates and keys: only building and parsing are modelled.
- `zf_store_has_matching_credential_with_buffer`: the exclude-list check without credProtect.
- Host tools other than the relocation rewriting and the authenticatorData parser.
- Relocation.RemapFastRelocationData: the errors raised are one outcome, without their texts.
