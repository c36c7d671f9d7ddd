/**
 Where the signature counter of a credential lives on disk, what a load makes of it, and the bounds
 that every write keeps.  The sealed `.counter` file wins when it is there; without it the record
 speaks for itself through its embedded floor.
 */
module CounterGuard {
  import opened Bytes
  import opened AtomicFile
  import opened Record
  import opened RecordFormat
  import opened RecordCodec
  import opened RecordRoundTrip
  import opened StorePaths

  /** What a counter is bound to. */
  datatype Credential = Credential(id: seq<byte>, createdAt: uint32) {
    function Name(): string {
      HexEncode(id)
    }
  }

  ghost predicate Proper(c: Credential) {
    |c.id| == 32
  }

  function CredentialOf(r: CredentialRecord): Credential {
    Credential(r.credentialId, r.createdAt)
  }

  function CounterValue(enclave: Enclave, c: Credential, content: seq<byte>): Option<uint32> {
    DecodeFloor(enclave, c.id, c.createdAt, content)
  }

  /** The counter file of `c` as far as the atomic-file protocol is concerned. */
  function CounterFile(d: Disk, c: Credential): Option<Content> {
    Logical(d, CounterPath(c.Name()))
  }

  /** The companion exists only as a backup. */
  predicate CounterOrphaned(d: Disk, c: Credential) {
    Orphaned(d, CounterPath(c.Name()))
  }

  /** Any record that can be read out of `content`, whole or cut short, has its counter in the range. */
  ghost predicate CopyWithin(enclave: Enclave, c: Credential, content: seq<byte>, lo: nat, hi: nat) {
    forall k {:trigger content[..k]} :: 0 <= k <= |content| && DecodeRecord(enclave, content[..k], c.Name()).Some? ==>
      var r := DecodeRecord(enclave, content[..k], c.Name()).value.record;
      r.createdAt == c.createdAt && lo <= r.signCount <= hi
  }

  /** Both copies of the record of `c` are so bounded. */
  ghost predicate CopiesWithin(enclave: Enclave, c: Credential, d: Disk, lo: nat, hi: nat) {
    && (RecordPath(c.Name()) in d ==> CopyWithin(enclave, c, d[RecordPath(c.Name())], lo, hi))
    && (Backup(RecordPath(c.Name())) in d ==> CopyWithin(enclave, c, d[Backup(RecordPath(c.Name()))], lo, hi))
  }

  /**
   The counter of `c` on this disk is at least `lo` and nothing on it is beyond `hi`: the companion
   says so, or, when there is none at all, every copy of the record carries exactly `lo`.
   */
  ghost predicate Settled(enclave: Enclave, c: Credential, d: Disk, lo: nat, hi: nat) {
    match CounterFile(d, c)
    case Some(file) =>
      && CounterValue(enclave, c, file).Some? && lo <= CounterValue(enclave, c, file).value <= hi
      && CopiesWithin(enclave, c, d, 0, hi)
    case None => lo <= hi && CopiesWithin(enclave, c, d, lo, lo)
  }

  /** The same without saying where exactly above `lo` the counter stands. */
  ghost predicate Bounded(enclave: Enclave, c: Credential, d: Disk, lo: nat, hi: nat) {
    exists at :: lo <= at && Settled(enclave, c, d, at, hi)
  }

  // What a load computes.

  /** The verdict on a counter: refused, or a value, and perhaps a new companion to write. */
  datatype Verdict = Refused | Accepted(value: uint32, write: bool)

  /** `zf_store_counter_floor_validate_fields`. */
  function Validate(enclave: Enclave, c: Credential, companion: Option<Content>, signCount: uint32,
                    embedded: Option<seq<byte>>): Verdict {
    match companion
    case None =>
      (match embedded
       case None => Accepted(signCount, true)
       case Some(floor) =>
         if CounterValue(enclave, c, floor) == Some(signCount) then Accepted(signCount, false) else Refused)
    case Some(file) =>
      match CounterValue(enclave, c, file)
      case None => Refused
      case Some(stored) => if stored < signCount then Accepted(signCount, true) else Accepted(stored, false)
  }

  /** The record under the primary name, as long as it fits the read buffer. */
  ghost function PrimaryRecord(enclave: Enclave, d: Disk, name: string): Option<Decoded> {
    match Lookup(d, RecordPath(name))
    case None => None
    case Some(data) => if 0 < |data| <= RECORD_MAX_SIZE then DecodeRecord(enclave, data, name) else None
  }

  /** What loading the credential yields when every primitive works. */
  ghost function LoadVerdict(enclave: Enclave, d: Disk, name: string): Verdict {
    match PrimaryRecord(enclave, d, name)
    case None => Refused
    case Some(x) =>
      Validate(enclave, CredentialOf(x.record), Lookup(d, CounterPath(name)), x.record.signCount, x.floor)
  }

  /** The same with a companion that is given. */
  ghost function VerdictWith(enclave: Enclave, d: Disk, name: string, companion: Option<Content>): Verdict {
    match PrimaryRecord(enclave, d, name)
    case None => Refused
    case Some(x) => Validate(enclave, CredentialOf(x.record), companion, x.record.signCount, x.floor)
  }

  /** A load would make a companion for an unsealed record while the real one is stranded in its backup. */
  ghost predicate WouldOverwrite(enclave: Enclave, d: Disk, name: string) {
    && Orphaned(d, CounterPath(name))
    && PrimaryRecord(enclave, d, name).Some? && PrimaryRecord(enclave, d, name).value.floor.None?
  }

  lemma DecodedName(enclave: Enclave, data: seq<byte>, name: string)
    requires DecodeRecord(enclave, data, name).Some?
    ensures HexEncode(DecodeRecord(enclave, data, name).value.record.credentialId) == name
  {
  }

  lemma DecodedIdentity(enclave: Enclave, data: seq<byte>, id: seq<byte>)
    requires DecodeRecord(enclave, data, HexEncode(id)).Some?
    ensures DecodeRecord(enclave, data, HexEncode(id)).value.record.credentialId == id
  {
    DecodedName(enclave, data, HexEncode(id));
    hide DecodeRecord, HexEncode;
    HexEncodeInjective(DecodeRecord(enclave, data, HexEncode(id)).value.record.credentialId, id);
  }

  /**
   A load never yields less than the bound, provided the companion is not stranded in its backup;
   when it is, the record is all the load goes by.
   */
  lemma LoadKeepsBound(enclave: Enclave, c: Credential, d: Disk, lo: nat, hi: nat)
    requires Proper(c) && Settled(enclave, c, d, lo, hi)
    requires LoadVerdict(enclave, d, c.Name()).Accepted?
    ensures PrimaryRecord(enclave, d, c.Name()).Some? &&
      CredentialOf(PrimaryRecord(enclave, d, c.Name()).value.record) == c
    ensures LoadVerdict(enclave, d, c.Name()).value <= hi
    ensures !CounterOrphaned(d, c) ==> lo <= LoadVerdict(enclave, d, c.Name()).value
    ensures CounterFile(d, c).None? ==> LoadVerdict(enclave, d, c.Name()).value == lo
    ensures CounterOrphaned(d, c) ==>
      LoadVerdict(enclave, d, c.Name()).value == PrimaryRecord(enclave, d, c.Name()).value.record.signCount
  {
    hide DecodeRecord, DecodeFloor, HexEncode;
    var data := d[RecordPath(c.Name())];
    assert data[..|data|] == data;
    DecodedIdentity(enclave, data, c.id);
  }

  /** The counter a load settles on without writing is one the disk already stands at. */
  lemma LoadSettles(enclave: Enclave, c: Credential, d: Disk, lo: nat, hi: nat)
    requires Proper(c) && Settled(enclave, c, d, lo, hi) && !CounterOrphaned(d, c)
    requires LoadVerdict(enclave, d, c.Name()).Accepted? && !LoadVerdict(enclave, d, c.Name()).write
    ensures Settled(enclave, c, d, LoadVerdict(enclave, d, c.Name()).value, hi)
  {
    hide PrimaryRecord, DecodeFloor, HexEncode, CopiesWithin;
    LoadKeepsBound(enclave, c, d, lo, hi);
  }

  // What writes do to the bounds.

  ghost predicate IsCounterFile(enclave: Enclave, c: Credential, data: Content, value: uint32) {
    |data| == COUNTER_FLOOR_SIZE && CounterValue(enclave, c, data) == Some(value)
  }

  ghost predicate IsRecordFile(enclave: Enclave, data: Content, r: CredentialRecord) {
    && InBounds(r)
    && exists floorIv, hmacIv :: |floorIv| == |hmacIv| == 16 && EncodeRecord(enclave, r, floorIv, hmacIv) == Some(data)
  }

  /** Some point of writing the companion with `value`: nothing of it shows yet, or all of it does. */
  ghost predicate CounterStage(enclave: Enclave, c: Credential, d0: Disk, d: Disk, value: uint32) {
    OldStage(d0, d, CounterPath(c.Name()), CounterTemp(c.Name())) || CounterWritten(enclave, c, d0, d, value)
  }

  ghost predicate CounterWritten(enclave: Enclave, c: Credential, d0: Disk, d: Disk, value: uint32) {
    exists data ::
      IsCounterFile(enclave, c, data, value) && NewStage(d0, d, CounterPath(c.Name()), CounterTemp(c.Name()), data)
  }

  /** The companion has been written with `value`, and no primitive failed. */
  ghost predicate CounterReplaced(enclave: Enclave, c: Credential, d0: Disk, d: Disk, value: uint32) {
    exists data :: IsCounterFile(enclave, c, data, value) &&
      d == Replaced(d0, CounterPath(c.Name()), CounterTemp(c.Name()), data)
  }

  /** Some point of writing the record file. */
  ghost predicate RecordStage(enclave: Enclave, d0: Disk, d: Disk, r: CredentialRecord) {
    var name := HexEncode(r.credentialId);
    OldStage(d0, d, RecordPath(name), RecordTemp(name)) || RecordWritten(enclave, d0, d, r)
  }

  ghost predicate RecordWritten(enclave: Enclave, d0: Disk, d: Disk, r: CredentialRecord) {
    var name := HexEncode(r.credentialId);
    exists data :: IsRecordFile(enclave, data, r) && NewStage(d0, d, RecordPath(name), RecordTemp(name), data)
  }

  /** Whatever can be read out of a written record is that record. */
  lemma WrittenRecordReads(enclave: Enclave, r: CredentialRecord, floorIv: seq<byte>, hmacIv: seq<byte>,
                           data: seq<byte>, k: nat)
    requires InBounds(r) && enclave.Ideal() && |floorIv| == |hmacIv| == 16
    requires EncodeRecord(enclave, r, floorIv, hmacIv) == Some(data) && k <= |data|
    requires DecodeRecord(enclave, data[..k], HexEncode(r.credentialId)).Some?
    ensures DecodeRecord(enclave, data[..k], HexEncode(r.credentialId)).value.record == Stored(r)
  {
    hide EncodeRecord, DecodeRecord, HexEncode, InBounds, Decodable, DecodeFloor;
    OnlyWholeRecordDecodes(enclave, r, floorIv, hmacIv, data, k, HexEncode(r.credentialId));
    assert data[..k] == data;
    RecordComesBack(enclave, r, floorIv, hmacIv, data);
  }

  /** A written record is within any range that its counter is in. */
  lemma RecordFileWithin(enclave: Enclave, c: Credential, data: Content, r: CredentialRecord, lo: nat, hi: nat)
    requires IsRecordFile(enclave, data, r) && CredentialOf(r) == c && enclave.Ideal() && lo <= r.signCount <= hi
    ensures CopyWithin(enclave, c, data, lo, hi)
  {
    hide EncodeRecord, DecodeRecord, HexEncode, InBounds;
    var floorIv, hmacIv :| |floorIv| == |hmacIv| == 16 && EncodeRecord(enclave, r, floorIv, hmacIv) == Some(data);
    forall k | 0 <= k <= |data| && DecodeRecord(enclave, data[..k], c.Name()).Some?
      ensures DecodeRecord(enclave, data[..k], c.Name()).value.record == Stored(r)
    {
      WrittenRecordReads(enclave, r, floorIv, hmacIv, data, k);
    }
  }

  lemma CopyPrefix(enclave: Enclave, c: Credential, content: seq<byte>, prefix: seq<byte>, lo: nat, hi: nat)
    requires CopyWithin(enclave, c, content, lo, hi) && prefix <= content
    ensures CopyWithin(enclave, c, prefix, lo, hi)
  {
    hide DecodeRecord;
    forall k | 0 <= k <= |prefix|
      ensures prefix[..k] == content[..k]
    {
    }
  }

  /** Raising the upper bound. */
  lemma SettledBelow(enclave: Enclave, c: Credential, d: Disk, lo: nat, hi: nat, hi1: nat)
    requires Settled(enclave, c, d, lo, hi) && hi <= hi1
    ensures Settled(enclave, c, d, lo, hi1)
  {
  }

  /** With a companion there is room below. */
  lemma SettledLower(enclave: Enclave, c: Credential, d: Disk, lo: nat, hi: nat, lo1: nat)
    requires Settled(enclave, c, d, lo, hi) && CounterFile(d, c).Some? && lo1 <= lo
    ensures Settled(enclave, c, d, lo1, hi)
  {
    hide CopiesWithin, DecodeFloor, HexEncode;
  }

  ghost predicate SameOn(d0: Disk, d: Disk, names: set<Path>) {
    forall p :: p in names ==> Lookup(d, p) == Lookup(d0, p)
  }

  /** Whatever happens to other files. */
  lemma OthersDoNotMatter(enclave: Enclave, c: Credential, d0: Disk, d: Disk, lo: nat, hi: nat)
    requires Settled(enclave, c, d0, lo, hi) && SameOn(d0, d, DurableFiles(c.Name()))
    ensures Settled(enclave, c, d, lo, hi)
  {
  }

  /** Another credential's files are other files. */
  lemma OtherCredential(d0: Disk, d: Disk, name: string, other: string)
    requires |name| == |other| && name != other && AgreeOutside(d0, d, FilesOf(name))
    ensures SameOn(d0, d, FilesOf(other)) && SameOn(d0, d, DurableFiles(other))
  {
    CredentialsAreApart(name, other);
    forall p | p in FilesOf(other)
      ensures Lookup(d, p) == Lookup(d0, p)
    {
      assert p !in FilesOf(name);
    }
  }

  /** Either copy of the record, at any point of replacing it, is a copy from before, cut short or not. */
  lemma CopiesAtOldStage(enclave: Enclave, c: Credential, d0: Disk, d: Disk, lo: nat, hi: nat)
    requires CopiesWithin(enclave, c, d0, lo, hi)
    requires OldStage(d0, d, RecordPath(c.Name()), RecordTemp(c.Name()))
    ensures CopiesWithin(enclave, c, d, lo, hi)
  {
    hide CopyWithin, HexEncode;
    var path := RecordPath(c.Name());
    if path in d {
      assert Logical(d0, path) == Some(d[path]);
    }
    BackupAtStage(enclave, c, d0, d, lo, hi);
  }

  lemma BackupAtStage(enclave: Enclave, c: Credential, d0: Disk, d: Disk, lo: nat, hi: nat)
    requires CopiesWithin(enclave, c, d0, lo, hi) && BackupFrom(d0, d, RecordPath(c.Name()))
    ensures Backup(RecordPath(c.Name())) in d ==> CopyWithin(enclave, c, d[Backup(RecordPath(c.Name()))], lo, hi)
  {
    hide CopyWithin, HexEncode;
    var path := RecordPath(c.Name());
    if Backup(path) in d && Lookup(d0, Backup(path)) != Lookup(d, Backup(path)) {
      CopyPrefix(enclave, c, Logical(d0, path).value, d[Backup(path)], lo, hi);
    }
  }

  lemma CopiesAtNewStage(enclave: Enclave, c: Credential, d0: Disk, d: Disk, r: CredentialRecord, lo: nat, hi: nat)
    requires CopiesWithin(enclave, c, d0, lo, hi) && enclave.Ideal()
    requires CredentialOf(r) == c && lo <= r.signCount <= hi && RecordWritten(enclave, d0, d, r)
    ensures CopiesWithin(enclave, c, d, lo, hi)
  {
    hide CopyWithin, HexEncode, IsRecordFile;
    var data :| IsRecordFile(enclave, data, r) && NewStage(d0, d, RecordPath(c.Name()), RecordTemp(c.Name()), data);
    RecordFileWithin(enclave, c, data, r, lo, hi);
    BackupAtStage(enclave, c, d0, d, lo, hi);
  }

  lemma CopiesAtStage(enclave: Enclave, c: Credential, d0: Disk, d: Disk, r: CredentialRecord, lo: nat, hi: nat)
    requires CopiesWithin(enclave, c, d0, lo, hi) && enclave.Ideal()
    requires CredentialOf(r) == c && lo <= r.signCount <= hi && RecordStage(enclave, d0, d, r)
    ensures CopiesWithin(enclave, c, d, lo, hi)
  {
    hide CopyWithin, HexEncode, IsRecordFile, CopiesWithin;
    if OldStage(d0, d, RecordPath(c.Name()), RecordTemp(c.Name())) {
      CopiesAtOldStage(enclave, c, d0, d, lo, hi);
    } else {
      CopiesAtNewStage(enclave, c, d0, d, r, lo, hi);
    }
  }

  lemma RecordWriteLeavesCounter(enclave: Enclave, c: Credential, d0: Disk, d: Disk)
    requires Proper(c) && AgreeOutside(d0, d, RecordFiles(c.Name()))
    ensures SameOn(d0, d, CounterFiles(c.Name()))
    ensures CounterFile(d, c) == CounterFile(d0, c) && CounterOrphaned(d, c) == CounterOrphaned(d0, c)
  {
  }

  lemma CounterWriteLeavesRecord(enclave: Enclave, c: Credential, d0: Disk, d: Disk)
    requires Proper(c) && AgreeOutside(d0, d, CounterFiles(c.Name()))
    ensures SameOn(d0, d, RecordFiles(c.Name()))
    ensures forall lo, hi :: CopiesWithin(enclave, c, d0, lo, hi) ==> CopiesWithin(enclave, c, d, lo, hi)
  {
  }

  /**
   Writing the record keeps the bound at every crash point, provided the record stands exactly
   there when records are all there is.
   */
  lemma RecordWriteKeeps(enclave: Enclave, c: Credential, d0: Disk, d: Disk, r: CredentialRecord, lo: nat, hi: nat)
    requires Proper(c) && Settled(enclave, c, d0, lo, hi) && enclave.Ideal()
    requires CredentialOf(r) == c && RecordStage(enclave, d0, d, r) && r.signCount <= hi
    requires CounterFile(d0, c).None? ==> lo == r.signCount
    ensures Settled(enclave, c, d, lo, hi)
  {
    hide CopiesWithin, HexEncode, IsRecordFile, DecodeFloor;
    RecordWriteLeavesCounter(enclave, c, d0, d);
    if CounterFile(d0, c).Some? {
      CopiesAtStage(enclave, c, d0, d, r, 0, hi);
    } else {
      CopiesAtStage(enclave, c, d0, d, r, lo, lo);
    }
  }

  /** Writing the companion keeps the bound at every crash point; once written it is the bound. */
  lemma CounterWriteKeeps(enclave: Enclave, c: Credential, d0: Disk, d: Disk, value: uint32, lo: nat, hi: nat)
    requires Proper(c) && Settled(enclave, c, d0, lo, hi) && CounterStage(enclave, c, d0, d, value) && value <= hi
    ensures lo <= value ==> Settled(enclave, c, d, lo, hi)
    ensures CounterWritten(enclave, c, d0, d, value) ==> Settled(enclave, c, d, value, hi)
  {
    hide CopyWithin, HexEncode, DecodeFloor;
    CounterWriteLeavesRecord(enclave, c, d0, d);
    CopiesAnyhow(enclave, c, d0, lo, hi);
    hide CopiesWithin;
  }

  lemma CopiesAnyhow(enclave: Enclave, c: Credential, d: Disk, lo: nat, hi: nat)
    requires Settled(enclave, c, d, lo, hi)
    ensures CopiesWithin(enclave, c, d, 0, hi)
  {
  }

  /** A load looks at nothing but the durable files of its credential. */
  lemma LoadIsLocal(enclave: Enclave, d0: Disk, d: Disk, name: string)
    requires SameOn(d0, d, DurableFiles(name))
    ensures LoadVerdict(enclave, d, name) == LoadVerdict(enclave, d0, name)
    ensures PrimaryRecord(enclave, d, name) == PrimaryRecord(enclave, d0, name)
  {
  }
}
