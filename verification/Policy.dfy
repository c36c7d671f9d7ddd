/** Which credentials a request may see (src/ctap/policy.c, src/ctap/extensions/cred_protect.c). */
module Policy {
  import opened Bytes
  import opened AtomicFile
  import opened Record
  import opened RecordCodec
  import opened CounterGuard
  import opened CounterStore
  import opened StoreIndex
  import opened StoreLookup
  import opened StorePaths
  import opened Recovery
  import Sha256

  const UV_OPTIONAL := 1
  const UV_OPTIONAL_WITH_CRED_ID := 2
  const UV_REQUIRED := 3

  /** `zf_ctap_cred_protect_allows_assertion`. */
  predicate AllowsAssertion(credProtect: nat, uvVerified: bool, usesAllowList: bool) {
    var effective := EffectiveProtection(credProtect);
    || effective == UV_OPTIONAL
    || (effective == UV_OPTIONAL_WITH_CRED_ID && (uvVerified || usesAllowList))
    || (effective == UV_REQUIRED && uvVerified)
  }

  /** A credential list of a request holds digests of ids. */
  predicate ListsId(digests: seq<seq<byte>>, id: seq<byte>) {
    0 < |id| <= 32 && Sha256.Hash(id) in digests
  }

  function InList(digests: seq<seq<byte>>): IndexEntry -> bool {
    (e: IndexEntry) => ListsId(digests, e.credentialId)
  }

  /** The candidates of an assertion, before credProtect. */
  function Candidates(rpIdHash: seq<byte>, allowList: seq<seq<byte>>): IndexEntry -> bool {
    if allowList == [] then Resident(rpIdHash) else Filtered(rpIdHash, InList(allowList))
  }

  /** Those of `s` that `keep` holds of, in order. */
  function Kept(entries: seq<IndexEntry>, s: seq<nat>, keep: IndexEntry -> bool): (t: seq<nat>)
    requires Indices(entries, s)
    ensures Indices(entries, t) && |t| <= |s|
  {
    if s == [] then []
    else
      var rest := Kept(entries, s[..|s| - 1], keep);
      if keep(entries[s[|s| - 1]]) then rest + [s[|s| - 1]] else rest
  }

  function Allowed(uvVerified: bool, usesAllowList: bool): IndexEntry -> bool {
    (e: IndexEntry) => AllowsAssertion(e.credProtect, uvVerified, usesAllowList)
  }

  lemma {:induction false} KeptMembers(entries: seq<IndexEntry>, s: seq<nat>, keep: IndexEntry -> bool)
    requires Indices(entries, s)
    ensures forall i: nat :: i in Kept(entries, s, keep) <==> i in s && keep(entries[i])
  {
    if s != [] {
      KeptMembers(entries, s[..|s| - 1], keep);
      assert s == s[..|s| - 1] + [s[|s| - 1]];
    }
  }

  lemma {:induction false} KeptIsSorted(entries: seq<IndexEntry>, s: seq<nat>, keep: IndexEntry -> bool)
    requires Indices(entries, s) && NewestFirst(entries, s)
    ensures NewestFirst(entries, Kept(entries, s, keep))
  {
    hide IsNewer;
    if s != [] {
      var init, last := s[..|s| - 1], s[|s| - 1];
      KeptIsSorted(entries, init, keep);
      KeptMembers(entries, init, keep);
      var t := Kept(entries, init, keep);
      forall i | 0 <= i < |t|
        ensures IsNewer(entries[t[i]], entries[last])
      {
        assert t[i] in t;
        var m :| 0 <= m < |init| && init[m] == t[i];
      }
    }
  }

  /** The credProtect filter of `zf_ctap_resolve_assertion_matches`. */
  method KeepAllowed(store: CredentialStore, resolved: array<nat>, resolvedCount: nat, uvVerified: bool,
                     usesAllowList: bool, matches: array<nat>)
      returns (count: nat)
    requires store.Valid() && resolvedCount <= resolved.Length && resolvedCount <= matches.Length && resolved != matches
    requires Indices(store.Live(), resolved[..resolvedCount])
    modifies matches
    ensures count <= resolvedCount
    ensures matches[..count] == Kept(store.Live(), resolved[..resolvedCount], Allowed(uvVerified, usesAllowList))
  {
    hide AllowsAssertion;
    ghost var entries, s := store.Live(), resolved[..resolvedCount];
    count := 0;
    var i := 0;
    while i < resolvedCount
      invariant i <= resolvedCount && count <= i
      invariant matches[..count] == Kept(entries, s[..i], Allowed(uvVerified, usesAllowList))
    {
      assert s[..i + 1][..i] == s[..i];
      if AllowsAssertion(store.records[resolved[i]].credProtect, uvVerified, usesAllowList) {
        matches[count] := resolved[i];
        count := count + 1;
      }
      i := i + 1;
    }
    assert s[..resolvedCount] == s;
  }

  /** `zf_ctap_resolve_assertion_matches`. */
  method ResolveAssertionMatches(store: CredentialStore, rpId: seq<byte>, allowList: seq<seq<byte>>,
                                 uvVerified: bool, matches: array<nat>)
      returns (count: nat)
    requires store.Valid() && matches.Length >= MAX_CREDENTIALS
    modifies matches
    ensures count <= matches.Length
    ensures matches[..count] ==
      Kept(store.Live(), Chosen(store.Live(), Candidates(Sha256.Hash(rpId), allowList), store.count, MAX_CREDENTIALS),
           Allowed(uvVerified, allowList != []))
  {
    hide Chosen, Kept, Sha256.Hash;
    var resolved := new nat[MAX_CREDENTIALS];
    var resolvedCount;
    if allowList != [] {
      resolvedCount := FindByRpFiltered(store, rpId, InList(allowList), resolved, MAX_CREDENTIALS);
    } else {
      resolvedCount := FindByRp(store, rpId, resolved, MAX_CREDENTIALS);
    }
    count := KeepAllowed(store, resolved, resolvedCount, uvVerified, allowList != [], matches);
  }

  /** The entry is a candidate for this request and credProtect lets it through. */
  predicate Eligible(e: IndexEntry, rpIdHash: seq<byte>, allowList: seq<seq<byte>>, uvVerified: bool) {
    && e.inUse && e.rpIdHash == rpIdHash
    && (if allowList == [] then e.residentKey else ListsId(allowList, e.credentialId))
    && AllowsAssertion(e.credProtect, uvVerified, allowList != [])
  }

  /**
   The matches of an assertion are exactly the candidates that credProtect lets through, each once,
   strictly newest first; no other list is.
   */
  lemma AssertionMatchesAreExact(entries: seq<IndexEntry>, rpIdHash: seq<byte>, allowList: seq<seq<byte>>,
                                 uvVerified: bool)
    requires |entries| <= MAX_CREDENTIALS && ProperIds(entries) && DistinctIds(entries)
    ensures var s := Kept(entries, Chosen(entries, Candidates(rpIdHash, allowList), |entries|, MAX_CREDENTIALS),
                          Allowed(uvVerified, allowList != []));
      && NewestFirst(entries, s)
      && (forall i: nat :: i in s <==> i < |entries| && Eligible(entries[i], rpIdHash, allowList, uvVerified))
      && (forall t :: Indices(entries, t) && NewestFirst(entries, t) && (forall i :: i in t <==> i in s) ==> t == s)
  {
    hide Chosen, NewestFirst, AllowsAssertion, ListsId, Kept;
    var wanted, keep := Candidates(rpIdHash, allowList), Allowed(uvVerified, allowList != []);
    var c := Chosen(entries, wanted, |entries|, MAX_CREDENTIALS);
    LookupIsComplete(entries, wanted, MAX_CREDENTIALS);
    KeptMembers(entries, c, keep);
    KeptIsSorted(entries, c, keep);
    var s := Kept(entries, c, keep);
    forall t | Indices(entries, t) && NewestFirst(entries, t) && (forall i :: i in t <==> i in s)
      ensures t == s
    {
      NewestFirstIsUnique(entries, t, s);
    }
  }

  // The exclude list.

  /** A listed credential of this relying party that this request may learn about. */
  predicate IsVisibleMatch(e: IndexEntry, rpIdHash: seq<byte>, excludeList: seq<seq<byte>>, uvVerified: bool) {
    e.inUse && e.rpIdHash == rpIdHash && ListsId(excludeList, e.credentialId) &&
      (uvVerified || e.credProtect != UV_REQUIRED)
  }

  /** The record behind the entry can be loaded and belongs to another relying party after all. */
  ghost predicate IsForeign(enclave: Enclave, d: Disk, e: IndexEntry, rpId: seq<byte>) {
    var name := HexEncode(e.credentialId);
    && LoadVerdict(enclave, d, name).Accepted?
    && PrimaryRecord(enclave, d, name).Some? && PrimaryRecord(enclave, d, name).value.record.rpId != rpId
  }

  lemma ForeignIsLocal(enclave: Enclave, d0: Disk, d: Disk, e: IndexEntry, rpId: seq<byte>)
    requires SameOn(d0, d, DurableFiles(HexEncode(e.credentialId)))
    ensures IsForeign(enclave, d, e, rpId) == IsForeign(enclave, d0, e, rpId)
  {
  }

  /** Everything but the companions of entries already looked at is as it was. */
  ghost predicate OthersIntact(d0: Disk, d: Disk, entries: seq<IndexEntry>, seen: seq<nat>) {
    forall i: nat :: i < |entries| && i !in seen ==> SameOn(d0, d, DurableFiles(HexEncode(entries[i].credentialId)))
  }

  lemma LoadKeepsOthers(enclave: Enclave, d0: Disk, d1: Disk, d: Disk, entries: seq<IndexEntry>, seen: seq<nat>,
                        index: nat)
    requires OthersIntact(d0, d1, entries, seen) && index < |entries| && ProperIds(entries) && DistinctIds(entries)
    requires LoadingStage(enclave, d1, d, HexEncode(entries[index].credentialId))
    ensures OthersIntact(d0, d, entries, seen + [index])
  {
    hide LoadingStage, HexEncode, DurableFiles;
    var name := HexEncode(entries[index].credentialId);
    LoadLeavesRecord(enclave, d1, d, name);
    assert AgreeOutside(d1, d, FilesOf(name));
    forall i: nat | i < |entries| && i !in seen + [index]
      ensures SameOn(d0, d, DurableFiles(HexEncode(entries[i].credentialId)))
    {
      var other := HexEncode(entries[i].credentialId);
      assert index in seen + [index] && i != index;
      assert entries[i].credentialId != entries[index].credentialId;
      if other == name {
        HexEncodeInjective(entries[i].credentialId, entries[index].credentialId);
      }
      OtherCredential(d1, d, name, other);
      assert SameOn(d0, d1, DurableFiles(other));
    }
  }

  /** Some visible credential is listed. */
  ghost predicate HasListedMatch(entries: seq<IndexEntry>, rpIdHash: seq<byte>, excludeList: seq<seq<byte>>,
                                 uvVerified: bool) {
    exists e :: e in entries && IsVisibleMatch(e, rpIdHash, excludeList, uvVerified)
  }

  /** Some listed visible credential is not known to belong to another relying party. */
  ghost predicate HasVisibleMatch(enclave: Enclave, d: Disk, entries: seq<IndexEntry>, rpId: seq<byte>,
                                  excludeList: seq<seq<byte>>, uvVerified: bool) {
    exists e :: e in entries && IsVisibleMatch(e, Sha256.Hash(rpId), excludeList, uvVerified) &&
      !IsForeign(enclave, d, e, rpId)
  }

  /**
   `zf_ctap_exclude_list_has_visible_match`.  A load that fails counts as a match, so a failure may add
   a match but never hides one; when nothing fails the answer is exact.
   */
  method ExcludeListHasVisibleMatch(volume: Volume, enclave: Enclave, store: CredentialStore, rpId: seq<byte>,
                                    excludeList: seq<seq<byte>>, uvVerified: bool, ivs: nat -> seq<byte>)
      returns (found: bool)
    requires volume.Valid() && store.Valid() && enclave.ready && enclave.Ideal() && forall i :: |ivs(i)| == 16
    requires ProperIds(store.Live()) && DistinctIds(store.Live())
    modifies volume
    ensures volume.Valid() && old(volume.history) <= volume.history
    ensures HasVisibleMatch(enclave, old(volume.files), store.Live(), rpId, excludeList, uvVerified) ==> found
    ensures found ==> HasListedMatch(store.Live(), Sha256.Hash(rpId), excludeList, uvVerified)
    ensures Faultless(volume, enclave) ==>
      found == HasVisibleMatch(enclave, old(volume.files), store.Live(), rpId, excludeList, uvVerified)
  {
    hide Chosen, IsVisibleMatch, NewestFirst, ListsId, LoadVerdict, PrimaryRecord, HexEncode, Sha256.Hash,
         LoadingStage, LoadDone, DurableFiles, IsForeign, OthersIntact, HasListedMatch, HasVisibleMatch;
    found := false;
    ghost var d0, entries, hash := volume.files, store.Live(), Sha256.Hash(rpId);
    if excludeList == [] {
      NothingListed(enclave, d0, entries, rpId, uvVerified);
      return;
    }
    var matches := new nat[MAX_CREDENTIALS];
    var count := FindByRpFiltered(store, rpId, InList(excludeList), matches, MAX_CREDENTIALS);
    ghost var s := matches[..count];
    LookupIsComplete(entries, Filtered(hash, InList(excludeList)), MAX_CREDENTIALS);
    NothingSeen(d0, entries);
    assert s[..0] == [];
    var i := 0;
    while i < count
      modifies volume
      invariant i <= count && volume.Valid() && old(volume.history) <= volume.history && matches[..count] == s
      invariant OthersIntact(d0, volume.files, entries, s[..i])
      invariant forall k :: 0 <= k < i && IsVisibleMatch(entries[s[k]], hash, excludeList, uvVerified) ==>
        IsForeign(enclave, d0, entries[s[k]], rpId)
    {
      assert s[..i + 1] == s[..i] + [s[i]];
      var e := store.records[matches[i]];
      assert e == entries[s[i]] && s[i] in s;
      StillIntact(d0, volume.files, entries, s, i);
      ListedIsVisible(e, hash, excludeList, uvVerified);
      if !uvVerified && e.credProtect == UV_REQUIRED {
        SeenMore(d0, volume.files, entries, s[..i], s[i]);
        i := i + 1;
        continue;
      }
      ghost var d1 := volume.files;
      ForeignIsLocal(enclave, d0, d1, e, rpId);
      var ok, record := LoadRecord(volume, enclave, HexEncode(e.credentialId), ivs(i));
      LoadKeepsOthers(enclave, d0, d1, volume.files, entries, s[..i], s[i]);
      if !ok || record.value.rpId == rpId {
        LoadShowsOwner(enclave, d1, e, rpId, ok, record);
        MatchFound(enclave, d0, entries, s[i], rpId, excludeList, uvVerified);
        return true;
      }
      LoadShowsOwner(enclave, d1, e, rpId, ok, record);
      i := i + 1;
    }
    NoMatchLeft(enclave, d0, entries, s, rpId, excludeList, uvVerified);
  }

  lemma NothingListed(enclave: Enclave, d: Disk, entries: seq<IndexEntry>, rpId: seq<byte>, uvVerified: bool)
    ensures !HasVisibleMatch(enclave, d, entries, rpId, [], uvVerified)
  {
    hide LoadVerdict, PrimaryRecord, IsForeign, Sha256.Hash;
  }

  lemma ListedIsVisible(e: IndexEntry, rpIdHash: seq<byte>, excludeList: seq<seq<byte>>, uvVerified: bool)
    requires Filtered(rpIdHash, InList(excludeList))(e)
    ensures IsVisibleMatch(e, rpIdHash, excludeList, uvVerified) == (uvVerified || e.credProtect != UV_REQUIRED)
  {
    hide ListsId;
  }

  lemma MatchFound(enclave: Enclave, d: Disk, entries: seq<IndexEntry>, n: nat, rpId: seq<byte>,
                   excludeList: seq<seq<byte>>, uvVerified: bool)
    requires n < |entries| && IsVisibleMatch(entries[n], Sha256.Hash(rpId), excludeList, uvVerified)
    ensures HasListedMatch(entries, Sha256.Hash(rpId), excludeList, uvVerified)
    ensures !IsForeign(enclave, d, entries[n], rpId) ==>
      HasVisibleMatch(enclave, d, entries, rpId, excludeList, uvVerified)
  {
    hide IsForeign, IsVisibleMatch, Sha256.Hash;
    assert entries[n] in entries;
  }

  /** The scan has been through all listed entries and found each visible one foreign. */
  lemma NoMatchLeft(enclave: Enclave, d: Disk, entries: seq<IndexEntry>, s: seq<nat>, rpId: seq<byte>,
                    excludeList: seq<seq<byte>>, uvVerified: bool)
    requires Indices(entries, s)
    requires forall i: nat :: i in s <==> i < |entries| && Filtered(Sha256.Hash(rpId), InList(excludeList))(entries[i])
    requires forall k :: 0 <= k < |s| && IsVisibleMatch(entries[s[k]], Sha256.Hash(rpId), excludeList, uvVerified) ==>
      IsForeign(enclave, d, entries[s[k]], rpId)
    ensures !HasVisibleMatch(enclave, d, entries, rpId, excludeList, uvVerified)
  {
    hide IsForeign, ListsId, Sha256.Hash;
    forall e | e in entries && IsVisibleMatch(e, Sha256.Hash(rpId), excludeList, uvVerified)
      ensures IsForeign(enclave, d, e, rpId)
    {
      var n :| 0 <= n < |entries| && entries[n] == e;
      assert n in s;
    }
  }

  lemma NothingSeen(d: Disk, entries: seq<IndexEntry>)
    ensures OthersIntact(d, d, entries, [])
  {
  }

  lemma SeenMore(d0: Disk, d: Disk, entries: seq<IndexEntry>, seen: seq<nat>, index: nat)
    requires OthersIntact(d0, d, entries, seen)
    ensures OthersIntact(d0, d, entries, seen + [index])
  {
  }

  lemma StillIntact(d0: Disk, d: Disk, entries: seq<IndexEntry>, s: seq<nat>, i: nat)
    requires i < |s| && Indices(entries, s) && OthersIntact(d0, d, entries, s[..i])
    requires forall j, k :: 0 <= j < k < |s| ==> s[j] != s[k]
    ensures SameOn(d0, d, DurableFiles(HexEncode(entries[s[i]].credentialId)))
  {
  }

  lemma LoadShowsOwner(enclave: Enclave, d: Disk, e: IndexEntry, rpId: seq<byte>, ok: bool,
                       record: Option<CredentialRecord>)
    requires ok ==> Loaded(enclave, d, HexEncode(e.credentialId), record)
    ensures ok ==> record.Some? && (IsForeign(enclave, d, e, rpId) <==> record.value.rpId != rpId)
    ensures !ok && !LoadVerdict(enclave, d, HexEncode(e.credentialId)).Accepted? ==> !IsForeign(enclave, d, e, rpId)
  {
  }
}
