/** Secret distribution of a private board: numbered versions, and one encrypted copy for each member and version. */
module Secrets {
  import opened Lists
  import opened Records
  import opened Forest

  datatype SecretsState =
    SecretsState(currentVersion: nat, versions: seq<SecretVersionRecord>, encryptedSecrets: seq<EncryptedSecret>)

  datatype SecretsSummary = SecretsSummary(currentVersion: nat, versionIds: set<nat>, memberSecrets: set<(nat, Id)>)

  datatype SecretsDelta =
    SecretsDelta(currentVersion: Option<nat>, newVersions: seq<SecretVersionRecord>,
                 newEncryptedSecrets: seq<EncryptedSecret>)

  datatype SecretsError =
    | InvalidVersionSignature
    | DuplicateVersion(version: nat)
    | InvalidSecretSignature
    | MissingVersion(version: nat)
    | DuplicateSecret(version: nat, id: Id)
    | StaleVersion(version: nat)
    | VersionMismatch(version: nat)

  const EMPTY := SecretsState(0, [], [])

  function VersionIds(vs: seq<SecretVersionRecord>): set<nat> {
    set v | v in vs :: v.version
  }

  function Pair(s: EncryptedSecret): (nat, Id) {
    (s.secretVersion, s.memberId)
  }

  function Pairs(ss: seq<EncryptedSecret>): set<(nat, Id)> {
    set s | s in ss :: Pair(s)
  }

  function Summarize(st: SecretsState): SecretsSummary {
    SecretsSummary(st.currentVersion, VersionIds(st.versions), Pairs(st.encryptedSecrets))
  }

  /** What a peer with the given summary lacks. */
  function DeltaFor(st: SecretsState, peer: SecretsSummary): Option<SecretsDelta> {
    var newVersions := Filter(st.versions, (v: SecretVersionRecord) => v.version !in peer.versionIds);
    var newSecrets := Filter(st.encryptedSecrets, (s: EncryptedSecret) => Pair(s) !in peer.memberSecrets);
    if newVersions == [] && newSecrets == [] && st.currentVersion == peer.currentVersion then None
    else Some(SecretsDelta(if st.currentVersion > peer.currentVersion then Some(st.currentVersion) else None,
                           newVersions, newSecrets))
  }

  // ---------- What a delta does ----------

  // A list after pushing, and whether every push was accepted; a refused push stops the loop.
  datatype Pushed<T> = Pushed(list: seq<T>, ok: bool)

  predicate VersionPushable(owner: Id, vs: seq<SecretVersionRecord>, v: SecretVersionRecord) {
    owner in v.signature && v.version !in VersionIds(vs)
  }

  function PushVersions(owner: Id, vs: seq<SecretVersionRecord>, added: seq<SecretVersionRecord>)
    : Pushed<SecretVersionRecord>
    decreases added
  {
    if added == [] then Pushed(vs, true)
    else if VersionPushable(owner, vs, added[0]) then PushVersions(owner, vs + [added[0]], added[1..])
    else Pushed(vs, false)
  }

  predicate Holder(r: Roster, owner: Id, id: Id) {
    id == owner || id in r
  }

  predicate SecretPushable(r: Roster, owner: Id, vs: seq<SecretVersionRecord>, ss: seq<EncryptedSecret>,
                           s: EncryptedSecret)
  {
    owner in s.signature && (Holder(r, owner, s.memberId)
                             ==> s.secretVersion in VersionIds(vs) && Pair(s) !in Pairs(ss))
  }

  function PushSecrets(r: Roster, owner: Id, vs: seq<SecretVersionRecord>, ss: seq<EncryptedSecret>,
                       added: seq<EncryptedSecret>)
    : Pushed<EncryptedSecret>
    decreases added
  {
    if added == [] then Pushed(ss, true)
    else if SecretPushable(r, owner, vs, ss, added[0]) then
      PushSecrets(r, owner, vs, if Holder(r, owner, added[0].memberId) then ss + [added[0]] else ss, added[1..])
    else Pushed(ss, false)
  }

  predicate VersionSettable(st: SecretsState, version: Option<nat>) {
    version.Some? ==> version.value > st.currentVersion && version.value in VersionIds(st.versions)
  }

  function InOrder(st: SecretsState): SecretsState {
    SecretsState(st.currentVersion, Sort(st.versions, VersionKey), Sort(st.encryptedSecrets, SecretKey))
  }

  function ForHolders(r: Roster, owner: Id, ss: seq<EncryptedSecret>): seq<EncryptedSecret> {
    Filter(ss, (s: EncryptedSecret) => Holder(r, owner, s.memberId))
  }

  /** The state after `apply_delta` and whether the delta was accepted. A rejected delta keeps what was pushed before
      the offending record. */
  function SecretsStep(r: Roster, owner: Id, st: SecretsState, delta: Option<SecretsDelta>): (SecretsState, bool) {
    if delta.None? then (InOrder(st), true)
    else
      var vs := PushVersions(owner, st.versions, delta.value.newVersions);
      if !vs.ok then (st.(versions := vs.list), false)
      else
        var ss := PushSecrets(r, owner, vs.list, st.encryptedSecrets, delta.value.newEncryptedSecrets);
        var mid := SecretsState(st.currentVersion, vs.list, ss.list);
        if !ss.ok || !VersionSettable(mid, delta.value.currentVersion) then (mid, false)
        else
          var current :=
            if delta.value.currentVersion.Some? then delta.value.currentVersion.value else st.currentVersion;
          (InOrder(SecretsState(current, vs.list, ForHolders(r, owner, ss.list))), true)
  }

  function SecretsApplied(r: Roster, owner: Id, st: SecretsState, delta: Option<SecretsDelta>): Option<SecretsState> {
    var after := SecretsStep(r, owner, st, delta);
    if after.1 then Some(after.0) else None
  }

  predicate HasCompleteDistribution(st: SecretsState, r: Roster) {
    st.currentVersion == 0 || forall id :: id in r ==> (st.currentVersion, id) in Pairs(st.encryptedSecrets)
  }

  ghost predicate IsMax(vs: set<nat>, m: nat) {
    (vs == {} && m == 0) || (m in vs && forall v :: v in vs ==> v <= m)
  }

  /** `BoardSecretsV1::verify`: the owner signed everything and the current version is the newest recorded. */
  ghost predicate SecretsVerify(owner: Id, st: SecretsState) {
    && (forall v :: v in st.versions ==> owner in v.signature)
    && (forall s :: s in st.encryptedSecrets ==> owner in s.signature)
    && IsMax(VersionIds(st.versions), st.currentVersion)
  }

  class BoardSecretsV1 {
    var currentVersion: nat
    var versions: seq<SecretVersionRecord>
    var encryptedSecrets: seq<EncryptedSecret>

    constructor ()
      ensures View() == EMPTY
    {
      currentVersion, versions, encryptedSecrets := 0, [], [];
    }

    ghost function View(): SecretsState
      reads this
    {
      SecretsState(currentVersion, versions, encryptedSecrets)
    }

    method MaxVersion() returns (max: Option<nat>)
      ensures max.None? <==> versions == []
      ensures max.Some? ==> IsMax(VersionIds(versions), max.value)
    {
      max := None;
      for i := 0 to |versions|
        invariant max.None? <==> i == 0
        invariant max.Some? ==> exists j :: 0 <= j < i && versions[j].version == max.value
        invariant max.Some? ==> forall j :: 0 <= j < i ==> versions[j].version <= max.value
      {
        if max.None? || versions[i].version > max.value {
          max := Some(versions[i].version);
        }
      }
      if max.Some? {
        var j :| 0 <= j < |versions| && versions[j].version == max.value;
        assert versions[j] in versions;
      }
    }

    method Verify(owner: Id) returns (res: Result<(), SecretsError>)
      ensures res.Ok? <==> SecretsVerify(owner, View())
    {
      for i := 0 to |versions|
        invariant forall j :: 0 <= j < i ==> owner in versions[j].signature
      {
        if owner !in versions[i].signature {
          assert versions[i] in versions;
          return Err(InvalidVersionSignature);
        }
      }
      for i := 0 to |encryptedSecrets|
        invariant forall j :: 0 <= j < i ==> owner in encryptedSecrets[j].signature
      {
        if owner !in encryptedSecrets[i].signature {
          assert encryptedSecrets[i] in encryptedSecrets;
          return Err(InvalidSecretSignature);
        }
      }
      var max := MaxVersion();
      if max.Some? && currentVersion != max.value { return Err(VersionMismatch(currentVersion)); }
      if max.None? && currentVersion != 0 { return Err(VersionMismatch(currentVersion)); }
      assert versions != [] ==> versions[0] in versions && versions[0].version in VersionIds(versions);
      return Ok(());
    }

    method AddVersions(owner: Id, added: seq<SecretVersionRecord>) returns (res: Result<(), SecretsError>)
      modifies this`versions
      ensures Pushed(versions, res.Ok?) == PushVersions(owner, old(versions), added)
    {
      for i := 0 to |added|
        invariant PushVersions(owner, versions, added[i..]) == PushVersions(owner, old(versions), added)
      {
        assert added[i..][0] == added[i] && added[i..][1..] == added[i + 1..];
        if owner !in added[i].signature { return Err(InvalidVersionSignature); }
        if exists v :: v in versions && v.version == added[i].version {
          return Err(DuplicateVersion(added[i].version));
        }
        versions := versions + [added[i]];
      }
      res := Ok(());
    }

    method AddSecrets(members: Roster, owner: Id, added: seq<EncryptedSecret>) returns (res: Result<(), SecretsError>)
      modifies this`encryptedSecrets
      ensures Pushed(encryptedSecrets, res.Ok?) == PushSecrets(members, owner, versions, old(encryptedSecrets), added)
    {
      for i := 0 to |added|
        invariant PushSecrets(members, owner, versions, encryptedSecrets, added[i..])
                  == PushSecrets(members, owner, versions, old(encryptedSecrets), added)
      {
        var s := added[i];
        assert added[i..][0] == s && added[i..][1..] == added[i + 1..];
        if owner !in s.signature { return Err(InvalidSecretSignature); }
        if s.memberId != owner && s.memberId !in members { continue; }
        if !exists v :: v in versions && v.version == s.secretVersion { return Err(MissingVersion(s.secretVersion)); }
        if exists t :: t in encryptedSecrets && t.secretVersion == s.secretVersion && t.memberId == s.memberId {
          return Err(DuplicateSecret(s.secretVersion, s.memberId));
        }
        encryptedSecrets := encryptedSecrets + [s];
      }
      res := Ok(());
    }

    /** Moves on to a newer version, which must be recorded. */
    method MakeCurrent(newVersion: nat) returns (res: Result<(), SecretsError>)
      modifies this`currentVersion
      ensures res.Ok? <==> newVersion > old(currentVersion) && newVersion in VersionIds(versions)
      ensures currentVersion == if res.Ok? then newVersion else old(currentVersion)
    {
      if newVersion <= currentVersion { return Err(StaleVersion(newVersion)); }
      if !exists v :: v in versions && v.version == newVersion { return Err(MissingVersion(newVersion)); }
      currentVersion := newVersion;
      res := Ok(());
    }

    /** The secrets step. Not atomic: on an error the records before it stay. */
    method ApplyDelta(members: Roster, owner: Id, delta: Option<SecretsDelta>) returns (res: Result<(), SecretsError>)
      modifies this
      ensures res.Ok? == SecretsStep(members, owner, old(View()), delta).1
      ensures View() == SecretsStep(members, owner, old(View()), delta).0
    {
      if delta.Some? {
        res := AddVersions(owner, delta.value.newVersions);
        if res.Err? { return; }
        res := AddSecrets(members, owner, delta.value.newEncryptedSecrets);
        if res.Err? { return; }
        if delta.value.currentVersion.Some? {
          res := MakeCurrent(delta.value.currentVersion.value);
          if res.Err? { return; }
        }
        encryptedSecrets := ForHolders(members, owner, encryptedSecrets);
      }
      versions := Sort(versions, VersionKey);
      encryptedSecrets := Sort(encryptedSecrets, SecretKey);
      res := Ok(());
    }
  }

  // ---------- What verification asks, and which deltas keep it ----------

  lemma {:induction false} PushedVersions(owner: Id, vs: seq<SecretVersionRecord>, added: seq<SecretVersionRecord>)
    requires PushVersions(owner, vs, added).ok
    ensures PushVersions(owner, vs, added).list == vs + added && forall v :: v in added ==> owner in v.signature
    decreases added
  {
    if added == [] {
      assert vs + added == vs;
    } else {
      PushedVersions(owner, vs + [added[0]], added[1..]);
      assert vs + added == vs + [added[0]] + added[1..];
    }
  }

  lemma {:induction false} PushedSecrets(r: Roster, owner: Id, vs: seq<SecretVersionRecord>, ss: seq<EncryptedSecret>,
                                         added: seq<EncryptedSecret>)
    requires PushSecrets(r, owner, vs, ss, added).ok
    ensures forall s :: s in PushSecrets(r, owner, vs, ss, added).list ==> s in ss || owner in s.signature
    ensures forall s :: s in ss ==> s in PushSecrets(r, owner, vs, ss, added).list
    decreases added
  {
    if added != [] {
      PushedSecrets(r, owner, vs, if Holder(r, owner, added[0].memberId) then ss + [added[0]] else ss, added[1..]);
    }
  }

  /** An accepted delta leaves a state that verifies exactly when it records no version above the one it makes
      current. */
  lemma VerifyKeptExactly(r: Roster, owner: Id, st: SecretsState, d: SecretsDelta)
    requires SecretsVerify(owner, st) && SecretsApplied(r, owner, st, Some(d)).Some?
    ensures var current := if d.currentVersion.Some? then d.currentVersion.value else st.currentVersion;
            SecretsVerify(owner, SecretsApplied(r, owner, st, Some(d)).value)
            <==> forall v :: v in d.newVersions ==> v.version <= current
  {
    var current := if d.currentVersion.Some? then d.currentVersion.value else st.currentVersion;
    var vs := st.versions + d.newVersions;
    var after := SecretsApplied(r, owner, st, Some(d)).value;
    PushedVersions(owner, st.versions, d.newVersions);
    PushedSecrets(r, owner, vs, st.encryptedSecrets, d.newEncryptedSecrets);
    CurrentIsMax(st, d.newVersions, current);
    assert VersionIds(after.versions) == VersionIds(vs);
  }

  /** On an empty board a delta that records version 1 without making it current is accepted, and what it leaves does
      not verify. */
  lemma VersionAheadAccepted(r: Roster, owner: Id)
    ensures var after := SecretsApplied(r, owner, EMPTY,
                                        Some(SecretsDelta(None, [SecretVersionRecord(1, 0, {owner})], [])));
            SecretsVerify(owner, EMPTY) && after.Some? && !SecretsVerify(owner, after.value)
  {
    var v := SecretVersionRecord(1, 0, {owner});
    var d := SecretsDelta(None, [v], []);
    AllVersionsPushed(owner, [], [v]);
    assert VersionIds([]) == {};
    VerifyKeptExactly(r, owner, EMPTY, d);
    assert v in d.newVersions;
  }

  lemma CurrentIsMax(st: SecretsState, added: seq<SecretVersionRecord>, current: nat)
    requires IsMax(VersionIds(st.versions), st.currentVersion)
    requires current == st.currentVersion || (current > st.currentVersion && current in VersionIds(st.versions + added))
    ensures IsMax(VersionIds(st.versions + added), current) <==> forall v :: v in added ==> v.version <= current
  {
    var ids, before, new' := VersionIds(st.versions + added), VersionIds(st.versions), VersionIds(added);
    forall v | v in st.versions || v in added ensures v.version in ids {
      assert v in st.versions + added;
    }
    assert ids == before + new';
    if forall v :: v in added ==> v.version <= current {
      assert forall n :: n in new' ==> n <= current;
      assert forall n :: n in before ==> n <= current;
      if current !in ids {
        assert before == {} && current == 0;
        assert forall n :: n in ids ==> n == current;
        assert ids == {};
      }
      assert IsMax(ids, current);
    }
  }

  // ---------- Merging ----------

  /** A state that verifies, in which versions and (version, member) pairs are unique and every copy's version is
      recorded. */
  ghost predicate WellFormed(owner: Id, st: SecretsState) {
    && DistinctKeys(st.versions, VersionKey)
    && DistinctKeys(st.encryptedSecrets, SecretKey)
    && (forall s :: s in st.encryptedSecrets ==> s.secretVersion in VersionIds(st.versions))
    && SecretsVerify(owner, st)
  }

  lemma {:induction false} AllVersionsPushed(owner: Id, vs: seq<SecretVersionRecord>, added: seq<SecretVersionRecord>)
    requires DistinctKeys(added, VersionKey)
    requires forall v :: v in added ==> owner in v.signature && v.version !in VersionIds(vs)
    ensures PushVersions(owner, vs, added) == Pushed(vs + added, true)
    decreases added
  {
    if added == [] {
      assert vs + added == vs;
    } else {
      var v := added[0];
      assert v in added;
      forall w | w in added[1..] ensures w in added && w.version !in VersionIds(vs + [v]) {
        var i :| 0 <= i < |added[1..]| && added[1..][i] == w;
        assert added[i + 1] == w && VersionKey(added[0]) != VersionKey(added[i + 1]);
      }
      assert vs + added == (vs + [v]) + added[1..];
      AllVersionsPushed(owner, vs + [v], added[1..]);
    }
  }

  lemma {:induction false} AllSecretsPushed(r: Roster, owner: Id, vs: seq<SecretVersionRecord>,
                                            ss: seq<EncryptedSecret>,
                                            added: seq<EncryptedSecret>)
    requires DistinctKeys(added, SecretKey)
    requires forall s :: s in added ==>
                           owner in s.signature && s.secretVersion in VersionIds(vs) && Pair(s) !in Pairs(ss)
    ensures PushSecrets(r, owner, vs, ss, added) == Pushed(ss + ForHolders(r, owner, added), true)
    decreases added
  {
    if added == [] {
      assert ss + ForHolders(r, owner, added) == ss;
    } else {
      var s := added[0];
      assert s in added;
      var next := if Holder(r, owner, s.memberId) then ss + [s] else ss;
      RestUnpaired(added, ss, next);
      PushOne(r, owner, vs, ss, added);
      AllSecretsPushed(r, owner, vs, next, added[1..]);
      ForHoldersStep(r, owner, ss, added);
    }
  }

  lemma PushOne(r: Roster, owner: Id, vs: seq<SecretVersionRecord>, ss: seq<EncryptedSecret>,
                added: seq<EncryptedSecret>)
    requires added != [] && SecretPushable(r, owner, vs, ss, added[0])
    ensures PushSecrets(r, owner, vs, ss, added)
            == PushSecrets(r, owner, vs,
                           if Holder(r, owner, added[0].memberId) then ss + [added[0]] else ss, added[1..])
  {
  }

  lemma ForHoldersStep(r: Roster, owner: Id, ss: seq<EncryptedSecret>, added: seq<EncryptedSecret>)
    requires added != []
    ensures (if Holder(r, owner, added[0].memberId) then ss + [added[0]] else ss) + ForHolders(r, owner, added[1..])
            == ss + ForHolders(r, owner, added)
  {
    var head := if Holder(r, owner, added[0].memberId) then [added[0]] else [];
    assert ForHolders(r, owner, added) == head + ForHolders(r, owner, added[1..]);
  }

  lemma RestUnpaired(added: seq<EncryptedSecret>, ss: seq<EncryptedSecret>, next: seq<EncryptedSecret>)
    requires added != [] && DistinctKeys(added, SecretKey)
    requires forall s :: s in added ==> Pair(s) !in Pairs(ss)
    requires forall s :: s in next ==> s in ss || s == added[0]
    ensures DistinctKeys(added[1..], SecretKey)
    ensures forall s :: s in added[1..] ==> s in added && Pair(s) !in Pairs(next)
  {
    forall w | w in added[1..] ensures w in added && Pair(w) !in Pairs(next) {
      var i :| 0 <= i < |added[1..]| && added[1..][i] == w;
      assert added[i + 1] == w && SecretKey(added[0]) != SecretKey(added[i + 1]);
    }
  }

  lemma DeltaShape(st: SecretsState, peer: SecretsSummary)
    requires DeltaFor(st, peer).Some?
    ensures forall v :: v in DeltaFor(st, peer).value.newVersions <==> v in st.versions && v.version !in peer.versionIds
    ensures forall s :: s in DeltaFor(st, peer).value.newEncryptedSecrets
                        <==> s in st.encryptedSecrets && Pair(s) !in peer.memberSecrets
    ensures DistinctKeys(st.versions, VersionKey) ==> DistinctKeys(DeltaFor(st, peer).value.newVersions, VersionKey)
    ensures DistinctKeys(st.encryptedSecrets, SecretKey)
            ==> DistinctKeys(DeltaFor(st, peer).value.newEncryptedSecrets, SecretKey)
  {
    FilterKeepsOrder(st.versions, (v: SecretVersionRecord) => v.version !in peer.versionIds, VersionKey);
    FilterKeepsOrder(st.encryptedSecrets, (s: EncryptedSecret) => Pair(s) !in peer.memberSecrets, SecretKey);
  }

  lemma InOrderSame(st: SecretsState)
    ensures VersionIds(InOrder(st).versions) == VersionIds(st.versions)
    ensures Pairs(InOrder(st).encryptedSecrets) == Pairs(st.encryptedSecrets)
    ensures forall owner :: WellFormed(owner, st) ==> WellFormed(owner, InOrder(st))
  {
    if DistinctKeys(st.versions, VersionKey) && DistinctKeys(st.encryptedSecrets, SecretKey) {
      SortDistinct(st.versions, VersionKey);
      SortDistinct(st.encryptedSecrets, SecretKey);
      StrictIsSorted(InOrder(st).versions, VersionKey);
      StrictIsSorted(InOrder(st).encryptedSecrets, SecretKey);
    }
  }

  /** Everything the peer lacked is pushed, nothing else changes. */
  lemma MergePushes(r: Roster, owner: Id, a: SecretsState, b: SecretsState)
    requires WellFormed(owner, a) && WellFormed(owner, b) && DeltaFor(b, Summarize(a)).Some?
    ensures var d := DeltaFor(b, Summarize(a)).value;
            && PushVersions(owner, a.versions, d.newVersions) == Pushed(a.versions + d.newVersions, true)
            && PushSecrets(r, owner, a.versions + d.newVersions, a.encryptedSecrets, d.newEncryptedSecrets)
               == Pushed(a.encryptedSecrets + ForHolders(r, owner, d.newEncryptedSecrets), true)
            && VersionIds(a.versions + d.newVersions) == VersionIds(a.versions) + VersionIds(b.versions)
  {
    var peer := Summarize(a);
    var d := DeltaFor(b, peer).value;
    DeltaShape(b, peer);
    AllVersionsPushed(owner, a.versions, d.newVersions);
    var vs := a.versions + d.newVersions;
    assert VersionIds(vs) == VersionIds(a.versions) + VersionIds(b.versions) by {
      forall n | n in VersionIds(b.versions) ensures n in VersionIds(vs) {
        var v :| v in b.versions && v.version == n;
        assert n !in peer.versionIds ==> v in d.newVersions;
      }
    }
    AllSecretsPushed(r, owner, vs, a.encryptedSecrets, d.newEncryptedSecrets);
  }

  /** Merging a well-formed peer never fails, leaves a well-formed state, and unites the version numbers; the
      current version is the newest of both. */
  lemma MergeWellFormed(r: Roster, owner: Id, a: SecretsState, b: SecretsState)
    requires WellFormed(owner, a) && WellFormed(owner, b)
    ensures SecretsApplied(r, owner, a, DeltaFor(b, Summarize(a))).Some?
    ensures var m := SecretsApplied(r, owner, a, DeltaFor(b, Summarize(a))).value;
            && WellFormed(owner, m)
            && VersionIds(m.versions) == VersionIds(a.versions) + VersionIds(b.versions)
            && m.currentVersion == if a.currentVersion >= b.currentVersion then a.currentVersion else b.currentVersion
  {
    var delta := DeltaFor(b, Summarize(a));
    if delta.None? {
      NothingLacking(b, Summarize(a));
      InOrderSame(a);
    } else {
      var d := delta.value;
      MergePushes(r, owner, a, b);
      DeltaShape(b, Summarize(a));
      var vs := a.versions + d.newVersions;
      var ss := a.encryptedSecrets + ForHolders(r, owner, d.newEncryptedSecrets);
      var current := if d.currentVersion.Some? then d.currentVersion.value else a.currentVersion;
      MergedIsWellFormed(r, owner, a, b, d, current);
      InOrderSame(SecretsState(current, vs, ForHolders(r, owner, ss)));
      StepOfPushes(r, owner, a, d, vs, ss);
    }
  }

  /** Once everything is pushed, the step hangs on the new current version. */
  lemma StepOfPushes(r: Roster, owner: Id, a: SecretsState, d: SecretsDelta, vs: seq<SecretVersionRecord>,
                     ss: seq<EncryptedSecret>)
    requires PushVersions(owner, a.versions, d.newVersions) == Pushed(vs, true)
    requires PushSecrets(r, owner, vs, a.encryptedSecrets, d.newEncryptedSecrets) == Pushed(ss, true)
    requires VersionSettable(SecretsState(a.currentVersion, vs, ss), d.currentVersion)
    ensures var current := if d.currentVersion.Some? then d.currentVersion.value else a.currentVersion;
            SecretsApplied(r, owner, a, Some(d)) == Some(InOrder(SecretsState(current, vs, ForHolders(r, owner, ss))))
  {
  }

  lemma MergedIsWellFormed(r: Roster, owner: Id, a: SecretsState, b: SecretsState, d: SecretsDelta, current: nat)
    requires WellFormed(owner, a) && WellFormed(owner, b)
    requires DistinctKeys(d.newVersions, VersionKey) && DistinctKeys(d.newEncryptedSecrets, SecretKey)
    requires forall v :: v in d.newVersions ==> v in b.versions && v.version !in VersionIds(a.versions)
    requires forall s :: s in d.newEncryptedSecrets ==> s in b.encryptedSecrets && Pair(s) !in Pairs(a.encryptedSecrets)
    requires VersionIds(a.versions + d.newVersions) == VersionIds(a.versions) + VersionIds(b.versions)
    requires current == if a.currentVersion >= b.currentVersion then a.currentVersion else b.currentVersion
    ensures WellFormed(owner, SecretsState(current, a.versions + d.newVersions,
                                           ForHolders(r, owner,
                                                      a.encryptedSecrets
                                                      + ForHolders(r, owner, d.newEncryptedSecrets))))
  {
    DistinctConcat(a.versions, d.newVersions, VersionKey);
    ForHoldersDistinct(r, owner, d.newEncryptedSecrets);
    DistinctConcat(a.encryptedSecrets, ForHolders(r, owner, d.newEncryptedSecrets), SecretKey);
    ForHoldersDistinct(r, owner, a.encryptedSecrets + ForHolders(r, owner, d.newEncryptedSecrets));
  }

  lemma ForHoldersDistinct(r: Roster, owner: Id, ss: seq<EncryptedSecret>)
    requires DistinctKeys(ss, SecretKey)
    ensures DistinctKeys(ForHolders(r, owner, ss), SecretKey)
  {
    FilterKeepsOrder(ss, (s: EncryptedSecret) => Holder(r, owner, s.memberId), SecretKey);
  }

  lemma NothingLacking(st: SecretsState, peer: SecretsSummary)
    requires DeltaFor(st, peer).None?
    ensures VersionIds(st.versions) <= peer.versionIds && st.currentVersion == peer.currentVersion
  {
    forall v | v in st.versions ensures v.version in peer.versionIds {
      assert v.version !in peer.versionIds ==>
               v in Filter(st.versions, (v: SecretVersionRecord) => v.version !in peer.versionIds);
    }
  }

  /** Two peers that merge each other agree on the version numbers and on the current version. */
  lemma MergedPeersAgree(r: Roster, owner: Id, a: SecretsState, b: SecretsState)
    requires WellFormed(owner, a) && WellFormed(owner, b)
    ensures var ab := SecretsApplied(r, owner, a, DeltaFor(b, Summarize(a)));
            var ba := SecretsApplied(r, owner, b, DeltaFor(a, Summarize(b)));
            && ab.Some? && ba.Some?
            && VersionIds(ab.value.versions) == VersionIds(ba.value.versions)
            && ab.value.currentVersion == ba.value.currentVersion
  {
    MergeWellFormed(r, owner, a, b);
    MergeWellFormed(r, owner, b, a);
  }

  /** A rejected delta is not undone: a new version recorded before an unsigned copy stays recorded. */
  lemma RejectionIsNotAtomic(r: Roster, owner: Id, v: SecretVersionRecord, s: EncryptedSecret)
    requires owner in v.signature && owner !in s.signature
    ensures SecretsStep(r, owner, EMPTY, Some(SecretsDelta(None, [v], [s]))) == (EMPTY.(versions := [v]), false)
  {
    AllVersionsPushed(owner, [], [v]);
    assert [] + [v] == [v];
    assert PushVersions(owner, EMPTY.versions, [v]) == Pushed([v], true);
    assert PushSecrets(r, owner, [v], [], [s]) == Pushed([], false);
  }

  // ---------- What a rejected delta leaves ----------

  lemma {:induction false} VersionsGrow(owner: Id, vs: seq<SecretVersionRecord>, added: seq<SecretVersionRecord>)
    ensures |PushVersions(owner, vs, added).list| >= |vs|
    decreases added
  {
    if added != [] && VersionPushable(owner, vs, added[0]) {
      VersionsGrow(owner, vs + [added[0]], added[1..]);
    }
  }

  lemma {:induction false} SecretsGrow(r: Roster, owner: Id, vs: seq<SecretVersionRecord>, ss: seq<EncryptedSecret>,
                                       added: seq<EncryptedSecret>)
    ensures |PushSecrets(r, owner, vs, ss, added).list| >= |ss|
    decreases added
  {
    if added != [] && SecretPushable(r, owner, vs, ss, added[0]) {
      SecretsGrow(r, owner, vs, if Holder(r, owner, added[0].memberId) then ss + [added[0]] else ss, added[1..]);
    }
  }

  /** One of the first j + 1 copies is refused as the state stands. */
  ghost predicate RefusedBy(r: Roster, owner: Id, vs: seq<SecretVersionRecord>, ss: seq<EncryptedSecret>,
                            added: seq<EncryptedSecret>, j: int)
  {
    exists i :: 0 <= i <= j && i < |added| && !SecretPushable(r, owner, vs, ss, added[i])
  }

  /** No copy for a holder comes before the first refused one. */
  ghost predicate NoneForHolders(r: Roster, owner: Id, vs: seq<SecretVersionRecord>, ss: seq<EncryptedSecret>,
                                 added: seq<EncryptedSecret>)
  {
    forall j :: 0 <= j < |added| && Holder(r, owner, added[j].memberId) ==> RefusedBy(r, owner, vs, ss, added, j)
  }

  lemma NoneForHoldersStep(r: Roster, owner: Id, vs: seq<SecretVersionRecord>, ss: seq<EncryptedSecret>,
                           added: seq<EncryptedSecret>)
    requires added != [] && SecretPushable(r, owner, vs, ss, added[0]) && !Holder(r, owner, added[0].memberId)
    ensures NoneForHolders(r, owner, vs, ss, added) <==> NoneForHolders(r, owner, vs, ss, added[1..])
  {
    forall j | 0 <= j < |added| - 1
      ensures RefusedBy(r, owner, vs, ss, added, j + 1) <==> RefusedBy(r, owner, vs, ss, added[1..], j)
    {
      if i :| 0 <= i <= j + 1 && i < |added| && !SecretPushable(r, owner, vs, ss, added[i]) {
        assert added[1..][i - 1] == added[i];
      }
      if i :| 0 <= i <= j && i < |added[1..]| && !SecretPushable(r, owner, vs, ss, added[1..][i]) {
        assert added[i + 1] == added[1..][i];
      }
    }
    if NoneForHolders(r, owner, vs, ss, added) {
      forall j | 0 <= j < |added[1..]| && Holder(r, owner, added[1..][j].memberId)
        ensures RefusedBy(r, owner, vs, ss, added[1..], j)
      {
        assert added[j + 1] == added[1..][j];
      }
    }
    if NoneForHolders(r, owner, vs, ss, added[1..]) {
      forall j | 0 <= j < |added| && Holder(r, owner, added[j].memberId) ensures RefusedBy(r, owner, vs, ss, added, j) {
        assert added[j] == added[1..][j - 1];
      }
    }
  }

  lemma {:induction false} NothingPushed(r: Roster, owner: Id, vs: seq<SecretVersionRecord>, ss: seq<EncryptedSecret>,
                                         added: seq<EncryptedSecret>)
    ensures PushSecrets(r, owner, vs, ss, added).list == ss <==> NoneForHolders(r, owner, vs, ss, added)
    decreases added
  {
    if added != [] {
      if !SecretPushable(r, owner, vs, ss, added[0]) {
        assert forall j :: 0 <= j < |added| ==> RefusedBy(r, owner, vs, ss, added, j);
      } else if Holder(r, owner, added[0].memberId) {
        SecretsGrow(r, owner, vs, ss + [added[0]], added[1..]);
        assert !RefusedBy(r, owner, vs, ss, added, 0);
      } else {
        NoneForHoldersStep(r, owner, vs, ss, added);
        NothingPushed(r, owner, vs, ss, added[1..]);
      }
    }
  }

  /** A rejected delta leaves the state alone exactly when its first version is refused, or, bringing no version, it has
      no copy for a holder before the first refused one. */
  lemma RejectedLeavesExactly(r: Roster, owner: Id, st: SecretsState, d: SecretsDelta)
    requires SecretsApplied(r, owner, st, Some(d)).None?
    ensures SecretsStep(r, owner, st, Some(d)).0 == st
            <==> if d.newVersions != [] then !VersionPushable(owner, st.versions, d.newVersions[0])
                 else NoneForHolders(r, owner, st.versions, st.encryptedSecrets, d.newEncryptedSecrets)
  {
    if d.newVersions == [] {
      NothingPushed(r, owner, st.versions, st.encryptedSecrets, d.newEncryptedSecrets);
    } else if VersionPushable(owner, st.versions, d.newVersions[0]) {
      VersionsGrow(owner, st.versions + [d.newVersions[0]], d.newVersions[1..]);
    }
  }
}
