/** The owner's client rotating a private board's secret, and serving members who lack the current one. */
module Rotation {
  import opened Lists
  import opened Records
  import opened Forest
  import opened Members
  import opened Bans
  import opened Secrets
  import MI = MemberInfos
  import M = Messages
  import opened Board
  import opened Runs

  datatype RotateError = NotPrivate | NotOwner | NoMembers

  // Versions are 32-bit and wrap around.
  const VERSIONS := 0x1_0000_0000

  // Encrypts a secret for a member: a library call, given here as a function.
  type Seal = (int, Id) -> seq<int>

  /** A copy of the secret for each of ids, under the signer's key. */
  function SealedFor(seal: Seal, secret: int, version: nat, signer: Id, ids: seq<Id>): (copies: seq<EncryptedSecret>)
    ensures |copies| == |ids|
    ensures forall i :: 0 <= i < |ids| ==> copies[i] == EncryptedSecret(ids[i], version, seal(secret, ids[i]), {signer})
  {
    if ids == [] then []
    else
      [EncryptedSecret(ids[0], version, seal(secret, ids[0]), {signer})]
      + SealedFor(seal, secret, version, signer, ids[1..])
  }

  function IdsOf(ms: seq<AuthorizedMember>): (ids: seq<Id>)
    ensures |ids| == |ms| && forall i :: 0 <= i < |ms| ==> ids[i] == ms[i].id
  {
    if ms == [] then [] else [ms[0].id] + IdsOf(ms[1..])
  }

  function Excluding(ids: seq<Id>, drop: set<Id>): (r: seq<Id>)
    ensures forall x :: x in r <==> x in ids && x !in drop
  {
    if ids == [] then [] else (if ids[0] in drop then [] else [ids[0]]) + Excluding(ids[1..], drop)
  }

  lemma IdsListed(ms: seq<AuthorizedMember>)
    ensures forall x :: x in IdsOf(ms) <==> HasId(ms, x)
  {
    forall x ensures x in IdsOf(ms) <==> HasId(ms, x) {
      if x in IdsOf(ms) {
        var i :| 0 <= i < |ms| && IdsOf(ms)[i] == x;
        assert ms[i] in ms && ms[i].id == x;
      }
      if HasId(ms, x) {
        var m :| m in ms && m.id == x;
        var i :| 0 <= i < |ms| && ms[i] == m;
        assert IdsOf(ms)[i] == x;
      }
    }
  }

  /** The listed members who are not banned, in list order. */
  function Recipients(ms: seq<AuthorizedMember>, banned: set<Id>): (ids: seq<Id>)
    ensures forall x :: x in ids <==> x !in banned && HasId(ms, x)
  {
    IdsListed(ms);
    Excluding(IdsOf(ms), banned)
  }

  /** The members who hold a copy of this version. */
  function Served(secrets: SecretsState, version: nat): set<Id> {
    set s | s in secrets.encryptedSecrets && s.secretVersion == version :: s.memberId
  }

  /** The listed members without a copy of this version. */
  function Unserved(ms: seq<AuthorizedMember>, secrets: SecretsState, version: nat): (ids: seq<Id>)
    ensures forall x :: x in ids <==> (version, x) !in Pairs(secrets.encryptedSecrets) && HasId(ms, x)
  {
    IdsListed(ms);
    assert forall x :: x in Served(secrets, version) <==> (version, x) in Pairs(secrets.encryptedSecrets) by {
      forall x | (version, x) in Pairs(secrets.encryptedSecrets) ensures x in Served(secrets, version) {
        var s :| s in secrets.encryptedSecrets && Pair(s) == (version, x);
      }
      forall x | x in Served(secrets, version) ensures (version, x) in Pairs(secrets.encryptedSecrets) {
        var s :| s in secrets.encryptedSecrets && s.secretVersion == version && s.memberId == x;
        assert Pair(s) == (version, x);
      }
    }
    Excluding(IdsOf(ms), Served(secrets, version))
  }

  function Next(version: nat): nat {
    (version + 1) % VERSIONS
  }

  function RotationDelta(seal: Seal, secret: int, owner: Id, now: int, ms: seq<AuthorizedMember>, banned: set<Id>,
                         current: nat): SecretsDelta
  {
    SecretsDelta(Some(Next(current)), [SecretVersionRecord(Next(current), now, {owner})],
                 SealedFor(seal, secret, Next(current), owner, Recipients(ms, banned)))
  }

  /** What a rotation sends: the next version, which after 4294967295 is 0, made current and signed by the owner, and
      one copy of it for each listed member who is not banned. */
  lemma RotationReads(seal: Seal, secret: int, owner: Id, now: int, ms: seq<AuthorizedMember>, banned: set<Id>,
                      current: nat)
    requires current <= 4294967295
    ensures var next := if current == 4294967295 then 0 else current + 1;
            var d := RotationDelta(seal, secret, owner, now, ms, banned, current);
            && d.currentVersion == Some(next) && d.newVersions == [SecretVersionRecord(next, now, {owner})]
            && forall c :: c in d.newEncryptedSecrets
                           <==> exists m :: m in ms && m.id !in banned
                                            && c == EncryptedSecret(m.id, next, seal(secret, m.id), {owner})
  {
    NextReads(current);
    SealedReads(seal, secret, Next(current), owner, Recipients(ms, banned));
    forall id ensures id in Recipients(ms, banned) <==> id !in banned && exists m :: m in ms && m.id == id {
    }
  }

  lemma NextReads(current: nat)
    requires current <= 4294967295
    ensures Next(current) == if current == 4294967295 then 0 else current + 1
  {
  }

  lemma SealedReads(seal: Seal, secret: int, version: nat, signer: Id, ids: seq<Id>)
    ensures forall c :: c in SealedFor(seal, secret, version, signer, ids)
                        <==> c.memberId in ids
                             && c == EncryptedSecret(c.memberId, version, seal(secret, c.memberId), {signer})
  {
    var copies := SealedFor(seal, secret, version, signer, ids);
    forall c
      ensures c in copies
              <==> c.memberId in ids && c == EncryptedSecret(c.memberId, version, seal(secret, c.memberId), {signer})
    {
      if c in copies {
        var i :| 0 <= i < |copies| && copies[i] == c;
        assert ids[i] in ids;
      }
      if c.memberId in ids && c == EncryptedSecret(c.memberId, version, seal(secret, c.memberId), {signer}) {
        var i :| 0 <= i < |ids| && ids[i] == c.memberId;
        assert copies[i] == c;
      }
    }
  }

  /** Whom the missing copies are for: the listed members without one of that version. */
  lemma MissingReads(seal: Seal, secret: int, signer: Id, ms: seq<AuthorizedMember>, st: SecretsState, version: nat)
    ensures forall c :: c in SealedFor(seal, secret, version, signer, Unserved(ms, st, version))
                        <==> (exists m :: m in ms && m.id == c.memberId)
                             && (forall s :: s in st.encryptedSecrets ==>
                                               s.secretVersion != version || s.memberId != c.memberId)
                             && c == EncryptedSecret(c.memberId, version, seal(secret, c.memberId), {signer})
  {
    SealedReads(seal, secret, version, signer, Unserved(ms, st, version));
    forall id ensures (version, id) in Pairs(st.encryptedSecrets)
                      <==> exists s :: s in st.encryptedSecrets && s.secretVersion == version && s.memberId == id {
      if s :| s in st.encryptedSecrets && s.secretVersion == version && s.memberId == id {
        assert Pair(s) == (version, id);
      }
    }
  }

  class BoardData {
    const ownerVk: Id
    const selfSk: Id
    var privateMode: bool
    var members: seq<AuthorizedMember>
    var bans: seq<AuthorizedUserBan>
    var boardSecrets: SecretsState
    var secrets: map<nat, int>
    var currentSecretVersion: Option<nat>

    constructor (ownerVk: Id, selfSk: Id)
      ensures this.ownerVk == ownerVk && this.selfSk == selfSk
      ensures !privateMode && members == [] && bans == [] && boardSecrets == EMPTY
      ensures secrets == map[] && currentSecretVersion == None
    {
      this.ownerVk, this.selfSk := ownerVk, selfSk;
      privateMode, members, bans, boardSecrets, secrets, currentSecretVersion := false, [], [], EMPTY, map[], None;
    }

    method Encrypt(seal: Seal, secret: int, version: nat, ids: seq<Id>) returns (copies: seq<EncryptedSecret>)
      requires forall id :: id in ids ==> HasId(members, id)
      ensures copies == SealedFor(seal, secret, version, selfSk, ids)
    {
      copies := [];
      for i := 0 to |ids|
        invariant copies == SealedFor(seal, secret, version, selfSk, ids)[..i]
      {
        assert ids[i] in ids;
        if exists m :: m in members && m.id == ids[i] {
          copies := copies + [EncryptedSecret(ids[i], version, seal(secret, ids[i]), {selfSk})];
        }
      }
    }

    /** Makes a new secret for everyone listed and not banned, and remembers it locally. */
    method RotateSecret(seal: Seal, newSecret: int, now: int) returns (res: Result<SecretsDelta, RotateError>)
      modifies this
      ensures res.Ok? <==> privateMode && ownerVk == selfSk && Recipients(members, BannedUsers(bans)) != []
      ensures res.Ok? ==> res.value == RotationDelta(seal, newSecret, ownerVk, now, members, BannedUsers(bans),
                                                     boardSecrets.currentVersion)
      ensures res.Ok? ==> secrets == old(secrets)[Next(boardSecrets.currentVersion) := newSecret]
      ensures res.Ok? ==> currentSecretVersion == Some(Next(boardSecrets.currentVersion))
      ensures res.Err? ==> secrets == old(secrets) && currentSecretVersion == old(currentSecretVersion)
      ensures unchanged(`privateMode) && unchanged(`members) && unchanged(`bans) && unchanged(`boardSecrets)
    {
      if !privateMode { return Err(NotPrivate); }
      if ownerVk != selfSk { return Err(NotOwner); }
      var newVersion := (boardSecrets.currentVersion + 1) % VERSIONS;
      var version := SecretVersionRecord(newVersion, now, {selfSk});
      var recipients := Recipients(members, BannedUsers(bans));
      if recipients == [] { return Err(NoMembers); }
      var copies := Encrypt(seal, newSecret, newVersion, recipients);
      secrets := secrets[newVersion := newSecret];
      currentSecretVersion := Some(newVersion);
      res := Ok(SecretsDelta(Some(newVersion), [version], copies));
    }

    /** Copies of the locally current secret for the members who lack one, signed by whoever makes them; None when there
        is nothing to send. */
    method GenerateMissingMemberSecrets(seal: Seal) returns (res: Option<SecretsDelta>)
      ensures res.Some? <==> privateMode && currentSecretVersion.Some? && currentSecretVersion.value in secrets &&
                             Unserved(members, boardSecrets, currentSecretVersion.value) != []
      ensures res.Some? ==>
                var v := currentSecretVersion.value;
                res.value == SecretsDelta(None, [],
                                          SealedFor(seal, secrets[v], v, selfSk, Unserved(members, boardSecrets, v)))
    {
      if !privateMode || currentSecretVersion.None? || currentSecretVersion.value !in secrets { return None; }
      var version := currentSecretVersion.value;
      var unserved := Unserved(members, boardSecrets, version);
      if unserved == [] { return None; }
      var copies := Encrypt(seal, secrets[version], version, unserved);
      res := Some(SecretsDelta(None, [], copies));
    }
  }

  // ---------- What the board makes of it ----------

  lemma {:induction false} ExcludingDistinct(ids: seq<Id>, drop: set<Id>)
    requires Distinct(ids)
    ensures Distinct(Excluding(ids, drop))
  {
    if ids != [] {
      ExcludingDistinct(ids[1..], drop);
      var r := Excluding(ids[1..], drop);
      forall i | 0 <= i < |r| ensures r[i] != ids[0] {
        assert r[i] in r;
        var k :| 0 <= k < |ids[1..]| && ids[1..][k] == r[i];
        assert ids[k + 1] == r[i];
      }
    }
  }

  /** A version newer than all recorded ones has no copies yet. */
  lemma NewVersionUnpaired(owner: Id, st: SecretsState, next: nat)
    requires WellFormed(owner, st) && next > st.currentVersion
    ensures next !in VersionIds(st.versions) && forall id :: (next, id) !in Pairs(st.encryptedSecrets)
  {
  }

  lemma SealedPairs(seal: Seal, secret: int, version: nat, signer: Id, ids: seq<Id>)
    ensures Pairs(SealedFor(seal, secret, version, signer, ids)) == set id | id in ids :: (version, id)
    ensures Distinct(ids) ==> DistinctKeys(SealedFor(seal, secret, version, signer, ids), SecretKey)
  {
    var copies := SealedFor(seal, secret, version, signer, ids);
    forall p | p in Pairs(copies) ensures p in set id | id in ids :: (version, id) {
      var s :| s in copies && Pair(s) == p;
      var i :| 0 <= i < |copies| && copies[i] == s;
      assert ids[i] in ids;
    }
    forall id | id in ids ensures (version, id) in Pairs(copies) {
      var i :| 0 <= i < |ids| && ids[i] == id;
      assert copies[i] in copies && Pair(copies[i]) == (version, id);
    }
  }

  lemma ForHoldersPairs(r: Roster, owner: Id, ss: seq<EncryptedSecret>)
    ensures forall v, id :: (v, id) in Pairs(ForHolders(r, owner, ss)) <==> (v, id) in Pairs(ss) && Holder(r, owner, id)
  {
    forall v, id | (v, id) in Pairs(ss) && Holder(r, owner, id) ensures (v, id) in Pairs(ForHolders(r, owner, ss)) {
      var s :| s in ss && Pair(s) == (v, id);
      assert s in ForHolders(r, owner, ss);
    }
  }

  /** The secrets step on a delta of properly signed new copies of one version. */
  lemma CopiesAccepted(r: Roster, owner: Id, vs: seq<SecretVersionRecord>, ss: seq<EncryptedSecret>,
                       seal: Seal, secret: int, version: nat, ids: seq<Id>)
    requires version in VersionIds(vs) && Distinct(ids)
    requires forall id :: id in ids ==> id in r && (version, id) !in Pairs(ss)
    ensures PushSecrets(r, owner, vs, ss, SealedFor(seal, secret, version, owner, ids)).ok
    ensures forall v, id :: (v, id) in Pairs(ForHolders(r, owner,
                                                        PushSecrets(r, owner, vs, ss,
                                                                    SealedFor(seal, secret, version, owner, ids)).list))
                            <==> Holder(r, owner, id) && ((v, id) in Pairs(ss) || (v == version && id in ids))
  {
    var copies := SealedFor(seal, secret, version, owner, ids);
    SealedPairs(seal, secret, version, owner, ids);
    forall s | s in copies ensures owner in s.signature && s.secretVersion == version && s.memberId in ids {
      var i :| 0 <= i < |copies| && copies[i] == s;
    }
    AllSecretsPushed(r, owner, vs, ss, copies);
    ForHoldersPairs(r, owner, copies);
    ForHoldersPairs(r, owner, ss + ForHolders(r, owner, copies));
    assert Pairs(ss + ForHolders(r, owner, copies)) == Pairs(ss) + Pairs(ForHolders(r, owner, copies));
  }

  /** A copy for a listed member who has one of that version, or a copy the owner did not sign, spoils the delta. */
  lemma {:induction false} CopyRefused(r: Roster, owner: Id, vs: seq<SecretVersionRecord>, ss: seq<EncryptedSecret>,
                                       added: seq<EncryptedSecret>, s: EncryptedSecret)
    requires s in added && Holder(r, owner, s.memberId)
    requires owner !in s.signature || s.secretVersion !in VersionIds(vs) || Pair(s) in Pairs(ss)
    ensures !PushSecrets(r, owner, vs, ss, added).ok
    decreases added
  {
    assert added == [added[0]] + added[1..];
    if SecretPushable(r, owner, vs, ss, added[0]) {
      var next := if Holder(r, owner, added[0].memberId) then ss + [added[0]] else ss;
      assert s in added[1..];
      assert Pairs(ss) <= Pairs(next);
      CopyRefused(r, owner, vs, next, added[1..], s);
    }
  }

  /** The board has no trace yet of the version a rotation introduces. */
  ghost predicate NewVersionFree(st: SecretsState, recipients: seq<Id>) {
    && st.currentVersion + 1 < VERSIONS
    && st.currentVersion + 1 !in VersionIds(st.versions)
    && forall id :: id in recipients ==> (st.currentVersion + 1, id) !in Pairs(st.encryptedSecrets)
  }

  lemma WellFormedIsFree(owner: Id, st: SecretsState, recipients: seq<Id>)
    requires WellFormed(owner, st)
    ensures NewVersionFree(st, recipients) <==> st.currentVersion + 1 < VERSIONS
  {
    NewVersionUnpaired(owner, st, st.currentVersion + 1);
  }

  /** Whatever the board's secrets, the rotation delta is accepted exactly when the version does not wrap and the board
      has no trace of it; the version then grows by one, and distribution is complete exactly when every banned member
      listed already held a copy. */
  lemma RotationCompletes(seal: Seal, secret: int, owner: Id, now: int, ms: seq<AuthorizedMember>, banned: set<Id>,
                          st: SecretsState)
    requires DistinctIds(ms) && st.currentVersion < VERSIONS
    ensures var d := RotationDelta(seal, secret, owner, now, ms, banned, st.currentVersion);
            var after := SecretsApplied(MembersById(ms), owner, st, Some(d));
            && (after.Some? <==> NewVersionFree(st, Recipients(ms, banned)))
            && (after.Some? ==> after.value.currentVersion == st.currentVersion + 1)
            && (after.Some? ==>
                  (HasCompleteDistribution(after.value, MembersById(ms))
                   <==> forall m :: m in ms && m.id in banned ==>
                                      (st.currentVersion + 1, m.id) in Pairs(st.encryptedSecrets)))
  {
    if NewVersionFree(st, Recipients(ms, banned)) {
      var d := RotationDelta(seal, secret, owner, now, ms, banned, st.currentVersion);
      RotationPushes(seal, secret, owner, now, ms, banned, st, st.currentVersion + 1);
      RotatedDistribution(MembersById(ms), owner, ms, banned, st, d, st.versions + d.newVersions,
                          st.currentVersion + 1);
    } else if st.currentVersion + 1 == VERSIONS {
      RotationWraps(seal, secret, owner, now, ms, banned, st);
    } else {
      RotationReuses(seal, secret, owner, now, ms, banned, st);
    }
  }

  /** At the last 32-bit version a board whose secrets verify refuses the rotation, whoever is on it. */
  lemma RotationRefusedAtLast(seal: Seal, secret: int, owner: Id, now: int, ms: seq<AuthorizedMember>)
    requires DistinctIds(ms)
    ensures var last := VERSIONS - 1;
            var st := SecretsState(last, [SecretVersionRecord(last, 0, {owner})], []);
            && SecretsVerify(owner, st)
            && SecretsApplied(MembersById(ms), owner, st,
                              Some(RotationDelta(seal, secret, owner, now, ms, {}, last))).None?
  {
    var last := VERSIONS - 1;
    var st := SecretsState(last, [SecretVersionRecord(last, 0, {owner})], []);
    assert VersionIds(st.versions) == {last};
    RotationCompletes(seal, secret, owner, now, ms, {}, st);
  }

  /** A board that has recorded version 1 without making it current refuses its owner's first rotation. */
  lemma RotationRefusedOnTrace(seal: Seal, secret: int, owner: Id, now: int, ms: seq<AuthorizedMember>)
    requires DistinctIds(ms)
    ensures var st := SecretsState(0, [SecretVersionRecord(1, 0, {owner})], []);
            SecretsApplied(MembersById(ms), owner, st,
                           Some(RotationDelta(seal, secret, owner, now, ms, {}, 0))).None?
  {
    var st := SecretsState(0, [SecretVersionRecord(1, 0, {owner})], []);
    assert st.versions[0] in st.versions && 1 in VersionIds(st.versions);
    RotationCompletes(seal, secret, owner, now, ms, {}, st);
  }

  lemma RotationWraps(seal: Seal, secret: int, owner: Id, now: int, ms: seq<AuthorizedMember>, banned: set<Id>,
                      st: SecretsState)
    requires st.currentVersion + 1 == VERSIONS
    ensures var d := RotationDelta(seal, secret, owner, now, ms, banned, st.currentVersion);
            SecretsApplied(MembersById(ms), owner, st, Some(d)).None?
  {
    assert Next(st.currentVersion) == 0;
    WrappedRejected(MembersById(ms), owner, st, RotationDelta(seal, secret, owner, now, ms, banned, st.currentVersion));
  }

  lemma RecipientsListed(ms: seq<AuthorizedMember>, banned: set<Id>)
    ensures forall id :: id in Recipients(ms, banned) ==> id in MembersById(ms)
  {
  }

  lemma RotationBelow(seal: Seal, secret: int, owner: Id, now: int, ms: seq<AuthorizedMember>, banned: set<Id>,
                      current: nat)
    requires current + 1 < VERSIONS
    ensures RotationDelta(seal, secret, owner, now, ms, banned, current)
            == SecretsDelta(Some(current + 1), [SecretVersionRecord(current + 1, now, {owner})],
                            SealedFor(seal, secret, current + 1, owner, Recipients(ms, banned)))
  {
    NextBelow(current);
  }

  lemma NextBelow(current: nat)
    requires current + 1 < VERSIONS
    ensures Next(current) == current + 1
  {
  }

  lemma RotationReuses(seal: Seal, secret: int, owner: Id, now: int, ms: seq<AuthorizedMember>, banned: set<Id>,
                       st: SecretsState)
    requires st.currentVersion + 1 < VERSIONS && !NewVersionFree(st, Recipients(ms, banned))
    ensures var d := RotationDelta(seal, secret, owner, now, ms, banned, st.currentVersion);
            SecretsApplied(MembersById(ms), owner, st, Some(d)).None?
  {
    RotationBelow(seal, secret, owner, now, ms, banned, st.currentVersion);
    RecipientsListed(ms, banned);
    UsedVersionRefused(MembersById(ms), owner, st, now, seal, secret, Recipients(ms, banned));
  }

  lemma UsedVersionRefused(r: Roster, owner: Id, st: SecretsState, now: int, seal: Seal, secret: int, ids: seq<Id>)
    requires forall id :: id in ids ==> id in r
    requires st.currentVersion + 1 < VERSIONS && !NewVersionFree(st, ids)
    ensures var next := st.currentVersion + 1;
            var d := SecretsDelta(Some(next), [SecretVersionRecord(next, now, {owner})],
                                  SealedFor(seal, secret, next, owner, ids));
            SecretsApplied(r, owner, st, Some(d)).None?
  {
    var next := st.currentVersion + 1;
    var d := SecretsDelta(Some(next), [SecretVersionRecord(next, now, {owner})],
                          SealedFor(seal, secret, next, owner, ids));
    if next in VersionIds(st.versions) {
      KnownVersionRejected(r, owner, st, d, next);
    } else {
      var id :| id in ids && (next, id) in Pairs(st.encryptedSecrets);
      RecipientRefused(r, owner, st, d, seal, secret, ids, id);
    }
  }

  lemma KnownVersionRejected(r: Roster, owner: Id, st: SecretsState, d: SecretsDelta, next: nat)
    requires next in VersionIds(st.versions) && d.newVersions != [] && d.newVersions[0].version == next
    ensures SecretsApplied(r, owner, st, Some(d)).None?
  {
  }

  lemma RecipientRefused(r: Roster, owner: Id, st: SecretsState, d: SecretsDelta, seal: Seal, secret: int, ids: seq<Id>,
                         id: Id)
    requires id in ids && id in r
    requires d.newEncryptedSecrets == SealedFor(seal, secret, st.currentVersion + 1, owner, ids)
    requires (st.currentVersion + 1, id) in Pairs(st.encryptedSecrets)
    ensures SecretsApplied(r, owner, st, Some(d)).None?
  {
    var copies := d.newEncryptedSecrets;
    var i :| 0 <= i < |ids| && ids[i] == id;
    assert copies[i] in copies && Pair(copies[i]) == (st.currentVersion + 1, id);
    CopyRefused(r, owner, PushVersions(owner, st.versions, d.newVersions).list, st.encryptedSecrets, copies, copies[i]);
  }

  lemma RotationPushes(seal: Seal, secret: int, owner: Id, now: int, ms: seq<AuthorizedMember>, banned: set<Id>,
                       st: SecretsState, next: nat)
    requires DistinctIds(ms) && next !in VersionIds(st.versions)
    requires forall id :: id in Recipients(ms, banned) ==> (next, id) !in Pairs(st.encryptedSecrets)
    ensures var vs := st.versions + [SecretVersionRecord(next, now, {owner})];
            var copies := SealedFor(seal, secret, next, owner, Recipients(ms, banned));
            var pushed := PushSecrets(MembersById(ms), owner, vs, st.encryptedSecrets, copies);
            && PushVersions(owner, st.versions, [SecretVersionRecord(next, now, {owner})]) == Pushed(vs, true)
            && next in VersionIds(vs) && pushed.ok
            && forall v, id :: (v, id) in Pairs(ForHolders(MembersById(ms), owner, pushed.list))
                               <==> Holder(MembersById(ms), owner, id)
                                    && ((v, id) in Pairs(st.encryptedSecrets)
                                        || (v == next && id in Recipients(ms, banned)))
  {
    var version := SecretVersionRecord(next, now, {owner});
    var vs := st.versions + [version];
    AllVersionsPushed(owner, st.versions, [version]);
    assert next in VersionIds(vs) by { assert version in vs; }
    ExcludingDistinct(IdsOf(ms), banned);
    CopiesAccepted(MembersById(ms), owner, vs, st.encryptedSecrets, seal, secret, next, Recipients(ms, banned));
  }

  lemma WrappedRejected(r: Roster, owner: Id, st: SecretsState, d: SecretsDelta)
    requires d.currentVersion == Some(0)
    ensures SecretsApplied(r, owner, st, Some(d)).None?
  {
  }

  lemma RotatedDistribution(r: Roster, owner: Id, ms: seq<AuthorizedMember>, banned: set<Id>, st: SecretsState,
                            d: SecretsDelta, vs: seq<SecretVersionRecord>, next: nat)
    requires r == MembersById(ms) && next == st.currentVersion + 1 && d.currentVersion == Some(next)
    requires PushVersions(owner, st.versions, d.newVersions) == Pushed(vs, true) && next in VersionIds(vs)
    requires PushSecrets(r, owner, vs, st.encryptedSecrets, d.newEncryptedSecrets).ok
    requires forall v, id ::
               (v, id) in Pairs(ForHolders(r, owner,
                                           PushSecrets(r, owner, vs, st.encryptedSecrets, d.newEncryptedSecrets).list))
               <==> Holder(r, owner, id)
                    && ((v, id) in Pairs(st.encryptedSecrets) || (v == next && id in Recipients(ms, banned)))
    ensures var after := SecretsApplied(r, owner, st, Some(d));
            && after.Some? && after.value.currentVersion == next
            && (HasCompleteDistribution(after.value, r)
                <==> forall m :: m in ms && m.id in banned ==> (next, m.id) in Pairs(st.encryptedSecrets))
  {
    var pushed := PushSecrets(r, owner, vs, st.encryptedSecrets, d.newEncryptedSecrets).list;
    var after := SecretsApplied(r, owner, st, Some(d)).value;
    StepOfPushes(r, owner, st, d, vs, pushed);
    InOrderSame(SecretsState(next, vs, ForHolders(r, owner, pushed)));
    forall id | id in r
      ensures (next, id) in Pairs(after.encryptedSecrets) <==> id !in banned || (next, id) in Pairs(st.encryptedSecrets)
    {
      assert r[id] in ms && HasId(ms, id);
    }
    forall m | m in ms ensures m.id in r {
    }
  }

  /** When the local and the board's version agree, serving the members without a copy is accepted exactly when there is
      nobody to serve, or the owner signs and the version is recorded; it keeps the version and completes the
      distribution. */
  lemma MissingSecretsComplete(seal: Seal, secret: int, owner: Id, signer: Id, ms: seq<AuthorizedMember>,
                               st: SecretsState)
    requires DistinctIds(ms)
    ensures var v := st.currentVersion;
            var ids := Unserved(ms, st, v);
            var d := SecretsDelta(None, [], SealedFor(seal, secret, v, signer, ids));
            var after := SecretsApplied(MembersById(ms), owner, st, Some(d));
            && (after.Some? <==> ids == [] || (signer == owner && v in VersionIds(st.versions)))
            && (after.Some? ==>
                  after.value.currentVersion == v && HasCompleteDistribution(after.value, MembersById(ms)))
  {
    var r, v := MembersById(ms), st.currentVersion;
    var ids := Unserved(ms, st, v);
    var copies := SealedFor(seal, secret, v, signer, ids);
    assert PushVersions(owner, st.versions, []) == Pushed(st.versions, true);
    if ids != [] && (signer != owner || v !in VersionIds(st.versions)) {
      assert ids[0] in ids && copies[0] in copies;
      CopyRefused(r, owner, st.versions, st.encryptedSecrets, copies, copies[0]);
    } else {
      MissingServed(seal, secret, owner, signer, ms, st);
    }
  }

  lemma MissingServed(seal: Seal, secret: int, owner: Id, signer: Id, ms: seq<AuthorizedMember>, st: SecretsState)
    requires DistinctIds(ms)
    requires Unserved(ms, st, st.currentVersion) == []
             || (signer == owner && st.currentVersion in VersionIds(st.versions))
    ensures var v := st.currentVersion;
            var d := SecretsDelta(None, [], SealedFor(seal, secret, v, signer, Unserved(ms, st, v)));
            var after := SecretsApplied(MembersById(ms), owner, st, Some(d));
            after.Some? && after.value.currentVersion == v && HasCompleteDistribution(after.value, MembersById(ms))
  {
    var copies := SealedFor(seal, secret, st.currentVersion, signer, Unserved(ms, st, st.currentVersion));
    MissingPushed(seal, secret, owner, signer, ms, st);
    CopiesOnly(MembersById(ms), owner, st, copies);
  }

  /** The copies are pushed, and then every listed member holds one. */
  lemma MissingPushed(seal: Seal, secret: int, owner: Id, signer: Id, ms: seq<AuthorizedMember>, st: SecretsState)
    requires DistinctIds(ms)
    requires Unserved(ms, st, st.currentVersion) == []
             || (signer == owner && st.currentVersion in VersionIds(st.versions))
    ensures var r, v := MembersById(ms), st.currentVersion;
            var pushed := PushSecrets(r, owner, st.versions, st.encryptedSecrets,
                                      SealedFor(seal, secret, v, signer, Unserved(ms, st, v)));
            pushed.ok && forall id :: id in r ==> (v, id) in Pairs(ForHolders(r, owner, pushed.list))
  {
    var r, v := MembersById(ms), st.currentVersion;
    var ids := Unserved(ms, st, v);
    if ids == [] {
      assert SealedFor(seal, secret, v, signer, ids) == [];
      ForHoldersPairs(r, owner, st.encryptedSecrets);
    } else {
      ExcludingDistinct(IdsOf(ms), Served(st, v));
      CopiesAccepted(r, owner, st.versions, st.encryptedSecrets, seal, secret, v, ids);
    }
    forall id | id in r ensures HasId(ms, id) {
      assert r[id] in ms;
    }
  }

  /** A delta of accepted copies alone keeps the version and leaves what the push leaves, in order. */
  lemma CopiesOnly(r: Roster, owner: Id, st: SecretsState, copies: seq<EncryptedSecret>)
    requires var pushed := PushSecrets(r, owner, st.versions, st.encryptedSecrets, copies);
             pushed.ok && forall id :: id in r ==> (st.currentVersion, id) in Pairs(ForHolders(r, owner, pushed.list))
    ensures var after := SecretsApplied(r, owner, st, Some(SecretsDelta(None, [], copies)));
            && after.Some? && after.value.currentVersion == st.currentVersion
            && HasCompleteDistribution(after.value, r)
  {
    var pushed := PushSecrets(r, owner, st.versions, st.encryptedSecrets, copies);
    assert PushVersions(owner, st.versions, []) == Pushed(st.versions, true);
    StepOfPushes(r, owner, st, SecretsDelta(None, [], copies), st.versions, pushed.list);
    InOrderSame(SecretsState(st.currentVersion, st.versions, ForHolders(r, owner, pushed.list)));
  }

  /** There is nobody to serve exactly when the distribution is complete already. */
  lemma NobodyUnserved(ms: seq<AuthorizedMember>, st: SecretsState)
    requires st.currentVersion > 0
    ensures Unserved(ms, st, st.currentVersion) == [] <==> HasCompleteDistribution(st, MembersById(ms))
  {
    var ids := Unserved(ms, st, st.currentVersion);
    assert ids != [] ==> ids[0] in ids;
    forall id | id in MembersById(ms) ensures HasId(ms, id) {
      assert MembersById(ms)[id] in ms;
    }
  }

  // ---------- The whole step ----------

  ghost function SecretsOnly(d: SecretsDelta): Delta {
    Delta(None, None, None, Some(d), None)
  }

  /** A step that carries only secrets is accepted exactly when the secrets step is. */
  lemma SecretsOnlyStep(cfg: Config, s: Snapshot, d: SecretsDelta)
    requires MembersInv(cfg.owner, s) && Sorted(s.bans, BanKey)
    ensures var mid := PartsApplied(cfg, s, SecretsOnly(d));
            var secrets := SecretsApplied(MembersById(s.members), cfg.owner, s.secrets, Some(d));
            && (mid.Some? <==> secrets.Some?)
            && (mid.Some? ==> mid.value.members == s.members && mid.value.secrets == secrets.value)
  {
    SortIdentity(s.bans, BanKey);
    EmptyMembersStep(s, cfg.owner);
    PartsAfterMembers(cfg, s, SecretsOnly(d), s.bans, s.members);
    assert MI.InfosApplied(MembersById(s.members), cfg, s.memberInfo, None).Some?;
    assert forall secrets :: M.MessagesApplied(cfg, MembersById(s.members), secrets, s.messages, None).Some?;
  }

  lemma FewerMembersComplete(st: SecretsState, r: Roster, t: Roster)
    requires HasCompleteDistribution(st, r) && forall k :: k in t ==> k in r
    ensures HasCompleteDistribution(st, t)
  {
  }

  lemma UnbannedHere(owner: Id, s: Snapshot)
    requires MembersInv(owner, s)
    ensures forall m :: m in s.members ==> m.id !in BannedUsers(s.bans)
  {
    forall m | m in s.members ensures m.id !in BannedUsers(s.bans) {
      AboveSelf(MembersById(s.members), owner, m.id);
      assert !Condemned(MembersById(s.members), owner, s.bans, m.id);
    }
  }

  /** What the secrets step completes, the whole step leaves complete. */
  lemma SecretsOnlyOnBoard(cfg: Config, s: Snapshot, d: SecretsDelta)
    requires MembersInv(cfg.owner, s) && Sorted(s.bans, BanKey)
    ensures var r := MembersById(s.members);
            var secrets := SecretsApplied(r, cfg.owner, s.secrets, Some(d));
            var after := Applied(cfg, s, SecretsOnly(d));
            && (after.Some? <==> secrets.Some?)
            && (after.Some? ==> after.value.secrets == secrets.value)
            && (after.Some? && HasCompleteDistribution(secrets.value, r) ==>
                  HasCompleteDistribution(after.value.secrets, MembersById(after.value.members)))
  {
    SecretsOnlyStep(cfg, s, d);
    var mid := PartsApplied(cfg, s, SecretsOnly(d));
    if mid.Some? && HasCompleteDistribution(mid.value.secrets, MembersById(s.members)) {
      PrunedElements(s.members, cfg.owner, mid.value.messages);
      FewerMembersComplete(mid.value.secrets, MembersById(s.members),
                           MembersById(Cleaned(cfg.owner, mid.value).members));
    }
  }

  /** Rotation on a board of a run, whatever its secrets: accepted exactly when the version does not wrap and the board
      has no trace of it; the version grows by one, and after cleanup every member holds a copy. */
  lemma RotationOnBoard(cfg: Config, s: Snapshot, seal: Seal, secret: int, now: int)
    requires Inv(cfg.owner, s) && s.secrets.currentVersion < VERSIONS
    ensures var banned, current := BannedUsers(s.bans), s.secrets.currentVersion;
            var d := RotationDelta(seal, secret, cfg.owner, now, s.members, banned, current);
            var after := Applied(cfg, s, SecretsOnly(d));
            && (after.Some? <==> NewVersionFree(s.secrets, Recipients(s.members, banned)))
            && (WellFormed(cfg.owner, s.secrets) ==> (after.Some? <==> current + 1 < VERSIONS))
            && (after.Some? ==> after.value.secrets.currentVersion == current + 1
                                && HasCompleteDistribution(after.value.secrets, MembersById(after.value.members)))
  {
    var banned, current := BannedUsers(s.bans), s.secrets.currentVersion;
    var d := RotationDelta(seal, secret, cfg.owner, now, s.members, banned, current);
    RotationCompletes(seal, secret, cfg.owner, now, s.members, banned, s.secrets);
    UnbannedHere(cfg.owner, s);
    SecretsOnlyOnBoard(cfg, s, d);
    if WellFormed(cfg.owner, s.secrets) {
      WellFormedIsFree(cfg.owner, s.secrets, Recipients(s.members, banned));
    }
  }

  /** Serving the members without a copy on a board of a run: accepted exactly when there is nobody to serve, or the
      owner signs and the version is recorded; the version stays and after cleanup every member holds a copy. */
  lemma MissingSecretsOnBoard(cfg: Config, s: Snapshot, seal: Seal, secret: int, signer: Id)
    requires Inv(cfg.owner, s)
    ensures var v := s.secrets.currentVersion;
            var ids := Unserved(s.members, s.secrets, v);
            var after := Applied(cfg, s, SecretsOnly(SecretsDelta(None, [], SealedFor(seal, secret, v, signer, ids))));
            && (after.Some? <==> ids == [] || (signer == cfg.owner && v in VersionIds(s.secrets.versions)))
            && (after.Some? ==> after.value.secrets.currentVersion == v
                                && HasCompleteDistribution(after.value.secrets, MembersById(after.value.members)))
  {
    var v := s.secrets.currentVersion;
    MissingSecretsComplete(seal, secret, cfg.owner, signer, s.members, s.secrets);
    SecretsOnlyOnBoard(cfg, s, SecretsDelta(None, [],
                                            SealedFor(seal, secret, v, signer, Unserved(s.members, s.secrets, v))));
  }
}
