/** Member info, secrets and messages said of the records themselves: which deltas are refused, and which records are
    there afterwards. */
module RecordReadings {
  import opened Lists
  import opened Records
  import opened Forest
  import MI = MemberInfos
  import opened Secrets
  import M = Messages

  // ---------- Member info ----------

  /** No nickname is over the limit, and what is said of the owner or a listed member is signed by them. */
  ghost predicate InfosPass(r: Roster, cfg: Config, delta: Option<seq<AuthorizedMemberInfo>>) {
    delta.Some? ==>
      forall i :: i in delta.value ==>
                    && i.nicknameLen <= cfg.maxNicknameSize
                    && (i.memberId == cfg.owner || i.memberId in r ==> i.memberId in i.signature)
  }

  /** The list's own record, and none of the delta is newer. */
  ghost predicate Stood(infos: seq<AuthorizedMemberInfo>, d: seq<AuthorizedMemberInfo>, i: AuthorizedMemberInfo) {
    i in infos && forall e :: e in d && e.memberId == i.memberId ==> e.version <= i.version
  }

  /** A record of the delta newer than the list's own and all before it, and none after it is newer. */
  ghost predicate CameAt(infos: seq<AuthorizedMemberInfo>, d: seq<AuthorizedMemberInfo>, k: nat) {
    && k < |d|
    && (forall e :: e in infos && e.memberId == d[k].memberId ==> e.version < d[k].version)
    && forall j :: 0 <= j < |d| && d[j].memberId == d[k].memberId ==>
                     if j < k then d[j].version < d[k].version else d[j].version <= d[k].version
  }

  ghost predicate Came(infos: seq<AuthorizedMemberInfo>, d: seq<AuthorizedMemberInfo>, i: AuthorizedMemberInfo) {
    exists k: nat :: CameAt(infos, d, k) && d[k] == i
  }

  /** For the owner and every listed member the newest record of list and delta, by member. */
  ghost predicate InfosLeave(r: Roster, owner: Id, infos: seq<AuthorizedMemberInfo>,
                             delta: Option<seq<AuthorizedMemberInfo>>, after: seq<AuthorizedMemberInfo>)
  {
    && (forall i, j :: 0 <= i < j < |after| ==> after[i].memberId < after[j].memberId)
    && forall i :: i in after <==>
                     (i.memberId == owner || i.memberId in r)
                     && (Stood(infos, MI.Infos(delta), i) || Came(infos, MI.Infos(delta), i))
  }

  ghost predicate NewestOfAll(infos: seq<AuthorizedMemberInfo>, d: seq<AuthorizedMemberInfo>,
                              i: AuthorizedMemberInfo)
  {
    forall e :: (e in infos || e in d) && e.memberId == i.memberId ==> e.version < i.version
  }

  lemma CameOneMore(infos: seq<AuthorizedMemberInfo>, d: seq<AuthorizedMemberInfo>, last: AuthorizedMemberInfo,
                    i: AuthorizedMemberInfo)
    ensures Stood(infos, d + [last], i)
            <==> Stood(infos, d, i) && (last.memberId == i.memberId ==> last.version <= i.version)
    ensures Came(infos, d + [last], i)
            <==> (Came(infos, d, i) && (last.memberId == i.memberId ==> last.version <= i.version))
                 || (i == last && NewestOfAll(infos, d, i))
  {
    var n, all := |d|, d + [last];
    assert all[n] == last && forall j :: 0 <= j < n ==> all[j] == d[j];
    forall k: nat | k < n
      ensures CameAt(infos, all, k)
              <==> CameAt(infos, d, k) && (last.memberId == d[k].memberId ==> last.version <= d[k].version)
    {
      CameEarlier(infos, d, last, k);
    }
    CameLast(infos, d, last);
    if k: nat :| CameAt(infos, d, k) && d[k] == i {
      assert all[k] == i;
    }
    if k: nat :| CameAt(infos, all, k) && all[k] == i {
      assert k < n ==> d[k] == i;
    }
  }

  lemma CameEarlier(infos: seq<AuthorizedMemberInfo>, d: seq<AuthorizedMemberInfo>, last: AuthorizedMemberInfo, k: nat)
    requires k < |d|
    ensures CameAt(infos, d + [last], k)
            <==> CameAt(infos, d, k) && (last.memberId == d[k].memberId ==> last.version <= d[k].version)
  {
    var n, all := |d|, d + [last];
    assert all[n] == last && forall j :: 0 <= j < n ==> all[j] == d[j];
  }

  lemma CameLast(infos: seq<AuthorizedMemberInfo>, d: seq<AuthorizedMemberInfo>, last: AuthorizedMemberInfo)
    ensures CameAt(infos, d + [last], |d|) <==> NewestOfAll(infos, d, last)
  {
    var n, all := |d|, d + [last];
    assert all[n] == last && forall j :: 0 <= j < n ==> all[j] == d[j];
    if CameAt(infos, all, n) {
      forall e | e in d && e.memberId == last.memberId ensures e.version < last.version {
        var j :| 0 <= j < n && d[j] == e;
        assert all[j] == e;
      }
    }
  }

  /** What the records arriving leave of a kept member: the list's own record, or the newest that came. */
  lemma {:induction false} UpsertedReads(r: Roster, owner: Id, infos: seq<AuthorizedMemberInfo>,
                                         d: seq<AuthorizedMemberInfo>, i: AuthorizedMemberInfo)
    requires MI.DistinctInfos(infos) && MI.Kept(r, owner, i.memberId)
    ensures i in MI.UpsertAll(r, owner, infos, d) <==> Stood(infos, d, i) || Came(infos, d, i)
  {
    if d != [] {
      var n := |d| - 1;
      var acc := MI.UpsertAll(r, owner, infos, d[..n]);
      UpsertedReads(r, owner, infos, d[..n], i);
      SplitLast(d);
      CameOneMore(infos, d[..n], d[n], i);
      MI.UpsertAllDistinct(r, owner, infos, d[..n]);
      if d[n].memberId == i.memberId {
        UpsertedReads(r, owner, infos, d[..n], d[n]);
        MI.UpsertAllLatest(r, owner, infos, d[..n]);
        NewestUpserted(r, owner, infos, d[..n], acc, d[n], i);
      } else if MI.Kept(r, owner, d[n].memberId) {
        OtherUpserted(acc, d[n], i);
      }
    }
  }

  lemma OtherUpserted(acc: seq<AuthorizedMemberInfo>, last: AuthorizedMemberInfo, i: AuthorizedMemberInfo)
    requires last.memberId != i.memberId
    ensures i in MI.Upsert(acc, last) <==> i in acc
  {
    var k, next := MI.Find(acc, last.memberId), MI.Upsert(acc, last);
    if j :| 0 <= j < |acc| && acc[j] == i {
      assert next[j] == i;
    }
    if j :| 0 <= j < |next| && next[j] == i {
      assert j < |acc| ==> j == k || acc[j] == i;
    }
  }

  lemma NewestUpserted(r: Roster, owner: Id, infos: seq<AuthorizedMemberInfo>, d: seq<AuthorizedMemberInfo>,
                       acc: seq<AuthorizedMemberInfo>, last: AuthorizedMemberInfo, i: AuthorizedMemberInfo)
    requires last.memberId == i.memberId && MI.Kept(r, owner, i.memberId)
    requires MI.DistinctInfos(acc) && MI.HoldsLatest(r, owner, infos, d, acc)
    ensures i in MI.Upsert(acc, last)
            <==> (i in acc && last.version <= i.version)
                 || (i == last && NewestOfAll(infos, d, i))
  {
    var k := MI.Find(acc, last.memberId);
    if k < |acc| {
      var e := acc[k];
      assert e in acc && MI.IsLatest(infos, d, e);
      ReplacedAt(acc, k, last, i);
    } else {
      assert forall e :: (e in infos || e in d) && e.memberId == i.memberId ==> false;
      assert i !in acc;
    }
  }

  lemma ReplacedAt(acc: seq<AuthorizedMemberInfo>, k: nat, last: AuthorizedMemberInfo, i: AuthorizedMemberInfo)
    requires MI.DistinctInfos(acc) && k < |acc| && acc[k].memberId == last.memberId == i.memberId
    ensures i in acc <==> i == acc[k]
    ensures i in acc[k := last] <==> i == last
  {
    if j :| 0 <= j < |acc| && acc[j] == i {
      assert !(j < k) && !(k < j);
    }
    var next := acc[k := last];
    assert next[k] == last;
    if j :| 0 <= j < |next| && next[j] == i {
      assert !(j < k) && !(k < j);
    }
  }

  /** The member-info step accepts exactly the deltas that pass, and leaves exactly that. */
  lemma InfosRead(r: Roster, cfg: Config, infos: seq<AuthorizedMemberInfo>, delta: Option<seq<AuthorizedMemberInfo>>)
    ensures MI.InfosApplied(r, cfg, infos, delta).Some? <==> InfosPass(r, cfg, delta)
    ensures MI.InfosApplied(r, cfg, infos, delta).Some? && MI.DistinctInfos(infos) ==>
              InfosLeave(r, cfg.owner, infos, delta, MI.InfosApplied(r, cfg, infos, delta).value)
  {
    if MI.InfosApplied(r, cfg, infos, delta).Some? && MI.DistinctInfos(infos) {
      var after := MI.InfosApplied(r, cfg, infos, delta).value;
      MI.InfosAppliedLatest(r, cfg, infos, delta);
      InfosOrdered(after);
      forall i: AuthorizedMemberInfo | i.memberId == cfg.owner || i.memberId in r
        ensures i in after <==> Stood(infos, MI.Infos(delta), i) || Came(infos, MI.Infos(delta), i)
      {
        UpsertedReads(r, cfg.owner, infos, MI.Infos(delta), i);
      }
    }
  }

  lemma InfosOrdered(infos: seq<AuthorizedMemberInfo>)
    requires StrictlySorted(infos, InfoKey)
    ensures forall i, j :: 0 <= i < j < |infos| ==> infos[i].memberId < infos[j].memberId
  {
    forall i, j | 0 <= i < j < |infos| ensures infos[i].memberId < infos[j].memberId {
      assert Less(InfoKey(infos[i]), InfoKey(infos[j]));
    }
  }

  // ---------- Secrets ----------

  /** Version record i is signed by the owner, and neither the state nor an earlier one has its number. */
  ghost predicate GoodVersion(owner: Id, vs: seq<SecretVersionRecord>, added: seq<SecretVersionRecord>, i: nat) {
    i < |added| ==>
      && owner in added[i].signature
      && (forall v :: v in vs ==> v.version != added[i].version)
      && forall j :: 0 <= j < i ==> added[j].version != added[i].version
  }

  ghost predicate GoodVersions(owner: Id, vs: seq<SecretVersionRecord>, added: seq<SecretVersionRecord>) {
    forall i: nat :: GoodVersion(owner, vs, added, i)
  }

  lemma {:induction false} VersionsPushExactly(owner: Id, vs: seq<SecretVersionRecord>, added: seq<SecretVersionRecord>)
    ensures PushVersions(owner, vs, added).ok <==> GoodVersions(owner, vs, added)
    decreases added
  {
    if added != [] {
      var v, rest := added[0], added[1..];
      assert VersionPushable(owner, vs, v) <==> GoodVersion(owner, vs, added, 0);
      forall i: nat ensures GoodVersion(owner, vs, added, i + 1)
                            <==> GoodVersion(owner, vs + [v], rest, i) {
        GoodVersionShifts(owner, vs, added, i);
      }
      VersionsShift(owner, vs, added);
      VersionsPushExactly(owner, vs + [v], rest);
    }
  }

  lemma VersionsShift(owner: Id, vs: seq<SecretVersionRecord>, added: seq<SecretVersionRecord>)
    requires added != []
    requires forall i: nat ::
               GoodVersion(owner, vs, added, i + 1) <==> GoodVersion(owner, vs + [added[0]], added[1..], i)
    ensures GoodVersions(owner, vs, added)
            <==> GoodVersion(owner, vs, added, 0) && GoodVersions(owner, vs + [added[0]], added[1..])
  {
    if GoodVersion(owner, vs, added, 0) && GoodVersions(owner, vs + [added[0]], added[1..]) {
      forall i: nat ensures GoodVersion(owner, vs, added, i) {
        if i > 0 {
          assert GoodVersion(owner, vs + [added[0]], added[1..], i - 1);
        }
      }
    }
    if GoodVersions(owner, vs, added) {
      forall i: nat ensures GoodVersion(owner, vs + [added[0]], added[1..], i) {
        assert GoodVersion(owner, vs, added, i + 1);
      }
    }
  }

  lemma GoodVersionShifts(owner: Id, vs: seq<SecretVersionRecord>, added: seq<SecretVersionRecord>, i: nat)
    requires added != []
    ensures GoodVersion(owner, vs, added, i + 1) <==> GoodVersion(owner, vs + [added[0]], added[1..], i)
  {
    assert forall j :: 0 <= j < |added| - 1 ==> added[1..][j] == added[j + 1];
    if i < |added| - 1 && forall j :: 0 <= j < i ==> added[1..][j].version != added[i + 1].version {
      forall j | 0 < j < i + 1 ensures added[j].version != added[i + 1].version {
        assert added[1..][j - 1] == added[j];
      }
    }
  }

  predicate SamePair(s: EncryptedSecret, t: EncryptedSecret) {
    s.secretVersion == t.secretVersion && s.memberId == t.memberId
  }

  /** Copy i is signed by the owner and, if it is for the owner or a listed member, its version is recorded and neither
      the state nor an earlier copy is of that version for that member. */
  ghost predicate GoodCopy(r: Roster, owner: Id, vs: seq<SecretVersionRecord>, ss: seq<EncryptedSecret>,
                           added: seq<EncryptedSecret>, i: nat)
  {
    i < |added| ==>
      && owner in added[i].signature
      && (added[i].memberId == owner || added[i].memberId in r ==>
            && (exists v :: v in vs && v.version == added[i].secretVersion)
            && (forall s :: s in ss ==> !SamePair(s, added[i]))
            && forall j :: 0 <= j < i ==> !SamePair(added[j], added[i]))
  }

  ghost predicate GoodCopies(r: Roster, owner: Id, vs: seq<SecretVersionRecord>, ss: seq<EncryptedSecret>,
                             added: seq<EncryptedSecret>)
  {
    forall i: nat :: GoodCopy(r, owner, vs, ss, added, i)
  }

  function AfterCopy(r: Roster, owner: Id, ss: seq<EncryptedSecret>, s: EncryptedSecret): seq<EncryptedSecret> {
    if Holder(r, owner, s.memberId) then ss + [s] else ss
  }

  lemma {:induction false} CopiesPushExactly(r: Roster, owner: Id, vs: seq<SecretVersionRecord>,
                                             ss: seq<EncryptedSecret>, added: seq<EncryptedSecret>)
    ensures PushSecrets(r, owner, vs, ss, added).ok <==> GoodCopies(r, owner, vs, ss, added)
    decreases added
  {
    if added != [] {
      var s, rest := added[0], added[1..];
      FirstCopy(r, owner, vs, ss, added);
      forall i: nat ensures GoodCopy(r, owner, vs, ss, added, i + 1)
                            <==> GoodCopy(r, owner, vs, AfterCopy(r, owner, ss, s), rest, i) {
        GoodCopyShifts(r, owner, vs, ss, added, i);
      }
      CopiesShift(r, owner, vs, ss, added);
      CopiesPushExactly(r, owner, vs, AfterCopy(r, owner, ss, s), rest);
    }
  }

  lemma FirstCopy(r: Roster, owner: Id, vs: seq<SecretVersionRecord>, ss: seq<EncryptedSecret>,
                  added: seq<EncryptedSecret>)
    requires added != []
    ensures SecretPushable(r, owner, vs, ss, added[0]) <==> GoodCopy(r, owner, vs, ss, added, 0)
  {
    assert Pair(added[0]) in Pairs(ss) <==> exists s :: s in ss && SamePair(s, added[0]);
  }

  lemma CopiesShift(r: Roster, owner: Id, vs: seq<SecretVersionRecord>, ss: seq<EncryptedSecret>,
                    added: seq<EncryptedSecret>)
    requires added != []
    requires forall i: nat :: GoodCopy(r, owner, vs, ss, added, i + 1)
                              <==> GoodCopy(r, owner, vs, AfterCopy(r, owner, ss, added[0]), added[1..], i)
    ensures GoodCopies(r, owner, vs, ss, added)
            <==> GoodCopy(r, owner, vs, ss, added, 0)
                 && GoodCopies(r, owner, vs, AfterCopy(r, owner, ss, added[0]), added[1..])
  {
    var next := AfterCopy(r, owner, ss, added[0]);
    if GoodCopy(r, owner, vs, ss, added, 0) && GoodCopies(r, owner, vs, next, added[1..]) {
      forall i: nat ensures GoodCopy(r, owner, vs, ss, added, i) {
        if i > 0 {
          assert GoodCopy(r, owner, vs, next, added[1..], i - 1);
        }
      }
    }
    if GoodCopies(r, owner, vs, ss, added) {
      forall i: nat ensures GoodCopy(r, owner, vs, next, added[1..], i) {
        assert GoodCopy(r, owner, vs, ss, added, i + 1);
      }
    }
  }

  lemma GoodCopyShifts(r: Roster, owner: Id, vs: seq<SecretVersionRecord>, ss: seq<EncryptedSecret>,
                       added: seq<EncryptedSecret>, i: nat)
    requires added != []
    ensures GoodCopy(r, owner, vs, ss, added, i + 1)
            <==> GoodCopy(r, owner, vs, AfterCopy(r, owner, ss, added[0]), added[1..], i)
  {
    var s, next := added[0], AfterCopy(r, owner, ss, added[0]);
    if i < |added| - 1 {
      var t := added[i + 1];
      assert added[1..][i] == t;
      assert forall j :: 0 <= j < i ==> added[1..][j] == added[j + 1];
      assert (forall j :: 0 <= j < i + 1 ==> !SamePair(added[j], t))
             <==> !SamePair(s, t) && forall j :: 0 <= j < i ==> !SamePair(added[1..][j], t) by {
        if !SamePair(s, t) && forall j :: 0 <= j < i ==> !SamePair(added[1..][j], t) {
          forall j | 0 <= j < i + 1 ensures !SamePair(added[j], t) {
            assert j > 0 ==> added[1..][j - 1] == added[j];
          }
        }
      }
      assert t.memberId == owner || t.memberId in r ==>
          ((forall x :: x in next ==> !SamePair(x, t)) <==> !SamePair(s, t) && forall x :: x in ss ==> !SamePair(x, t));
    }
  }

  /** New versions and copies are good, and a new current version is newer and recorded. */
  ghost predicate SecretsPass(r: Roster, owner: Id, st: SecretsState, delta: Option<SecretsDelta>) {
    delta.Some? ==>
      var d := delta.value;
      && GoodVersions(owner, st.versions, d.newVersions)
      && GoodCopies(r, owner, st.versions + d.newVersions, st.encryptedSecrets, d.newEncryptedSecrets)
      && (d.currentVersion.Some? ==>
            d.currentVersion.value > st.currentVersion
            && exists v :: (v in st.versions || v in d.newVersions) && v.version == d.currentVersion.value)
  }

  /** Versions by number, copies by version and member; under a delta, both with what is new, and copies only for the
      owner and those listed. */
  ghost predicate SecretsLeave(r: Roster, owner: Id, st: SecretsState, delta: Option<SecretsDelta>,
                               after: SecretsState)
  {
    && (forall i, j :: 0 <= i < j < |after.versions| ==> after.versions[i].version <= after.versions[j].version)
    && (forall i, j :: 0 <= i < j < |after.encryptedSecrets| ==>
                         CopyUpTo(after.encryptedSecrets[i], after.encryptedSecrets[j]))
    && if delta.None? then
         && after.currentVersion == st.currentVersion
         && (forall v :: v in after.versions <==> v in st.versions)
         && (forall s :: s in after.encryptedSecrets <==> s in st.encryptedSecrets)
       else
         && after.currentVersion == (if delta.value.currentVersion.Some? then delta.value.currentVersion.value
                                      else st.currentVersion)
         && (forall v :: v in after.versions <==> v in st.versions || v in delta.value.newVersions)
         && (forall s :: s in after.encryptedSecrets
                         <==> (s in st.encryptedSecrets || s in delta.value.newEncryptedSecrets)
                              && (s.memberId == owner || s.memberId in r))
  }

  predicate CopyUpTo(s: EncryptedSecret, t: EncryptedSecret) {
    s.secretVersion < t.secretVersion || (s.secretVersion == t.secretVersion && s.memberId <= t.memberId)
  }

  lemma {:induction false} PushedElements(r: Roster, owner: Id, vs: seq<SecretVersionRecord>, ss: seq<EncryptedSecret>,
                                          added: seq<EncryptedSecret>, s: EncryptedSecret)
    requires PushSecrets(r, owner, vs, ss, added).ok
    ensures s in PushSecrets(r, owner, vs, ss, added).list
            <==> s in ss || (s in added && Holder(r, owner, s.memberId))
    decreases added
  {
    if added != [] {
      assert added == [added[0]] + added[1..];
      PushedElements(r, owner, vs, AfterCopy(r, owner, ss, added[0]), added[1..], s);
    }
  }

  lemma SecretsOrdered(st: SecretsState)
    ensures var after := InOrder(st);
            && (forall i, j :: 0 <= i < j < |after.versions| ==> after.versions[i].version <= after.versions[j].version)
            && (forall i, j :: 0 <= i < j < |after.encryptedSecrets| ==>
                                 CopyUpTo(after.encryptedSecrets[i], after.encryptedSecrets[j]))
  {
    var vs, ss := InOrder(st).versions, InOrder(st).encryptedSecrets;
    SortSorts(st.versions, VersionKey);
    SortSorts(st.encryptedSecrets, SecretKey);
    forall i, j | 0 <= i < j < |vs| ensures vs[i].version <= vs[j].version {
      assert AtMost(VersionKey(vs[i]), VersionKey(vs[j]));
    }
    forall i, j | 0 <= i < j < |ss| ensures CopyUpTo(ss[i], ss[j]) {
      assert AtMost(SecretKey(ss[i]), SecretKey(ss[j]));
    }
  }

  /** The secrets step accepts exactly the deltas that pass, and leaves exactly that. */
  lemma SecretsRead(r: Roster, owner: Id, st: SecretsState, delta: Option<SecretsDelta>)
    ensures SecretsApplied(r, owner, st, delta).Some? <==> SecretsPass(r, owner, st, delta)
    ensures SecretsApplied(r, owner, st, delta).Some? ==>
              SecretsLeave(r, owner, st, delta, SecretsApplied(r, owner, st, delta).value)
  {
    if delta.None? {
      SecretsOrdered(st);
    } else {
      var d := delta.value;
      VersionsPushExactly(owner, st.versions, d.newVersions);
      if PushVersions(owner, st.versions, d.newVersions).ok {
        var vs := st.versions + d.newVersions;
        PushedVersions(owner, st.versions, d.newVersions);
        CopiesPushExactly(r, owner, vs, st.encryptedSecrets, d.newEncryptedSecrets);
        SettableReads(st, d, PushSecrets(r, owner, vs, st.encryptedSecrets, d.newEncryptedSecrets).list);
        if SecretsApplied(r, owner, st, delta).Some? {
          SecretsLeft(r, owner, st, d, vs);
        }
      }
    }
  }

  lemma SettableReads(st: SecretsState, d: SecretsDelta, ss: seq<EncryptedSecret>)
    ensures VersionSettable(SecretsState(st.currentVersion, st.versions + d.newVersions, ss), d.currentVersion)
            <==> (d.currentVersion.Some? ==>
                    d.currentVersion.value > st.currentVersion
                    && exists v :: (v in st.versions || v in d.newVersions) && v.version == d.currentVersion.value)
  {
    if v :| (v in st.versions || v in d.newVersions) && d.currentVersion == Some(v.version) {
      assert v in st.versions + d.newVersions;
    }
  }

  lemma SecretsLeft(r: Roster, owner: Id, st: SecretsState, d: SecretsDelta, vs: seq<SecretVersionRecord>)
    requires SecretsApplied(r, owner, st, Some(d)).Some? && vs == st.versions + d.newVersions
    requires PushVersions(owner, st.versions, d.newVersions) == Pushed(vs, true)
    ensures SecretsLeave(r, owner, st, Some(d), SecretsApplied(r, owner, st, Some(d)).value)
  {
    var pushed := PushSecrets(r, owner, vs, st.encryptedSecrets, d.newEncryptedSecrets);
    var current := if d.currentVersion.Some? then d.currentVersion.value else st.currentVersion;
    SecretsOrdered(SecretsState(current, vs, ForHolders(r, owner, pushed.list)));
    forall s ensures s in pushed.list
                     <==> s in st.encryptedSecrets || (s in d.newEncryptedSecrets && Holder(r, owner, s.memberId)) {
      PushedElements(r, owner, vs, st.encryptedSecrets, d.newEncryptedSecrets, s);
    }
  }

  // ---------- Messages ----------

  function Size(body: Body): nat {
    if body.Public? then body.len else |body.ciphertext|
  }

  ghost predicate ByTime(ms: seq<AuthorizedMessage>) {
    forall i, j :: 0 <= i < j < |ms| ==>
                     ms[i].time < ms[j].time || (ms[i].time == ms[j].time && ms[i].id <= ms[j].id)
  }

  /** Of the log and of what it does not have yet the messages within the size limit by the owner or someone listed, by
      time. */
  ghost predicate MessagesLeave(cfg: Config, r: Roster, ms: seq<AuthorizedMessage>,
                                delta: Option<seq<AuthorizedMessage>>, after: seq<AuthorizedMessage>)
  {
    && ByTime(after)
    && forall m :: m in after <==>
                     && (m in ms || (delta.Some? && m in delta.value && forall n :: n in ms ==> n.id != m.id))
                     && Size(m.body) <= cfg.maxMessageSize
                     && (m.author == cfg.owner || m.author in r)
  }

  ghost predicate MessagesPass(cfg: Config, r: Roster, secrets: SecretsState, delta: Option<seq<AuthorizedMessage>>) {
    delta.Some? ==> forall m :: m in delta.value ==> !M.Refused(cfg, r, secrets, m)
  }

  /** The messages step rejects exactly the deltas with a message that breaks a rule, and leaves exactly that. */
  lemma MessagesRead(cfg: Config, r: Roster, secrets: SecretsState, ms: seq<AuthorizedMessage>,
                     delta: Option<seq<AuthorizedMessage>>)
    ensures M.MessagesApplied(cfg, r, secrets, ms, delta).Some? <==> MessagesPass(cfg, r, secrets, delta)
    ensures M.MessagesApplied(cfg, r, secrets, ms, delta).Some? ==>
              MessagesLeave(cfg, r, ms, delta, M.MessagesApplied(cfg, r, secrets, ms, delta).value)
  {
    forall m | m in M.Arriving(delta) ensures M.MessageOk(cfg, r, secrets, m) <==> !M.Refused(cfg, r, secrets, m) {
      M.RefusedReads(cfg, r, secrets, m);
    }
    var all := ms + M.Fresh(ms, M.Arriving(delta));
    M.KeptIsCanonical(cfg, r, all);
    MessagesOrdered(M.Kept(cfg, r, all));
    FreshReads(ms, M.Arriving(delta));
  }

  lemma FreshReads(ms: seq<AuthorizedMessage>, d: seq<AuthorizedMessage>)
    ensures forall m :: m in M.Fresh(ms, d) <==> m in d && forall n :: n in ms ==> n.id != m.id
  {
  }

  lemma MessagesOrdered(ms: seq<AuthorizedMessage>)
    requires Sorted(ms, MessageKey)
    ensures ByTime(ms)
  {
    forall i, j | 0 <= i < j < |ms|
      ensures ms[i].time < ms[j].time || (ms[i].time == ms[j].time && ms[i].id <= ms[j].id)
    {
      assert AtMost(MessageKey(ms[i]), MessageKey(ms[j]));
    }
  }

  /** Plain text does not get into a private board's log: the owner's own public message is refused there, and accepted
      on a public board. */
  lemma PublicRefusedHere()
    ensures var g := AuthorizedMessage(1, 0, 0, Public(TextType, Text("hi"), 2), {0});
            && M.MessagesApplied(Config(0, {}, 0, 9, 9, 0, true), map[], EMPTY, [], Some([g])).None?
            && M.MessagesApplied(Config(0, {}, 0, 9, 9, 0, false), map[], EMPTY, [], Some([g])).Some?
  {
    var g := AuthorizedMessage(1, 0, 0, Public(TextType, Text("hi"), 2), {0});
    MessagesRead(Config(0, {}, 0, 9, 9, 0, true), map[], EMPTY, [], Some([g]));
    MessagesRead(Config(0, {}, 0, 9, 9, 0, false), map[], EMPTY, [], Some([g]));
    assert g in [g];
  }
}
