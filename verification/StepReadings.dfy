/** The whole step, merging and verification said of the records themselves. */
module StepReadings {
  import opened Lists
  import opened Records
  import opened Forest
  import opened Members
  import opened Bans
  import MI = MemberInfos
  import S = Secrets
  import opened Actions
  import M = Messages
  import opened Board
  import opened Runs
  import opened Readings
  import opened RecordReadings
  import opened StepVerification

  // ---------- Cleanup ----------

  /** x is not the owner and is a listed author of a message or above one. */
  ghost predicate Heard(r: Roster, owner: Id, messages: seq<AuthorizedMessage>, x: Id) {
    x != owner &&
    exists g :: g in messages && g.author != owner && g.author in r && Upline(r, owner, x, g.author)
  }

  lemma HeardReads(r: Roster, owner: Id, messages: seq<AuthorizedMessage>, x: Id)
    ensures Required(r, owner, messages, x) <==> Heard(r, owner, messages, x)
  {
    forall g | g in messages ensures Above(r, owner, x, g.author) <==> Upline(r, owner, x, g.author) {
      WalkReads(r, owner, x, g.author);
    }
  }

  /** A ban stays if its banner is the owner, or still listed, or not banned. */
  ghost predicate BanLeft(owner: Id, members: seq<AuthorizedMember>, bans: seq<AuthorizedUserBan>,
                          b: AuthorizedUserBan)
  {
    && b in bans
    && (b.bannedBy == owner || HasId(members, b.bannedBy) || forall c :: c in bans ==> c.bannedUser != b.bannedBy)
  }

  /** Members who are heard of, records of them and of the owner, bans that stay; the rest as it was. */
  ghost predicate CleanupLeaves(owner: Id, mid: Snapshot, after: Snapshot) {
    var r := MembersById(mid.members);
    && ByIdentifier(after.members)
    && (forall m :: m in after.members <==> m in mid.members && Heard(r, owner, mid.messages, m.id))
    && (forall i, j :: 0 <= i < j < |after.memberInfo| ==> after.memberInfo[i].memberId <= after.memberInfo[j].memberId)
    && (forall i :: i in after.memberInfo
                    <==> i in mid.memberInfo && (i.memberId == owner || Heard(r, owner, mid.messages, i.memberId)))
    && (forall b :: b in after.bans <==> BanLeft(owner, after.members, mid.bans, b))
    && (Readings.ByTime(mid.bans) ==> Readings.ByTime(after.bans))
    && after.secrets == mid.secrets && after.messages == mid.messages && after.actions == mid.actions
  }

  lemma BansLeft(owner: Id, members: seq<AuthorizedMember>, bans: seq<AuthorizedUserBan>)
    ensures forall b :: b in StayingBans(MembersById(members), owner, bans) <==> BanLeft(owner, members, bans, b)
    ensures Readings.ByTime(bans) ==> Readings.ByTime(StayingBans(MembersById(members), owner, bans))
  {
    var after := StayingBans(MembersById(members), owner, bans);
    forall x ensures x in MembersById(members) <==> HasId(members, x) {
      if x in MembersById(members) {
        assert MembersById(members)[x] in members;
      }
    }
    if Readings.ByTime(bans) {
      forall i, j | 0 <= i < j < |bans| ensures AtMost(BanKey(bans[i]), BanKey(bans[j])) {
        assert NotEarlier(bans[j], bans[i]);
      }
      var stays := (b: AuthorizedUserBan) => BanStays(MembersById(members), owner, BannedUsers(bans), b);
      FilterKeepsOrder(bans, stays, BanKey);
      BansOrdered(after);
    }
  }

  lemma InfosLeft(r: Roster, owner: Id, messages: seq<AuthorizedMessage>, infos: seq<AuthorizedMemberInfo>)
    ensures var after := StayingInfos(r, owner, messages, infos);
            && (forall i, j :: 0 <= i < j < |after| ==> after[i].memberId <= after[j].memberId)
            && (forall i :: i in after
                            <==> i in infos && (i.memberId == owner || Heard(r, owner, messages, i.memberId)))
  {
    var keep := (i: AuthorizedMemberInfo) => i.memberId == owner || Required(r, owner, messages, i.memberId);
    var after := StayingInfos(r, owner, messages, infos);
    SortSorts(Filter(infos, keep), InfoKey);
    forall i, j | 0 <= i < j < |after| ensures after[i].memberId <= after[j].memberId {
      assert AtMost(InfoKey(after[i]), InfoKey(after[j]));
    }
    forall i ensures i in after <==> i in infos && (i.memberId == owner || Heard(r, owner, messages, i.memberId)) {
      HeardReads(r, owner, messages, i.memberId);
    }
  }

  /** What `post_apply_cleanup` leaves, on any board. */
  lemma CleanupReads(owner: Id, s: Snapshot)
    ensures CleanupLeaves(owner, s, Cleaned(owner, s))
  {
    var after := Cleaned(owner, s);
    PrunedElements(s.members, owner, s.messages);
    MembersOrdered(after.members);
    forall m ensures m in after.members
                     <==> m in s.members && Heard(MembersById(s.members), owner, s.messages, m.id) {
      HeardReads(MembersById(s.members), owner, s.messages, m.id);
    }
    InfosLeft(MembersById(s.members), owner, s.messages, s.memberInfo);
    BansLeft(owner, after.members, s.bans);
  }

  /** A ban is there after a step exactly when it was there before cleanup and its banner is the owner, still listed, or
      named by no ban. */
  lemma BansStayExactly(cfg: Config, s: Snapshot, d: Delta, mid: Snapshot, b: AuthorizedUserBan)
    requires PartsApplied(cfg, s, d) == Some(mid)
    ensures var after := Applied(cfg, s, d).value;
            b in after.bans
            <==> b in mid.bans
                 && (b.bannedBy == cfg.owner
                     || (exists m :: m in after.members && m.id == b.bannedBy)
                     || forall c :: c in mid.bans ==> c.bannedUser != b.bannedBy)
  {
    CleanupReads(cfg.owner, mid);
  }

  /** The ban of a member who is pruned for silence, and whom nobody banned, stays. */
  lemma SilentBannersBanStays()
    ensures var b := AuthorizedUserBan(7, 1, 2, 1, {1});
            var s := EMPTY_BOARD.(members := [AuthorizedMember(1, 0, {0})], bans := [b]);
            Cleaned(0, s).members == [] && Cleaned(0, s).bans == [b]
  {
    var b := AuthorizedUserBan(7, 1, 2, 1, {1});
    var s := EMPTY_BOARD.(members := [AuthorizedMember(1, 0, {0})], bans := [b]);
    var after := Cleaned(0, s);
    FilterNone(s.members, (m: AuthorizedMember) => Required(MembersById(s.members), 0, [], m.id));
    assert BannedUsers([b]) == {2};
    FilterAll([b], (c: AuthorizedUserBan) => BanStays(MembersById(after.members), 0, BannedUsers([b]), c));
  }

  // ---------- The step ----------

  /** Every part lets its share of the delta through and leaves its share of mid, each seeing what is before it. */
  ghost predicate PartsLeave(cfg: Config, s: Snapshot, d: Delta, mid: Snapshot) {
    var before, r := MembersById(s.members), MembersById(mid.members);
    && BansPass(before, cfg, s.bans, d.bans) && BansLeave(cfg, s.bans, d.bans, mid.bans)
    && MembersPass(s.members, cfg.owner, d.members) && MembersLeave(s.members, mid.bans, d.members, mid.members)
    && InfosPass(r, cfg, d.memberInfo)
    && (MI.DistinctInfos(s.memberInfo) ==> InfosLeave(r, cfg.owner, s.memberInfo, d.memberInfo, mid.memberInfo))
    && SecretsPass(r, cfg.owner, s.secrets, d.secrets)
    && SecretsLeave(r, cfg.owner, s.secrets, d.secrets, mid.secrets)
    && MessagesPass(cfg, r, mid.secrets, d.messages)
    && MessagesLeave(cfg, r, s.messages, d.messages, mid.messages)
    && Reflects(mid.actions, mid.messages, map[], None, None)
  }

  /** Some part does not let its share through, given what the parts before it leave. */
  ghost predicate SomePartRefuses(cfg: Config, s: Snapshot, d: Delta, mid: Snapshot) {
    var before, r := MembersById(s.members), MembersById(mid.members);
    if !BansPass(before, cfg, s.bans, d.bans) then true
    else
      BansLeave(cfg, s.bans, d.bans, mid.bans) &&
      if !MembersPass(s.members, cfg.owner, d.members) then true
      else
        MembersLeave(s.members, mid.bans, d.members, mid.members) &&
        if !InfosPass(r, cfg, d.memberInfo) || !SecretsPass(r, cfg.owner, s.secrets, d.secrets) then true
        else
          SecretsLeave(r, cfg.owner, s.secrets, d.secrets, mid.secrets) &&
          !MessagesPass(cfg, r, mid.secrets, d.messages)
  }

  /** Of any step from any board: it is accepted and leaves what its parts and then cleanup leave, or one of its parts
      refuses. */
  lemma StepReads(cfg: Config, s: Snapshot, d: Delta) returns (mid: Snapshot)
    ensures Applied(cfg, s, d).Some? ==> PartsApplied(cfg, s, d) == Some(mid) && PartsLeave(cfg, s, d, mid)
    ensures Applied(cfg, s, d).Some? ==> CleanupLeaves(cfg.owner, mid, Applied(cfg, s, d).value)
    ensures Applied(cfg, s, d).None? ==> SomePartRefuses(cfg, s, d, mid)
  {
    if PartsApplied(cfg, s, d).Some? {
      mid := PartsApplied(cfg, s, d).value;
      FirstPartsRead(cfg, s, d, mid);
      LastPartsRead(cfg, s, d, mid);
      CleanupReads(cfg.owner, mid);
    } else {
      mid := RefusalReads(cfg, s, d);
    }
  }

  lemma FirstPartsRead(cfg: Config, s: Snapshot, d: Delta, mid: Snapshot)
    requires PartsApplied(cfg, s, d) == Some(mid)
    ensures BansPass(MembersById(s.members), cfg, s.bans, d.bans) && BansLeave(cfg, s.bans, d.bans, mid.bans)
    ensures MembersPass(s.members, cfg.owner, d.members) && MembersLeave(s.members, mid.bans, d.members, mid.members)
  {
    BansAndMembers(cfg, s, d, mid);
    BansRead(MembersById(s.members), cfg, s.bans, d.bans);
    MembersRead(s.members, cfg.owner, mid.bans, d.members);
  }

  lemma LastParts(cfg: Config, s: Snapshot, d: Delta, mid: Snapshot)
    requires PartsApplied(cfg, s, d) == Some(mid)
    ensures var r := MembersById(mid.members);
            && MI.InfosApplied(r, cfg, s.memberInfo, d.memberInfo) == Some(mid.memberInfo)
            && S.SecretsApplied(r, cfg.owner, s.secrets, d.secrets) == Some(mid.secrets)
            && M.MessagesApplied(cfg, r, mid.secrets, s.messages, d.messages) == Some(mid.messages)
            && mid.actions == Rebuilt(mid.messages)
  {
  }

  lemma LastPartsRead(cfg: Config, s: Snapshot, d: Delta, mid: Snapshot)
    requires PartsApplied(cfg, s, d) == Some(mid)
    ensures var r := MembersById(mid.members);
            && InfosPass(r, cfg, d.memberInfo)
            && (MI.DistinctInfos(s.memberInfo) ==>
                  InfosLeave(r, cfg.owner, s.memberInfo, d.memberInfo, mid.memberInfo))
            && SecretsPass(r, cfg.owner, s.secrets, d.secrets)
            && SecretsLeave(r, cfg.owner, s.secrets, d.secrets, mid.secrets)
            && MessagesPass(cfg, r, mid.secrets, d.messages)
            && MessagesLeave(cfg, r, s.messages, d.messages, mid.messages)
    ensures Reflects(mid.actions, mid.messages, map[], None, None)
  {
    var r := MembersById(mid.members);
    RebuiltMeaning(mid.messages, map[], None, None);
    LastParts(cfg, s, d, mid);
    InfosRead(r, cfg, s.memberInfo, d.memberInfo);
    SecretsRead(r, cfg.owner, s.secrets, d.secrets);
    MessagesRead(cfg, r, mid.secrets, s.messages, d.messages);
  }

  /** Why a step is rejected, with what the parts before the refusing one leave. */
  lemma RefusalReads(cfg: Config, s: Snapshot, d: Delta) returns (mid: Snapshot)
    requires PartsApplied(cfg, s, d).None?
    ensures SomePartRefuses(cfg, s, d, mid)
  {
    var bans := BansApplied(MembersById(s.members), cfg, s.bans, d.bans);
    BansRead(MembersById(s.members), cfg, s.bans, d.bans);
    mid := s;
    if bans.Some? {
      var members := MembersApplied(s.members, cfg.owner, bans.value, d.members);
      MembersRead(s.members, cfg.owner, bans.value, d.members);
      mid := s.(bans := bans.value);
      if members.Some? {
        var secrets := LaterRefusal(cfg, s, d, bans.value, members.value);
        mid := s.(bans := bans.value, members := members.value, secrets := secrets);
      }
    }
  }

  lemma LaterRefusal(cfg: Config, s: Snapshot, d: Delta, bans: seq<AuthorizedUserBan>, members: seq<AuthorizedMember>)
    returns (secrets: S.SecretsState)
    requires PartsApplied(cfg, s, d).None?
    requires BansApplied(MembersById(s.members), cfg, s.bans, d.bans) == Some(bans)
    requires MembersApplied(s.members, cfg.owner, bans, d.members) == Some(members)
    ensures var r := MembersById(members);
            || !InfosPass(r, cfg, d.memberInfo)
            || !SecretsPass(r, cfg.owner, s.secrets, d.secrets)
            || (SecretsLeave(r, cfg.owner, s.secrets, d.secrets, secrets) && !MessagesPass(cfg, r, secrets, d.messages))
  {
    var r := MembersById(members);
    secrets := s.secrets;
    InfosRead(r, cfg, s.memberInfo, d.memberInfo);
    SecretsRead(r, cfg.owner, s.secrets, d.secrets);
    PartsAfterMembers(cfg, s, d, bans, members);
    if S.SecretsApplied(r, cfg.owner, s.secrets, d.secrets).Some? {
      secrets := S.SecretsApplied(r, cfg.owner, s.secrets, d.secrets).value;
      MessagesRead(cfg, r, secrets, s.messages, d.messages);
    }
  }

  /** On a private board an accepted step adds no public message, and none under another than the current version. */
  lemma PrivateBoardStaysPrivate(cfg: Config, s: Snapshot, d: Delta)
    requires cfg.privateMode && Applied(cfg, s, d).Some?
    ensures var after := Applied(cfg, s, d).value;
            forall m :: m in after.messages && m !in s.messages ==>
                          m.body.Private? && m.body.secretVersion == after.secrets.currentVersion
  {
    var mid := StepReads(cfg, s, d);
  }

  // ---------- Verification ----------

  /** Every list of the board passes its `verify`. */
  ghost predicate Verified(cfg: Config, s: Snapshot) {
    var r := MembersById(s.members);
    && |s.bans| <= cfg.maxUserBans && (forall b :: b in s.bans ==> GoodBan(r, cfg, s.bans, b))
    && (forall m :: m in s.members ==> m.id != cfg.owner && Invited(r, cfg.owner, m))
    && (forall i :: i in s.memberInfo ==> (i.memberId == cfg.owner || i.memberId in r) && i.memberId in i.signature)
    && (forall v :: v in s.secrets.versions ==> cfg.owner in v.signature && v.version <= s.secrets.currentVersion)
    && (forall c :: c in s.secrets.encryptedSecrets ==> cfg.owner in c.signature)
    && ((s.secrets.currentVersion == 0 && s.secrets.versions == [])
        || exists v :: v in s.secrets.versions && v.version == s.secrets.currentVersion)
    && (forall g :: g in s.messages ==> (g.author == cfg.owner || g.author in r) && g.author in g.signature)
  }

  lemma SecretsVerifyReads(owner: Id, st: S.SecretsState)
    ensures S.SecretsVerify(owner, st)
            <==> (forall v :: v in st.versions ==> owner in v.signature && v.version <= st.currentVersion)
                 && (forall c :: c in st.encryptedSecrets ==> owner in c.signature)
                 && ((st.currentVersion == 0 && st.versions == [])
                     || exists v :: v in st.versions && v.version == st.currentVersion)
  {
    var ids := S.VersionIds(st.versions);
    assert st.versions != [] ==> st.versions[0] in st.versions && st.versions[0].version in ids;
    forall v | v in st.versions ensures v.version in ids {
    }
    forall n ensures n in ids <==> exists v :: v in st.versions && v.version == n {
    }
  }

  /** What `validate_state` accepts of the parts modelled here. */
  lemma VerificationReads(cfg: Config, s: Snapshot)
    ensures BoardVerify(cfg, s) <==> Verified(cfg, s)
  {
    BansVerifyReads(MembersById(s.members), cfg, s.bans);
    MembersVerifyReads(s.members, cfg.owner);
    SecretsVerifyReads(cfg.owner, s.secrets);
  }

  // ---------- Updates and merging ----------

  /** Something is sent exactly when there is something to send. */
  ghost predicate Sends<T(!new)>(part: Option<seq<T>>, sent: T -> bool) {
    && (part.None? <==> forall x :: !sent(x))
    && (part.Some? ==> forall x :: x in part.value <==> sent(x))
  }

  /** Position k holds the last record of this member. */
  ghost predicate LastInfo(infos: seq<AuthorizedMemberInfo>, k: nat, x: Id) {
    k < |infos| && infos[k].memberId == x && forall j :: k < j < |infos| ==> infos[j].memberId != x
  }

  /** What other has and s lacks: by identifier, for member info by version, and for secrets by number and pair. */
  ghost predicate Lacking(s: Snapshot, other: Snapshot, d: Delta) {
    && Sends(d.bans, (b: AuthorizedUserBan) => b in other.bans && forall c :: c in s.bans ==> c.id != b.id)
    && Sends(d.members, (m: AuthorizedMember) => m in other.members && forall c :: c in s.members ==> c.id != m.id)
    && Sends(d.memberInfo,
             (i: AuthorizedMemberInfo) =>
               i in other.memberInfo
               && forall k: nat :: LastInfo(s.memberInfo, k, i.memberId) ==> s.memberInfo[k].version < i.version)
    && Sends(d.messages, (g: AuthorizedMessage) => g in other.messages && forall c :: c in s.messages ==> c.id != g.id)
    && LackingSecrets(s.secrets, other.secrets, d.secrets)
  }

  ghost predicate LackingSecrets(st: S.SecretsState, other: S.SecretsState, d: Option<S.SecretsDelta>) {
    && (d.None? ==> other.currentVersion == st.currentVersion
                    && (forall v :: v in other.versions ==> Numbered(st.versions, v.version))
                    && forall c :: c in other.encryptedSecrets ==> Copied(st.encryptedSecrets, c))
    && (d.Some? ==>
          && d.value.currentVersion == (if other.currentVersion > st.currentVersion then Some(other.currentVersion)
                                        else None)
          && (forall v :: v in d.value.newVersions <==> v in other.versions && !Numbered(st.versions, v.version))
          && forall c :: c in d.value.newEncryptedSecrets
                         <==> c in other.encryptedSecrets && !Copied(st.encryptedSecrets, c))
  }

  ghost predicate Numbered(vs: seq<SecretVersionRecord>, n: nat) {
    exists v :: v in vs && v.version == n
  }

  ghost predicate Copied(ss: seq<EncryptedSecret>, c: EncryptedSecret) {
    exists s :: s in ss && SamePair(s, c)
  }

  lemma PartSent<T(!new)>(list: seq<T>, lacks: T -> bool, sent: T -> bool)
    requires forall x :: sent(x) <==> x in list && lacks(x)
    ensures Sends(NonEmpty(Filter(list, lacks)), sent)
  {
    var f := Filter(list, lacks);
    assert f != [] ==> f[0] in f && sent(f[0]);
    if f == [] {
      forall x ensures !sent(x) {
        assert x in f <==> x in list && lacks(x);
      }
    }
  }

  lemma {:induction false} InfoVersionsRead(infos: seq<AuthorizedMemberInfo>, x: Id)
    ensures x in InfoVersions(infos) <==> exists k: nat :: LastInfo(infos, k, x)
    ensures forall k: nat :: LastInfo(infos, k, x) ==>
                               x in InfoVersions(infos) && InfoVersions(infos)[x] == infos[k].version
  {
    if infos != [] {
      var n := |infos| - 1;
      InfoVersionsRead(infos[..n], x);
      if infos[n].memberId == x {
        assert LastInfo(infos, n, x);
      } else {
        forall k: nat ensures LastInfo(infos, k, x) <==> LastInfo(infos[..n], k, x) {
          assert k < n ==> infos[..n][k] == infos[k];
          assert forall j :: 0 <= j < n ==> infos[..n][j] == infos[j];
        }
      }
    }
  }

  lemma InfosSent(s: Snapshot, other: Snapshot)
    ensures Sends(NonEmpty(InfosBeyond(other.memberInfo, InfoVersions(s.memberInfo))),
                  (i: AuthorizedMemberInfo) =>
                    i in other.memberInfo
                    && forall k: nat :: LastInfo(s.memberInfo, k, i.memberId) ==> s.memberInfo[k].version < i.version)
  {
    var peer := InfoVersions(s.memberInfo);
    var sent := (i: AuthorizedMemberInfo) =>
                  i in other.memberInfo
                  && forall k: nat :: LastInfo(s.memberInfo, k, i.memberId) ==> s.memberInfo[k].version < i.version;
    var lacks := (i: AuthorizedMemberInfo) => i.memberId !in peer || i.version > peer[i.memberId];
    forall i ensures sent(i) <==> i in other.memberInfo && lacks(i) {
      InfoVersionsRead(s.memberInfo, i.memberId);
    }
    PartSent(other.memberInfo, lacks, sent);
  }

  lemma SecretsSent(st: S.SecretsState, other: S.SecretsState)
    ensures LackingSecrets(st, other, S.DeltaFor(other, S.Summarize(st)))
  {
    var peer := S.Summarize(st);
    forall v | v in other.versions ensures v.version in peer.versionIds <==> Numbered(st.versions, v.version) {
    }
    forall c | c in other.encryptedSecrets ensures S.Pair(c) in peer.memberSecrets <==> Copied(st.encryptedSecrets, c) {
      if t :| t in st.encryptedSecrets && SamePair(t, c) {
        assert S.Pair(t) == S.Pair(c);
      }
    }
    if S.DeltaFor(other, peer).None? {
      NothingFiltered(other.versions, (v: SecretVersionRecord) => v.version !in peer.versionIds);
      NothingFiltered(other.encryptedSecrets, (c: EncryptedSecret) => S.Pair(c) !in peer.memberSecrets);
    }
  }

  /** Of two well-formed states the merged one has a copy for the owner or a listed member exactly where one of them
      has. */
  lemma MergedCopies(r: Roster, owner: Id, a: S.SecretsState, b: S.SecretsState, c: EncryptedSecret)
    requires S.WellFormed(owner, a) && S.WellFormed(owner, b) && (c.memberId == owner || c.memberId in r)
    ensures var m := S.SecretsApplied(r, owner, a, S.DeltaFor(b, S.Summarize(a)));
            m.Some? && (Copied(m.value.encryptedSecrets, c)
                        <==> Copied(a.encryptedSecrets, c) || Copied(b.encryptedSecrets, c))
  {
    var d := S.DeltaFor(b, S.Summarize(a));
    S.MergeWellFormed(r, owner, a, b);
    SecretsRead(r, owner, a, d);
    SecretsSent(a, b);
    var after := S.SecretsApplied(r, owner, a, d).value.encryptedSecrets;
    if s :| s in a.encryptedSecrets && SamePair(s, c) {
      assert s in after;
    }
    if s :| s in b.encryptedSecrets && SamePair(s, c) {
      if !Copied(a.encryptedSecrets, s) {
        assert s in after;
      } else {
        var t :| t in a.encryptedSecrets && SamePair(t, s);
        assert t in after;
      }
    }
  }

  lemma NothingFiltered<T(!new)>(s: seq<T>, p: T -> bool)
    requires Filter(s, p) == []
    ensures forall x :: x in s ==> !p(x)
  {
    forall x | x in s ensures !p(x) {
      assert x in Filter(s, p) <==> p(x);
    }
  }

  /** A whole state is merged by applying what it has and the board lacks; a delta is applied; the rest is passed
      over. */
  lemma UpdateReads(cfg: Config, s: Snapshot, u: Update)
    ensures u.StateUpdate? ==>
              var d := DeltaSince(u.other, SummaryOf(s));
              Lacking(s, u.other, d) && Updated(cfg, s, u) == Merge(cfg, s, u.other) == Applied(cfg, s, d)
    ensures u.DeltaUpdate? ==> Updated(cfg, s, u) == Applied(cfg, s, u.delta)
    ensures u.EmptyUpdate? || u.RelatedState? ==> Updated(cfg, s, u) == Some(s)
  {
    if u.StateUpdate? {
      var other := u.other;
      PartSent(other.bans, (b: AuthorizedUserBan) => b.id !in BanIds(s.bans),
               (b: AuthorizedUserBan) => b in other.bans && forall c :: c in s.bans ==> c.id != b.id);
      PartSent(other.members, (m: AuthorizedMember) => m.id !in Ids(s.members),
               (m: AuthorizedMember) => m in other.members && forall c :: c in s.members ==> c.id != m.id);
      PartSent(other.messages, (g: AuthorizedMessage) => g.id !in M.MessageIds(s.messages),
               (g: AuthorizedMessage) => g in other.messages && forall c :: c in s.messages ==> c.id != g.id);
      InfosSent(s, other);
      SecretsSent(s.secrets, other.secrets);
    }
  }
}
