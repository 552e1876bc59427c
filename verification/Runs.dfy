/** What every run of accepted updates keeps, whatever configurations it goes through. */
module Runs {
  import opened Lists
  import opened Records
  import opened Forest
  import opened Descent
  import opened Members
  import opened Bans
  import MI = MemberInfos
  import opened Secrets
  import opened Actions
  import M = Messages
  import opened Board

  /** The board as a step leaves it: members and member info verify, every author is listed, every list is in order. */
  ghost predicate Inv(owner: Id, s: Snapshot) {
    var r := MembersById(s.members);
    && MembersInv(owner, s)
    && (forall m :: m in s.messages ==> m.author == owner || m.author in r)
    && MI.InfosVerify(r, owner, s.memberInfo)
    && StrictlySorted(s.memberInfo, InfoKey)
    && Sorted(s.bans, BanKey)
    && Sorted(s.messages, MessageKey)
    && Sorted(s.secrets.versions, VersionKey) && Sorted(s.secrets.encryptedSecrets, SecretKey)
    && s.actions == Rebuilt(s.messages)
  }

  /** Members pass `verify`, each is an author or above one, and none is banned or below a banned user. */
  ghost predicate MembersInv(owner: Id, s: Snapshot) {
    && StrictlySorted(s.members, MemberKey)
    && DistinctIds(s.members)
    && MembersVerify(s.members, owner)
    && (forall m {:trigger Required(MembersById(s.members), owner, s.messages, m.id)} :: m in s.members ==>
          Required(MembersById(s.members), owner, s.messages, m.id))
    && (forall m :: m in s.members ==> !Condemned(MembersById(s.members), owner, s.bans, m.id))
  }

  lemma EmptyInv(owner: Id)
    ensures Inv(owner, EMPTY_BOARD)
  {
  }

  /** The member list between the members step and cleanup: an entry for the owner apart, verified and free of banned
      members. */
  lemma MembersBeforeCleanup(ms: seq<AuthorizedMember>, owner: Id, bans: seq<AuthorizedUserBan>,
                             delta: Option<seq<AuthorizedMember>>)
    requires DistinctIds(ms) && MembersVerify(ms, owner) && MembersApplied(ms, owner, bans, delta).Some?
    ensures var after := MembersApplied(ms, owner, bans, delta).value;
            var t := MembersById(after) - {owner};
            && DistinctIds(after) && VerifiedRoster(t, owner)
            && forall k :: k in t ==> !Condemned(t, owner, bans, k)
  {
    var all := AddNew(ms, Added(delta));
    var left := Unbanned(all, Top(MembersById(all), owner), bans);
    VerifyOfRoster(ms, owner);
    AddNewVerifies(ms, Added(delta), owner);
    StepOnForest(ms, owner, bans, delta);
    RemovalVerifies(all, owner, bans);
    UnbannedRoster(all, Top(MembersById(all), owner), bans);
    SortDistinctIds(left);
  }

  /** A step whose delta adds no entry for the owner always ends. */
  lemma NoOwnerEnds(ms: seq<AuthorizedMember>, owner: Id, bans: seq<AuthorizedUserBan>,
                    delta: Option<seq<AuthorizedMember>>)
    requires DistinctIds(ms) && MembersVerify(ms, owner) && NoOwnerEntry(delta, owner)
    ensures RemovalEnds(ms, owner, bans, delta)
  {
    if MembersApplied(ms, owner, bans, delta).Some? {
      VerifyOfRoster(ms, owner);
      assert owner !in MembersById(AddNew(ms, Added(delta)));
      RemovalEndsExactly(ms, owner, bans, delta);
    }
  }

  lemma FewerBansCondemnFewer(r: Roster, owner: Id, bans: seq<AuthorizedUserBan>, fewer: seq<AuthorizedUserBan>, x: Id)
    requires forall b :: b in fewer ==> b in bans
    ensures Condemned(r, owner, fewer, x) ==> Condemned(r, owner, bans, x)
  {
  }

  // ---------- Cleanup and an entry for the owner ----------

  function WithoutOwner(ms: seq<AuthorizedMember>, owner: Id): seq<AuthorizedMember> {
    Filter(ms, (m: AuthorizedMember) => m.id != owner)
  }

  lemma WithoutOwnerRoster(ms: seq<AuthorizedMember>, owner: Id)
    requires DistinctIds(ms)
    ensures DistinctIds(WithoutOwner(ms, owner)) && MembersById(WithoutOwner(ms, owner)) == MembersById(ms) - {owner}
  {
    var r, t := MembersById(ms), MembersById(WithoutOwner(ms, owner));
    FilterRoster(ms, (m: AuthorizedMember) => m.id != owner);
    RosterWithout(r, t, owner);
  }

  lemma RosterWithout(r: Roster, t: Roster, x: Id)
    requires Keyed(r) && forall k :: k in t <==> k in r && r[k].id != x
    requires forall k :: k in t ==> t[k] == r[k]
    ensures t == r - {x}
  {
    var u := r - {x};
    forall k | k in u ensures k in t && t[k] == u[k] {
    }
    forall k | k in t ensures k in u {
    }
  }

  lemma RequiredWithoutOwner(r: Roster, owner: Id, messages: seq<AuthorizedMessage>)
    ensures forall x :: Required(r - {owner}, owner, messages, x) <==> Required(r, owner, messages, x)
  {
    forall x ensures Required(r - {owner}, owner, messages, x) <==> Required(r, owner, messages, x) {
      forall m | m in messages && m.author != owner
        ensures Above(r - {owner}, owner, x, m.author) <==> Above(r, owner, x, m.author)
      {
        AboveWithoutOwner(r, owner, m.author);
      }
      RequiredAgrees(r - {owner}, r, owner, messages, x);
    }
  }

  /** Cleanup drops an entry for the owner and is otherwise blind to it. */
  lemma CleanedWithoutOwner(owner: Id, s: Snapshot)
    requires DistinctIds(s.members)
    ensures Cleaned(owner, s.(members := WithoutOwner(s.members, owner))) == Cleaned(owner, s)
  {
    var ms, ks := s.members, WithoutOwner(s.members, owner);
    var r := MembersById(ms);
    WithoutOwnerRoster(ms, owner);
    RequiredWithoutOwner(r, owner, s.messages);
    PrunedElements(ms, owner, s.messages);
    PrunedElements(ks, owner, s.messages);
    SortedListUnique(Pruned(ks, owner, s.messages), Pruned(ms, owner, s.messages), MemberKey);
    FilterSame(s.memberInfo,
               (i: AuthorizedMemberInfo) => i.memberId == owner || Required(r - {owner}, owner, s.messages, i.memberId),
               (i: AuthorizedMemberInfo) => i.memberId == owner || Required(r, owner, s.messages, i.memberId));
  }

  // ---------- What a step keeps ----------

  /** Cleanup establishes the member part of the invariant. */
  lemma CleanupEstablishes(owner: Id, s: Snapshot)
    requires DistinctIds(s.members) && VerifiedRoster(MembersById(s.members), owner)
    requires forall k :: k in MembersById(s.members) ==> !Condemned(MembersById(s.members), owner, s.bans, k)
    ensures MembersInv(owner, Cleaned(owner, s))
  {
    var after := Cleaned(owner, s);
    var r, t := MembersById(s.members), MembersById(after.members);
    PrunedElements(s.members, owner, s.messages);
    VerifyOfRoster(s.members, owner);
    CleanupKeepsMembersVerify(owner, s);
    RequiredAfterPrune(s.members, owner, s.messages);
    NobodyCondemnedAfterPrune(owner, s.members, s.messages, s.bans, after.bans);
  }

  lemma NobodyCondemnedAfterPrune(owner: Id, ms: seq<AuthorizedMember>, messages: seq<AuthorizedMessage>,
                                  bans: seq<AuthorizedUserBan>, fewer: seq<AuthorizedUserBan>)
    requires DistinctIds(ms) && forall b :: b in fewer ==> b in bans
    requires forall k :: k in MembersById(ms) ==> !Condemned(MembersById(ms), owner, bans, k)
    ensures var ks := Pruned(ms, owner, messages);
            forall m :: m in ks ==> !Condemned(MembersById(ks), owner, fewer, m.id)
  {
    var r := MembersById(ms);
    PrunedElements(ms, owner, messages);
    forall m | m in Pruned(ms, owner, messages)
      ensures !Condemned(MembersById(Pruned(ms, owner, messages)), owner, fewer, m.id)
    {
      PruneKeepsWalks(ms, owner, messages, m.id);
      FewerBansCondemnFewer(r, owner, bans, fewer, m.id);
      assert m.id in r;
    }
  }

  lemma BansSorted(r: Roster, cfg: Config, bs: seq<AuthorizedUserBan>, delta: Option<seq<AuthorizedUserBan>>)
    requires BansApplied(r, cfg, bs, delta).Some?
    ensures Sorted(BansApplied(r, cfg, bs, delta).value, BanKey)
  {
    SortSorts(bs, BanKey);
    if delta.Some? {
      SortSorts(KeepNewest(bs + delta.value, cfg.maxUserBans), BanKey);
    }
  }

  lemma SecretsSorted(r: Roster, owner: Id, st: SecretsState, delta: Option<SecretsDelta>)
    requires SecretsApplied(r, owner, st, delta).Some?
    ensures var after := SecretsApplied(r, owner, st, delta).value;
            Sorted(after.versions, VersionKey) && Sorted(after.encryptedSecrets, SecretKey)
  {
    if delta.None? {
      SortSorts(st.versions, VersionKey);
      SortSorts(st.encryptedSecrets, SecretKey);
    } else {
      var vs := PushVersions(owner, st.versions, delta.value.newVersions).list;
      var ss := PushSecrets(r, owner, vs, st.encryptedSecrets, delta.value.newEncryptedSecrets).list;
      SortSorts(vs, VersionKey);
      SortSorts(ForHolders(r, owner, ss), SecretKey);
    }
  }

  lemma InfosDistinct(infos: seq<AuthorizedMemberInfo>)
    requires StrictlySorted(infos, InfoKey)
    ensures MI.DistinctInfos(infos)
  {
    forall i, j | 0 <= i < j < |infos| ensures infos[i].memberId != infos[j].memberId {
      assert Less(InfoKey(infos[i]), InfoKey(infos[j]));
    }
  }

  lemma StayingInfosKept(r: Roster, owner: Id, messages: seq<AuthorizedMessage>, infos: seq<AuthorizedMemberInfo>)
    requires StrictlySorted(infos, InfoKey)
    ensures StrictlySorted(StayingInfos(r, owner, messages, infos), InfoKey)
    ensures forall i :: i in StayingInfos(r, owner, messages, infos) ==>
                          i in infos && (i.memberId == owner || Required(r, owner, messages, i.memberId))
  {
    var keep := (i: AuthorizedMemberInfo) => i.memberId == owner || Required(r, owner, messages, i.memberId);
    FilterKeepsOrder(infos, keep, InfoKey);
    StrictIsSorted(Filter(infos, keep), InfoKey);
    SortDistinct(Filter(infos, keep), InfoKey);
  }

  lemma StayingBansSorted(r: Roster, owner: Id, bs: seq<AuthorizedUserBan>)
    requires Sorted(bs, BanKey)
    ensures Sorted(StayingBans(r, owner, bs), BanKey)
  {
    FilterKeepsOrder(bs, (b: AuthorizedUserBan) => BanStays(r, owner, BannedUsers(bs), b), BanKey);
  }

  /** Cleanup leaves every author of a kept message, and everyone with a kept record, listed. */
  lemma CleanupKeepsAuthors(owner: Id, s: Snapshot)
    requires DistinctIds(s.members) && VerifiedRoster(MembersById(s.members), owner)
    requires StrictlySorted(s.memberInfo, InfoKey) && MI.InfosVerify(MembersById(s.members), owner, s.memberInfo)
    requires forall m :: m in s.messages ==> m.author == owner || m.author in MembersById(s.members)
    ensures var after := Cleaned(owner, s);
            && (forall m :: m in after.messages ==> m.author == owner || m.author in MembersById(after.members))
            && MI.InfosVerify(MembersById(after.members), owner, after.memberInfo)
            && StrictlySorted(after.memberInfo, InfoKey)
  {
    var r, t := MembersById(s.members), MembersById(Cleaned(owner, s).members);
    PrunedElements(s.members, owner, s.messages);
    PruneKeepsVerified(s.members, owner, s.messages);
    StayingInfosKept(r, owner, s.messages, s.memberInfo);
    forall m | m in s.messages && m.author != owner ensures m.author in t {
      AboveSelf(r, owner, m.author);
      assert Required(r, owner, s.messages, m.author);
    }
  }

  /** The parts before cleanup: members verified and unbanned, every list in order, every author listed. */
  ghost predicate PartsInv(owner: Id, s: Snapshot) {
    var r := MembersById(s.members);
    && DistinctIds(s.members) && VerifiedRoster(r, owner)
    && (forall k :: k in r ==> !Condemned(r, owner, s.bans, k))
    && (forall m :: m in s.messages ==> m.author == owner || m.author in r)
    && MI.InfosVerify(r, owner, s.memberInfo)
    && StrictlySorted(s.memberInfo, InfoKey)
    && Sorted(s.bans, BanKey)
    && Sorted(s.messages, MessageKey)
    && Sorted(s.secrets.versions, VersionKey) && Sorted(s.secrets.encryptedSecrets, SecretKey)
    && s.actions == Rebuilt(s.messages)
  }

  /** What a step needs of the board it starts from: members and member info verify, and neither repeats an
      identifier. */
  ghost predicate Sound(owner: Id, s: Snapshot) {
    && DistinctIds(s.members) && MembersVerify(s.members, owner)
    && MI.DistinctInfos(s.memberInfo) && MI.InfosVerify(MembersById(s.members), owner, s.memberInfo)
  }

  lemma InvIsSound(owner: Id, s: Snapshot)
    requires Inv(owner, s)
    ensures Sound(owner, s)
  {
    InfosDistinct(s.memberInfo);
  }

  lemma PartsInvariant(cfg: Config, s: Snapshot, d: Delta)
    requires Sound(cfg.owner, s) && PartsApplied(cfg, s, d).Some?
    ensures var mid := PartsApplied(cfg, s, d).value;
            DistinctIds(mid.members) && PartsInv(cfg.owner, mid.(members := WithoutOwner(mid.members, cfg.owner)))
  {
    var mid := PartsApplied(cfg, s, d).value;
    var r := MembersById(mid.members);
    MembersBeforeCleanup(s.members, cfg.owner, mid.bans, d.members);
    WithoutOwnerRoster(mid.members, cfg.owner);
    BansSorted(MembersById(s.members), cfg, s.bans, d.bans);
    InfosStepInvariant(r, MembersById(s.members), cfg, s.memberInfo, d.memberInfo);
    SecretsSorted(r, cfg.owner, s.secrets, d.secrets);
    M.KeptIsCanonical(cfg, r, s.messages + M.Fresh(s.messages, M.Arriving(d.messages)));
  }

  lemma InfosStepInvariant(r: Roster, t: Roster, cfg: Config, infos: seq<AuthorizedMemberInfo>,
                           delta: Option<seq<AuthorizedMemberInfo>>)
    requires MI.DistinctInfos(infos) && MI.InfosVerify(t, cfg.owner, infos)
    requires MI.InfosApplied(r, cfg, infos, delta).Some?
    ensures var after := MI.InfosApplied(r, cfg, infos, delta).value;
            StrictlySorted(after, InfoKey) && MI.InfosVerify(r - {cfg.owner}, cfg.owner, after)
  {
    MI.InfosAppliedLatest(r, cfg, infos, delta);
    MI.StepKeepsInfosVerify(r, t, cfg, infos, delta);
    InfosWithoutOwner(r, cfg.owner, MI.InfosApplied(r, cfg, infos, delta).value);
  }

  lemma InfosWithoutOwner(r: Roster, owner: Id, infos: seq<AuthorizedMemberInfo>)
    requires MI.InfosVerify(r, owner, infos)
    ensures MI.InfosVerify(r - {owner}, owner, infos)
  {
  }

  /** One accepted step keeps the invariant. */
  lemma StepInvariant(cfg: Config, s: Snapshot, d: Delta)
    requires Inv(cfg.owner, s) && Applied(cfg, s, d).Some?
    ensures Inv(cfg.owner, Applied(cfg, s, d).value)
  {
    InvIsSound(cfg.owner, s);
    StepEstablishes(cfg, s, d);
  }

  /** One accepted step brings a sound board to the invariant, whatever the order of its lists, whoever is idle or
      banned on it. */
  lemma StepEstablishes(cfg: Config, s: Snapshot, d: Delta)
    requires Sound(cfg.owner, s) && Applied(cfg, s, d).Some?
    ensures Inv(cfg.owner, Applied(cfg, s, d).value)
  {
    PartsInvariant(cfg, s, d);
    var mid := PartsApplied(cfg, s, d).value;
    CleanedWithoutOwner(cfg.owner, mid);
    PartsInvCleaned(cfg.owner, mid.(members := WithoutOwner(mid.members, cfg.owner)));
  }

  lemma PartsInvCleaned(owner: Id, mid: Snapshot)
    requires PartsInv(owner, mid)
    ensures Inv(owner, Cleaned(owner, mid))
  {
    CleanupEstablishes(owner, mid);
    CleanupKeepsAuthors(owner, mid);
    StayingBansSorted(MembersById(Cleaned(owner, mid).members), owner, mid.bans);
  }

  // ---------- Message signatures ----------

  /** The messages of the delta that a step would add to the log. */
  ghost predicate Arrives(cfg: Config, r: Roster, s: Snapshot, d: Delta, m: AuthorizedMessage) {
    m in M.Fresh(s.messages, M.Arriving(d.messages)) && M.Allowed(cfg, r, m)
  }

  /** A step checks no message signature: the log it leaves verifies exactly when the messages it added are signed. */
  lemma StepMessagesVerifyExactly(cfg: Config, s: Snapshot, d: Delta)
    requires Sound(cfg.owner, s) && M.MessagesVerify(MembersById(s.members), cfg.owner, s.messages)
    requires Applied(cfg, s, d).Some?
    ensures var after := Applied(cfg, s, d).value;
            var r := MembersById(PartsApplied(cfg, s, d).value.members);
            M.MessagesVerify(MembersById(after.members), cfg.owner, after.messages)
            <==> forall m :: Arrives(cfg, r, s, d, m) ==> M.Signed(m)
  {
    var mid := PartsApplied(cfg, s, d).value;
    StepEstablishes(cfg, s, d);
    LogElements(cfg, s, d, mid);
  }

  lemma LogElements(cfg: Config, s: Snapshot, d: Delta, mid: Snapshot)
    requires PartsApplied(cfg, s, d) == Some(mid)
    ensures forall m :: m in mid.messages
                        <==> (m in s.messages && M.Allowed(cfg, MembersById(mid.members), m))
                             || Arrives(cfg, MembersById(mid.members), s, d, m)
  {
    M.KeptIsCanonical(cfg, MembersById(mid.members), s.messages + M.Fresh(s.messages, M.Arriving(d.messages)));
  }

  /** An unsigned message by the owner on an empty public board: the step accepts it, and the log does not verify. */
  lemma UnsignedMessageAccepted(cfg: Config, m: AuthorizedMessage)
    requires !cfg.privateMode && m.body.Public? && M.TitleOk(cfg, m.body) && m.body.ContentLen() <= cfg.maxMessageSize
    requires m.author == cfg.owner && !M.Signed(m)
    ensures var after := Applied(cfg, EMPTY_BOARD, Delta(None, None, None, None, Some([m])));
            after.Some? && after.value.messages == [m]
            && !M.MessagesVerify(MembersById(after.value.members), cfg.owner, after.value.messages)
  {
    var d := Delta(None, None, None, None, Some([m]));
    EmptyInv(cfg.owner);
    EmptyBansStep(map[], cfg, []);
    EmptyMembersStep(EMPTY_BOARD, cfg.owner);
    PartsAfterMembers(cfg, EMPTY_BOARD, d, [], []);
    OneMessageLog(cfg, map[], m);
  }

  lemma OneMessageLog(cfg: Config, r: Roster, m: AuthorizedMessage)
    requires !cfg.privateMode && m.body.Public? && M.TitleOk(cfg, m.body) && m.body.ContentLen() <= cfg.maxMessageSize
    requires m.author == cfg.owner || m.author in r
    ensures M.MessagesApplied(cfg, r, EMPTY, [], Some([m])) == Some([m])
  {
    assert M.Fresh([], [m]) == [m];
    assert [] + [m] == [m];
    FilterAll([m], (g: AuthorizedMessage) => M.Allowed(cfg, r, g));
    SortIdentity([m], MessageKey);
  }

  // ---------- Fixed points ----------

  /** The invariant, and nothing left for an empty step under this configuration to trim or drop. */
  ghost predicate Settled(cfg: Config, s: Snapshot) {
    && Inv(cfg.owner, s)
    && (forall m :: m in s.messages ==> m.body.ContentLen() <= cfg.maxMessageSize)
    && (forall b :: b in s.bans ==> BanStays(MembersById(s.members), cfg.owner, BannedUsers(s.bans), b))
  }

  lemma StayingBansStay(r: Roster, owner: Id, bs: seq<AuthorizedUserBan>)
    ensures var after := StayingBans(r, owner, bs);
            forall b :: b in after ==> BanStays(r, owner, BannedUsers(after), b)
  {
    var after := StayingBans(r, owner, bs);
    assert BannedUsers(after) <= BannedUsers(bs);
    forall b | b in after ensures BanStays(r, owner, BannedUsers(after), b) {
      assert BanStays(r, owner, BannedUsers(bs), b);
    }
  }

  lemma MessagesFit(cfg: Config, s: Snapshot, d: Delta)
    requires PartsApplied(cfg, s, d).Some?
    ensures forall m :: m in PartsApplied(cfg, s, d).value.messages ==> m.body.ContentLen() <= cfg.maxMessageSize
  {
    var mid := PartsApplied(cfg, s, d).value;
    M.KeptIsCanonical(cfg, MembersById(mid.members), s.messages + M.Fresh(s.messages, M.Arriving(d.messages)));
  }

  lemma StepSettles(cfg: Config, s: Snapshot, d: Delta)
    requires Inv(cfg.owner, s) && Applied(cfg, s, d).Some?
    ensures Settled(cfg, Applied(cfg, s, d).value)
  {
    StepInvariant(cfg, s, d);
    MessagesFit(cfg, s, d);
    var mid := PartsApplied(cfg, s, d).value;
    StayingBansStay(MembersById(Pruned(mid.members, cfg.owner, mid.messages)), cfg.owner, mid.bans);
  }

  lemma EmptyMembersStep(s: Snapshot, owner: Id)
    requires MembersInv(owner, s)
    ensures MembersApplied(s.members, owner, s.bans, None) == Some(s.members)
  {
    VerifyOfRoster(s.members, owner);
    VerifiedHasNoOwner(MembersById(s.members), owner);
    StepOnForest(s.members, owner, s.bans, None);
    FilterAll(s.members, (m: AuthorizedMember) => !Condemned(MembersById(s.members), owner, s.bans, m.id));
    StrictIsSorted(s.members, MemberKey);
    SortIdentity(s.members, MemberKey);
  }

  lemma EmptyInfosStep(r: Roster, cfg: Config, infos: seq<AuthorizedMemberInfo>)
    requires StrictlySorted(infos, InfoKey)
    requires forall i :: i in infos ==> i.memberId == cfg.owner || i.memberId in r
    ensures MI.InfosApplied(r, cfg, infos, None) == Some(infos)
  {
    StrictIsSorted(infos, InfoKey);
    InfosStepAgain(r, cfg, infos);
  }

  lemma EmptyMessagesStep(cfg: Config, r: Roster, secrets: SecretsState, ms: seq<AuthorizedMessage>)
    requires Sorted(ms, MessageKey) && forall m :: m in ms ==> M.Allowed(cfg, r, m)
    ensures M.MessagesApplied(cfg, r, secrets, ms, None) == Some(ms)
  {
    assert ms + M.Fresh(ms, []) == ms;
    FilterAll(ms, (m: AuthorizedMessage) => M.Allowed(cfg, r, m));
    SortIdentity(ms, MessageKey);
  }

  lemma EmptyCleanup(owner: Id, s: Snapshot)
    requires Inv(owner, s)
    requires forall b :: b in s.bans ==> BanStays(MembersById(s.members), owner, BannedUsers(s.bans), b)
    ensures Cleaned(owner, s) == s
  {
    var r := MembersById(s.members);
    StrictIsSorted(s.members, MemberKey);
    StrictIsSorted(s.memberInfo, InfoKey);
    FilterAll(s.members, (m: AuthorizedMember) => Required(r, owner, s.messages, m.id));
    SortIdentity(s.members, MemberKey);
    forall i | i in s.memberInfo && i.memberId != owner ensures Required(r, owner, s.messages, i.memberId) {
      assert r[i.memberId] in s.members;
    }
    FilterAll(s.memberInfo,
              (i: AuthorizedMemberInfo) => i.memberId == owner || Required(r, owner, s.messages, i.memberId));
    SortIdentity(s.memberInfo, InfoKey);
    FilterAll(s.bans, (b: AuthorizedUserBan) => BanStays(r, owner, BannedUsers(s.bans), b));
  }

  lemma EmptyParts(cfg: Config, s: Snapshot)
    requires Settled(cfg, s)
    ensures PartsApplied(cfg, s, NO_DELTA) == Some(s)
  {
    EmptyOrderedSteps(cfg, s);
    EmptyInfosHere(cfg, s);
    EmptyMessagesHere(cfg, s);
    PartsAssemble(cfg, s, NO_DELTA, s);
  }

  lemma EmptyOrderedSteps(cfg: Config, s: Snapshot)
    requires MembersInv(cfg.owner, s) && Sorted(s.bans, BanKey)
    requires Sorted(s.secrets.versions, VersionKey) && Sorted(s.secrets.encryptedSecrets, SecretKey)
    ensures BansApplied(MembersById(s.members), cfg, s.bans, None) == Some(s.bans)
    ensures MembersApplied(s.members, cfg.owner, s.bans, None) == Some(s.members)
    ensures SecretsApplied(MembersById(s.members), cfg.owner, s.secrets, None) == Some(s.secrets)
  {
    EmptyBansStep(MembersById(s.members), cfg, s.bans);
    EmptyMembersStep(s, cfg.owner);
    EmptySecretsStep(MembersById(s.members), cfg.owner, s.secrets);
  }

  lemma EmptyInfosHere(cfg: Config, s: Snapshot)
    requires StrictlySorted(s.memberInfo, InfoKey) && MI.InfosVerify(MembersById(s.members), cfg.owner, s.memberInfo)
    ensures MI.InfosApplied(MembersById(s.members), cfg, s.memberInfo, None) == Some(s.memberInfo)
  {
    EmptyInfosStep(MembersById(s.members), cfg, s.memberInfo);
  }

  lemma EmptyMessagesHere(cfg: Config, s: Snapshot)
    requires Sorted(s.messages, MessageKey)
    requires forall m :: m in s.messages ==> m.author == cfg.owner || m.author in MembersById(s.members)
    requires forall m :: m in s.messages ==> m.body.ContentLen() <= cfg.maxMessageSize
    ensures M.MessagesApplied(cfg, MembersById(s.members), s.secrets, s.messages, None) == Some(s.messages)
  {
    EmptyMessagesStep(cfg, MembersById(s.members), s.secrets, s.messages);
  }

  lemma EmptyBansStep(r: Roster, cfg: Config, bs: seq<AuthorizedUserBan>)
    requires Sorted(bs, BanKey)
    ensures BansApplied(r, cfg, bs, None) == Some(bs)
  {
    SortIdentity(bs, BanKey);
  }

  lemma EmptySecretsStep(r: Roster, owner: Id, st: SecretsState)
    requires Sorted(st.versions, VersionKey) && Sorted(st.encryptedSecrets, SecretKey)
    ensures SecretsApplied(r, owner, st, None) == Some(st)
  {
    SortIdentity(st.versions, VersionKey);
    SortIdentity(st.encryptedSecrets, SecretKey);
  }

  /** An empty step changes a board that keeps the invariant exactly when some message has outgrown the limit or some
      ban has lost its banner. */
  lemma SettledIsFixedPoint(cfg: Config, s: Snapshot)
    requires Inv(cfg.owner, s)
    ensures Applied(cfg, s, NO_DELTA) == Some(s) <==> Settled(cfg, s)
  {
    if Settled(cfg, s) {
      EmptyParts(cfg, s);
      EmptyCleanup(cfg.owner, s);
    }
    if Applied(cfg, s, NO_DELTA) == Some(s) {
      StepSettles(cfg, s, NO_DELTA);
    }
  }

  /** The members among those a removal left are left by any removal for the same bans or fewer. */
  lemma LeftStaysLeft(all: seq<AuthorizedMember>, bans: seq<AuthorizedUserBan>, ks: seq<AuthorizedMember>,
                      fewer: seq<AuthorizedUserBan>)
    requires (forall m :: m in ks ==> m in Remaining(all, bans)) && forall b :: b in fewer ==> b in bans
    ensures Remaining(ks, fewer) == ks
  {
    forall m | m in ks ensures !Taken(ks, fewer, m.id) {
      assert !Taken(all, bans, m.id);
      if b :| b in fewer && Reaches(ks, b.bannedUser, m.id) {
        ReachesInMore(ks, all, b.bannedUser, m.id);
      }
    }
    FilterAll(ks, (m: AuthorizedMember) => !Taken(ks, fewer, m.id));
  }

  lemma MembersStepAgain(ms: seq<AuthorizedMember>, owner: Id, bans: seq<AuthorizedUserBan>,
                         delta: Option<seq<AuthorizedMember>>, ks: seq<AuthorizedMember>,
                         fewer: seq<AuthorizedUserBan>)
    requires MembersApplied(ms, owner, bans, delta).Some? && Sorted(ks, MemberKey)
    requires forall m :: m in ks ==> m in MembersApplied(ms, owner, bans, delta).value
    requires forall b :: b in fewer ==> b in bans
    ensures MembersApplied(ks, owner, fewer, None) == Some(ks)
  {
    LeftStaysLeft(AddNew(ms, Added(delta)), bans, ks, fewer);
    SortIdentity(ks, MemberKey);
  }

  /** What the parts leave of infos and messages, on any board. */
  lemma PartsLeave(cfg: Config, s: Snapshot, d: Delta, mid: Snapshot)
    requires PartsApplied(cfg, s, d) == Some(mid)
    ensures Sorted(mid.bans, BanKey) && Sorted(mid.messages, MessageKey) && mid.actions == Rebuilt(mid.messages)
    ensures Sorted(mid.secrets.versions, VersionKey) && Sorted(mid.secrets.encryptedSecrets, SecretKey)
    ensures forall i :: i in mid.memberInfo ==> MI.Kept(MembersById(mid.members), cfg.owner, i.memberId)
    ensures forall m :: m in mid.messages ==> M.Allowed(cfg, MembersById(mid.members), m)
  {
    var r := MembersById(mid.members);
    BansSorted(MembersById(s.members), cfg, s.bans, d.bans);
    SecretsSorted(r, cfg.owner, s.secrets, d.secrets);
    M.KeptIsCanonical(cfg, r, s.messages + M.Fresh(s.messages, M.Arriving(d.messages)));
  }

  lemma InfosStayKept(owner: Id, mid: Snapshot)
    requires forall i :: i in mid.memberInfo ==> MI.Kept(MembersById(mid.members), owner, i.memberId)
    ensures var after := Cleaned(owner, mid);
            && Sorted(after.memberInfo, InfoKey)
            && forall i :: i in after.memberInfo ==> MI.Kept(MembersById(after.members), owner, i.memberId)
  {
    var keep := (i: AuthorizedMemberInfo) =>
      i.memberId == owner || Required(MembersById(mid.members), owner, mid.messages, i.memberId);
    PrunedElements(mid.members, owner, mid.messages);
    SortSorts(Filter(mid.memberInfo, keep), InfoKey);
  }

  lemma MessagesStayAllowed(cfg: Config, mid: Snapshot)
    requires forall m :: m in mid.messages ==> M.Allowed(cfg, MembersById(mid.members), m)
    ensures forall m :: m in mid.messages ==> M.Allowed(cfg, MembersById(Cleaned(cfg.owner, mid).members), m)
  {
    var r := MembersById(mid.members);
    PrunedElements(mid.members, cfg.owner, mid.messages);
    forall m | m in mid.messages && m.author != cfg.owner ensures Required(r, cfg.owner, mid.messages, m.author) {
      AboveSelf(r, cfg.owner, m.author);
    }
  }

  lemma InfosStepAgain(r: Roster, cfg: Config, infos: seq<AuthorizedMemberInfo>)
    requires Sorted(infos, InfoKey) && forall i :: i in infos ==> MI.Kept(r, cfg.owner, i.memberId)
    ensures MI.InfosApplied(r, cfg, infos, None) == Some(infos)
  {
    FilterAll(infos, (i: AuthorizedMemberInfo) => MI.Kept(r, cfg.owner, i.memberId));
    SortIdentity(infos, InfoKey);
  }

  lemma PartsAgain(cfg: Config, s: Snapshot, d: Delta, mid: Snapshot, after: Snapshot)
    requires PartsApplied(cfg, s, d) == Some(mid) && after == Cleaned(cfg.owner, mid)
    ensures PartsApplied(cfg, after, NO_DELTA) == Some(after)
  {
    var t := MembersById(after.members);
    PartsLeave(cfg, s, d, mid);
    StayingBansSorted(t, cfg.owner, mid.bans);
    EmptyBansStep(t, cfg, after.bans);
    PrunedElements(mid.members, cfg.owner, mid.messages);
    MembersStepAgain(s.members, cfg.owner, mid.bans, d.members, after.members, after.bans);
    InfosStayKept(cfg.owner, mid);
    InfosStepAgain(t, cfg, after.memberInfo);
    EmptySecretsStep(t, cfg.owner, after.secrets);
    MessagesStayAllowed(cfg, mid);
    EmptyMessagesStep(cfg, t, after.secrets, after.messages);
    PartsAssemble(cfg, after, NO_DELTA, after);
  }

  /** Every state a step produces, from whatever board and its action state included, is a fixed point of the empty
      step. */
  lemma StepIsFixedPoint(cfg: Config, s: Snapshot, d: Delta)
    requires Applied(cfg, s, d).Some?
    ensures Applied(cfg, Applied(cfg, s, d).value, NO_DELTA) == Applied(cfg, s, d)
  {
    var mid := PartsApplied(cfg, s, d).value;
    PartsAgain(cfg, s, d, mid, Cleaned(cfg.owner, mid));
    CleanupIdempotent(cfg.owner, mid);
  }

  // ---------- Runs ----------

  // What `summarize` sends: enough to work out what a peer lacks.
  datatype Summary = Summary(
    bans: set<int>, members: set<Id>, memberInfo: map<Id, nat>, secrets: SecretsSummary, messages: set<int>)

  function InfoVersions(infos: seq<AuthorizedMemberInfo>): map<Id, nat> {
    if infos == [] then map[]
    else InfoVersions(infos[..|infos| - 1])[infos[|infos| - 1].memberId := infos[|infos| - 1].version]
  }

  function BanIds(bs: seq<AuthorizedUserBan>): set<int> {
    set b | b in bs :: b.id
  }

  function SummaryOf(s: Snapshot): Summary {
    Summary(BanIds(s.bans), Ids(s.members), InfoVersions(s.memberInfo), Summarize(s.secrets),
            M.MessageIds(s.messages))
  }

  function NonEmpty<T>(s: seq<T>): Option<seq<T>> {
    if |s| == 0 then None else Some(s)
  }

  function BansBeyond(bs: seq<AuthorizedUserBan>, peer: set<int>): seq<AuthorizedUserBan> {
    Filter(bs, (b: AuthorizedUserBan) => b.id !in peer)
  }

  function MembersBeyond(ms: seq<AuthorizedMember>, peer: set<Id>): seq<AuthorizedMember> {
    Filter(ms, (m: AuthorizedMember) => m.id !in peer)
  }

  function InfosBeyond(infos: seq<AuthorizedMemberInfo>, peer: map<Id, nat>): seq<AuthorizedMemberInfo> {
    Filter(infos, (i: AuthorizedMemberInfo) => i.memberId !in peer || i.version > peer[i.memberId])
  }

  function MessagesBeyond(ms: seq<AuthorizedMessage>, peer: set<int>): seq<AuthorizedMessage> {
    Filter(ms, (m: AuthorizedMessage) => m.id !in peer)
  }

  /** What a peer with this summary lacks, part by part. */
  function DeltaSince(s: Snapshot, peer: Summary): Delta {
    Delta(
      NonEmpty(BansBeyond(s.bans, peer.bans)),
      NonEmpty(MembersBeyond(s.members, peer.members)),
      NonEmpty(InfosBeyond(s.memberInfo, peer.memberInfo)),
      DeltaFor(s.secrets, peer.secrets),
      NonEmpty(MessagesBeyond(s.messages, peer.messages)))
  }

  /** `merge`: take from the other board what this one lacks. */
  ghost function Merge(cfg: Config, s: Snapshot, other: Snapshot): Option<Snapshot> {
    Applied(cfg, s, DeltaSince(other, SummaryOf(s)))
  }

  // What the contract is sent; an empty delta and related state are passed over.
  datatype Update = StateUpdate(other: Snapshot) | DeltaUpdate(delta: Delta) | EmptyUpdate | RelatedState

  ghost function Updated(cfg: Config, s: Snapshot, u: Update): Option<Snapshot> {
    match u
    case StateUpdate(other) => Merge(cfg, s, other)
    case DeltaUpdate(d) => Applied(cfg, s, d)
    case EmptyUpdate => Some(s)
    case RelatedState => Some(s)
  }

  /** What an update asks a step to apply, if anything. */
  function DeltaOf(s: Snapshot, u: Update): Option<Delta> {
    match u
    case StateUpdate(other) => Some(DeltaSince(other, SummaryOf(s)))
    case DeltaUpdate(d) => Some(d)
    case _ => None
  }

  /** Every step of the run ends. */
  ghost predicate RunEnds(s: Snapshot, us: seq<(Config, Update)>) {
    forall i :: 0 <= i < |us| && RunOf(s, us[..i]).Some? ==> UpdateEnds(us[i].0, RunOf(s, us[..i]).value, us[i].1)
  }

  ghost predicate UpdateEnds(cfg: Config, s: Snapshot, u: Update) {
    DeltaOf(s, u).Some? ==> StepEnds(cfg, s, DeltaOf(s, u).value)
  }

  /** A run of updates none of which lists the owner ends at every step. */
  lemma NoOwnerRunEnds(owner: Id, s: Snapshot, us: seq<(Config, Update)>)
    requires Inv(owner, s) && forall i :: 0 <= i < |us| ==> us[i].0.owner == owner && NamesNoOwner(owner, us[i].1)
    ensures RunEnds(s, us)
  {
    forall i | 0 <= i < |us| && RunOf(s, us[..i]).Some? ensures UpdateEnds(us[i].0, RunOf(s, us[..i]).value, us[i].1) {
      var now := RunOf(s, us[..i]).value;
      RunKeepsInv(owner, s, us[..i]);
      NoOwnerUpdateEnds(us[i].0, now, us[i].1);
    }
  }

  lemma NoOwnerUpdateEnds(cfg: Config, s: Snapshot, u: Update)
    requires Inv(cfg.owner, s) && NamesNoOwner(cfg.owner, u)
    ensures UpdateEnds(cfg, s, u)
  {
    if DeltaOf(s, u).Some? {
      NoOwnerStepEnds(cfg, s, DeltaOf(s, u).value);
    }
  }

  ghost predicate NamesNoOwner(owner: Id, u: Update) {
    match u
    case StateUpdate(other) => forall m :: m in other.members ==> m.id != owner
    case DeltaUpdate(d) => NoOwnerEntry(d.members, owner)
    case _ => true
  }

  lemma NoOwnerStepEnds(cfg: Config, s: Snapshot, d: Delta)
    requires Inv(cfg.owner, s) && NoOwnerEntry(d.members, cfg.owner)
    ensures StepEnds(cfg, s, d)
  {
    var bans := BansApplied(MembersById(s.members), cfg, s.bans, d.bans);
    if bans.Some? {
      NoOwnerEnds(s.members, cfg.owner, bans.value, d.members);
    }
  }

  /** The board after a run of updates, each under the configuration in force then; None when one is rejected. */
  ghost function RunOf(s: Snapshot, us: seq<(Config, Update)>): Option<Snapshot> {
    if us == [] then Some(s)
    else
      var before := RunOf(s, us[..|us| - 1]);
      if before.None? then None else Updated(us[|us| - 1].0, before.value, us[|us| - 1].1)
  }

  /** Every state of every accepted run from an empty board keeps the invariant, whatever the configurations and
      whatever the updates carry. */
  lemma {:induction false} RunInvariant(owner: Id, us: seq<(Config, Update)>)
    requires forall i :: 0 <= i < |us| ==> us[i].0.owner == owner
    requires RunOf(EMPTY_BOARD, us).Some?
    ensures Inv(owner, RunOf(EMPTY_BOARD, us).value)
  {
    EmptyInv(owner);
    RunKeepsInv(owner, EMPTY_BOARD, us);
  }

  lemma {:induction false} RunKeepsSound(owner: Id, s: Snapshot, us: seq<(Config, Update)>)
    requires Sound(owner, s) && RunOf(s, us).Some?
    requires forall u :: u in us ==> u.0.owner == owner
    ensures Sound(owner, RunOf(s, us).value)
  {
    if us != [] {
      var n := |us| - 1;
      assert us[n] in us && forall u :: u in us[..n] ==> u in us;
      RunKeepsSound(owner, s, us[..n]);
      UpdateKeepsSound(us[n].0, RunOf(s, us[..n]).value, us[n].1);
    }
  }

  lemma UpdateKeepsSound(cfg: Config, s: Snapshot, u: Update)
    requires Sound(cfg.owner, s) && Updated(cfg, s, u).Some?
    ensures Sound(cfg.owner, Updated(cfg, s, u).value)
  {
    UpdateIsStep(cfg, s, u);
    if DeltaOf(s, u).Some? {
      StepEstablishes(cfg, s, DeltaOf(s, u).value);
      InvIsSound(cfg.owner, Updated(cfg, s, u).value);
    }
  }

  lemma {:induction false} RunKeepsInv(owner: Id, s: Snapshot, us: seq<(Config, Update)>)
    requires Inv(owner, s) && RunOf(s, us).Some?
    requires forall i :: 0 <= i < |us| ==> us[i].0.owner == owner
    ensures Inv(owner, RunOf(s, us).value)
  {
    if us != [] {
      var n := |us| - 1;
      RunKeepsInv(owner, s, us[..n]);
      var before := RunOf(s, us[..n]).value;
      var (cfg, u) := us[n];
      UpdateKeepsInv(cfg, before, u);
    }
  }

  lemma UpdateIsStep(cfg: Config, s: Snapshot, u: Update)
    ensures Updated(cfg, s, u)
            == if DeltaOf(s, u).Some? then Applied(cfg, s, DeltaOf(s, u).value) else Some(s)
  {
  }

  lemma UpdateKeepsInv(cfg: Config, s: Snapshot, u: Update)
    requires Inv(cfg.owner, s) && Updated(cfg, s, u).Some?
    ensures Inv(cfg.owner, Updated(cfg, s, u).value)
  {
    UpdateIsStep(cfg, s, u);
    if DeltaOf(s, u).Some? {
      StepInvariant(cfg, s, DeltaOf(s, u).value);
    }
  }

  lemma RunStep(s: Snapshot, us: seq<(Config, Update)>, i: nat)
    requires i < |us| && RunOf(s, us[..i]).Some?
    ensures RunOf(s, us[..i + 1]) == Updated(us[i].0, RunOf(s, us[..i]).value, us[i].1)
  {
    assert us[..i + 1][..i] == us[..i];
  }

  lemma StaysStopped(s: Snapshot, us: seq<(Config, Update)>, i: nat)
    requires i < |us| && RunOf(s, us[..i]).None?
    ensures RunOf(s, us[..i + 1]).None?
  {
    assert us[..i + 1][..i] == us[..i];
  }

  lemma {:induction false} RunStops(s: Snapshot, us: seq<(Config, Update)>, n: nat)
    requires n <= |us| && RunOf(s, us[..n]).None?
    ensures RunOf(s, us).None?
    decreases |us| - n
  {
    if n < |us| {
      StaysStopped(s, us, n);
      RunStops(s, us, n + 1);
    } else {
      assert us[..n] == us;
    }
  }
}
