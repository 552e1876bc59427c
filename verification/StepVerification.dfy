/** What a step and a run do to the verification of a whole board, public or private. */
module StepVerification {
  import opened Lists
  import opened Records
  import opened Forest
  import opened Members
  import opened Bans
  import MI = MemberInfos
  import S = Secrets
  import opened Actions
  import M = Messages
  import opened Board
  import opened Runs

  /** What verifying a whole board asks of the parts modelled here. */
  ghost predicate BoardVerify(cfg: Config, s: Snapshot) {
    var r := MembersById(s.members);
    && BansVerify(r, cfg, s.bans)
    && MembersVerify(s.members, cfg.owner)
    && MI.InfosVerify(r, cfg.owner, s.memberInfo)
    && S.SecretsVerify(cfg.owner, s.secrets)
    && M.MessagesVerify(r, cfg.owner, s.messages)
  }

  // ---------- Bans ----------

  /** Every ban whose banner the step has listed carries that banner's signature. */
  ghost predicate NewBannersSigned(r: Roster, t: Roster, bs: seq<AuthorizedUserBan>) {
    forall b :: b in bs && b.bannedBy in t && b.bannedBy !in r ==> b.bannedBy in b.signature
  }

  /** Bans that pass the bans step carry the signatures that could be checked then. */
  lemma CheckedOnArrival(r: Roster, cfg: Config, bs: seq<AuthorizedUserBan>, delta: Option<seq<AuthorizedUserBan>>)
    requires BansVerify(r, cfg, bs) && BansApplied(r, cfg, bs, delta).Some?
    ensures var after := BansApplied(r, cfg, bs, delta).value;
            |after| <= cfg.maxUserBans && forall b :: b in after ==> BanSigned(r, cfg.owner, b)
  {
  }

  /** When nobody banned is listed, only the limit and the signatures are left to verify. */
  lemma NobodyBannedListed(r: Roster, cfg: Config, bs: seq<AuthorizedUserBan>)
    requires forall b :: b in bs ==> b.bannedUser !in r
    ensures BansVerify(r, cfg, bs) <==> |bs| <= cfg.maxUserBans && forall b :: b in bs ==> BanSigned(r, cfg.owner, b)
  {
  }

  lemma NobodyBannedHere(owner: Id, s: Snapshot)
    requires MembersInv(owner, s)
    ensures owner !in MembersById(s.members)
    ensures forall b :: b in s.bans ==> b.bannedUser !in MembersById(s.members)
  {
    var r := MembersById(s.members);
    VerifyOfRoster(s.members, owner);
    forall b | b in s.bans ensures b.bannedUser !in r {
      AboveSelf(r, owner, b.bannedUser);
      if b.bannedUser in r {
        assert r[b.bannedUser] in s.members;
        assert Condemned(r, owner, s.bans, b.bannedUser);
      }
    }
  }

  /** The bans verify after a step exactly when those whose banner it listed are signed by that banner. */
  lemma StepBansVerifyExactly(cfg: Config, s: Snapshot, d: Delta)
    requires Sound(cfg.owner, s) && BansVerify(MembersById(s.members), cfg, s.bans) && Applied(cfg, s, d).Some?
    ensures var r, after := MembersById(s.members), Applied(cfg, s, d).value;
            BansVerify(MembersById(after.members), cfg, after.bans)
            <==> NewBannersSigned(r, MembersById(after.members), after.bans)
  {
    var r, after := MembersById(s.members), Applied(cfg, s, d).value;
    StepEstablishes(cfg, s, d);
    NobodyBannedHere(cfg.owner, after);
    NobodyBannedListed(MembersById(after.members), cfg, after.bans);
    CheckedOnArrival(r, cfg, s.bans, d.bans);
    BansLeftWereChecked(cfg, s, d);
  }

  lemma BansLeftWereChecked(cfg: Config, s: Snapshot, d: Delta)
    requires BansVerify(MembersById(s.members), cfg, s.bans) && Applied(cfg, s, d).Some?
    ensures var after := Applied(cfg, s, d).value;
            |after.bans| <= cfg.maxUserBans
            && forall b :: b in after.bans ==> BanSigned(MembersById(s.members), cfg.owner, b)
  {
    CheckedOnArrival(MembersById(s.members), cfg, s.bans, d.bans);
  }

  // ---------- On whose authority a member goes ----------

  /** Who may have issued a ban that takes effect on a board with table r: the owner, an admin, the banned user or
      someone above, someone the board no longer lists, or, when the owner is the one banned, anyone. */
  ghost predicate HasAuthority(r: Roster, cfg: Config, b: AuthorizedUserBan) {
    || b.bannedUser == cfg.owner
    || b.bannedBy == cfg.owner || b.bannedBy in cfg.admins || b.bannedBy !in r
    || MayBan(r, cfg.owner, b.bannedBy, b.bannedUser)
  }

  lemma AdditionsKeepRecords(ms: seq<AuthorizedMember>, owner: Id, added: seq<AuthorizedMember>)
    requires DistinctIds(ms) && MembersVerify(ms, owner)
    ensures var r, t := MembersById(ms), MembersById(AddNew(ms, added)) - {owner};
            DistinctIds(AddNew(ms, added)) && forall k :: k in r ==> k in t && t[k] == r[k]
  {
    var r, all := MembersById(ms), AddNew(ms, added);
    VerifyOfRoster(ms, owner);
    AddNewDistinct(ms, added);
    ByIdDistinct(all);
    forall k | k in r ensures k in MembersById(all) && MembersById(all)[k] == r[k] {
      assert r[k] in all;
    }
  }

  /** A walk past an entry for the owner finds nobody new above x but who is above that entry. */
  lemma AboveBeforeOwner(r: Roster, owner: Id, top: Id, a: Id, x: Id)
    requires top !in r && Rooted(r, owner, x) && Above(r, top, a, x) && !Above(r, top, a, owner)
    ensures Above(r, owner, a, x)
  {
    var n: nat :| Up(r, owner, x, n) == Some(owner);
    var k: nat :| Up(r, top, x, k) == Some(a);
    UpPastOwner(r, owner, top, x, n);
    if k >= n {
      UpCompose(r, top, x, n, k - n);
    } else {
      UpEarlier(r, owner, x, k, n);
      UpPastOwner(r, owner, top, x, k);
    }
  }

  lemma {:induction false} UpEarlier(r: Roster, owner: Id, x: Id, k: nat, n: nat)
    requires Up(r, owner, x, n).Some? && k <= n
    ensures Up(r, owner, x, k).Some?
    decreases n - k
  {
    if k < n {
      UpEarlier(r, owner, x, k + 1, n);
      UpDefined(r, owner, x, k);
    }
  }

  /** A member the removal takes lies at or below the target of a ban that stands after the bans step. */
  lemma RemovingBan(ms: seq<AuthorizedMember>, owner: Id, bans: seq<AuthorizedUserBan>,
                    delta: Option<seq<AuthorizedMember>>, x: Id) returns (b: AuthorizedUserBan)
    requires DistinctIds(ms) && MembersVerify(ms, owner) && RemovalEnds(ms, owner, bans, delta)
    requires MembersApplied(ms, owner, bans, delta).Some? && x in MembersById(ms)
    requires x !in MembersById(MembersApplied(ms, owner, bans, delta).value)
    ensures b in bans && Above(MembersById(ms), owner, b.bannedUser, x)
  {
    var all := AddNew(ms, Added(delta));
    var r, t := MembersById(ms), MembersById(all);
    var top := Top(t, owner);
    AdditionsKeepRecords(ms, owner, Added(delta));
    StepOnForest(ms, owner, bans, delta);
    UnbannedRoster(all, top, bans);
    SortDistinctIds(Unbanned(all, top, bans));
    b :| b in bans && Above(t, top, b.bannedUser, x);
    RemovalEndsExactly(ms, owner, bans, delta);
    FoundBelowOwner(ms, owner, t, b.bannedUser, x);
  }

  lemma FoundBelowOwner(ms: seq<AuthorizedMember>, owner: Id, t: Roster, a: Id, x: Id)
    requires DistinctIds(ms) && MembersVerify(ms, owner) && x in MembersById(ms)
    requires forall k :: k in MembersById(ms) ==> k in t - {owner} && t[k] == MembersById(ms)[k]
    requires Above(t, Top(t, owner), a, x) && (owner in t ==> !Above(t, Top(t, owner), a, owner))
    ensures Above(MembersById(ms), owner, a, x)
  {
    var r := MembersById(ms);
    VerifyOfRoster(ms, owner);
    VerifiedIsRooted(r, owner);
    RootedStable(r, t, owner, x);
    if owner in t {
      AboveBeforeOwner(t, owner, Top(t, owner), a, x);
    }
  }

  lemma BanIsNew(owner: Id, s: Snapshot, b: AuthorizedUserBan, x: Id)
    requires MembersInv(owner, s) && x in MembersById(s.members)
    requires Above(MembersById(s.members), owner, b.bannedUser, x)
    ensures b !in s.bans && (b.bannedUser in MembersById(s.members) || b.bannedUser == owner)
  {
    var r := MembersById(s.members);
    VerifyOfRoster(s.members, owner);
    VerifiedIsRooted(r, owner);
    AboveRooted(r, owner, b.bannedUser, x);
    assert r[x] in s.members && !Condemned(r, owner, s.bans, x);
  }

  lemma NewBanHasAuthority(r: Roster, cfg: Config, bs: seq<AuthorizedUserBan>, delta: Option<seq<AuthorizedUserBan>>,
                           b: AuthorizedUserBan)
    requires BansApplied(r, cfg, bs, delta).Some? && b in BansApplied(r, cfg, bs, delta).value && b !in bs
    requires b.bannedUser in r || b.bannedUser == cfg.owner
    ensures delta.Some? && b in delta.value && HasAuthority(r, cfg, b) && BanSigned(r, cfg.owner, b)
  {
  }

  /** A member goes from a board only to a ban of the same delta that names them or someone above them, signed where it
      can be checked, by someone with authority. */
  lemma RemovedOnlyByAuthority(cfg: Config, s: Snapshot, d: Delta, x: Id) returns (b: AuthorizedUserBan)
    requires MembersInv(cfg.owner, s) && StepEnds(cfg, s, d) && PartsApplied(cfg, s, d).Some?
    requires x in MembersById(s.members) && x !in MembersById(PartsApplied(cfg, s, d).value.members)
    ensures d.bans.Some? && b in d.bans.value && Above(MembersById(s.members), cfg.owner, b.bannedUser, x)
    ensures HasAuthority(MembersById(s.members), cfg, b) && BanSigned(MembersById(s.members), cfg.owner, b)
  {
    var mid := PartsApplied(cfg, s, d).value;
    BansAndMembers(cfg, s, d, mid);
    b := BanOfPart(cfg, s, d, mid.bans, mid.members, x);
  }

  lemma BansAndMembers(cfg: Config, s: Snapshot, d: Delta, mid: Snapshot)
    requires PartsApplied(cfg, s, d) == Some(mid)
    ensures BansApplied(MembersById(s.members), cfg, s.bans, d.bans) == Some(mid.bans)
    ensures MembersApplied(s.members, cfg.owner, mid.bans, d.members) == Some(mid.members)
  {
  }

  lemma BanOfPart(cfg: Config, s: Snapshot, d: Delta, bans: seq<AuthorizedUserBan>, members: seq<AuthorizedMember>,
                  x: Id) returns (b: AuthorizedUserBan)
    requires MembersInv(cfg.owner, s) && RemovalEnds(s.members, cfg.owner, bans, d.members)
    requires BansApplied(MembersById(s.members), cfg, s.bans, d.bans) == Some(bans)
    requires MembersApplied(s.members, cfg.owner, bans, d.members) == Some(members)
    requires x in MembersById(s.members) && x !in MembersById(members)
    ensures d.bans.Some? && b in d.bans.value && Above(MembersById(s.members), cfg.owner, b.bannedUser, x)
    ensures HasAuthority(MembersById(s.members), cfg, b) && BanSigned(MembersById(s.members), cfg.owner, b)
  {
    b := RemovingBan(s.members, cfg.owner, bans, d.members, x);
    BanIsNew(cfg.owner, s, b, x);
    NewBanHasAuthority(MembersById(s.members), cfg, s.bans, d.bans, b);
  }

  // ---------- The whole board ----------

  /** The delta records no secret version above the one it makes current. */
  predicate VersionsCovered(st: S.SecretsState, d: Option<S.SecretsDelta>) {
    d.Some? ==>
      var current := if d.value.currentVersion.Some? then d.value.currentVersion.value else st.currentVersion;
      forall v :: v in d.value.newVersions ==> v.version <= current
  }

  lemma StepSecretsVerifyExactly(r: Roster, owner: Id, st: S.SecretsState, d: Option<S.SecretsDelta>)
    requires S.SecretsVerify(owner, st) && S.SecretsApplied(r, owner, st, d).Some?
    ensures S.SecretsVerify(owner, S.SecretsApplied(r, owner, st, d).value) <==> VersionsCovered(st, d)
  {
    if d.Some? {
      S.VerifyKeptExactly(r, owner, st, d.value);
    } else {
      SortedSecretsVerify(owner, st);
    }
  }

  lemma SortedSecretsVerify(owner: Id, st: S.SecretsState)
    ensures S.SecretsVerify(owner, S.SecretsState(st.currentVersion, Sort(st.versions, VersionKey),
                                                  Sort(st.encryptedSecrets, SecretKey)))
            <==> S.SecretsVerify(owner, st)
  {
    assert S.VersionIds(Sort(st.versions, VersionKey)) == S.VersionIds(st.versions);
  }

  /** What an accepted step must bring for the board to verify after it. */
  ghost predicate CleanStep(cfg: Config, s: Snapshot, d: Delta)
    requires Applied(cfg, s, d).Some?
  {
    var after := Applied(cfg, s, d).value;
    var r := MembersById(PartsApplied(cfg, s, d).value.members);
    && NewBannersSigned(MembersById(s.members), MembersById(after.members), after.bans)
    && VersionsCovered(s.secrets, d.secrets)
    && forall m :: Arrives(cfg, r, s, d, m) ==> M.Signed(m)
  }

  /** On a board that verifies an accepted step leaves one that verifies exactly when the banners it lists have signed
      their bans, it makes the newest version it records current, and the messages it adds are signed. Members and
      member info verify in any case. */
  lemma StepVerifiesExactly(cfg: Config, s: Snapshot, d: Delta)
    requires Sound(cfg.owner, s) && BoardVerify(cfg, s) && Applied(cfg, s, d).Some?
    ensures BoardVerify(cfg, Applied(cfg, s, d).value) <==> CleanStep(cfg, s, d)
  {
    StepEstablishes(cfg, s, d);
    StepBansVerifyExactly(cfg, s, d);
    StepMessagesVerifyExactly(cfg, s, d);
    StepSecretsHere(cfg, s, d);
  }

  lemma StepSecretsHere(cfg: Config, s: Snapshot, d: Delta)
    requires S.SecretsVerify(cfg.owner, s.secrets) && Applied(cfg, s, d).Some?
    ensures S.SecretsVerify(cfg.owner, Applied(cfg, s, d).value.secrets) <==> VersionsCovered(s.secrets, d.secrets)
  {
    StepSecretsVerifyExactly(MembersById(PartsApplied(cfg, s, d).value.members), cfg.owner, s.secrets, d.secrets);
  }

  // ---------- Runs ----------

  ghost predicate CleanUpdate(cfg: Config, s: Snapshot, u: Update)
    requires Updated(cfg, s, u).Some?
  {
    DeltaOf(s, u).Some? ==> CleanStep(cfg, s, DeltaOf(s, u).value)
  }

  lemma UpdateVerifiesExactly(cfg: Config, s: Snapshot, u: Update)
    requires Sound(cfg.owner, s) && BoardVerify(cfg, s) && Updated(cfg, s, u).Some?
    ensures BoardVerify(cfg, Updated(cfg, s, u).value) <==> CleanUpdate(cfg, s, u)
  {
    UpdateIsStep(cfg, s, u);
    if DeltaOf(s, u).Some? {
      StepVerifiesExactly(cfg, s, DeltaOf(s, u).value);
    }
  }

  /** The run from s is accepted and its state after n updates verifies. */
  ghost predicate VerifiesAfter(cfg: Config, s: Snapshot, us: seq<(Config, Update)>, n: nat)
    requires n <= |us|
  {
    RunOf(s, us[..n]).Some? && BoardVerify(cfg, RunOf(s, us[..n]).value)
  }

  ghost predicate CleanAt(cfg: Config, s: Snapshot, us: seq<(Config, Update)>, n: nat)
    requires n < |us|
  {
    var before := RunOf(s, us[..n]);
    && before.Some? && Updated(cfg, before.value, us[n].1).Some?
    && CleanUpdate(cfg, before.value, us[n].1)
  }

  lemma RunAccepted(s: Snapshot, us: seq<(Config, Update)>, n: nat)
    requires n <= |us| && RunOf(s, us).Some?
    ensures RunOf(s, us[..n]).Some?
  {
    if RunOf(s, us[..n]).None? {
      RunStops(s, us, n);
    }
  }

  lemma StepOfRun(cfg: Config, s: Snapshot, us: seq<(Config, Update)>, n: nat)
    returns (before: Snapshot, after: Snapshot)
    requires Sound(cfg.owner, s)
    requires RunOf(s, us).Some? && (forall u :: u in us ==> u.0 == cfg) && n < |us|
    ensures RunOf(s, us[..n]) == Some(before) && RunOf(s, us[..n + 1]) == Some(after)
    ensures Updated(cfg, before, us[n].1) == Some(after) && Sound(cfg.owner, before)
  {
    RunAccepted(s, us, n);
    RunAccepted(s, us, n + 1);
    RunStep(s, us, n);
    assert us[n] in us;
    before, after := RunOf(s, us[..n]).value, RunOf(s, us[..n + 1]).value;
    RunKeepsSound(cfg.owner, s, us[..n]);
  }

  lemma VerifiesStep(cfg: Config, s: Snapshot, us: seq<(Config, Update)>, n: nat)
    requires Sound(cfg.owner, s) && RunOf(s, us).Some? && forall u :: u in us ==> u.0 == cfg
    requires n < |us| && VerifiesAfter(cfg, s, us, n)
    ensures VerifiesAfter(cfg, s, us, n + 1) <==> CleanAt(cfg, s, us, n)
  {
    var before, after := StepOfRun(cfg, s, us, n);
    UpdateVerifiesExactly(cfg, before, us[n].1);
  }

  lemma {:induction false} CleanVerifies(cfg: Config, s: Snapshot, us: seq<(Config, Update)>, n: nat)
    requires Sound(cfg.owner, s) && RunOf(s, us).Some? && forall u :: u in us ==> u.0 == cfg
    requires BoardVerify(cfg, s) && n <= |us| && forall k :: 0 <= k < |us| ==> CleanAt(cfg, s, us, k)
    ensures VerifiesAfter(cfg, s, us, n)
  {
    if n == 0 {
      assert us[..0] == [];
    } else {
      CleanVerifies(cfg, s, us, n - 1);
      VerifiesStep(cfg, s, us, n - 1);
    }
  }

  /** From a board that verifies and repeats no identifier among its members or their info, every state of an accepted
      run under one configuration, private boards and members' bans included, verifies as a whole exactly when every
      update is clean. */
  lemma RunVerifiesExactly(cfg: Config, s: Snapshot, us: seq<(Config, Update)>)
    requires DistinctIds(s.members) && MI.DistinctInfos(s.memberInfo) && BoardVerify(cfg, s)
    requires RunOf(s, us).Some? && forall u :: u in us ==> u.0 == cfg
    ensures (forall n :: 0 <= n <= |us| ==> VerifiesAfter(cfg, s, us, n))
            <==> forall n :: 0 <= n < |us| ==> CleanAt(cfg, s, us, n)
  {
    if forall n :: 0 <= n < |us| ==> CleanAt(cfg, s, us, n) {
      forall n | 0 <= n <= |us| ensures VerifiesAfter(cfg, s, us, n) {
        CleanVerifies(cfg, s, us, n);
      }
    }
    if forall n :: 0 <= n <= |us| ==> VerifiesAfter(cfg, s, us, n) {
      forall n | 0 <= n < |us| ensures CleanAt(cfg, s, us, n) {
        VerifiesStep(cfg, s, us, n);
      }
    }
  }

  // ---------- An unsigned ban ----------

  /** Someone who joins in the same delta as a ban of theirs need not have signed it: the step is accepted and the board
      does not verify. */
  lemma UnsignedBanAccepted(cfg: Config, m: AuthorizedMember, b: AuthorizedUserBan, g: AuthorizedMessage)
    requires !cfg.privateMode && cfg.maxUserBans > 0
    requires m.id != cfg.owner && m.invitedBy == cfg.owner && cfg.owner in m.signature
    requires b.bannedBy == m.id && m.id !in b.signature && b.bannedUser != m.id && b.bannedUser != cfg.owner
    requires g.author == m.id && g.body.Public? && M.TitleOk(cfg, g.body)
    requires g.body.ContentLen() <= cfg.maxMessageSize
    ensures var after := Applied(cfg, EMPTY_BOARD, Delta(Some([b]), Some([m]), None, None, Some([g])));
            && after.Some? && after.value.bans == [b]
            && !BansVerify(MembersById(after.value.members), cfg, after.value.bans)
  {
    var mid := Snapshot([b], [m], [], S.EMPTY, [g], Rebuilt([g]));
    UnsignedBanParts(cfg, m, b, g, mid);
    UnsignedBanStays(cfg, m, b, g, mid);
  }

  lemma UnsignedBanParts(cfg: Config, m: AuthorizedMember, b: AuthorizedUserBan, g: AuthorizedMessage, mid: Snapshot)
    requires !cfg.privateMode && cfg.maxUserBans > 0
    requires m.id != cfg.owner && m.invitedBy == cfg.owner && cfg.owner in m.signature
    requires b.bannedBy == m.id && b.bannedUser != m.id && b.bannedUser != cfg.owner
    requires g.author == m.id && g.body.Public? && M.TitleOk(cfg, g.body)
    requires g.body.ContentLen() <= cfg.maxMessageSize
    requires mid == Snapshot([b], [m], [], S.EMPTY, [g], Rebuilt([g]))
    ensures PartsApplied(cfg, EMPTY_BOARD, Delta(Some([b]), Some([m]), None, None, Some([g]))) == Some(mid)
  {
    AbsentBannerUnchecked(map[], cfg, b);
    OneBan(map[], cfg, b);
    OneMember(cfg.owner, m, b);
    OneMessageLog(cfg, MembersById([m]), g);
    NothingSent(MembersById([m]), cfg);
    PartsAssemble(cfg, EMPTY_BOARD, Delta(Some([b]), Some([m]), None, None, Some([g])), mid);
  }

  lemma NothingSent(r: Roster, cfg: Config)
    ensures MI.InfosApplied(r, cfg, [], None) == Some([])
    ensures S.SecretsApplied(r, cfg.owner, S.EMPTY, None) == Some(S.EMPTY)
  {
  }

  lemma UnsignedBanStays(cfg: Config, m: AuthorizedMember, b: AuthorizedUserBan, g: AuthorizedMessage, mid: Snapshot)
    requires m.id != cfg.owner && m.invitedBy == cfg.owner && g.author == m.id
    requires b.bannedBy == m.id && m.id !in b.signature
    requires mid.bans == [b] && mid.members == [m] && mid.messages == [g]
    ensures var after := Cleaned(cfg.owner, mid);
            after.bans == [b] && !BansVerify(MembersById(after.members), cfg, after.bans)
  {
    var t := MembersById(Pruned([m], cfg.owner, [g]));
    OneMemberStays(cfg.owner, m, g);
    FilterAll([b], (c: AuthorizedUserBan) => BanStays(t, cfg.owner, BannedUsers([b]), c));
    assert b in [b] && !BanSigned(t, cfg.owner, b);
  }

  lemma OneBan(r: Roster, cfg: Config, b: AuthorizedUserBan)
    requires cfg.maxUserBans > 0 && BansApplied(r, cfg, [], Some([b])).Some?
    ensures BansApplied(r, cfg, [], Some([b])) == Some([b])
  {
    assert [] + [b] == [b];
    SortIdentity([b], BanKey);
  }

  lemma OneMemberRoster(m: AuthorizedMember)
    ensures MembersById([m]) == map[m.id := m] && DistinctIds([m])
  {
    assert [m][..0] == [];
  }

  lemma OneMember(owner: Id, m: AuthorizedMember, b: AuthorizedUserBan)
    requires m.id != owner && m.invitedBy == owner && owner in m.signature
    requires b.bannedUser != m.id && b.bannedUser != owner
    ensures MembersApplied([], owner, [b], Some([m])) == Some([m])
  {
    OneMemberRoster(m);
    OneAdded(m);
    UnbannedOne(owner, m, b);
    SortIdentity([m], MemberKey);
    assert forall x :: x in [m] ==> Admissible(MembersById([m]), owner, x);
    AppliedAs([], owner, [b], [m], [m], [m]);
  }

  lemma AppliedAs(ms: seq<AuthorizedMember>, owner: Id, bans: seq<AuthorizedUserBan>, added: seq<AuthorizedMember>,
                  all: seq<AuthorizedMember>, left: seq<AuthorizedMember>)
    requires AddNew(ms, added) == all && owner !in MembersById(all)
    requires forall x :: x in added ==> Admissible(MembersById(all), owner, x)
    requires Unbanned(all, owner, bans) == left == Sort(left, MemberKey) && DistinctIds(ms)
    ensures MembersApplied(ms, owner, bans, Some(added)) == Some(left)
  {
    StepOnForest(ms, owner, bans, Some(added));
  }

  lemma OneAdded(m: AuthorizedMember)
    ensures AddNew([], [m]) == [m]
  {
    assert [m][..0] == [];
  }

  lemma UnbannedOne(owner: Id, m: AuthorizedMember, b: AuthorizedUserBan)
    requires m.id != owner && m.invitedBy == owner
    requires b.bannedUser != m.id && b.bannedUser != owner
    ensures Unbanned([m], owner, [b]) == [m]
  {
    OneMemberRoster(m);
    UnbannedMember(MembersById([m]), owner, m, b);
    FilterAll([m], (x: AuthorizedMember) => !Condemned(MembersById([m]), owner, [b], x.id));
  }

  lemma UnbannedMember(r: Roster, owner: Id, m: AuthorizedMember, b: AuthorizedUserBan)
    requires m.id in r && r[m.id] == m && m.id != owner && m.invitedBy == owner
    requires b.bannedUser != m.id && b.bannedUser != owner
    ensures !Condemned(r, owner, [b], m.id)
  {
    AboveStep(r, owner, m.id);
    AboveTop(r, owner, owner);
  }

  lemma OneMemberStays(owner: Id, m: AuthorizedMember, g: AuthorizedMessage)
    requires m.id != owner && m.invitedBy == owner && g.author == m.id
    ensures m.id in MembersById(Pruned([m], owner, [g]))
  {
    var r := MembersById([m]);
    OneMemberRoster(m);
    AboveSelf(r, owner, m.id);
    assert g in [g];
    PrunedElements([m], owner, [g]);
  }
}
