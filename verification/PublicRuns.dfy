/** The boards that merges are proved about are the boards there are: every run of public updates with owner-signed
    bans starts from such a board and stays among them. */
module PublicRuns {
  import opened Lists
  import opened Records
  import opened Forest
  import opened Members
  import opened Bans
  import MI = MemberInfos
  import S = Secrets
  import M = Messages
  import opened Board
  import opened Runs
  import opened Convergence
  import opened StepVerification

  /** A delta without secrets whose bans are the owner's, and in which the same identifier means the same record. It may
      repeat a ban or a message. */
  ghost predicate PublicDelta(cfg: Config, d: Delta) {
    && d.secrets.None?
    && (d.bans.Some? ==> OwnerSigned(cfg.owner, d.bans.value) && BansAgree(d.bans.value, d.bans.value))
    && M.Agree(M.Arriving(d.messages), M.Arriving(d.messages))
  }

  lemma EmptyIsMergeable(cfg: Config)
    requires !cfg.privateMode
    ensures Mergeable(cfg, EMPTY_BOARD)
  {
    EmptyInv(cfg.owner);
  }

  /** The bans step keeps the list the owner's, and its identifiers unambiguous. */
  lemma PublicBansStep(r: Roster, cfg: Config, bs: seq<AuthorizedUserBan>, delta: Option<seq<AuthorizedUserBan>>)
    requires OwnerSigned(cfg.owner, bs) && BansAgree(bs, bs)
    requires delta.Some? ==> OwnerSigned(cfg.owner, delta.value) && BansAgree(delta.value, delta.value)
    requires BansApplied(r, cfg, bs, delta).Some?
    ensures var after := BansApplied(r, cfg, bs, delta).value;
            OwnerSigned(cfg.owner, after) && BansAgree(after, after)
  {
    if delta.Some? {
      var after := BansApplied(r, cfg, bs, delta).value;
      forall b | b in after ensures b in bs || b in delta.value {
        assert b in bs + delta.value;
      }
    }
  }

  lemma StayingBansAgree(r: Roster, owner: Id, bs: seq<AuthorizedUserBan>)
    requires OwnerSigned(owner, bs) && BansAgree(bs, bs)
    ensures OwnerSigned(owner, StayingBans(r, owner, bs))
    ensures BansAgree(StayingBans(r, owner, bs), StayingBans(r, owner, bs))
  {
  }

  ghost predicate GoodInfo(cfg: Config, i: AuthorizedMemberInfo) {
    i.nicknameLen <= cfg.maxNicknameSize && i.memberId in i.signature
  }

  lemma PublicInfosStep(r: Roster, cfg: Config, infos: seq<AuthorizedMemberInfo>,
                        delta: Option<seq<AuthorizedMemberInfo>>)
    requires MI.DistinctInfos(infos) && (forall i :: i in infos ==> GoodInfo(cfg, i))
    requires MI.InfosApplied(r, cfg, infos, delta).Some?
    ensures forall i :: i in MI.InfosApplied(r, cfg, infos, delta).value ==> GoodInfo(cfg, i)
  {
    MI.InfosAppliedLatest(r, cfg, infos, delta);
  }

  lemma PublicMessagesStep(cfg: Config, r: Roster, st: S.SecretsState, ms: seq<AuthorizedMessage>,
                           delta: Option<seq<AuthorizedMessage>>)
    requires M.Agree(ms, ms) && M.Agree(M.Arriving(delta), M.Arriving(delta))
    requires (forall m :: m in ms ==> M.TitleOk(cfg, m.body)) && M.MessagesApplied(cfg, r, st, ms, delta).Some?
    ensures var after := M.MessagesApplied(cfg, r, st, ms, delta).value;
            M.Agree(after, after) && forall m :: m in after ==> M.TitleOk(cfg, m.body)
  {
    var arrived := M.Fresh(ms, M.Arriving(delta));
    M.KeptIsCanonical(cfg, r, ms + arrived);
    FreshAgrees(ms, M.Arriving(delta));
    forall m | m in arrived ensures M.TitleOk(cfg, m.body) {
      assert M.MessageOk(cfg, r, st, m);
    }
  }

  lemma FreshAgrees(ms: seq<AuthorizedMessage>, d: seq<AuthorizedMessage>)
    requires M.Agree(ms, ms) && M.Agree(d, d)
    ensures M.Agree(ms + M.Fresh(ms, d), ms + M.Fresh(ms, d))
  {
    forall m, n | m in ms + M.Fresh(ms, d) && n in ms + M.Fresh(ms, d) && m.id == n.id ensures m == n {
      assert m in ms ==> m.id in M.MessageIds(ms);
      assert n in ms ==> n.id in M.MessageIds(ms);
    }
  }

  /** An accepted public step leads from one mergeable board to another. */
  lemma StepKeepsMergeable(cfg: Config, s: Snapshot, d: Delta)
    requires Mergeable(cfg, s) && PublicDelta(cfg, d) && Applied(cfg, s, d).Some?
    ensures Mergeable(cfg, Applied(cfg, s, d).value)
  {
    StepSettles(cfg, s, d);
    var mid := PartsApplied(cfg, s, d).value;
    var r := MembersById(mid.members);
    PublicBansStep(MembersById(s.members), cfg, s.bans, d.bans);
    StayingBansAgree(MembersById(Pruned(mid.members, cfg.owner, mid.messages)), cfg.owner, mid.bans);
    InfosDistinct(s.memberInfo);
    PublicInfosStep(r, cfg, s.memberInfo, d.memberInfo);
    PublicMessagesStep(cfg, r, mid.secrets, s.messages, d.messages);
    StillNoSecrets(cfg, s, d);
  }

  lemma StillNoSecrets(cfg: Config, s: Snapshot, d: Delta)
    requires s.secrets == S.EMPTY && d.secrets.None? && PartsApplied(cfg, s, d).Some?
    ensures PartsApplied(cfg, s, d).value.secrets == S.EMPTY
  {
  }

  /** What a mergeable board sends a peer is a public delta. */
  lemma SentIsPublic(cfg: Config, s: Snapshot, peer: Snapshot)
    requires Mergeable(cfg, s) && Mergeable(cfg, peer)
    ensures PublicDelta(cfg, DeltaSince(s, SummaryOf(peer)))
  {
    SentParts(cfg, s, SummaryOf(peer));
  }

  lemma SentParts(cfg: Config, s: Snapshot, p: Summary)
    requires OwnerSigned(cfg.owner, s.bans) && BansAgree(s.bans, s.bans)
    requires M.Agree(s.messages, s.messages) && s.secrets == S.EMPTY && p.secrets == S.Summarize(S.EMPTY)
    ensures PublicDelta(cfg, DeltaSince(s, p))
  {
    NothingLackedBySelf(S.EMPTY);
  }

  /** A public delta, another mergeable board, or nothing. */
  ghost predicate PublicUpdate(cfg: Config, u: Update) {
    match u
    case StateUpdate(other) => Mergeable(cfg, other)
    case DeltaUpdate(d) => PublicDelta(cfg, d)
    case _ => true
  }

  /** Every state of every accepted public run under one configuration is a mergeable board. */
  lemma {:induction false} PublicRunIsMergeable(cfg: Config, us: seq<(Config, Update)>)
    requires !cfg.privateMode && forall u :: u in us ==> u.0 == cfg && PublicUpdate(cfg, u.1)
    requires RunOf(EMPTY_BOARD, us).Some?
    ensures Mergeable(cfg, RunOf(EMPTY_BOARD, us).value)
    ensures |RunOf(EMPTY_BOARD, us).value.bans| <= cfg.maxUserBans
  {
    if us == [] {
      EmptyIsMergeable(cfg);
    } else {
      var n := |us| - 1;
      assert us[n] in us && forall u :: u in us[..n] ==> u in us;
      PublicRunIsMergeable(cfg, us[..n]);
      var before := RunOf(EMPTY_BOARD, us[..n]).value;
      UpdateKeepsMergeable(cfg, before, us[n].1);
    }
  }

  lemma UpdateKeepsMergeable(cfg: Config, s: Snapshot, u: Update)
    requires Mergeable(cfg, s) && |s.bans| <= cfg.maxUserBans && PublicUpdate(cfg, u) && Updated(cfg, s, u).Some?
    ensures Mergeable(cfg, Updated(cfg, s, u).value) && |Updated(cfg, s, u).value.bans| <= cfg.maxUserBans
  {
    if DeltaOf(s, u).Some? {
      var d := DeltaOf(s, u).value;
      if u.StateUpdate? {
        SentIsPublic(cfg, u.other, s);
      }
      StepKeepsMergeable(cfg, s, d);
      StepKeepsBansWithinLimit(cfg, s, d);
    }
  }

  lemma StepKeepsBansWithinLimit(cfg: Config, s: Snapshot, d: Delta)
    requires |s.bans| <= cfg.maxUserBans && Applied(cfg, s, d).Some?
    ensures |Applied(cfg, s, d).value.bans| <= cfg.maxUserBans
  {
    BansStepWithinLimit(MembersById(s.members), cfg, s.bans, d.bans);
  }

  lemma BansStepWithinLimit(r: Roster, cfg: Config, bs: seq<AuthorizedUserBan>, delta: Option<seq<AuthorizedUserBan>>)
    requires |bs| <= cfg.maxUserBans && BansApplied(r, cfg, bs, delta).Some?
    ensures |BansApplied(r, cfg, bs, delta).value| <= cfg.maxUserBans
  {
  }

  // ---------- What the contract accepts ----------

  lemma OwnerBansVerify(r: Roster, cfg: Config, bs: seq<AuthorizedUserBan>)
    requires OwnerSigned(cfg.owner, bs)
    ensures BansVerify(r, cfg, bs) <==> |bs| <= cfg.maxUserBans
  {
  }

  /** A mergeable board verifies as a whole exactly when its bans are within the limit and its messages are signed. */
  lemma MergeableVerifiesExactly(cfg: Config, s: Snapshot)
    requires Mergeable(cfg, s)
    ensures BoardVerify(cfg, s)
            <==> |s.bans| <= cfg.maxUserBans && forall m :: m in s.messages ==> M.Signed(m)
  {
    MergeableParts(cfg, s);
    PartsVerifyExactly(cfg, s);
  }

  lemma PartsVerifyExactly(cfg: Config, s: Snapshot)
    requires MembersVerify(s.members, cfg.owner) && MI.InfosVerify(MembersById(s.members), cfg.owner, s.memberInfo)
    requires S.SecretsVerify(cfg.owner, s.secrets) && OwnerSigned(cfg.owner, s.bans)
    requires forall m :: m in s.messages ==> m.author == cfg.owner || m.author in MembersById(s.members)
    ensures BoardVerify(cfg, s) <==> |s.bans| <= cfg.maxUserBans && forall m :: m in s.messages ==> M.Signed(m)
  {
    OwnerBansVerify(MembersById(s.members), cfg, s.bans);
  }

  lemma MergeableParts(cfg: Config, s: Snapshot)
    requires Mergeable(cfg, s)
    ensures MembersVerify(s.members, cfg.owner) && MI.InfosVerify(MembersById(s.members), cfg.owner, s.memberInfo)
    ensures S.SecretsVerify(cfg.owner, s.secrets) && OwnerSigned(cfg.owner, s.bans)
    ensures forall m :: m in s.messages ==> m.author == cfg.owner || m.author in MembersById(s.members)
  {
    InvParts(cfg.owner, s);
  }

  lemma InvParts(owner: Id, s: Snapshot)
    requires Inv(owner, s)
    ensures MembersVerify(s.members, owner) && MI.InfosVerify(MembersById(s.members), owner, s.memberInfo)
    ensures forall m :: m in s.messages ==> m.author == owner || m.author in MembersById(s.members)
  {
  }

  /** All the messages an update carries are signed. */
  ghost predicate SignedUpdate(u: Update) {
    match u
    case StateUpdate(other) => forall m :: m in other.messages ==> M.Signed(m)
    case DeltaUpdate(d) => forall m :: m in M.Arriving(d.messages) ==> M.Signed(m)
    case _ => true
  }

  lemma StepKeepsSigned(cfg: Config, s: Snapshot, d: Delta)
    requires Applied(cfg, s, d).Some?
    requires forall m :: m in s.messages || m in M.Arriving(d.messages) ==> M.Signed(m)
    ensures forall m :: m in Applied(cfg, s, d).value.messages ==> M.Signed(m)
  {
    LogElements(cfg, s, d, PartsApplied(cfg, s, d).value);
  }

  lemma UpdateKeepsSigned(cfg: Config, s: Snapshot, u: Update)
    requires (forall m :: m in s.messages ==> M.Signed(m)) && SignedUpdate(u) && Updated(cfg, s, u).Some?
    ensures forall m :: m in Updated(cfg, s, u).value.messages ==> M.Signed(m)
  {
    if DeltaOf(s, u).Some? {
      StepKeepsSigned(cfg, s, DeltaOf(s, u).value);
    }
  }

  lemma {:induction false} SignedRun(us: seq<(Config, Update)>)
    requires RunOf(EMPTY_BOARD, us).Some? && forall u :: u in us ==> SignedUpdate(u.1)
    ensures forall m :: m in RunOf(EMPTY_BOARD, us).value.messages ==> M.Signed(m)
  {
    if us != [] {
      var n := |us| - 1;
      assert us[n] in us && forall u :: u in us[..n] ==> u in us;
      SignedRun(us[..n]);
      UpdateKeepsSigned(us[n].0, RunOf(EMPTY_BOARD, us[..n]).value, us[n].1);
    }
  }

  /** What `update_state` makes of a public run, `validate_state` accepts exactly when every message on the board is
      signed; it is when every message sent was. */
  lemma PublicRunVerifies(cfg: Config, us: seq<(Config, Update)>)
    requires !cfg.privateMode && forall u :: u in us ==> u.0 == cfg && PublicUpdate(cfg, u.1)
    requires RunOf(EMPTY_BOARD, us).Some?
    ensures var after := RunOf(EMPTY_BOARD, us).value;
            && BansVerify(MembersById(after.members), cfg, after.bans)
            && (BoardVerify(cfg, after) <==> forall m :: m in after.messages ==> M.Signed(m))
            && ((forall u :: u in us ==> SignedUpdate(u.1)) ==> BoardVerify(cfg, after))
  {
    var after := RunOf(EMPTY_BOARD, us).value;
    PublicRunIsMergeable(cfg, us);
    OwnerBansVerify(MembersById(after.members), cfg, after.bans);
    MergeableVerifiesExactly(cfg, after);
    if forall u :: u in us ==> SignedUpdate(u.1) {
      SignedRun(us);
    }
  }
}
