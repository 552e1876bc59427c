/** A whole board: the step that applies a delta part by part and then cleans up, and what every run keeps. */
module Board {
  import opened Lists
  import opened Records
  import opened Forest
  import opened Members
  import opened Bans
  import MI = MemberInfos
  import opened Secrets
  import opened Actions
  import opened Messages

  datatype Snapshot = Snapshot(
    bans: seq<AuthorizedUserBan>,
    members: seq<AuthorizedMember>,
    memberInfo: seq<AuthorizedMemberInfo>,
    secrets: SecretsState,
    messages: seq<AuthorizedMessage>,
    actions: ActionsState)

  const EMPTY_BOARD := Snapshot([], [], [], EMPTY, [], NO_ACTIONS)

  datatype Delta = Delta(
    bans: Option<seq<AuthorizedUserBan>>,
    members: Option<seq<AuthorizedMember>>,
    memberInfo: Option<seq<AuthorizedMemberInfo>>,
    secrets: Option<SecretsDelta>,
    messages: Option<seq<AuthorizedMessage>>)

  const NO_DELTA := Delta(None, None, None, None, None)

  // ---------- Cleanup ----------

  /** x is a listed author of a message, or lies above one; the owner is never required. */
  ghost predicate Required(r: Roster, owner: Id, messages: seq<AuthorizedMessage>, x: Id) {
    x != owner && exists m :: m in messages && m.author != owner && m.author in r && Above(r, owner, x, m.author)
  }

  ghost function Pruned(ms: seq<AuthorizedMember>, owner: Id, messages: seq<AuthorizedMessage>): seq<AuthorizedMember> {
    Sort(Filter(ms, (m: AuthorizedMember) => Required(MembersById(ms), owner, messages, m.id)), MemberKey)
  }

  /** An absent banner's bans stay unless the banner was banned. */
  predicate BanStays(r: Roster, owner: Id, banned: set<Id>, b: AuthorizedUserBan) {
    b.bannedBy == owner || b.bannedBy in r || b.bannedBy !in banned
  }

  function StayingBans(r: Roster, owner: Id, bs: seq<AuthorizedUserBan>): seq<AuthorizedUserBan> {
    Filter(bs, (b: AuthorizedUserBan) => BanStays(r, owner, BannedUsers(bs), b))
  }

  ghost function StayingInfos(r: Roster, owner: Id, messages: seq<AuthorizedMessage>, infos: seq<AuthorizedMemberInfo>)
    : seq<AuthorizedMemberInfo>
  {
    Sort(Filter(infos, (i: AuthorizedMemberInfo) => i.memberId == owner || Required(r, owner, messages, i.memberId)),
         InfoKey)
  }

  /** The board after `post_apply_cleanup`. */
  ghost function Cleaned(owner: Id, s: Snapshot): Snapshot {
    var pruned := Pruned(s.members, owner, s.messages);
    s.(members := pruned,
       memberInfo := StayingInfos(MembersById(s.members), owner, s.messages, s.memberInfo),
       bans := StayingBans(MembersById(pruned), owner, s.bans))
  }

  // ---------- The step ----------

  /** The board after the delta's parts are applied in field order, before cleanup; None when a part is rejected. */
  ghost function PartsApplied(cfg: Config, s: Snapshot, d: Delta): Option<Snapshot> {
    var bans := BansApplied(MembersById(s.members), cfg, s.bans, d.bans);
    if bans.None? then None else
    var members := MembersApplied(s.members, cfg.owner, bans.value, d.members);
    if members.None? then None else
    var r := MembersById(members.value);
    var infos := MI.InfosApplied(r, cfg, s.memberInfo, d.memberInfo);
    if infos.None? then None else
    var secrets := SecretsApplied(r, cfg.owner, s.secrets, d.secrets);
    if secrets.None? then None else
    var messages := MessagesApplied(cfg, r, secrets.value, s.messages, d.messages);
    if messages.None? then None else
    Some(Snapshot(bans.value, members.value, infos.value, secrets.value, messages.value, Rebuilt(messages.value)))
  }

  /** Once bans and members are through, the step hangs on the other three parts. */
  lemma PartsAfterMembers(cfg: Config, s: Snapshot, d: Delta, bans: seq<AuthorizedUserBan>,
                          members: seq<AuthorizedMember>)
    requires BansApplied(MembersById(s.members), cfg, s.bans, d.bans) == Some(bans)
    requires MembersApplied(s.members, cfg.owner, bans, d.members) == Some(members)
    ensures var r, parts := MembersById(members), PartsApplied(cfg, s, d);
            var secrets := SecretsApplied(r, cfg.owner, s.secrets, d.secrets);
            && (parts.Some? <==>
                  && MI.InfosApplied(r, cfg, s.memberInfo, d.memberInfo).Some?
                  && secrets.Some?
                  && MessagesApplied(cfg, r, secrets.value, s.messages, d.messages).Some?)
            && (parts.Some? ==>
                  && parts.value.members == members && parts.value.bans == bans && parts.value.secrets == secrets.value
                  && parts.value.messages == MessagesApplied(cfg, r, secrets.value, s.messages, d.messages).value)
  {
  }

  /** A board whose parts are what the parts' steps produce is what the step produces before cleanup. */
  lemma PartsAssemble(cfg: Config, s: Snapshot, d: Delta, t: Snapshot)
    requires BansApplied(MembersById(s.members), cfg, s.bans, d.bans) == Some(t.bans)
    requires MembersApplied(s.members, cfg.owner, t.bans, d.members) == Some(t.members)
    requires MI.InfosApplied(MembersById(t.members), cfg, s.memberInfo, d.memberInfo) == Some(t.memberInfo)
    requires SecretsApplied(MembersById(t.members), cfg.owner, s.secrets, d.secrets) == Some(t.secrets)
    requires MessagesApplied(cfg, MembersById(t.members), t.secrets, s.messages, d.messages) == Some(t.messages)
    requires t.actions == Rebuilt(t.messages)
    ensures PartsApplied(cfg, s, d) == Some(t)
  {
  }

  /** The members part of the step ends, if the step gets that far. */
  ghost predicate StepEnds(cfg: Config, s: Snapshot, d: Delta) {
    var bans := BansApplied(MembersById(s.members), cfg, s.bans, d.bans);
    bans.Some? ==> RemovalEnds(s.members, cfg.owner, bans.value, d.members)
  }

  ghost function Applied(cfg: Config, s: Snapshot, d: Delta): Option<Snapshot> {
    var parts := PartsApplied(cfg, s, d);
    if parts.None? then None else Some(Cleaned(cfg.owner, parts.value))
  }

  // ---------- What cleanup keeps ----------

  /** What pruning leaves of any list, and of its table. */
  lemma PrunedElements(ms: seq<AuthorizedMember>, owner: Id, messages: seq<AuthorizedMessage>)
    ensures var ks, r := Pruned(ms, owner, messages), MembersById(ms);
            && Sorted(ks, MemberKey)
            && (forall m :: m in ks <==> m in ms && Required(r, owner, messages, m.id))
            && (forall k :: k in MembersById(ks) <==> k in r && Required(r, owner, messages, k))
            && (forall k :: k in MembersById(ks) ==> MembersById(ks)[k] == r[k])
            && (DistinctIds(ms) ==> StrictlySorted(ks, MemberKey) && DistinctIds(ks))
  {
    var keep := (m: AuthorizedMember) => Required(MembersById(ms), owner, messages, m.id);
    var f := Filter(ms, keep);
    SortSorts(f, MemberKey);
    RosterOfFilter(ms, keep);
    RosterOfSort(f);
    if DistinctIds(ms) {
      FilterDistinctIds(ms, keep);
      SortDistinctIds(f);
    }
  }

  /** Whatever lies above a required member, below the owner, is required too. */
  lemma RequiredAbove(r: Roster, owner: Id, messages: seq<AuthorizedMessage>, a: Id, x: Id)
    requires Required(r, owner, messages, x) && Above(r, owner, a, x) && a != owner
    ensures Required(r, owner, messages, a)
  {
    var m :| m in messages && m.author != owner && m.author in r && Above(r, owner, x, m.author);
    AboveTransitive(r, owner, a, x, m.author);
  }

  /** Pruning changes no walk that starts at a required member. */
  lemma PruneKeepsWalks(ms: seq<AuthorizedMember>, owner: Id, messages: seq<AuthorizedMessage>, x: Id)
    requires Required(MembersById(ms), owner, messages, x)
    ensures forall a :: Above(MembersById(ms), owner, a, x)
                        <==> Above(MembersById(Pruned(ms, owner, messages)), owner, a, x)
  {
    var r, t := MembersById(ms), MembersById(Pruned(ms, owner, messages));
    PrunedElements(ms, owner, messages);
    forall a | Above(r, owner, a, x) && a != owner ensures a in r <==> a in t {
      RequiredAbove(r, owner, messages, a, x);
    }
    AboveAgrees(r, t, owner, x);
  }

  /** Rosters that list the same authors and walk alike from them require the same members. */
  lemma RequiredAgrees(r: Roster, t: Roster, owner: Id, messages: seq<AuthorizedMessage>, x: Id)
    requires forall m :: m in messages && m.author != owner ==> (m.author in r <==> m.author in t)
    requires forall m :: m in messages && m.author != owner && m.author in r ==>
                           (Above(r, owner, x, m.author) <==> Above(t, owner, x, m.author))
    ensures Required(r, owner, messages, x) <==> Required(t, owner, messages, x)
  {
  }

  /** The pruned list requires exactly the members the full list requires. */
  lemma RequiredAfterPrune(ms: seq<AuthorizedMember>, owner: Id, messages: seq<AuthorizedMessage>)
    ensures forall x :: Required(MembersById(ms), owner, messages, x)
                        <==> Required(MembersById(Pruned(ms, owner, messages)), owner, messages, x)
  {
    var r, t := MembersById(ms), MembersById(Pruned(ms, owner, messages));
    PrunedElements(ms, owner, messages);
    forall x ensures Required(r, owner, messages, x) <==> Required(t, owner, messages, x) {
      forall m | m in messages && m.author != owner && m.author in r
        ensures m.author in t && (Above(r, owner, x, m.author) <==> Above(t, owner, x, m.author))
      {
        AboveSelf(r, owner, m.author);
        PruneKeepsWalks(ms, owner, messages, m.author);
      }
      RequiredAgrees(r, t, owner, messages, x);
    }
  }

  lemma PruneKeepsVerified(ms: seq<AuthorizedMember>, owner: Id, messages: seq<AuthorizedMessage>)
    requires DistinctIds(ms) && VerifiedRoster(MembersById(ms), owner)
    ensures VerifiedRoster(MembersById(Pruned(ms, owner, messages)), owner)
    ensures forall k :: Required(MembersById(ms), owner, messages, k) ==> k in MembersById(Pruned(ms, owner, messages))
  {
    var r, t := MembersById(ms), MembersById(Pruned(ms, owner, messages));
    PrunedElements(ms, owner, messages);
    VerifiedIsRooted(r, owner);
    forall k | Required(r, owner, messages, k) ensures k in t {
      var m :| m in messages && m.author != owner && m.author in r && Above(r, owner, k, m.author);
      AboveRooted(r, owner, k, m.author);
    }
    forall k | k in t ensures t[k].invitedBy == owner || t[k].invitedBy in t {
      AboveStep(r, owner, k);
      AboveSelf(r, owner, r[k].invitedBy);
      if r[k].invitedBy != owner {
        RequiredAbove(r, owner, messages, r[k].invitedBy, k);
      }
    }
    PruneKeepsVerify(r, t, owner);
  }

  /** Every record's inviter is the owner or listed. */
  ghost predicate InvitersListed(ms: seq<AuthorizedMember>, owner: Id) {
    forall m :: m in ms ==> m.invitedBy == owner || m.invitedBy in MembersById(ms)
  }

  /** A verified list is left verified by cleanup exactly when each kept record's inviter is the owner or kept; on a
      list without repeated identifiers that is always so. */
  lemma CleanupKeepsMembersVerify(owner: Id, s: Snapshot)
    requires MembersVerify(s.members, owner)
    ensures MembersVerify(Cleaned(owner, s).members, owner) <==> InvitersListed(Cleaned(owner, s).members, owner)
    ensures DistinctIds(s.members) ==> MembersVerify(Cleaned(owner, s).members, owner)
  {
    var ms, ks := s.members, Cleaned(owner, s).members;
    PrunedElements(ms, owner, s.messages);
    if MembersVerify(ks, owner) {
      VerifiedInviters(ks, owner);
    }
    if InvitersListed(ks, owner) {
      FewerStillVerify(ms, ks, owner);
    }
    if DistinctIds(ms) {
      ForestInvitersListed(owner, s);
      FewerStillVerify(ms, ks, owner);
    }
  }

  lemma VerifiedInviters(ms: seq<AuthorizedMember>, owner: Id)
    requires MembersVerify(ms, owner)
    ensures InvitersListed(ms, owner)
  {
    forall m | m in ms ensures m.invitedBy == owner || m.invitedBy in MembersById(ms) {
      assert VerifiedMember(MembersById(ms), owner, m);
      var n: nat :| Vouched(MembersById(ms), owner, m, n);
    }
  }

  lemma ForestInvitersListed(owner: Id, s: Snapshot)
    requires DistinctIds(s.members) && MembersVerify(s.members, owner)
    ensures InvitersListed(Cleaned(owner, s).members, owner)
  {
    var r, ks := MembersById(s.members), Cleaned(owner, s).members;
    PrunedElements(s.members, owner, s.messages);
    ByIdDistinct(s.members);
    VerifiedInviters(s.members, owner);
    forall m | m in ks && m.invitedBy != owner ensures m.invitedBy in MembersById(ks) {
      assert VerifiedMember(r, owner, m);
      AboveStep(r, owner, m.id);
      AboveSelf(r, owner, m.invitedBy);
      RequiredAbove(r, owner, s.messages, m.invitedBy, m.id);
    }
  }

  /** Fewer records, none without its inviter, and a table that agrees: what verified still does. */
  lemma FewerStillVerify(ms: seq<AuthorizedMember>, ks: seq<AuthorizedMember>, owner: Id)
    requires MembersVerify(ms, owner) && InvitersListed(ks, owner) && forall m :: m in ks ==> m in ms
    requires forall k :: k in MembersById(ks) ==> k in MembersById(ms) && MembersById(ks)[k] == MembersById(ms)[k]
    ensures MembersVerify(ks, owner)
  {
    var r, t := MembersById(ms), MembersById(ks);
    forall m | m in ks ensures VerifiedMember(t, owner, m) {
      assert VerifiedMember(r, owner, m);
      var n: nat :| Vouched(r, owner, m, n);
      VouchedTransfers(r, t, owner, m, n);
      if m.id != owner && Above(t, owner, m.id, m.invitedBy) {
        AboveInLarger(r, t, owner, m.id, m.invitedBy);
      }
    }
  }

  /** A verified list, repeating an identifier, that cleanup leaves unverified: the record of 3 that 1 signed stays
      although 1 goes, because the table knows only the record that 2 signed. */
  lemma CleanupUnverifiesHere()
    ensures var ms := [AuthorizedMember(1, 0, {0}), AuthorizedMember(2, 0, {0}), AuthorizedMember(3, 1, {1}),
                       AuthorizedMember(3, 2, {2})];
            var g := AuthorizedMessage(7, 3, 0, Public(OtherType(9), Opaque, 0), {3});
            var s := EMPTY_BOARD.(members := ms, messages := [g]);
            MembersVerify(ms, 0) && !MembersVerify(Cleaned(0, s).members, 0)
  {
    var ms := [AuthorizedMember(1, 0, {0}), AuthorizedMember(2, 0, {0}), AuthorizedMember(3, 1, {1}),
               AuthorizedMember(3, 2, {2})];
    var g := AuthorizedMessage(7, 3, 0, Public(OtherType(9), Opaque, 0), {3});
    var s := EMPTY_BOARD.(members := ms, messages := [g]);
    RepeatedTable(ms);
    RepeatedVerifies(ms);
    RepeatedPruned(ms, [g]);
    CleanupKeepsMembersVerify(0, s);
  }

  lemma TwoRecords(a: AuthorizedMember, b: AuthorizedMember)
    ensures MembersById([a, b]) == map[a.id := a, b.id := b]
  {
    RosterAppend([], a);
    RosterAppend([a], b);
    assert [] + [a] == [a] && [a] + [b] == [a, b];
  }

  lemma FourRecords(a: AuthorizedMember, b: AuthorizedMember, c: AuthorizedMember, d: AuthorizedMember)
    ensures MembersById([a, b, c, d]) == map[a.id := a, b.id := b][c.id := c][d.id := d]
  {
    TwoRecords(a, b);
    RosterAppend([a, b], c);
    RosterAppend([a, b] + [c], d);
    assert [a, b] + [c] + [d] == [a, b, c, d];
  }

  lemma RepeatedTable(ms: seq<AuthorizedMember>)
    requires |ms| == 4 && ms[0].id == 1 && ms[1].id == 2 && ms[2].id == 3 && ms[3].id == 3
    ensures MembersById(ms) == map[1 := ms[0], 2 := ms[1], 3 := ms[3]]
  {
    FourRecords(ms[0], ms[1], ms[2], ms[3]);
    assert ms == [ms[0], ms[1], ms[2], ms[3]];
  }

  lemma RepeatedVerifies(ms: seq<AuthorizedMember>)
    requires |ms| == 4 && ms[0] == AuthorizedMember(1, 0, {0}) && ms[1] == AuthorizedMember(2, 0, {0})
    requires ms[2] == AuthorizedMember(3, 1, {1}) && ms[3] == AuthorizedMember(3, 2, {2})
    ensures MembersVerify(ms, 0)
  {
    var r := MembersById(ms);
    RepeatedTable(ms);
    AboveTop(r, 0, 0);
    AboveStep(r, 0, 1);
    AboveStep(r, 0, 2);
    assert Vouched(r, 0, ms[0], 1) && Vouched(r, 0, ms[1], 1);
    assert Vouched(r, 0, ms[2], 2) && Vouched(r, 0, ms[3], 2);
  }

  lemma RepeatedPruned(ms: seq<AuthorizedMember>, messages: seq<AuthorizedMessage>)
    requires |ms| == 4 && ms[0] == AuthorizedMember(1, 0, {0}) && ms[1] == AuthorizedMember(2, 0, {0})
    requires ms[2] == AuthorizedMember(3, 1, {1}) && ms[3] == AuthorizedMember(3, 2, {2})
    requires |messages| == 1 && messages[0].author == 3
    ensures !InvitersListed(Pruned(ms, 0, messages), 0)
  {
    RepeatedTable(ms);
    RepeatedRequired(MembersById(ms), ms[1], ms[3], messages);
    PrunedElements(ms, 0, messages);
    assert ms[2] in ms && ms[2] in Pruned(ms, 0, messages);
  }

  lemma RepeatedRequired(r: Roster, two: AuthorizedMember, three: AuthorizedMember, messages: seq<AuthorizedMessage>)
    requires 2 in r && r[2] == two && two.invitedBy == 0 && 3 in r && r[3] == three && three.invitedBy == 2
    requires |messages| == 1 && messages[0].author == 3
    ensures Required(r, 0, messages, 3) && !Required(r, 0, messages, 1)
  {
    AboveTop(r, 0, 0);
    AboveStep(r, 0, 2);
    AboveStep(r, 0, 3);
    assert messages[0] in messages;
  }

  /** Cleanup keeps `BansV1::verify` on any list: a banner stays listed as long as the member it banned does, and a ban
      whose banner is gone and banned is dropped. */
  lemma CleanupKeepsBansVerify(cfg: Config, s: Snapshot)
    requires BansVerify(MembersById(s.members), cfg, s.bans)
    ensures BansVerify(MembersById(Cleaned(cfg.owner, s).members), cfg, Cleaned(cfg.owner, s).bans)
  {
    var owner := cfg.owner;
    var r, t := MembersById(s.members), MembersById(Pruned(s.members, owner, s.messages));
    var bs := StayingBans(t, owner, s.bans);
    PrunedElements(s.members, owner, s.messages);
    assert BannedUsers(bs) <= BannedUsers(s.bans);
    forall b | b in bs ensures BanAuthorised(t, cfg, BannedUsers(bs), b) && BanSigned(t, owner, b) {
      assert BanAuthorised(r, cfg, BannedUsers(s.bans), b) && BanSigned(r, owner, b);
      assert BanStays(t, owner, BannedUsers(s.bans), b);
      if b.bannedUser in t && b.bannedBy != owner && b.bannedBy !in cfg.admins && b.bannedBy in r {
        RequiredAbove(r, owner, s.messages, b.bannedBy, b.bannedUser);
        PruneKeepsWalks(s.members, owner, s.messages, b.bannedUser);
      }
    }
  }

  lemma CleanedBansStay(r: Roster, owner: Id, bs: seq<AuthorizedUserBan>)
    ensures StayingBans(r, owner, StayingBans(r, owner, bs)) == StayingBans(r, owner, bs)
  {
    var once := StayingBans(r, owner, bs);
    assert BannedUsers(once) <= BannedUsers(bs);
    forall b | b in once ensures BanStays(r, owner, BannedUsers(once), b) {
      assert BanStays(r, owner, BannedUsers(bs), b);
    }
    FilterAll(once, (b: AuthorizedUserBan) => BanStays(r, owner, BannedUsers(once), b));
  }

  lemma CleanedInfosStay(r: Roster, t: Roster, owner: Id, messages: seq<AuthorizedMessage>,
                         infos: seq<AuthorizedMemberInfo>)
    requires forall x :: Required(r, owner, messages, x) <==> Required(t, owner, messages, x)
    ensures StayingInfos(t, owner, messages, StayingInfos(r, owner, messages, infos))
            == StayingInfos(r, owner, messages, infos)
  {
    var once := StayingInfos(r, owner, messages, infos);
    FilterAll(once, (i: AuthorizedMemberInfo) => i.memberId == owner || Required(t, owner, messages, i.memberId));
    SortSorts(Filter(infos,
                     (i: AuthorizedMemberInfo) => i.memberId == owner || Required(r, owner, messages, i.memberId)),
              InfoKey);
    SortIdentity(once, InfoKey);
  }

  lemma PrunedTwice(ms: seq<AuthorizedMember>, owner: Id, messages: seq<AuthorizedMessage>)
    ensures Pruned(Pruned(ms, owner, messages), owner, messages) == Pruned(ms, owner, messages)
  {
    var once := Pruned(ms, owner, messages);
    PrunedElements(ms, owner, messages);
    RequiredAfterPrune(ms, owner, messages);
    FilterAll(once, (m: AuthorizedMember) => Required(MembersById(once), owner, messages, m.id));
    SortIdentity(once, MemberKey);
  }

  /** Cleanup a second time changes nothing, whatever the board. */
  lemma CleanupIdempotent(owner: Id, s: Snapshot)
    ensures Cleaned(owner, Cleaned(owner, s)) == Cleaned(owner, s)
  {
    var once := Cleaned(owner, s);
    PrunedTwice(s.members, owner, s.messages);
    RequiredAfterPrune(s.members, owner, s.messages);
    CleanedInfosStay(MembersById(s.members), MembersById(once.members), owner, s.messages, s.memberInfo);
    CleanedBansStay(MembersById(once.members), owner, s.bans);
  }
}
