/** Merging public boards converges: the merged board is determined by the union of what went in, so the order and
    grouping of merges do not matter. */
module Convergence {
  import opened Lists
  import opened Records
  import opened Forest
  import opened Members
  import opened Bans
  import MI = MemberInfos
  import S = Secrets
  import opened Actions
  import M = Messages
  import opened Board
  import opened Runs

  /** What boards have collected, before bans and pruning take effect. */
  datatype World = World(bans: set<AuthorizedUserBan>, roster: Roster, messages: set<AuthorizedMessage>)

  ghost function WorldOf(s: Snapshot): World {
    World(Elements(s.bans), MembersById(s.members), Elements(s.messages))
  }

  ghost function Union(v: World, w: World): World {
    World(v.bans + w.bans, v.roster + w.roster, v.messages + w.messages)
  }

  ghost predicate Banned(owner: Id, w: World, x: Id) {
    exists b :: b in w.bans && Above(w.roster, owner, b.bannedUser, x)
  }

  /** a may speak: the owner, or a member neither banned nor below a banned user. */
  ghost predicate Speaks(owner: Id, w: World, a: Id) {
    a == owner || (a in w.roster && !Banned(owner, w, a))
  }

  /** x is a member who may speak and has spoken, or lies above one. */
  ghost predicate Active(owner: Id, w: World, x: Id) {
    x != owner &&
    exists g ::
      g in w.messages && g.author != owner && Speaks(owner, w, g.author) && Above(w.roster, owner, x, g.author)
  }

  /** s is what the world w comes to: all bans, the messages of those who may speak, the active members. */
  ghost predicate IsClosureOf(owner: Id, w: World, s: Snapshot) {
    && Sorted(s.bans, BanKey) && StrictlySorted(s.members, MemberKey) && Sorted(s.messages, MessageKey)
    && (forall b :: b in s.bans <==> b in w.bans)
    && (forall g :: g in s.messages <==> g in w.messages && Speaks(owner, w, g.author))
    && (forall m :: m in s.members <==> m.id in w.roster && w.roster[m.id] == m && Active(owner, w, m.id))
    && s.actions == Rebuilt(s.messages)
  }

  ghost predicate SameCore(s: Snapshot, t: Snapshot) {
    s.bans == t.bans && s.members == t.members && s.messages == t.messages && s.actions == t.actions
  }

  /** The same bans, members, messages and action state, but perhaps not each ban and message equally often. */
  ghost predicate SameUpToRepeats(s: Snapshot, t: Snapshot) {
    && (forall b :: b in s.bans <==> b in t.bans) && s.members == t.members
    && (forall g :: g in s.messages <==> g in t.messages) && s.actions == t.actions
  }

  lemma ClosureUnique(owner: Id, w: World, s: Snapshot, t: Snapshot)
    requires IsClosureOf(owner, w, s) && IsClosureOf(owner, w, t) && M.Agree(s.messages, t.messages)
    ensures SameUpToRepeats(s, t)
  {
    SortedListUnique(s.members, t.members, MemberKey);
    SameRebuilt(s.messages, t.messages);
  }

  /** Every record is vouched for, and every author is the owner or listed. */
  ghost predicate Coherent(owner: Id, w: World) {
    VerifiedRoster(w.roster, owner) && forall g :: g in w.messages ==> g.author == owner || g.author in w.roster
  }

  ghost predicate RostersAgree(r: Roster, t: Roster) {
    forall k :: k in r && k in t ==> r[k] == t[k]
  }

  lemma UnionVerified(r: Roster, t: Roster, owner: Id)
    requires VerifiedRoster(r, owner) && VerifiedRoster(t, owner) && RostersAgree(r, t)
    ensures VerifiedRoster(r + t, owner)
  {
    var u := r + t;
    forall k | k in u ensures exists n: nat :: Vouched(u, owner, u[k], n) {
      if k in t {
        var n: nat :| Vouched(t, owner, t[k], n);
        VouchedGrows(t, u, owner, t[k], n);
      } else {
        var n: nat :| Vouched(r, owner, r[k], n);
        VouchedGrows(r, u, owner, r[k], n);
      }
    }
  }

  lemma UnionCoherent(owner: Id, v: World, w: World)
    requires Coherent(owner, v) && Coherent(owner, w) && RostersAgree(v.roster, w.roster)
    ensures Coherent(owner, Union(v, w))
  {
    UnionVerified(v.roster, w.roster, owner);
  }

  /** A smaller verified roster and a larger one walk alike, so only more bans can silence a member of the smaller. */
  lemma SpeaksInLarger(owner: Id, v: World, w: World, a: Id)
    requires VerifiedRoster(v.roster, owner) && a in v.roster
    requires forall k :: k in v.roster ==> k in w.roster && w.roster[k] == v.roster[k]
    requires v.bans <= w.bans
    ensures forall x :: Above(v.roster, owner, x, a) <==> Above(w.roster, owner, x, a)
    ensures Speaks(owner, w, a) ==> Speaks(owner, v, a)
    ensures v.bans == w.bans ==> (Speaks(owner, w, a) <==> Speaks(owner, v, a))
  {
    VerifiedIsRooted(v.roster, owner);
    RootedStable(v.roster, w.roster, owner, a);
    if Banned(owner, v, a) {
      var b :| b in v.bans && Above(v.roster, owner, b.bannedUser, a);
      assert b in w.bans && Above(w.roster, owner, b.bannedUser, a);
    }
    if v.bans == w.bans && Banned(owner, w, a) {
      var b :| b in w.bans && Above(w.roster, owner, b.bannedUser, a);
      assert Above(v.roster, owner, b.bannedUser, a);
    }
  }

  /** early has the bans of late, and no record or message that late lacks. */
  ghost predicate Within(early: World, late: World) {
    && early.bans == late.bans && early.messages <= late.messages
    && forall k :: k in early.roster ==> k in late.roster && late.roster[k] == early.roster[k]
  }

  lemma ClosureIsWithin(owner: Id, v: World, s: Snapshot, w: World)
    requires RostersAgree(v.roster, w.roster)
    requires IsClosureOf(owner, v, s) && DistinctIds(s.members)
    ensures Within(Union(WorldOf(s), w), Union(v, w)) && RostersAgree(WorldOf(s).roster, w.roster)
  {
    ByIdDistinct(s.members);
    forall k | k in WorldOf(s).roster ensures k in v.roster && v.roster[k] == WorldOf(s).roster[k] {
      assert WorldOf(s).roster[k] in s.members;
    }
  }

  /** Closing early loses nothing that closing late would keep. */
  lemma ClosureAbsorbs(owner: Id, v: World, s: Snapshot, w: World, t: Snapshot)
    requires Coherent(owner, v) && Coherent(owner, w) && RostersAgree(v.roster, w.roster)
    requires IsClosureOf(owner, v, s) && DistinctIds(s.members) && Coherent(owner, WorldOf(s))
    requires IsClosureOf(owner, Union(WorldOf(s), w), t)
    ensures IsClosureOf(owner, Union(v, w), t)
  {
    var early, late := Union(WorldOf(s), w), Union(v, w);
    ClosureIsWithin(owner, v, s, w);
    UnionCoherent(owner, WorldOf(s), w);
    forall g | g in late.messages && Speaks(owner, late, g.author)
      ensures g in early.messages && Speaks(owner, early, g.author)
    {
      LateSpeaker(owner, v, s, w, g);
    }
    SameClosure(owner, early, late, t);
  }

  lemma SameClosure(owner: Id, early: World, late: World, t: Snapshot)
    requires Coherent(owner, early) && Within(early, late) && IsClosureOf(owner, early, t)
    requires forall g :: g in late.messages && Speaks(owner, late, g.author) ==>
                           g in early.messages && Speaks(owner, early, g.author)
    ensures IsClosureOf(owner, late, t)
  {
    forall g | g in early.messages && Speaks(owner, early, g.author) ensures Speaks(owner, late, g.author) {
      if g.author != owner { SpeaksInLarger(owner, early, late, g.author); }
    }
    forall x ensures Active(owner, early, x) <==> Active(owner, late, x) {
      SameActivity(owner, early, late, x);
    }
    forall x | Active(owner, late, x) ensures x in early.roster {
      ActiveIsListed(owner, early, x);
    }
  }

  /** A speaker of the first world that still speaks in the end survives the first closure. */
  lemma EarlySpeaker(owner: Id, v: World, s: Snapshot, late: World, g: AuthorizedMessage)
    requires Coherent(owner, v) && IsClosureOf(owner, v, s)
    requires g in v.messages && Speaks(owner, late, g.author)
    requires v.bans <= late.bans && forall k :: k in v.roster ==> k in late.roster && late.roster[k] == v.roster[k]
    ensures g in s.messages
    ensures g.author != owner ==> g.author in v.roster && v.roster[g.author] in s.members
  {
    if g.author != owner {
      SpeaksInLarger(owner, v, late, g.author);
      AboveSelf(v.roster, owner, g.author);
      assert Active(owner, v, g.author);
    }
  }

  /** A message that counts in the end was not dropped by closing early. */
  lemma LateSpeaker(owner: Id, v: World, s: Snapshot, w: World, g: AuthorizedMessage)
    requires Coherent(owner, v) && Coherent(owner, w) && RostersAgree(v.roster, w.roster)
    requires IsClosureOf(owner, v, s) && DistinctIds(s.members) && Coherent(owner, WorldOf(s))
    requires g in Union(v, w).messages && Speaks(owner, Union(v, w), g.author)
    ensures g in Union(WorldOf(s), w).messages && Speaks(owner, Union(WorldOf(s), w), g.author)
  {
    var early, late := Union(WorldOf(s), w), Union(v, w);
    ClosureIsWithin(owner, v, s, w);
    UnionCoherent(owner, WorldOf(s), w);
    if g !in w.messages {
      EarlySpeaker(owner, v, s, late, g);
    }
    if g.author != owner {
      assert g.author in early.roster;
      SpeaksInLarger(owner, early, late, g.author);
    }
  }

  lemma SameActivity(owner: Id, early: World, late: World, x: Id)
    requires Coherent(owner, early) && Within(early, late)
    requires forall g :: g in late.messages && Speaks(owner, late, g.author) ==>
                           g in early.messages && Speaks(owner, early, g.author)
    ensures Active(owner, early, x) <==> Active(owner, late, x)
  {
    if Active(owner, early, x) {
      var g :| g in early.messages && g.author != owner && Speaks(owner, early, g.author)
          && Above(early.roster, owner, x, g.author);
      SpeaksInLarger(owner, early, late, g.author);
    }
    if Active(owner, late, x) {
      var g :| g in late.messages && g.author != owner && Speaks(owner, late, g.author)
          && Above(late.roster, owner, x, g.author);
      SpeaksInLarger(owner, early, late, g.author);
    }
  }

  lemma ActiveIsListed(owner: Id, w: World, x: Id)
    requires VerifiedRoster(w.roster, owner) && Active(owner, w, x)
    ensures x in w.roster
  {
    var g :| g in w.messages && g.author != owner && Speaks(owner, w, g.author) && Above(w.roster, owner, x, g.author);
    VerifiedIsRooted(w.roster, owner);
    AboveRooted(w.roster, owner, x, g.author);
  }

  // ---------- One merge ----------

  /** Identifiers are hashes of keys and signatures: the same identifier means the same record. */
  ghost predicate BansAgree(bs: seq<AuthorizedUserBan>, cs: seq<AuthorizedUserBan>) {
    forall b, c :: b in bs && c in cs && b.id == c.id ==> b == c
  }

  /** A public board as steps leave it: settled, bans signed by the owner, every record fit to be sent on. A ban or a
      message may stand on it more than once. */
  ghost predicate Mergeable(cfg: Config, s: Snapshot) {
    && Settled(cfg, s)
    && !cfg.privateMode && s.secrets == S.EMPTY
    && OwnerSigned(cfg.owner, s.bans) && BansAgree(s.bans, s.bans)
    && M.Agree(s.messages, s.messages)
    && (forall m :: m in s.messages ==> M.TitleOk(cfg, m.body))
    && (forall i :: i in s.memberInfo ==> i.nicknameLen <= cfg.maxNicknameSize && i.memberId in i.signature)
  }

  ghost predicate Agree(s: Snapshot, t: Snapshot) {
    && BansAgree(s.bans, t.bans)
    && RostersAgree(MembersById(s.members), MembersById(t.members))
    && M.Agree(s.messages, t.messages)
  }

  /** The bans of both lists, those of the first as often as there, the others as often as in the second. */
  function BansTogether(bs: seq<AuthorizedUserBan>, cs: seq<AuthorizedUserBan>): seq<AuthorizedUserBan> {
    bs + BansBeyond(cs, BanIds(bs))
  }

  /** The limit leaves room for the bans of t beside those of s. */
  ghost predicate BansFit(cfg: Config, s: Snapshot, t: Snapshot) {
    |BansTogether(s.bans, t.bans)| <= cfg.maxUserBans
  }

  lemma TogetherElements(bs: seq<AuthorizedUserBan>, cs: seq<AuthorizedUserBan>)
    requires BansAgree(bs, cs)
    ensures forall b :: b in BansTogether(bs, cs) <==> b in bs || b in cs
    ensures BansAgree(bs, bs) && BansAgree(cs, cs) ==> BansAgree(BansTogether(bs, cs), BansTogether(bs, cs))
  {
    forall c | c in cs ensures c in BansTogether(bs, cs) {
      if c.id in BanIds(bs) {
        var b :| b in bs && b.id == c.id;
      }
    }
  }

  lemma BansMerge(r: Roster, cfg: Config, bs: seq<AuthorizedUserBan>, cs: seq<AuthorizedUserBan>)
    requires OwnerSigned(cfg.owner, bs) && OwnerSigned(cfg.owner, cs)
    requires |BansTogether(bs, cs)| <= cfg.maxUserBans
    ensures BansApplied(r, cfg, bs, NonEmpty(BansBeyond(cs, BanIds(bs)))) == Some(Sort(BansTogether(bs, cs), BanKey))
    ensures OwnerSigned(cfg.owner, BansTogether(bs, cs))
  {
    var extra := BansBeyond(cs, BanIds(bs));
    if extra == [] {
      assert BansTogether(bs, cs) == bs;
    } else {
      assert !SharesBanId(bs, extra);
      OwnerBansAccepted(r, cfg, bs, extra);
    }
  }

  lemma JoinedRoster(ms: seq<AuthorizedMember>, ns: seq<AuthorizedMember>, peer: set<Id>)
    requires DistinctIds(ms) && DistinctIds(ns)
    requires RostersAgree(MembersById(ms), MembersById(ns)) && peer == set m | m in ms :: m.id
    ensures DistinctIds(AddNew(ms, MembersBeyond(ns, peer)))
    ensures MembersById(AddNew(ms, MembersBeyond(ns, peer))) == MembersById(ms) + MembersById(ns)
  {
    var added := MembersBeyond(ns, peer);
    var all := AddNew(ms, added);
    var r, t := MembersById(ms), MembersById(ns);
    AddNewDistinct(ms, added);
    JoinedIds(ms, ns, peer);
    forall m | m in all ensures m.id in r + t && (r + t)[m.id] == m {
      JoinedRecord(ms, ns, added, m);
    }
    RosterOf(all, r + t);
  }

  /** The lookup table of a list is the only table over its identifiers that agrees with it. */
  lemma RosterOf(ms: seq<AuthorizedMember>, r: Roster)
    requires forall m :: m in ms ==> m.id in r && r[m.id] == m
    requires forall k :: k in r ==> k in MembersById(ms)
    ensures MembersById(ms) == r
  {
    var u := MembersById(ms);
    forall k | k in u ensures k in r && r[k] == u[k] {
      assert u[k] in ms && u[k].id == k;
    }
    forall k | k in r ensures k in u && r[k] == u[k] {
    }
  }

  lemma JoinedIds(ms: seq<AuthorizedMember>, ns: seq<AuthorizedMember>, peer: set<Id>)
    requires peer == set m | m in ms :: m.id
    ensures forall k :: k in MembersById(ms) || k in MembersById(ns) ==>
                          k in MembersById(AddNew(ms, MembersBeyond(ns, peer)))
  {
    var added := MembersBeyond(ns, peer);
    var all := AddNew(ms, added);
    forall k | k in MembersById(ms) ensures k in MembersById(all) {
      assert MembersById(ms)[k] in all;
    }
    forall k | k in MembersById(ns) && k !in MembersById(ms) ensures k in MembersById(all) {
      assert MembersById(ns)[k] in ns && k !in peer;
      assert MembersById(ns)[k] in added;
      assert HasId(all, k);
    }
  }

  lemma JoinedRecord(ms: seq<AuthorizedMember>, ns: seq<AuthorizedMember>, added: seq<AuthorizedMember>,
                     m: AuthorizedMember)
    requires DistinctIds(ms) && DistinctIds(ns) && (m in ms || m in added)
    requires RostersAgree(MembersById(ms), MembersById(ns)) && forall a :: a in added ==> a in ns
    ensures m.id in MembersById(ms) || m.id in MembersById(ns)
    ensures (MembersById(ms) + MembersById(ns))[m.id] == m
  {
    ByIdDistinct(ms);
    ByIdDistinct(ns);
  }

  /** Every record of a verified table is admissible among more records. */
  lemma JoinedAdmissible(t: Roster, u: Roster, owner: Id, k: Id)
    requires VerifiedRoster(t, owner) && k in t
    requires forall x :: x in t ==> x in u && u[x] == t[x]
    ensures k != owner && Admissible(u, owner, t[k])
  {
    var n: nat :| Vouched(t, owner, t[k], n);
    VouchedGrows(t, u, owner, t[k], n);
    assert exists j: nat :: Vouched(u, owner, t[k], j);
    ListedChainOk(u, owner, t[k]);
  }

  /** The members step of a merge is accepted and leaves the unbanned members of both boards. */
  lemma MembersMerge(ms: seq<AuthorizedMember>, ns: seq<AuthorizedMember>, owner: Id, bans: seq<AuthorizedUserBan>,
                     peer: set<Id>)
    requires DistinctIds(ms) && DistinctIds(ns)
    requires VerifiedRoster(MembersById(ms), owner) && VerifiedRoster(MembersById(ns), owner)
    requires RostersAgree(MembersById(ms), MembersById(ns)) && peer == set m | m in ms :: m.id
    ensures var after := MembersApplied(ms, owner, bans, NonEmpty(MembersBeyond(ns, peer)));
            var u := MembersById(ms) + MembersById(ns);
            && after.Some? && DistinctIds(after.value) && VerifiedRoster(MembersById(after.value), owner)
            && (forall m :: m in after.value <==> m.id in u && u[m.id] == m && !Condemned(u, owner, bans, m.id))
            && VerifiedRoster(u, owner)
  {
    var added := MembersBeyond(ns, peer);
    var all := AddNew(ms, added);
    var u := MembersById(ms) + MembersById(ns);
    JoinedRoster(ms, ns, peer);
    UnionVerified(MembersById(ms), MembersById(ns), owner);
    BeyondAdmissible(ns, u, owner, peer);
    assert Added(NonEmpty(added)) == added;
    VerifiedHasNoOwner(u, owner);
    StepOnForest(ms, owner, bans, NonEmpty(added));
    UnbannedVerifies(all, owner, bans);
    SortDistinctIds(Unbanned(all, owner, bans));
    ByIdDistinct(all);
  }

  lemma BeyondAdmissible(ns: seq<AuthorizedMember>, u: Roster, owner: Id, peer: set<Id>)
    requires DistinctIds(ns) && VerifiedRoster(MembersById(ns), owner)
    requires forall k :: k in MembersById(ns) ==> k in u && u[k] == MembersById(ns)[k]
    ensures forall m :: m in MembersBeyond(ns, peer) ==> Admissible(u, owner, m)
  {
    forall m | m in MembersBeyond(ns, peer) ensures Admissible(u, owner, m) {
      ByIdDistinct(ns);
      JoinedAdmissible(MembersById(ns), u, owner, m.id);
    }
  }

  /** The messages of both logs, those of the first as often as there, the others as often as in the second. */
  function LogsTogether(ms: seq<AuthorizedMessage>, ns: seq<AuthorizedMessage>): seq<AuthorizedMessage> {
    ms + MessagesBeyond(ns, M.MessageIds(ms))
  }

  lemma LogElementsTogether(ms: seq<AuthorizedMessage>, ns: seq<AuthorizedMessage>)
    requires M.Agree(ms, ns)
    ensures forall m :: m in LogsTogether(ms, ns) <==> m in ms || m in ns
    ensures M.Agree(ms, ms) && M.Agree(ns, ns) ==> M.Agree(LogsTogether(ms, ns), LogsTogether(ms, ns))
  {
    forall n | n in ns ensures n in LogsTogether(ms, ns) {
      if n.id in M.MessageIds(ms) {
        var m :| m in ms && m.id == n.id;
      }
    }
  }

  lemma MessagesMerge(cfg: Config, r: Roster, ms: seq<AuthorizedMessage>, ns: seq<AuthorizedMessage>)
    requires !cfg.privateMode && forall m :: m in ns ==> M.TitleOk(cfg, m.body)
    ensures M.MessagesApplied(cfg, r, S.EMPTY, ms, NonEmpty(MessagesBeyond(ns, M.MessageIds(ms))))
            == Some(M.Kept(cfg, r, LogsTogether(ms, ns)))
  {
    var extra := MessagesBeyond(ns, M.MessageIds(ms));
    FilterAll(extra, (m: AuthorizedMessage) => m.id !in M.MessageIds(ms));
    assert M.Fresh(ms, extra) == extra;
    if extra == [] {
      assert M.Arriving(NonEmpty(extra)) == [];
    }
  }

  lemma InfosMerge(r: Roster, cfg: Config, infos: seq<AuthorizedMemberInfo>, others: seq<AuthorizedMemberInfo>,
                   peer: map<Id, nat>)
    requires MI.DistinctInfos(infos)
    requires forall i :: i in infos || i in others ==> i.nicknameLen <= cfg.maxNicknameSize && i.memberId in i.signature
    ensures var after := MI.InfosApplied(r, cfg, infos, NonEmpty(InfosBeyond(others, peer)));
            && after.Some?
            && forall i :: i in after.value ==> i.nicknameLen <= cfg.maxNicknameSize && i.memberId in i.signature
  {
    MI.InfosAppliedLatest(r, cfg, infos, NonEmpty(InfosBeyond(others, peer)));
  }

  /** What a merge needs of each of the two boards, list by list. */
  ghost predicate Sendable(cfg: Config, s: Snapshot) {
    && s.secrets == S.EMPTY
    && DistinctIds(s.members) && VerifiedRoster(MembersById(s.members), cfg.owner)
    && MI.DistinctInfos(s.memberInfo)
    && (forall i :: i in s.memberInfo ==> i.nicknameLen <= cfg.maxNicknameSize && i.memberId in i.signature)
    && OwnerSigned(cfg.owner, s.bans)
    && (forall m :: m in s.messages ==> M.TitleOk(cfg, m.body))
  }

  lemma MergeableIsSendable(cfg: Config, s: Snapshot)
    requires Mergeable(cfg, s)
    ensures Sendable(cfg, s)
  {
    VerifyOfRoster(s.members, cfg.owner);
    InfosDistinct(s.memberInfo);
  }

  lemma MergeMembers(cfg: Config, s: Snapshot, t: Snapshot, bans: seq<AuthorizedUserBan>)
    requires Sendable(cfg, s) && Sendable(cfg, t) && Agree(s, t)
    requires forall b :: b in bans <==> b in s.bans || b in t.bans
    ensures var w := Union(WorldOf(s), WorldOf(t));
            var after := MembersApplied(s.members, cfg.owner, bans, DeltaSince(t, SummaryOf(s)).members);
            && after.Some? && DistinctIds(after.value) && VerifiedRoster(MembersById(after.value), cfg.owner)
            && (forall m :: m in after.value
                            <==> m.id in w.roster && w.roster[m.id] == m && !Banned(cfg.owner, w, m.id))
            && VerifiedRoster(w.roster, cfg.owner)
    ensures NoOwnerEntry(DeltaSince(t, SummaryOf(s)).members, cfg.owner)
  {
    var w := Union(WorldOf(s), WorldOf(t));
    MembersMerge(s.members, t.members, cfg.owner, bans, Ids(s.members));
    forall x ensures Condemned(w.roster, cfg.owner, bans, x) <==> Banned(cfg.owner, w, x) {
      CondemnedIsBanned(cfg.owner, w, bans, x);
    }
    ByIdDistinct(t.members);
  }

  lemma CondemnedIsBanned(owner: Id, w: World, bans: seq<AuthorizedUserBan>, x: Id)
    requires forall b :: b in bans <==> b in w.bans
    ensures Condemned(w.roster, owner, bans, x) <==> Banned(owner, w, x)
  {
    if Condemned(w.roster, owner, bans, x) {
      var b :| b in bans && Above(w.roster, owner, b.bannedUser, x);
      assert b in w.bans;
    }
    if Banned(owner, w, x) {
      var b :| b in w.bans && Above(w.roster, owner, b.bannedUser, x);
      assert b in bans;
    }
  }

  lemma MergeRest(cfg: Config, s: Snapshot, t: Snapshot, r: Roster)
    requires !cfg.privateMode && Sendable(cfg, s) && Sendable(cfg, t)
    ensures var d := DeltaSince(t, SummaryOf(s));
            var infos := MI.InfosApplied(r, cfg, s.memberInfo, d.memberInfo);
            && infos.Some? && S.SecretsApplied(r, cfg.owner, s.secrets, d.secrets) == Some(S.EMPTY)
            && (forall i :: i in infos.value ==> i.nicknameLen <= cfg.maxNicknameSize && i.memberId in i.signature)
            && M.MessagesApplied(cfg, r, S.EMPTY, s.messages, d.messages)
               == Some(M.Kept(cfg, r, LogsTogether(s.messages, t.messages)))
  {
    InfosMerge(r, cfg, s.memberInfo, t.memberInfo, InfoVersions(s.memberInfo));
    MessagesMerge(cfg, r, s.messages, t.messages);
    assert DeltaSince(t, SummaryOf(s)).secrets == None;
    assert S.SecretsApplied(r, cfg.owner, S.EMPTY, None) == Some(S.EMPTY);
  }

  /** The parts of a merge are accepted; they hold both boards' bans, unbanned members and their messages. */
  lemma MergeParts(cfg: Config, s: Snapshot, t: Snapshot) returns (mid: Snapshot)
    requires !cfg.privateMode && Sendable(cfg, s) && Sendable(cfg, t) && Agree(s, t) && BansFit(cfg, s, t)
    ensures PartsApplied(cfg, s, DeltaSince(t, SummaryOf(s))) == Some(mid)
    ensures IsMiddle(cfg, Union(WorldOf(s), WorldOf(t)), mid)
    ensures mid.bans == Sort(BansTogether(s.bans, t.bans), BanKey)
    ensures mid.messages == M.Kept(cfg, MembersById(mid.members), LogsTogether(s.messages, t.messages))
    ensures NoOwnerEntry(DeltaSince(t, SummaryOf(s)).members, cfg.owner)
  {
    var d := DeltaSince(t, SummaryOf(s));
    var bans := Sort(BansTogether(s.bans, t.bans), BanKey);
    BansMerge(MembersById(s.members), cfg, s.bans, t.bans);
    TogetherElements(s.bans, t.bans);
    var members := MembersApplied(s.members, cfg.owner, bans, d.members);
    MergeMembers(cfg, s, t, bans);
    var r := MembersById(members.value);
    var infos := MI.InfosApplied(r, cfg, s.memberInfo, d.memberInfo);
    var messages := M.Kept(cfg, r, LogsTogether(s.messages, t.messages));
    MergeRest(cfg, s, t, r);
    mid := Snapshot(bans, members.value, infos.value, S.EMPTY, messages, Rebuilt(messages));
    PartsAssemble(cfg, s, d, mid);
    MiddleLists(cfg, s, t, mid);
  }

  lemma MiddleLists(cfg: Config, s: Snapshot, t: Snapshot, mid: Snapshot)
    requires Agree(s, t) && OwnerSigned(cfg.owner, BansTogether(s.bans, t.bans))
    requires mid.bans == Sort(BansTogether(s.bans, t.bans), BanKey)
    requires mid.messages == M.Kept(cfg, MembersById(mid.members), LogsTogether(s.messages, t.messages))
    ensures var w := Union(WorldOf(s), WorldOf(t));
            && Sorted(mid.bans, BanKey) && OwnerSigned(cfg.owner, mid.bans)
            && (forall b :: b in mid.bans <==> b in w.bans)
            && Sorted(mid.messages, MessageKey)
            && (forall g :: g in mid.messages <==> g in w.messages && M.Allowed(cfg, MembersById(mid.members), g))
  {
    SortSorts(BansTogether(s.bans, t.bans), BanKey);
    TogetherElements(s.bans, t.bans);
    LogElementsTogether(s.messages, t.messages);
    M.KeptIsCanonical(cfg, MembersById(mid.members), LogsTogether(s.messages, t.messages));
  }

  /** A merged board between its last part and cleanup. */
  ghost predicate IsMiddle(cfg: Config, w: World, mid: Snapshot) {
    && mid.secrets == S.EMPTY && mid.actions == Rebuilt(mid.messages)
    && VerifiedRoster(w.roster, cfg.owner) && VerifiedRoster(MembersById(mid.members), cfg.owner)
    && Sorted(mid.bans, BanKey) && OwnerSigned(cfg.owner, mid.bans)
    && (forall b :: b in mid.bans <==> b in w.bans)
    && DistinctIds(mid.members)
    && (forall m :: m in mid.members <==> m.id in w.roster && w.roster[m.id] == m && !Banned(cfg.owner, w, m.id))
    && Sorted(mid.messages, MessageKey)
    && (forall g :: g in mid.messages <==> g in w.messages && M.Allowed(cfg, MembersById(mid.members), g))
    && (forall i :: i in mid.memberInfo ==> i.nicknameLen <= cfg.maxNicknameSize && i.memberId in i.signature)
  }

  lemma MiddleSpeakers(cfg: Config, w: World, mid: Snapshot, a: Id)
    requires IsMiddle(cfg, w, mid)
    ensures a in MembersById(mid.members) <==> a in w.roster && !Banned(cfg.owner, w, a)
    ensures a in MembersById(mid.members) ==> MembersById(mid.members)[a] == w.roster[a]
    ensures a in MembersById(mid.members) ==>
              forall x :: Above(MembersById(mid.members), cfg.owner, x, a) <==> Above(w.roster, cfg.owner, x, a)
  {
    var r := MembersById(mid.members);
    ByIdDistinct(mid.members);
    if a in w.roster && !Banned(cfg.owner, w, a) {
      assert w.roster[a] in mid.members;
    }
    assert forall k :: k in r ==> r[k] in mid.members;
    if a in r {
      VerifiedIsRooted(r, cfg.owner);
      RootedStable(r, w.roster, cfg.owner, a);
    }
  }

  lemma MiddleActivity(cfg: Config, w: World, mid: Snapshot, x: Id)
    requires IsMiddle(cfg, w, mid)
    requires forall g :: g in mid.messages <==> g in w.messages && Speaks(cfg.owner, w, g.author)
    ensures Required(MembersById(mid.members), cfg.owner, mid.messages, x) <==> Active(cfg.owner, w, x)
  {
    var r := MembersById(mid.members);
    if Required(r, cfg.owner, mid.messages, x) {
      var g :| g in mid.messages && g.author != cfg.owner && g.author in r && Above(r, cfg.owner, x, g.author);
      MiddleSpeakers(cfg, w, mid, g.author);
    }
    if Active(cfg.owner, w, x) {
      var g :| g in w.messages && g.author != cfg.owner && Speaks(cfg.owner, w, g.author)
          && Above(w.roster, cfg.owner, x, g.author);
      MiddleSpeakers(cfg, w, mid, g.author);
    }
  }

  /** Cleanup turns the merged parts into the closure of what both boards had. */
  lemma MiddleCleans(cfg: Config, w: World, mid: Snapshot)
    requires IsMiddle(cfg, w, mid)
    requires forall g :: g in w.messages ==> g.body.ContentLen() <= cfg.maxMessageSize
    ensures IsClosureOf(cfg.owner, w, Cleaned(cfg.owner, mid))
    ensures Cleaned(cfg.owner, mid).bans == mid.bans
  {
    var r := MembersById(mid.members);
    var s := Cleaned(cfg.owner, mid);
    FilterAll(mid.bans,
              (b: AuthorizedUserBan) => BanStays(MembersById(s.members), cfg.owner, BannedUsers(mid.bans), b));
    forall g ensures g in mid.messages <==> g in w.messages && Speaks(cfg.owner, w, g.author) {
      MiddleSpeakers(cfg, w, mid, g.author);
    }
    PrunedElements(mid.members, cfg.owner, mid.messages);
    forall m ensures m in s.members <==> m.id in w.roster && w.roster[m.id] == m && Active(cfg.owner, w, m.id) {
      MiddleActivity(cfg, w, mid, m.id);
      if m.id in w.roster && w.roster[m.id] == m && Active(cfg.owner, w, m.id) {
        ActiveIsUnbanned(cfg.owner, w, m.id);
      }
    }
  }

  lemma ActiveIsUnbanned(owner: Id, w: World, x: Id)
    requires Active(owner, w, x)
    ensures !Banned(owner, w, x)
  {
    var g :| g in w.messages && g.author != owner && Speaks(owner, w, g.author) && Above(w.roster, owner, x, g.author);
    if b :| b in w.bans && Above(w.roster, owner, b.bannedUser, x) {
      AboveTransitive(w.roster, owner, b.bannedUser, x, g.author);
    }
  }

  /** A merge of two public boards is accepted, comes to the closure of what both had, and can be merged again. */
  lemma MergeIsClosure(cfg: Config, s: Snapshot, t: Snapshot) returns (m: Snapshot)
    requires Mergeable(cfg, s) && Mergeable(cfg, t) && Agree(s, t) && BansFit(cfg, s, t)
    ensures Merge(cfg, s, t) == Some(m) && StepEnds(cfg, s, DeltaSince(t, SummaryOf(s)))
    ensures IsClosureOf(cfg.owner, Union(WorldOf(s), WorldOf(t)), m)
    ensures Mergeable(cfg, m) && m.bans == Sort(BansTogether(s.bans, t.bans), BanKey)
  {
    MergeableIsSendable(cfg, s);
    MergeableIsSendable(cfg, t);
    var mid := MergeParts(cfg, s, t);
    NoOwnerStepEnds(cfg, s, DeltaSince(t, SummaryOf(s)));
    MergedCleans(cfg, s, t, mid);
    m := Cleaned(cfg.owner, mid);
    StepSettles(cfg, s, DeltaSince(t, SummaryOf(s)));
    MergedIsMergeable(cfg, s, t, mid);
  }

  lemma MergedCleans(cfg: Config, s: Snapshot, t: Snapshot, mid: Snapshot)
    requires IsMiddle(cfg, Union(WorldOf(s), WorldOf(t)), mid)
    requires forall g :: g in s.messages || g in t.messages ==> g.body.ContentLen() <= cfg.maxMessageSize
    ensures IsClosureOf(cfg.owner, Union(WorldOf(s), WorldOf(t)), Cleaned(cfg.owner, mid))
    ensures Cleaned(cfg.owner, mid).bans == mid.bans
  {
    MiddleCleans(cfg, Union(WorldOf(s), WorldOf(t)), mid);
  }

  lemma MergedIsMergeable(cfg: Config, s: Snapshot, t: Snapshot, mid: Snapshot)
    requires Mergeable(cfg, s) && Mergeable(cfg, t) && Agree(s, t)
    requires IsMiddle(cfg, Union(WorldOf(s), WorldOf(t)), mid) && Cleaned(cfg.owner, mid).bans == mid.bans
    requires Settled(cfg, Cleaned(cfg.owner, mid))
    ensures Mergeable(cfg, Cleaned(cfg.owner, mid))
  {
    forall g | g in mid.messages ensures M.TitleOk(cfg, g.body) {
      assert g in s.messages || g in t.messages;
    }
    MiddleAgrees(s, t, mid);
  }

  lemma MiddleAgrees(s: Snapshot, t: Snapshot, mid: Snapshot)
    requires Agree(s, t) && BansAgree(s.bans, s.bans) && BansAgree(t.bans, t.bans)
    requires M.Agree(s.messages, s.messages) && M.Agree(t.messages, t.messages)
    requires forall b :: b in mid.bans ==> b in s.bans || b in t.bans
    requires forall g :: g in mid.messages ==> g in s.messages || g in t.messages
    ensures BansAgree(mid.bans, mid.bans) && M.Agree(mid.messages, mid.messages)
  {
  }

  // ---------- Convergence ----------

  lemma MergeableCoherent(cfg: Config, s: Snapshot)
    requires Mergeable(cfg, s)
    ensures Coherent(cfg.owner, WorldOf(s)) && DistinctIds(s.members)
  {
    VerifyOfRoster(s.members, cfg.owner);
  }

  lemma UnionSwap(s: Snapshot, t: Snapshot)
    requires Agree(s, t)
    ensures Union(WorldOf(s), WorldOf(t)) == Union(WorldOf(t), WorldOf(s))
  {
  }

  lemma AgreeSwap(s: Snapshot, t: Snapshot)
    requires Agree(s, t)
    ensures Agree(t, s)
  {
  }

  lemma MergedLogsAgree(cfg: Config, w: World, s: Snapshot, t: Snapshot)
    requires IsClosureOf(cfg.owner, w, s) && IsClosureOf(cfg.owner, w, t) && M.Agree(s.messages, s.messages)
    ensures M.Agree(s.messages, t.messages)
  {
    forall g, h | g in s.messages && h in t.messages && g.id == h.id ensures g == h {
      assert h in w.messages && Speaks(cfg.owner, w, h.author);
    }
  }

  /** Either board may take from the other: both merges are accepted and give the same bans, members and messages, if
      perhaps not equally often. */
  lemma MergeCommutes(cfg: Config, s: Snapshot, t: Snapshot)
    requires Mergeable(cfg, s) && Mergeable(cfg, t) && Agree(s, t)
    requires BansFit(cfg, s, t) && BansFit(cfg, t, s)
    ensures Merge(cfg, s, t).Some? && Merge(cfg, t, s).Some?
    ensures SameUpToRepeats(Merge(cfg, s, t).value, Merge(cfg, t, s).value)
  {
    AgreeSwap(s, t);
    UnionSwap(s, t);
    var st := MergeIsClosure(cfg, s, t);
    var ts := MergeIsClosure(cfg, t, s);
    MergedLogsAgree(cfg, Union(WorldOf(s), WorldOf(t)), st, ts);
    ClosureUnique(cfg.owner, Union(WorldOf(s), WorldOf(t)), st, ts);
  }

  /** A board built from two others agrees with a third that agrees with both. */
  lemma ClosureAgrees(cfg: Config, s: Snapshot, t: Snapshot, st: Snapshot, u: Snapshot)
    requires IsClosureOf(cfg.owner, Union(WorldOf(s), WorldOf(t)), st)
    requires Agree(s, u) && Agree(t, u)
    ensures Agree(st, u)
  {
    var w := Union(WorldOf(s), WorldOf(t));
    forall b, c | b in st.bans && c in u.bans && b.id == c.id ensures b == c {
      assert b in w.bans;
    }
    forall k | k in MembersById(st.members) && k in MembersById(u.members)
      ensures MembersById(st.members)[k] == MembersById(u.members)[k]
    {
      assert MembersById(st.members)[k] in st.members;
    }
    forall g, h | g in st.messages && h in u.messages && g.id == h.id ensures g == h {
      assert g in w.messages;
    }
  }

  /** Merging one more board into the closure of a world gives the closure of the larger world. */
  lemma MergeOneMore(cfg: Config, v: World, st: Snapshot, u: Snapshot) returns (m: Snapshot)
    requires Mergeable(cfg, st) && Mergeable(cfg, u) && Agree(st, u) && BansFit(cfg, st, u)
    requires Coherent(cfg.owner, v) && IsClosureOf(cfg.owner, v, st) && RostersAgree(v.roster, WorldOf(u).roster)
    ensures Merge(cfg, st, u) == Some(m) && IsClosureOf(cfg.owner, Union(v, WorldOf(u)), m)
  {
    m := MergeIsClosure(cfg, st, u);
    MergeableCoherent(cfg, u);
    MergeableCoherent(cfg, st);
    ClosureAbsorbs(cfg.owner, v, st, WorldOf(u), m);
  }

  lemma TwoWorlds(cfg: Config, s: Snapshot, t: Snapshot)
    requires Mergeable(cfg, s) && Mergeable(cfg, t) && Agree(s, t)
    ensures Coherent(cfg.owner, Union(WorldOf(s), WorldOf(t)))
  {
    MergeableCoherent(cfg, s);
    MergeableCoherent(cfg, t);
    UnionCoherent(cfg.owner, WorldOf(s), WorldOf(t));
  }

  /** The limit leaves room for these bans, each as often as on the board that holds it most often. */
  ghost predicate RoomFor(cfg: Config, bans: multiset<AuthorizedUserBan>) {
    |bans| <= cfg.maxUserBans
  }

  ghost function BansOfThree(s: Snapshot, t: Snapshot, u: Snapshot): multiset<AuthorizedUserBan> {
    MostOf(MostOf(multiset(s.bans), multiset(t.bans)), multiset(u.bans))
  }

  lemma TogetherAtMost(bs: seq<AuthorizedUserBan>, cs: seq<AuthorizedUserBan>)
    ensures multiset(BansTogether(bs, cs)) <= MostOf(multiset(bs), multiset(cs))
  {
    forall b ensures multiset(BansTogether(bs, cs))[b] <= MostOf(multiset(bs), multiset(cs))[b] {
      FilterCounts(cs, (c: AuthorizedUserBan) => c.id !in BanIds(bs), b);
    }
  }

  lemma RoomToFit(cfg: Config, s: Snapshot, t: Snapshot, all: multiset<AuthorizedUserBan>)
    requires RoomFor(cfg, all) && multiset(s.bans) <= all && multiset(t.bans) <= all
    ensures BansFit(cfg, s, t) && multiset(Sort(BansTogether(s.bans, t.bans), BanKey)) <= all
  {
    TogetherAtMost(s.bans, t.bans);
    FewerAreSmaller(multiset(BansTogether(s.bans, t.bans)), all);
    SortSorts(BansTogether(s.bans, t.bans), BanKey);
  }

  lemma ReadyForThird(cfg: Config, s: Snapshot, t: Snapshot, st: Snapshot, u: Snapshot)
    requires IsClosureOf(cfg.owner, Union(WorldOf(s), WorldOf(t)), st)
    requires Agree(s, u) && Agree(t, u)
    ensures Agree(st, u)
    ensures RostersAgree(Union(WorldOf(s), WorldOf(t)).roster, WorldOf(u).roster)
  {
    ClosureAgrees(cfg, s, t, st, u);
  }

  /** Merging two boards and then a third: accepted, and the closure of all three. */
  lemma MergeThree(cfg: Config, s: Snapshot, t: Snapshot, u: Snapshot, all: multiset<AuthorizedUserBan>)
    returns (st: Snapshot, m: Snapshot)
    requires Mergeable(cfg, s) && Mergeable(cfg, t) && Mergeable(cfg, u)
    requires Agree(s, t) && Agree(s, u) && Agree(t, u)
    requires RoomFor(cfg, all)
    requires multiset(s.bans) <= all && multiset(t.bans) <= all && multiset(u.bans) <= all
    ensures Merge(cfg, s, t) == Some(st) && Merge(cfg, st, u) == Some(m)
    ensures IsClosureOf(cfg.owner, Union(Union(WorldOf(s), WorldOf(t)), WorldOf(u)), m)
    ensures Mergeable(cfg, st) && Agree(st, u) && multiset(st.bans) <= all && M.Agree(m.messages, m.messages)
  {
    RoomToFit(cfg, s, t, all);
    st := MergeIsClosure(cfg, s, t);
    ReadyForThird(cfg, s, t, st, u);
    TwoWorlds(cfg, s, t);
    RoomToFit(cfg, st, u, all);
    m := MergeOneMore(cfg, Union(WorldOf(s), WorldOf(t)), st, u);
    var again := MergeIsClosure(cfg, st, u);
  }

  lemma UnionRotates(s: Snapshot, t: Snapshot, u: Snapshot)
    requires Agree(s, t) && Agree(s, u) && Agree(t, u)
    ensures Union(Union(WorldOf(t), WorldOf(u)), WorldOf(s)) == Union(Union(WorldOf(s), WorldOf(t)), WorldOf(u))
  {
    RostersRotate(MembersById(s.members), MembersById(t.members), MembersById(u.members));
  }

  lemma RostersRotate(r: Roster, t: Roster, u: Roster)
    requires RostersAgree(r, t) && RostersAgree(r, u) && RostersAgree(t, u)
    ensures t + u + r == r + t + u
  {
    var a, b := t + u + r, r + t + u;
    assert a.Keys == b.Keys;
    assert forall k :: k in a ==> a[k] == b[k];
  }

  lemma MostOfThree(s: Snapshot, t: Snapshot, u: Snapshot)
    ensures multiset(s.bans) <= BansOfThree(s, t, u) && multiset(t.bans) <= BansOfThree(s, t, u)
    ensures multiset(u.bans) <= BansOfThree(s, t, u)
  {
  }

  /** Grouping does not matter either: (s + t) + u and s + (t + u) are accepted and come to the same. */
  lemma MergeAssociates(cfg: Config, s: Snapshot, t: Snapshot, u: Snapshot)
    requires Mergeable(cfg, s) && Mergeable(cfg, t) && Mergeable(cfg, u)
    requires Agree(s, t) && Agree(s, u) && Agree(t, u)
    requires RoomFor(cfg, BansOfThree(s, t, u))
    ensures Merge(cfg, s, t).Some? && Merge(cfg, t, u).Some?
    ensures var left, right := Merge(cfg, Merge(cfg, s, t).value, u), Merge(cfg, s, Merge(cfg, t, u).value);
            left.Some? && right.Some? && SameUpToRepeats(left.value, right.value)
  {
    MostOfThree(s, t, u);
    AssociatesWithin(cfg, s, t, u, BansOfThree(s, t, u));
  }

  lemma AssociatesWithin(cfg: Config, s: Snapshot, t: Snapshot, u: Snapshot, all: multiset<AuthorizedUserBan>)
    requires Mergeable(cfg, s) && Mergeable(cfg, t) && Mergeable(cfg, u)
    requires Agree(s, t) && Agree(s, u) && Agree(t, u)
    requires RoomFor(cfg, all)
    requires multiset(s.bans) <= all && multiset(t.bans) <= all && multiset(u.bans) <= all
    ensures Merge(cfg, s, t).Some? && Merge(cfg, t, u).Some?
    ensures var left, right := Merge(cfg, Merge(cfg, s, t).value, u), Merge(cfg, s, Merge(cfg, t, u).value);
            left.Some? && right.Some? && SameUpToRepeats(left.value, right.value)
  {
    var st, left := MergeThree(cfg, s, t, u, all);
    AgreeSwap(s, t);
    AgreeSwap(s, u);
    UnionRotates(s, t, u);
    var tu, flipped := MergeThree(cfg, t, u, s, all);
    MergedLogsAgree(cfg, Union(Union(WorldOf(s), WorldOf(t)), WorldOf(u)), left, flipped);
    ClosureUnique(cfg.owner, Union(Union(WorldOf(s), WorldOf(t)), WorldOf(u)), left, flipped);
    AgreeSwap(tu, s);
    RoomToFit(cfg, s, tu, all);
    RoomToFit(cfg, tu, s, all);
    MergeCommutes(cfg, s, tu);
  }

  lemma {:induction false} InfoVersionsKnown(infos: seq<AuthorizedMemberInfo>)
    requires MI.DistinctInfos(infos)
    ensures forall i :: i in infos ==> i.memberId in InfoVersions(infos) && InfoVersions(infos)[i.memberId] == i.version
    ensures forall k :: k in InfoVersions(infos) ==> exists i :: i in infos && i.memberId == k
  {
    if infos != [] {
      var n := |infos| - 1;
      InfoVersionsKnown(infos[..n]);
      SplitLast(infos);
      LastApart(infos);
    }
  }

  lemma LastApart(infos: seq<AuthorizedMemberInfo>)
    requires MI.DistinctInfos(infos) && infos != []
    ensures forall i :: i in infos[..|infos| - 1] ==> i.memberId != infos[|infos| - 1].memberId
  {
    var n := |infos| - 1;
    forall i | i in infos[..n] ensures i.memberId != infos[n].memberId {
      var k :| 0 <= k < n && infos[..n][k] == i;
    }
  }

  /** A board that merges itself learns nothing: the whole board, records and secrets included, stays as it was. */
  lemma MergeIdempotent(cfg: Config, s: Snapshot)
    requires Settled(cfg, s)
    ensures Merge(cfg, s, s) == Some(s)
  {
    var peer := SummaryOf(s);
    InfosDistinct(s.memberInfo);
    InfoVersionsKnown(s.memberInfo);
    FilterNone(s.bans, (b: AuthorizedUserBan) => b.id !in peer.bans);
    FilterNone(s.members, (m: AuthorizedMember) => m.id !in peer.members);
    FilterNone(s.memberInfo,
               (i: AuthorizedMemberInfo) =>
                 i.memberId !in peer.memberInfo || i.version > peer.memberInfo[i.memberId]);
    FilterNone(s.messages, (m: AuthorizedMessage) => m.id !in peer.messages);
    NothingLackedBySelf(s.secrets);
    assert DeltaSince(s, peer) == NO_DELTA;
    SettledIsFixedPoint(cfg, s);
  }

  lemma NothingLackedBySelf(st: S.SecretsState)
    ensures S.DeltaFor(st, S.Summarize(st)).None?
  {
    var peer := S.Summarize(st);
    FilterNone(st.versions, (v: SecretVersionRecord) => v.version !in peer.versionIds);
    FilterNone(st.encryptedSecrets, (s: EncryptedSecret) => S.Pair(s) !in peer.memberSecrets);
  }
}
