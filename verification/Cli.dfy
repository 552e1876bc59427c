/** The command line client's side: the ban pre-check, and the delta by which a pruned member rejoins. */
module Cli {
  import opened Lists
  import opened Records
  import opened Forest
  import opened Members
  import opened Bans
  import MI = MemberInfos
  import S = Secrets
  import M = Messages
  import opened Board
  import opened Runs
  import opened Readings

  datatype CliError =
    | SelfBan
    | OwnerBan
    | TargetNotListed
    | CircularChain
    | BrokenChain
    | NotAuthorised

  // ---------- Banning ----------

  /** Whom the pre-check lets ban: the owner anyone else, others only listed members below them. */
  ghost predicate MayIssueBan(r: Roster, owner: Id, me: Id, target: Id) {
    && target != me && target != owner
    && (me == owner || (target in r && StrictlyAbove(r, owner, me, target)))
  }

  lemma IssuedFromAbove(r: Roster, owner: Id, me: Id, target: Id)
    ensures target != me ==> (StrictlyAbove(r, owner, me, target) <==> Upline(r, owner, me, target))
  {
    WalkReads(r, owner, me, target);
    if target != me && Above(r, owner, me, target) {
      var n: nat :| Up(r, owner, target, n) == Some(me);
      assert n > 0;
    }
  }

  /** The walk of `ban_member`, from the target's inviter up. */
  method AuthoriseBan(byId: Roster, owner: Id, me: Id, target: Id) returns (res: Result<(), CliError>)
    requires Keyed(byId)
    ensures res.Ok? <==> MayIssueBan(byId, owner, me, target)
    ensures res.Ok? <==> target != me && target != owner
                         && (me == owner || (target in byId && Upline(byId, owner, me, target)))
  {
    IssuedFromAbove(byId, owner, me, target);
    if target == me { return Err(SelfBan); }
    if target == owner { return Err(OwnerBan); }
    if me != owner {
      if target !in byId { return Err(TargetNotListed); }
      AboveStep(byId, owner, target);
      var currentId := byId[target].invitedBy;
      ghost var first := currentId;
      var visited: set<Id> := {};
      while currentId != owner
        invariant owner !in visited && me !in visited && visited <= byId.Keys
        invariant forall a :: a in visited || Above(byId, owner, a, currentId) <==> Above(byId, owner, a, first)
        invariant forall y :: y in visited ==> byId[y].invitedBy in visited || byId[y].invitedBy == currentId
        decreases byId.Keys - visited
      {
        AboveSelf(byId, owner, currentId);
        if currentId == me {
          return Ok(());
        }
        if currentId in visited {
          AllInVisited(byId, owner, visited, currentId);
          return Err(CircularChain);
        }
        visited := visited + {currentId};
        if currentId !in byId {
          AboveTop(byId, owner, currentId);
          return Err(BrokenChain);
        }
        AboveStep(byId, owner, currentId);
        currentId := byId[currentId].invitedBy;
      }
      AboveTop(byId, owner, owner);
      return Err(NotAuthorised);
    }
    return Ok(());
  }

  /** A ban of a listed member that the pre-check lets through, signed by its banner, who is the owner or still listed,
      is accepted by a board whose bans verify, even when older bans have to make room for it. */
  lemma AuthorisedBanAccepted(cfg: Config, r: Roster, bs: seq<AuthorizedUserBan>, ban: AuthorizedUserBan)
    requires BansVerify(r, cfg, bs) && !SharesBanId(bs, [ban])
    requires MayIssueBan(r, cfg.owner, ban.bannedBy, ban.bannedUser) && ban.bannedUser in r
    requires ban.bannedBy == cfg.owner || ban.bannedBy in r
    requires ban.bannedBy in ban.signature
    ensures BansApplied(r, cfg, bs, Some([ban])).Some?
    ensures ban.bannedBy != cfg.owner ==> MayBan(r, cfg.owner, ban.bannedBy, ban.bannedUser)
  {
    var kept := KeepNewest(bs + [ban], cfg.maxUserBans);
    if ban.bannedBy != cfg.owner {
      AboveOfStrict(r, cfg.owner, ban.bannedBy, ban.bannedUser);
    }
    forall b | b in kept ensures BanAuthorised(r, cfg, BannedUsers(kept), b) && BanSigned(r, cfg.owner, b) {
      assert b in bs + [ban];
      if b != ban {
        assert BanAuthorised(r, cfg, BannedUsers(bs), b) && BanSigned(r, cfg.owner, b);
        assert BannedUsers(kept) <= BannedUsers(bs) + {ban.bannedUser};
      }
    }
  }

  lemma AboveOfStrict(r: Roster, owner: Id, a: Id, x: Id)
    requires StrictlyAbove(r, owner, a, x)
    ensures Above(r, owner, a, x)
  {
  }

  // ---------- Rejoining ----------

  // What a client stores about its own membership.
  datatype StoredIdentity = StoredIdentity(member: AuthorizedMember, inviteChain: seq<AuthorizedMember>)

  // The nickname a rejoining client sends is the word "Member".
  const NICKNAME := "Member"

  function MissingFrom(ms: seq<AuthorizedMember>, chain: seq<AuthorizedMember>): seq<AuthorizedMember> {
    Filter(chain, (m: AuthorizedMember) => !HasId(ms, m.id))
  }

  function RejoinInfo(infos: seq<AuthorizedMemberInfo>, me: Id): AuthorizedMemberInfo {
    var k := MI.Find(infos, me);
    AuthorizedMemberInfo(me, if k < |infos| then infos[k].version else 0, |NICKNAME|, {me})
  }

  /** The version of the first record of the member, 0 where there is none. */
  ghost predicate KnownVersion(infos: seq<AuthorizedMemberInfo>, me: Id, v: nat) {
    if forall i :: i in infos ==> i.memberId != me then v == 0
    else exists k :: 0 <= k < |infos| && infos[k].memberId == me && infos[k].version == v &&
                     forall j :: 0 <= j < k ==> infos[j].memberId != me
  }

  lemma FirstKnown(infos: seq<AuthorizedMemberInfo>, me: Id)
    ensures KnownVersion(infos, me, RejoinInfo(infos, me).version)
  {
    var k := MI.Find(infos, me);
    if k < |infos| {
      assert infos[k] in infos;
    }
  }

  lemma MissingStep(ms: seq<AuthorizedMember>, chain: seq<AuthorizedMember>, i: nat)
    requires i < |chain|
    ensures MissingFrom(ms, chain[..i + 1])
            == MissingFrom(ms, chain[..i]) + if HasId(ms, chain[i].id) then [] else [chain[i]]
  {
    assert chain[..i + 1] == chain[..i] + [chain[i]];
    FilterAppend(chain[..i], [chain[i]], (m: AuthorizedMember) => !HasId(ms, m.id));
  }

  /** The membership and the records a pruned member sends along with a message. */
  method BuildRejoinDelta(members: seq<AuthorizedMember>, infos: seq<AuthorizedMemberInfo>, owner: Id, me: Id,
                          stored: Option<StoredIdentity>)
    returns (added: Option<seq<AuthorizedMember>>, info: Option<seq<AuthorizedMemberInfo>>)
    ensures me == owner || HasId(members, me) || stored.None? ==> added.None? && info.None?
    ensures me != owner && !HasId(members, me) && stored.Some? ==>
              added == Some([stored.value.member] + MissingFrom(members, stored.value.inviteChain)) &&
              info == Some([RejoinInfo(infos, me)])
    ensures added.Some? ==>
              && added.value != [] && stored.Some? && added.value[0] == stored.value.member
              && forall m :: m in added.value[1..]
                             <==> m in stored.value.inviteChain && forall x :: x in members ==> x.id != m.id
    ensures info.Some? ==>
              exists v: nat :: KnownVersion(infos, me, v) && info.value == [AuthorizedMemberInfo(me, v, 6, {me})]
  {
    FirstKnown(infos, me);
    if me == owner { return None, None; }
    if exists m :: m in members && m.id == me { return None, None; }
    if stored.None? { return None, None; }
    var chain := stored.value.inviteChain;
    var toAdd := [stored.value.member];
    for i := 0 to |chain|
      invariant toAdd == [stored.value.member] + MissingFrom(members, chain[..i])
    {
      MissingStep(members, chain, i);
      if !exists m :: m in members && m.id == chain[i].id {
        toAdd := toAdd + [chain[i]];
      }
    }
    assert chain[..|chain|] == chain;
    var k := MI.Find(infos, me);
    var version := if k < |infos| then infos[k].version else 0;
    return Some(toAdd), Some([AuthorizedMemberInfo(me, version, |NICKNAME|, {me})]);
  }

  /** chain holds the inviters above the member, nearest first, each signed by the next and the last by the owner. */
  ghost predicate IsSignedChain(owner: Id, me: AuthorizedMember, chain: seq<AuthorizedMember>)
    decreases chain
  {
    me.id != owner &&
    if chain == [] then me.invitedBy == owner && owner in me.signature
    else me.invitedBy == chain[0].id && chain[0].id in me.signature && IsSignedChain(owner, chain[0], chain[1..])
  }

  /** The stored membership still fits the board: no record contradicts the board's, nobody on it or the owner is
      banned. */
  ghost predicate CanRejoin(owner: Id, s: Snapshot, me: AuthorizedMember, chain: seq<AuthorizedMember>) {
    && !HasId(s.members, me.id)
    && IsSignedChain(owner, me, chain)
    && DistinctIds([me] + chain)
    && (forall m, c :: m in s.members && c in chain && m.id == c.id ==> m == c)
    && (forall b :: b in s.bans ==> b.bannedUser != owner && b.bannedUser != me.id && !HasId(chain, b.bannedUser))
  }

  /** A public message of the member that the board has no objection to. */
  ghost predicate GoodMessage(cfg: Config, s: Snapshot, me: Id, g: AuthorizedMessage) {
    && g.author == me && g.body.Public? && !cfg.privateMode && M.TitleOk(cfg, g.body)
    && g.body.ContentLen() <= cfg.maxMessageSize
    && (forall m :: m in s.messages && m.id == g.id ==> m == g)
  }

  lemma {:induction false} ChainListed(r: Roster, owner: Id, me: AuthorizedMember, chain: seq<AuthorizedMember>)
    requires IsSignedChain(owner, me, chain)
    requires me.id in r && r[me.id] == me
    requires forall c :: c in chain ==> c.id in r && r[c.id] == c
    ensures Vouched(r, owner, me, |chain| + 1)
    ensures forall i :: 0 <= i < |chain| ==>
                          Vouched(r, owner, chain[i], |chain| - i) && Above(r, owner, chain[i].id, me.id)
    ensures forall a :: Above(r, owner, a, me.id) ==> a == me.id || a == owner || HasId(chain, a)
    ensures forall i :: 0 <= i < |chain| ==> chain[i].id != owner
    decreases chain
  {
    AboveStep(r, owner, me.id);
    if chain == [] {
      AboveTop(r, owner, owner);
    } else {
      assert chain == [chain[0]] + chain[1..];
      assert forall c :: c in chain[1..] ==> c in chain;
      assert chain[0] in chain;
      ChainListed(r, owner, chain[0], chain[1..]);
      AboveSelf(r, owner, chain[0].id);
      forall i | 0 <= i < |chain|
        ensures Vouched(r, owner, chain[i], |chain| - i) && Above(r, owner, chain[i].id, me.id) && chain[i].id != owner
      {
        if i > 0 { assert chain[i] == chain[1..][i - 1]; }
      }
    }
  }

  /** With the missing records added, the member and the whole chain are listed as stored. */
  lemma RejoinRoster(owner: Id, s: Snapshot, me: AuthorizedMember, chain: seq<AuthorizedMember>)
    requires DistinctIds(s.members) && CanRejoin(owner, s, me, chain)
    ensures var all := AddNew(s.members, [me] + MissingFrom(s.members, chain));
            && DistinctIds(all)
            && me in all && forall c :: c in chain ==> c in all
  {
    var added := [me] + MissingFrom(s.members, chain);
    var all := AddNew(s.members, added);
    AddNewDistinct(s.members, added);
    assert me in added;
    forall c | c in added ensures c in all {
      assert HasId(all, c.id);
      var m :| m in all && m.id == c.id;
      OneRecordEach(me, chain, m, c);
    }
    forall c | c in chain ensures c in all {
      if HasId(s.members, c.id) {
        var m :| m in s.members && m.id == c.id;
      } else {
        assert c in added;
      }
    }
  }

  lemma OneRecordEach(me: AuthorizedMember, chain: seq<AuthorizedMember>, m: AuthorizedMember, c: AuthorizedMember)
    requires DistinctIds([me] + chain) && (c == me || c in chain)
    ensures (m == me || m in chain) && m.id == c.id ==> m == c
  {
    var all := [me] + chain;
    assert all[0] == me;
    if (m == me || m in chain) && m.id == c.id {
      assert m in all && c in all;
      var i :| 0 <= i < |all| && all[i] == m;
      var j :| 0 <= j < |all| && all[j] == c;
      assert !(i < j) && !(j < i);
    }
  }

  /** Every record sent along is vouched for, up the chain. */
  lemma RejoinAdmissible(owner: Id, r: Roster, me: AuthorizedMember, chain: seq<AuthorizedMember>, m: AuthorizedMember)
    requires IsSignedChain(owner, me, chain)
    requires me.id in r && r[me.id] == me
    requires forall c :: c in chain ==> c.id in r && r[c.id] == c
    requires m == me || m in chain
    ensures m.id != owner && Admissible(r, owner, m)
    ensures Above(r, owner, m.id, me.id)
  {
    ChainListed(r, owner, me, chain);
    AboveSelf(r, owner, me.id);
    var n: nat;
    if m == me {
      n := |chain| + 1;
    } else {
      var i :| 0 <= i < |chain| && chain[i] == m;
      n := |chain| - i;
    }
    assert Vouched(r, owner, m, n);
    assert exists k: nat :: Vouched(r, owner, m, k);
    ListedChainOk(r, owner, m);
  }

  /** The members step accepts the rejoining member and keeps the whole chain. */
  lemma RejoinMembersStep(owner: Id, s: Snapshot, bans: seq<AuthorizedUserBan>, me: AuthorizedMember,
                          chain: seq<AuthorizedMember>)
    requires DistinctIds(s.members) && MembersVerify(s.members, owner) && CanRejoin(owner, s, me, chain)
    requires forall b :: b in bans ==> b in s.bans
    ensures var added := [me] + MissingFrom(s.members, chain);
            var after := MembersApplied(s.members, owner, bans, Some(added));
            && after.Some? && NoOwnerEntry(Some(added), owner)
            && forall m :: m == me || m in chain ==> m in after.value
  {
    var added := [me] + MissingFrom(s.members, chain);
    var all := AddNew(s.members, added);
    var r := MembersById(all);
    RejoinRoster(owner, s, me, chain);
    ByIdDistinct(all);
    assert owner !in r by {
      ChainNamesNoOwner(owner, s.members, me, chain);
    }
    ChainAdmissible(owner, s, bans, r, me, chain);
    AddedAreOfChain(s.members, me, chain);
    StaysListed(s.members, owner, bans, added);
  }

  lemma ChainNamesNoOwner(owner: Id, ms: seq<AuthorizedMember>, me: AuthorizedMember, chain: seq<AuthorizedMember>)
    requires MembersVerify(ms, owner) && IsSignedChain(owner, me, chain)
    ensures owner !in MembersById(AddNew(ms, [me] + MissingFrom(ms, chain)))
  {
    var all := AddNew(ms, [me] + MissingFrom(ms, chain));
    SignedChainBelowOwner(owner, me, chain);
    forall m | m in all ensures m.id != owner {
      if m in ms {
        assert VerifiedMember(MembersById(ms), owner, m);
      } else {
        assert m in [me] + MissingFrom(ms, chain);
      }
    }
  }

  lemma {:induction false} SignedChainBelowOwner(owner: Id, me: AuthorizedMember, chain: seq<AuthorizedMember>)
    requires IsSignedChain(owner, me, chain)
    ensures me.id != owner && forall c :: c in chain ==> c.id != owner
    decreases chain
  {
    if chain != [] {
      SignedChainBelowOwner(owner, chain[0], chain[1..]);
      assert chain == [chain[0]] + chain[1..];
    }
  }

  lemma AddedAreOfChain(ms: seq<AuthorizedMember>, me: AuthorizedMember, chain: seq<AuthorizedMember>)
    ensures forall m :: m in [me] + MissingFrom(ms, chain) ==> m == me || m in chain
  {
  }

  lemma ChainAdmissible(owner: Id, s: Snapshot, bans: seq<AuthorizedUserBan>, r: Roster, me: AuthorizedMember,
                        chain: seq<AuthorizedMember>)
    requires CanRejoin(owner, s, me, chain) && forall b :: b in bans ==> b in s.bans
    requires me.id in r && r[me.id] == me && forall c :: c in chain ==> c.id in r && r[c.id] == c
    ensures forall m :: m == me || m in chain ==>
                          m.id != owner && Admissible(r, owner, m) && !Condemned(r, owner, bans, m.id)
  {
    forall m | m == me || m in chain ensures m.id != owner && Admissible(r, owner, m) && Above(r, owner, m.id, me.id) {
      RejoinAdmissible(owner, r, me, chain, m);
    }
    ChainListed(r, owner, me, chain);
    NotCondemned(owner, s, bans, r, me, chain);
  }

  /** Of the accepted records those not condemned stay. */
  lemma StaysListed(ms: seq<AuthorizedMember>, owner: Id, bans: seq<AuthorizedUserBan>, added: seq<AuthorizedMember>)
    requires MembersApplied(ms, owner, bans, Some(added)).Some? && owner !in MembersById(AddNew(ms, added))
    requires DistinctIds(ms)
    ensures var all := AddNew(ms, added);
            forall m :: m in all && !Condemned(MembersById(all), owner, bans, m.id)
                        ==> m in MembersApplied(ms, owner, bans, Some(added)).value
  {
    StepOnForest(ms, owner, bans, Some(added));
  }

  lemma NotCondemned(owner: Id, s: Snapshot, bans: seq<AuthorizedUserBan>, r: Roster, me: AuthorizedMember,
                     chain: seq<AuthorizedMember>)
    requires CanRejoin(owner, s, me, chain) && forall b :: b in bans ==> b in s.bans
    requires forall a :: Above(r, owner, a, me.id) ==> a == me.id || a == owner || HasId(chain, a)
    requires forall c :: c in chain ==> Above(r, owner, c.id, me.id)
    ensures forall m :: m == me || m in chain ==> !Condemned(r, owner, bans, m.id)
  {
    forall c | c in chain && Condemned(r, owner, bans, c.id) ensures Condemned(r, owner, bans, me.id) {
      CondemnedBelow(r, owner, bans, c.id, me.id);
    }
  }

  /** Cleanup keeps an author, the inviters above, and the message. */
  lemma RejoinSurvives(owner: Id, mid: Snapshot, me: AuthorizedMember, chain: seq<AuthorizedMember>,
                       g: AuthorizedMessage)
    requires DistinctIds(mid.members) && IsSignedChain(owner, me, chain)
    requires forall m :: m == me || m in chain ==> m in mid.members
    requires g in mid.messages && g.author == me.id
    ensures forall m :: m == me || m in chain ==> m in Cleaned(owner, mid).members
  {
    var r := MembersById(mid.members);
    ByIdDistinct(mid.members);
    PrunedElements(mid.members, owner, mid.messages);
    forall m | m == me || m in chain ensures Required(r, owner, mid.messages, m.id) {
      RejoinAdmissible(owner, r, me, chain, m);
    }
  }

  /** The rejoin delta with one good message is accepted exactly when the board allows the nickname it sends; then the
      member, the whole chain and the message are on the board, cleanup included. */
  lemma RejoinWorks(cfg: Config, s: Snapshot, me: AuthorizedMember, chain: seq<AuthorizedMember>, g: AuthorizedMessage)
    requires Inv(cfg.owner, s) && CanRejoin(cfg.owner, s, me, chain) && GoodMessage(cfg, s, me.id, g)
    ensures var d := RejoinDelta(s, me, chain, g);
            && StepEnds(cfg, s, d)
            && (Applied(cfg, s, d).Some? <==> |NICKNAME| <= cfg.maxNicknameSize)
            && (Applied(cfg, s, d).Some? ==>
                  var after := Applied(cfg, s, d).value;
                  (forall m :: m == me || m in chain ==> m in after.members) && g in after.messages)
  {
    var d := RejoinDelta(s, me, chain, g);
    var bans := Sort(s.bans, BanKey);
    RejoinMembersStep(cfg.owner, s, bans, me, chain);
    NoOwnerStepEnds(cfg, s, d);
    var members := MembersApplied(s.members, cfg.owner, bans, d.members).value;
    MembersBeforeCleanup(s.members, cfg.owner, bans, d.members);
    assert me in members;
    RejoinParts(cfg, s, me, chain, g, members);
    if |NICKNAME| <= cfg.maxNicknameSize {
      RejoinSurvives(cfg.owner, PartsApplied(cfg, s, d).value, me, chain, g);
    }
  }

  /** Once the members step has listed the member, the other parts are accepted if the nickname is. */
  lemma RejoinParts(cfg: Config, s: Snapshot, me: AuthorizedMember, chain: seq<AuthorizedMember>, g: AuthorizedMessage,
                    members: seq<AuthorizedMember>)
    requires MembersApplied(s.members, cfg.owner, Sort(s.bans, BanKey), RejoinDelta(s, me, chain, g).members)
             == Some(members)
    requires me in members && GoodMessage(cfg, s, me.id, g)
    ensures var mid := PartsApplied(cfg, s, RejoinDelta(s, me, chain, g));
            && (mid.Some? <==> |NICKNAME| <= cfg.maxNicknameSize)
            && (mid.Some? ==> mid.value.members == members && g in mid.value.messages)
  {
    var r := MembersById(members);
    assert me.id in r;
    PartsAfterMembers(cfg, s, RejoinDelta(s, me, chain, g), Sort(s.bans, BanKey), members);
    RejoinInfoOk(cfg, r, s.memberInfo, me.id);
    RejoinMessagesStep(cfg, r, s, S.InOrder(s.secrets), me.id, g);
  }

  ghost function RejoinDelta(s: Snapshot, me: AuthorizedMember, chain: seq<AuthorizedMember>,
                             g: AuthorizedMessage): Delta
  {
    Delta(None, Some([me] + MissingFrom(s.members, chain)), Some([RejoinInfo(s.memberInfo, me.id)]), None, Some([g]))
  }

  lemma RejoinInfoOk(cfg: Config, r: Roster, infos: seq<AuthorizedMemberInfo>, me: Id)
    ensures MI.InfosApplied(r, cfg, infos, Some([RejoinInfo(infos, me)])).Some? <==> |NICKNAME| <= cfg.maxNicknameSize
  {
    assert RejoinInfo(infos, me) in MI.Infos(Some([RejoinInfo(infos, me)]));
  }

  lemma RejoinMessagesStep(cfg: Config, r: Roster, s: Snapshot, secrets: S.SecretsState, me: Id, g: AuthorizedMessage)
    requires GoodMessage(cfg, s, me, g) && me in r
    ensures M.MessagesApplied(cfg, r, secrets, s.messages, Some([g])).Some?
    ensures g in M.MessagesApplied(cfg, r, secrets, s.messages, Some([g])).value
  {
    M.KeptIsCanonical(cfg, r, s.messages + M.Fresh(s.messages, [g]));
    if g.id in M.MessageIds(s.messages) {
      var m :| m in s.messages && m.id == g.id;
    }
  }

  /** On a board that allows five characters the six of "Member" are too many: an otherwise good rejoin is refused. */
  lemma RejoinRefusedHere()
    ensures var cfg := Config(0, {}, 10, 10, 10, 5, false);
            var me := AuthorizedMember(1, 0, {0});
            var g := AuthorizedMessage(7, 1, 0, Public(OtherType(9), Opaque, 0), {1});
            && CanRejoin(0, EMPTY_BOARD, me, []) && GoodMessage(cfg, EMPTY_BOARD, 1, g)
            && Applied(cfg, EMPTY_BOARD, RejoinDelta(EMPTY_BOARD, me, [], g)).None?
  {
    var cfg := Config(0, {}, 10, 10, 10, 5, false);
    var me := AuthorizedMember(1, 0, {0});
    var g := AuthorizedMessage(7, 1, 0, Public(OtherType(9), Opaque, 0), {1});
    EmptyInv(0);
    assert [me] + [] == [me];
    RejoinWorks(cfg, EMPTY_BOARD, me, [], g);
  }
}
