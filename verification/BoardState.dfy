/** `ChatBoardStateV1`: the parts of a board updated in place, one after the other, then cleaned up. */
module BoardState {
  import opened Lists
  import opened Records
  import opened Forest
  import opened Members
  import ML = MemberList
  import B = Bans
  import MI = MemberInfos
  import S = Secrets
  import M = Messages
  import opened Board
  import opened Runs
  import opened StepReadings

  datatype BoardError =
    | BansRejected(bans: B.BanError)
    | MembersRejected(members: MemberError)
    | InfoRejected(info: MI.InfoError)
    | SecretsRejected(secrets: S.SecretsError)
    | MessagesRejected(messages: M.MessageError)

  // The identifiers found so far on the way up from the listed authors: all of them required, and nothing above a
  // finished one missing.
  ghost predicate Collected(r: Roster, owner: Id, messages: seq<AuthorizedMessage>, required: set<Id>, pending: seq<Id>)
  {
    && (forall x :: x in required ==> Required(r, owner, messages, x))
    && (forall x :: x in pending ==> x in required)
    && (forall x :: x in required && x in r && x !in pending ==> r[x].invitedBy == owner || r[x].invitedBy in required)
  }

  ghost predicate HoldsAuthors(r: Roster, owner: Id, messages: seq<AuthorizedMessage>, required: set<Id>) {
    forall m :: m in messages && m.author != owner && m.author in r ==> m.author in required
  }

  lemma CollectedAll(r: Roster, owner: Id, messages: seq<AuthorizedMessage>, required: set<Id>, x: Id)
    requires Collected(r, owner, messages, required, [])
    requires HoldsAuthors(r, owner, messages, required)
    ensures x in required <==> Required(r, owner, messages, x)
  {
    if Required(r, owner, messages, x) {
      var m :| m in messages && m.author != owner && m.author in r && Above(r, owner, x, m.author);
      AllCollected(r, owner, required, x, m.author);
    }
  }

  lemma AllCollected(r: Roster, owner: Id, required: set<Id>, x: Id, author: Id)
    requires forall y :: y in required && y in r ==> r[y].invitedBy == owner || r[y].invitedBy in required
    requires author in required && Above(r, owner, x, author) && x != owner
    ensures x in required
  {
    var n: nat :| Up(r, owner, author, n) == Some(x);
    ClosedUpward(r, owner, required + {owner}, author, n);
  }

  lemma CollectStep(r: Roster, owner: Id, messages: seq<AuthorizedMessage>, required: set<Id>, rest: seq<Id>, x: Id)
    requires Collected(r, owner, messages, required, rest + [x]) && x in r
    ensures var p := r[x].invitedBy;
            && (p != owner ==> Required(r, owner, messages, p))
            && (p == owner || p in required ==> Collected(r, owner, messages, required, rest))
            && (p != owner && p !in required ==> Collected(r, owner, messages, required + {p}, rest + [p]))
  {
    var p := r[x].invitedBy;
    assert x in rest + [x] && forall y :: y in rest ==> y in rest + [x];
    assert forall y :: y in rest + [x] ==> y in rest || y == x;
    assert x != owner;
    AboveStep(r, owner, x);
    AboveSelf(r, owner, p);
    if p != owner {
      RequiredAbove(r, owner, messages, p, x);
    }
  }

  lemma CollectUnlisted(r: Roster, owner: Id, messages: seq<AuthorizedMessage>, required: set<Id>, rest: seq<Id>, x: Id)
    requires Collected(r, owner, messages, required, rest + [x]) && x !in r
    ensures Collected(r, owner, messages, required, rest)
  {
    assert forall y :: y in rest ==> y in rest + [x];
    assert forall y :: y in rest + [x] ==> y in rest || y == x;
  }

  lemma CollectAuthor(r: Roster, owner: Id, messages: seq<AuthorizedMessage>, required: set<Id>, pending: seq<Id>,
                      m: AuthorizedMessage)
    requires Collected(r, owner, messages, required, pending)
    requires m in messages && m.author != owner && m.author in r
    ensures Collected(r, owner, messages, required + {m.author}, pending + [m.author])
  {
    AboveSelf(r, owner, m.author);
    assert Required(r, owner, messages, m.author);
  }

  class ChatBoardStateV1 {
    const bans: B.BansV1
    const members: ML.MembersV1
    const memberInfo: MI.MemberInfoV1
    const secrets: S.BoardSecretsV1
    const recentMessages: M.MessagesV1

    constructor ()
      ensures View() == EMPTY_BOARD
      ensures fresh(bans) && fresh(members) && fresh(memberInfo) && fresh(secrets) && fresh(recentMessages)
    {
      bans := new B.BansV1();
      members := new ML.MembersV1();
      memberInfo := new MI.MemberInfoV1();
      secrets := new S.BoardSecretsV1();
      recentMessages := new M.MessagesV1();
    }

    ghost function View(): Snapshot
      reads bans, members, memberInfo, secrets, recentMessages
    {
      Snapshot(bans.bans, members.members, memberInfo.memberInfo, secrets.View(), recentMessages.messages,
               recentMessages.actionsState)
    }

    /** The listed authors, where the worklist of cleanup starts. */
    method ListedAuthors(owner: Id, byId: Roster) returns (required: set<Id>, toProcess: seq<Id>)
      ensures Collected(byId, owner, recentMessages.messages, required, toProcess) && required <= byId.Keys
      ensures HoldsAuthors(byId, owner, recentMessages.messages, required)
    {
      ghost var log := recentMessages.messages;
      required, toProcess := {}, [];
      for i := 0 to |recentMessages.messages|
        invariant Collected(byId, owner, log, required, toProcess)
        invariant required <= byId.Keys && forall x :: x in required ==> x in toProcess
        invariant forall j :: 0 <= j < i && log[j].author != owner && log[j].author in byId ==>
                                log[j].author in required
      {
        var author := recentMessages.messages[i].author;
        if author != owner && author in byId && author !in required {
          CollectAuthor(byId, owner, log, required, toProcess, log[i]);
          required := required + {author};
          toProcess := toProcess + [author];
        }
      }
    }

    /** One round: takes an identifier off the worklist and requires its inviter. */
    method RequireInviter(owner: Id, byId: Roster, found: set<Id>, stack: seq<Id>)
      returns (required: set<Id>, toProcess: seq<Id>)
      requires stack != [] && Collected(byId, owner, recentMessages.messages, found, stack)
      ensures Collected(byId, owner, recentMessages.messages, required, toProcess)
      ensures found <= required <= found + set k | k in byId :: byId[k].invitedBy
      ensures required == found ==> |toProcess| < |stack|
    {
      var memberId := stack[|stack| - 1];
      required, toProcess := found, stack[..|stack| - 1];
      assert stack == toProcess + [memberId];
      if memberId in byId {
        CollectStep(byId, owner, recentMessages.messages, required, toProcess, memberId);
        var inviterId := byId[memberId].invitedBy;
        if inviterId != owner && inviterId !in required {
          required := required + {inviterId};
          toProcess := toProcess + [inviterId];
        }
      } else {
        CollectUnlisted(byId, owner, recentMessages.messages, required, toProcess, memberId);
      }
    }

    /** The worklist of cleanup: the listed authors and everyone above them, below the owner. Ends on any member
        list, however the members invite each other. */
    method RequiredIds(owner: Id) returns (required: set<Id>)
      ensures forall x :: x in required <==> Required(MembersById(members.members), owner, recentMessages.messages, x)
    {
      var byId := MembersById(members.members);
      ghost var log := recentMessages.messages;
      var toProcess;
      required, toProcess := ListedAuthors(owner, byId);
      ghost var universe := byId.Keys + (set k | k in byId :: byId[k].invitedBy);
      while toProcess != []
        invariant Collected(byId, owner, log, required, toProcess)
        invariant required <= universe
        invariant HoldsAuthors(byId, owner, log, required)
        decreases universe - required, |toProcess|
      {
        required, toProcess := RequireInviter(owner, byId, required, toProcess);
      }
      forall x ensures x in required <==> Required(byId, owner, log, x) {
        CollectedAll(byId, owner, log, required, x);
      }
    }

    /** Prunes inactive members and their records, drops bans whose banner was banned, restores the order. */
    method PostApplyCleanup(owner: Id)
      modifies bans, members, memberInfo
      ensures View() == Cleaned(owner, old(View()))
      ensures CleanupLeaves(owner, old(View()), View())
    {
      ghost var s := View();
      CleanupReads(owner, s);
      var requiredIds := RequiredIds(owner);
      CleanedByIds(s, owner, requiredIds);
      members.members := MembersAmong(members.members, requiredIds);
      memberInfo.memberInfo := InfosAmong(memberInfo.memberInfo, owner, requiredIds);
      bans.bans := BansAmong(bans.bans, owner, MemberIds(members.members));
      members.members := Sort(members.members, MemberKey);
      memberInfo.memberInfo := Sort(memberInfo.memberInfo, InfoKey);
    }

    /** The parts in field order, each seeing the parts before it already updated. */
    method ApplyParts(cfg: Config, delta: Delta) returns (res: Result<(), BoardError>)
      requires StepEnds(cfg, View(), delta)
      modifies bans, members, memberInfo, secrets, recentMessages
      ensures res.Ok? <==> PartsApplied(cfg, old(View()), delta).Some?
      ensures res.Ok? ==> View() == PartsApplied(cfg, old(View()), delta).value
    {
      var b := bans.ApplyDelta(MembersById(members.members), cfg, delta.bans);
      if b.Err? { return Err(BansRejected(b.error)); }
      var m := members.ApplyDelta(bans.bans, cfg.owner, delta.members);
      if m.Err? { return Err(MembersRejected(m.error)); }
      var byId := MembersById(members.members);
      var i := memberInfo.ApplyDelta(byId, cfg, delta.memberInfo);
      if i.Err? { return Err(InfoRejected(i.error)); }
      var s := secrets.ApplyDelta(byId, cfg.owner, delta.secrets);
      if s.Err? { return Err(SecretsRejected(s.error)); }
      var secretsNow := S.SecretsState(secrets.currentVersion, secrets.versions, secrets.encryptedSecrets);
      var g := recentMessages.ApplyDelta(cfg, byId, secretsNow, delta.messages);
      if g.Err? { return Err(MessagesRejected(g.error)); }
      PartsAssemble(cfg, old(View()), delta, View());
      res := Ok(());
    }

    /** The whole step. On an error the caller discards the board. */
    method ApplyDelta(cfg: Config, delta: Delta) returns (res: Result<(), BoardError>)
      requires StepEnds(cfg, View(), delta)
      modifies bans, members, memberInfo, secrets, recentMessages
      ensures res.Ok? <==> Applied(cfg, old(View()), delta).Some?
      ensures res.Ok? ==> View() == Applied(cfg, old(View()), delta).value
    {
      res := ApplyParts(cfg, delta);
      if res.Ok? {
        PostApplyCleanup(cfg.owner);
      }
    }

    /** One update: a whole state is merged, a delta applied, anything else skipped. */
    method ApplyUpdate(cfg: Config, update: Update) returns (res: Result<(), BoardError>)
      requires UpdateEnds(cfg, View(), update)
      modifies bans, members, memberInfo, secrets, recentMessages
      ensures res.Ok? <==> Updated(cfg, old(View()), update).Some?
      ensures res.Ok? ==> View() == Updated(cfg, old(View()), update).value
      ensures res.Ok? && Inv(cfg.owner, old(View())) ==> Inv(cfg.owner, View())
    {
      ghost var before := View();
      var delta := NO_DELTA;
      match update {
        case StateUpdate(other) =>
          var s := Snapshot(bans.bans, members.members, memberInfo.memberInfo,
                            S.SecretsState(secrets.currentVersion, secrets.versions, secrets.encryptedSecrets),
                            recentMessages.messages, recentMessages.actionsState);
          delta := DeltaSince(other, SummaryOf(s));
        case DeltaUpdate(d) => delta := d;
        case _ => return Ok(());
      }
      res := ApplyDelta(cfg, delta);
      if res.Ok? {
        if Inv(cfg.owner, before) {
          StepInvariant(cfg, before, delta);
        }
      }
    }

    /** The contract's update loop: each update in turn, stopping at the first that is rejected. */
    method UpdateState(owner: Id, updates: seq<(Config, Update)>) returns (res: Result<(), BoardError>)
      requires RunEnds(View(), updates)
      requires forall i :: 0 <= i < |updates| ==> updates[i].0.owner == owner
      modifies bans, members, memberInfo, secrets, recentMessages
      ensures res.Ok? <==> RunOf(old(View()), updates).Some?
      ensures res.Ok? ==> View() == RunOf(old(View()), updates).value
      ensures res.Ok? && Inv(owner, old(View())) ==> Inv(owner, View())
    {
      for i := 0 to |updates|
        invariant RunOf(old(View()), updates[..i]) == Some(View())
        invariant Inv(owner, old(View())) ==> Inv(owner, View())
      {
        RunStep(old(View()), updates, i);
        res := ApplyUpdate(updates[i].0, updates[i].1);
        if res.Err? {
          RunStops(old(View()), updates, i + 1);
          return;
        }
      }
      assert updates[..|updates|] == updates;
      res := Ok(());
    }
  }

  function MemberIds(ms: seq<AuthorizedMember>): set<Id> {
    set m | m in ms :: m.id
  }

  function MembersAmong(ms: seq<AuthorizedMember>, ids: set<Id>): seq<AuthorizedMember> {
    Filter(ms, (m: AuthorizedMember) => m.id in ids)
  }

  function InfosAmong(infos: seq<AuthorizedMemberInfo>, owner: Id, ids: set<Id>): seq<AuthorizedMemberInfo> {
    Filter(infos, (i: AuthorizedMemberInfo) => i.memberId == owner || i.memberId in ids)
  }

  function BansAmong(bs: seq<AuthorizedUserBan>, owner: Id, ids: set<Id>): seq<AuthorizedUserBan> {
    var banned := B.BannedUsers(bs);
    Filter(bs, (b: AuthorizedUserBan) => b.bannedBy == owner || b.bannedBy in ids || b.bannedBy !in banned)
  }

  /** Cleanup in terms of the collected identifiers. */
  lemma CleanedByIds(s: Snapshot, owner: Id, required: set<Id>)
    requires forall x :: x in required <==> Required(MembersById(s.members), owner, s.messages, x)
    ensures Cleaned(owner, s) == s.(members := Sort(MembersAmong(s.members, required), MemberKey),
                                    memberInfo := Sort(InfosAmong(s.memberInfo, owner, required), InfoKey),
                                    bans := BansAmong(s.bans, owner, MemberIds(MembersAmong(s.members, required))))
  {
    var r := MembersById(s.members);
    var t := MembersById(Pruned(s.members, owner, s.messages));
    var ids := MemberIds(MembersAmong(s.members, required));
    FilterSame(s.members, (m: AuthorizedMember) => m.id in required,
               (m: AuthorizedMember) => Required(r, owner, s.messages, m.id));
    FilterSame(s.memberInfo, (i: AuthorizedMemberInfo) => i.memberId == owner || i.memberId in required,
               (i: AuthorizedMemberInfo) => i.memberId == owner || Required(r, owner, s.messages, i.memberId));
    assert forall k :: k in t <==> k in ids;
    FilterSame(s.bans, (b: AuthorizedUserBan) => BanStays(t, owner, B.BannedUsers(s.bans), b),
               (b: AuthorizedUserBan) => b.bannedBy == owner || b.bannedBy in ids
                   || b.bannedBy !in B.BannedUsers(s.bans));
  }
}
