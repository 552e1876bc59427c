/** `MembersV1` and its walks of the invite forest, each proved against the relation `Above`. */
module MemberList {
  import opened Lists
  import opened Records
  import opened Forest
  import opened Descent
  import opened Members
  import opened Readings

  /** c holds the first records met on the way up from m, none of them the owner's. */
  ghost predicate Climbed(r: Roster, owner: Id, m: AuthorizedMember, c: seq<AuthorizedMember>) {
    forall i :: 0 <= i < |c| ==>
                  Up(r, owner, m.invitedBy, i) == Some(c[i].id) && c[i].id != owner && c[i].id in r
                      && r[c[i].id] == c[i]
  }

  /** m is vouched for exactly when the record k steps above it is. */
  ghost predicate Defers(r: Roster, owner: Id, m: AuthorizedMember, current: AuthorizedMember, k: nat) {
    forall n: nat :: Vouched(r, owner, m, n) <==> n >= k && Vouched(r, owner, current, n - k)
  }

  lemma CycleIsNotOk(r: Roster, owner: Id, m: AuthorizedMember, current: AuthorizedMember, k: nat)
    requires Defers(r, owner, m, current, k)
    requires current.id in r && r[current.id] == current && current.id != owner
    requires StrictlyAbove(r, owner, current.id, current.id)
    ensures !ChainOk(r, owner, m)
  {
    if n: nat :| Vouched(r, owner, m, n) {
      VouchedHasNoCycle(r, owner, current, n - k);
    }
  }

  lemma MetAgainIsNotOk(r: Roster, owner: Id, m: AuthorizedMember, c: seq<AuthorizedMember>, i: nat)
    requires Climbed(r, owner, m, c) && i < |c| - 1
    requires c[i].id == c[|c| - 1].id
    requires Defers(r, owner, m, c[|c| - 1], |c|)
    ensures !ChainOk(r, owner, m)
  {
    var current := c[|c| - 1];
    UpCompose(r, owner, m.invitedBy, i, |c| - 1 - i);
    assert StrictlyAbove(r, owner, current.id, current.id);
    CycleIsNotOk(r, owner, m, current, |c|);
  }

  lemma ReachedOwnerIsOk(r: Roster, owner: Id, m: AuthorizedMember, c: seq<AuthorizedMember>, current: AuthorizedMember)
    requires Climbed(r, owner, m, c) && m.invitedBy != m.id
    requires current == if c == [] then m else c[|c| - 1]
    requires current.invitedBy == owner && owner in current.signature
    requires Defers(r, owner, m, current, |c|)
    requires forall i :: 0 <= i < |c| ==> c[i].id != m.id
    ensures ChainOk(r, owner, m) && IsInviteChain(r, owner, m, c)
  {
    assert Vouched(r, owner, m, 1 + |c|);
    if c != [] {
      UpCompose(r, owner, m.invitedBy, |c| - 1, 1);
      assert Up(r, owner, current.id, 1) == Up(r, owner, owner, 0);
    }
    if m.id != owner && Above(r, owner, m.id, m.invitedBy) {
      var n: nat :| Up(r, owner, m.invitedBy, n) == Some(m.id);
      if n > |c| {
        UpCompose(r, owner, m.invitedBy, |c|, n - |c|);
      }
    }
  }

  /** a is on the chain collected for the record m: m itself, or someone above m's inviter on a way that does not come
      back to m. */
  ghost predicate OnChain(r: Roster, owner: Id, m: AuthorizedMember, a: Id) {
    a == m.id || (a != owner && Above(r - {m.id}, owner, a, m.invitedBy))
  }

  /** p goes up from m's inviter to a and passes no record of m's identifier. */
  ghost predicate Bypass(r: Roster, owner: Id, m: AuthorizedMember, p: seq<Id>, a: Id) {
    Line(r, owner, m.invitedBy, p, a) && forall i :: 0 <= i < |p| - 1 ==> p[i] != m.id
  }

  lemma OnChainReads(r: Roster, owner: Id, m: AuthorizedMember)
    ensures forall a :: OnChain(r, owner, m, a)
                        <==> a == m.id || (a != owner && exists p :: Bypass(r, owner, m, p, a))
  {
    var others := r - {m.id};
    forall p, a ensures Line(others, owner, m.invitedBy, p, a) <==> Bypass(r, owner, m, p, a) {
    }
    forall a ensures Above(others, owner, a, m.invitedBy) <==> exists p :: Bypass(r, owner, m, p, a) {
      WalkReads(others, owner, a, m.invitedBy);
      if p :| Bypass(r, owner, m, p, a) {
        assert Line(others, owner, m.invitedBy, p, a);
      }
      if p :| Line(others, owner, m.invitedBy, p, a) {
        assert Bypass(r, owner, m, p, a);
      }
    }
  }

  ghost predicate ChainBanned(r: Roster, owner: Id, bans: seq<AuthorizedUserBan>, m: AuthorizedMember) {
    exists b :: b in bans && OnChain(r, owner, m, b.bannedUser)
  }

  /** What `check_banned_members` collects from a list, on any list. */
  ghost function FlaggedOf(r: Roster, owner: Id, bans: seq<AuthorizedUserBan>, ms: seq<AuthorizedMember>): set<Id> {
    set m | m in ms && ChainBanned(r, owner, bans, m) :: m.id
  }

  /** x is listed below a banned user other than the owner: what the upward walk of `check_banned_members` flags. */
  ghost predicate Flagged(r: Roster, owner: Id, bans: seq<AuthorizedUserBan>, x: Id) {
    exists b :: b in bans && b.bannedUser != owner && Above(r, owner, b.bannedUser, x)
  }

  ghost function FlaggedIds(r: Roster, owner: Id, bans: seq<AuthorizedUserBan>): set<Id> {
    set x | x in r && Flagged(r, owner, bans, x)
  }

  /** Walking up and walking down find the same members when no ban names the owner; a ban on the owner is seen
      only by the downward walk, so then they agree exactly when every member is flagged anyway. */
  lemma FlaggedIsCondemned(ms: seq<AuthorizedMember>, owner: Id, bans: seq<AuthorizedUserBan>)
    requires VerifiedRoster(MembersById(ms), owner)
    ensures (forall m :: m in ms ==> (Flagged(MembersById(ms), owner, bans, m.id)
                                      <==> Condemned(MembersById(ms), owner, bans, m.id)))
            <==> (forall b :: b in bans ==> b.bannedUser != owner)
                 || forall m :: m in ms ==> Flagged(MembersById(ms), owner, bans, m.id)
  {
    var r := MembersById(ms);
    VerifiedIsRooted(r, owner);
    if b :| b in bans && b.bannedUser == owner {
      forall m | m in ms ensures Condemned(r, owner, bans, m.id) {
        assert Rooted(r, owner, m.id);
      }
    }
  }

  lemma ByIdAppend(ms: seq<AuthorizedMember>, m: AuthorizedMember)
    ensures MembersById(ms + [m]) == MembersById(ms)[m.id := m]
    ensures HasId(ms, m.id) <==> m.id in MembersById(ms)
  {
    RosterAppend(ms, m);
    if m.id in MembersById(ms) {
      assert MembersById(ms)[m.id] in ms;
    }
  }

  class MembersV1 {
    var members: seq<AuthorizedMember>

    constructor ()
      ensures members == []
    {
      members := [];
    }

    /** Walks up from a record, checking every signature. Ends on any table, however the records invite each other. */
    static method GetInviteChainWithLookup(member: AuthorizedMember, owner: Id, byId: Roster)
      returns (res: Result<seq<AuthorizedMember>, MemberError>)
      requires Keyed(byId)
      ensures res.Ok? <==> ChainOk(byId, owner, member)
      ensures res.Ok? <==> Invited(byId, owner, member)
      ensures res.Ok? ==> IsInviteChain(byId, owner, member, res.value)
      ensures res.Ok? ==> SignedLine(byId, owner, member, [member] + res.value)
    {
      ChainReads(byId, owner, member);
      var inviteChain: seq<AuthorizedMember> := [];
      var current := member;
      var visited: set<Id> := {};
      while true
        invariant current == if inviteChain == [] then member else inviteChain[|inviteChain| - 1]
        invariant visited <= byId.Keys + {member.id}
        invariant inviteChain == [] ==> visited == {}
        invariant inviteChain != [] ==> member.id in visited && member.invitedBy != member.id
        invariant forall id :: id in visited && id != member.id ==>
                                 exists i :: 0 <= i < |inviteChain| - 1 && inviteChain[i].id == id
        invariant Climbed(byId, owner, member, inviteChain)
        invariant forall i :: 0 <= i < |inviteChain| - 1 ==> inviteChain[i].id != member.id
        invariant Defers(byId, owner, member, current, |inviteChain|)
        decreases byId.Keys + {member.id} - visited
      {
        ghost var k := |inviteChain|;
        if current.id in visited {
          if current.id != member.id {
            ghost var i :| 0 <= i < k - 1 && inviteChain[i].id == current.id;
            MetAgainIsNotOk(byId, owner, member, inviteChain, i);
          }
          return Err(CircularInviteChain(current.id));
        }
        visited := visited + {current.id};
        if current.invitedBy == current.id {
          if k > 0 {
            AboveStep(byId, owner, current.id);
            CycleIsNotOk(byId, owner, member, current, k);
          }
          return Err(SelfInvitation(current.id));
        }
        if current.invitedBy == owner {
          if owner !in current.signature {
            return Err(InvalidSignature(current.id));
          }
          ReachedOwnerIsOk(byId, owner, member, inviteChain, current);
          ChainIsSigned(byId, owner, member, inviteChain);
          return Ok(inviteChain);
        }
        if current.invitedBy !in byId {
          return Err(InviterNotFound(current.id));
        }
        var inviter := byId[current.invitedBy];
        if inviter.id !in current.signature {
          return Err(InvalidSignature(current.id));
        }
        if k > 0 {
          UpCompose(byId, owner, member.invitedBy, k - 1, 1);
          assert Up(byId, owner, current.id, 1) == Up(byId, owner, inviter.id, 0);
        }
        assert forall n: nat :: Vouched(byId, owner, current, n) <==> n > 0 && Vouched(byId, owner, inviter, n - 1);
        ghost var below := inviteChain;
        inviteChain := inviteChain + [inviter];
        current := inviter;
        forall id | id in visited && id != member.id
          ensures exists i :: 0 <= i < |inviteChain| - 1 && inviteChain[i].id == id
        {
          var i :| 0 <= i < |below| && below[i].id == id;
          assert inviteChain[i].id == id;
        }
      }
    }

    method GetInviteChain(member: AuthorizedMember, owner: Id) returns (res: Result<seq<AuthorizedMember>, MemberError>)
      ensures res.Ok? <==> ChainOk(MembersById(members), owner, member)
      ensures res.Ok? ==> IsInviteChain(MembersById(members), owner, member, res.value)
    {
      res := GetInviteChainWithLookup(member, owner, MembersById(members));
    }

    method Verify(owner: Id) returns (res: Result<(), MemberError>)
      ensures res.Ok? <==> MembersVerify(members, owner)
    {
      var byId := MembersById(members);
      for i := 0 to |members|
        invariant forall j :: 0 <= j < i ==> VerifiedMember(byId, owner, members[j])
      {
        var member := members[i];
        assert member in members;
        if member.id == owner { return Err(OwnerListed); }
        if member.invitedBy == member.id { return Err(SelfInvitation(member.id)); }
        var chain := GetInviteChainWithLookup(member, owner, byId);
        if chain.Err? { return Err(chain.error); }
      }
      return Ok(());
    }

    method VerifyMemberInviteWithLookup(member: AuthorizedMember, owner: Id, byId: Roster)
      returns (res: Result<(), MemberError>)
      requires Keyed(byId)
      ensures res.Ok? <==> Admissible(byId, owner, member)
    {
      if member.invitedBy == owner {
        if owner !in member.signature { return Err(InvalidSignature(member.id)); }
      } else {
        var chain := GetInviteChainWithLookup(member, owner, byId);
        if chain.Err? { return Err(chain.error); }
      }
      return Ok(());
    }

    /** One round of the downward walk: records and queues the members invited by `current`. */
    method CheckInvitees(current: Id, found: set<Id>, queue: seq<Id>) returns (downstream: set<Id>, toCheck: seq<Id>)
      ensures toCheck == queue + Kids(members, current)
      ensures forall x :: x in downstream <==> x in found || x in Kids(members, current)
    {
      downstream, toCheck := found, queue;
      for i := 0 to |members|
        invariant toCheck == queue + Kids(members[..i], current)
        invariant forall x :: x in downstream <==> x in found || x in Kids(members[..i], current)
      {
        assert members[..i + 1][..i] == members[..i];
        if members[i].invitedBy == current {
          downstream := downstream + {members[i].id};
          toCheck := toCheck + [members[i].id];
        }
      }
      assert members[..|members|] == members;
    }

    /** Everyone below a member. There is no visited set; asked of the caller is that the walk ends. */
    method GetDownstreamMembers(start: Id) returns (downstream: set<Id>)
      requires Ends(members, start)
      ensures forall x :: x in downstream <==> Descends(members, start, x)
      ensures forall x :: x in downstream <==> exists p :: Downline(members, start, p, x) && |p| > 1
    {
      downstream := {};
      var toCheck := [start];
      ghost var rounds := RoundsLeft(members, start);
      WalkStarts(members, start);
      while toCheck != []
        invariant Walking(members, start, downstream, toCheck) && EndsIn(members, toCheck, rounds)
        decreases rounds
      {
        ghost var found, stack := downstream, toCheck;
        var current := toCheck[|toCheck| - 1];
        downstream, toCheck := CheckInvitees(current, downstream, toCheck[..|toCheck| - 1]);
        WalkGoesOn(members, start, found, stack, downstream);
        rounds := rounds - 1;
      }
      WalkIsOver(members, start, downstream);
      forall x ensures x in downstream <==> exists p :: Downline(members, start, p, x) && |p| > 1 {
        DescentReads(members, start, x);
      }
    }

    /** Drops everyone a ban names and everyone below one, on any list on which the walks end. */
    method RemoveBannedMembers(bans: seq<AuthorizedUserBan>)
      requires forall b :: b in bans ==> Ends(members, b.bannedUser)
      modifies this
      ensures members == Remaining(old(members), bans)
    {
      ghost var all := members;
      var bannedIds: set<Id> := {};
      for i := 0 to |bans|
        invariant members == all
        invariant forall x :: x in bannedIds <==> Taken(all, bans[..i], x)
      {
        var user := bans[i].bannedUser;
        assert bans[i] in bans;
        var downstream := GetDownstreamMembers(user);
        bannedIds := bannedIds + {user} + downstream;
        forall x ensures x in bannedIds <==> Taken(all, bans[..i + 1], x) {
          ReachesOrSelf(all, user, x);
          OneMoreBan(all, bans, i, x);
        }
      }
      assert bans[..|bans|] == bans;
      FilterSame(members, (m: AuthorizedMember) => m.id !in bannedIds,
                 (m: AuthorizedMember) => !Taken(all, bans, m.id));
      members := Filter(members, (m: AuthorizedMember) => m.id !in bannedIds);
    }

    /** The identifiers on the way up from a record, its own first and the owner left out. Any record, on any table:
        the walk stops where it comes back to the record's own identifier. */
    static method InviteChainIds(member: AuthorizedMember, owner: Id, byId: Roster) returns (chainIds: seq<Id>)
      requires Keyed(byId)
      ensures forall a :: a in chainIds <==> OnChain(byId, owner, member, a)
      ensures forall a :: a in chainIds
                          <==> a == member.id || (a != owner && exists p :: Bypass(byId, owner, member, p, a))
    {
      OnChainReads(byId, owner, member);
      chainIds := [member.id];
      var currentId := member.invitedBy;
      var visited := {member.id};
      ghost var others, passed := byId - {member.id}, visited - {member.id};
      while currentId != owner
        invariant visited == passed + {member.id} && forall a :: a in chainIds <==> a in visited
        invariant owner !in passed && member.id !in passed && passed <= others.Keys
        invariant forall a :: Above(others, owner, a, member.invitedBy)
                              <==> a in passed || Above(others, owner, a, currentId)
        invariant forall y :: y in passed ==> others[y].invitedBy in passed || others[y].invitedBy == currentId
        decreases others.Keys - passed
      {
        if currentId in visited {
          if currentId == member.id {
            AboveTop(others, owner, currentId);
          } else {
            AllInVisited(others, owner, passed, currentId);
          }
          return;
        }
        visited := visited + {currentId};
        chainIds := chainIds + [currentId];
        AboveSelf(others, owner, currentId);
        if currentId !in byId {
          AboveTop(others, owner, currentId);
          return;
        }
        AboveStep(others, owner, currentId);
        passed := passed + {currentId};
        currentId := byId[currentId].invitedBy;
      }
      AboveTop(others, owner, owner);
    }

    static method MeetsBan(m: AuthorizedMember, owner: Id, byId: Roster, ghost bans: seq<AuthorizedUserBan>,
                           banned: set<Id>)
      returns (meets: bool)
      requires Keyed(byId) && banned == set b | b in bans :: b.bannedUser
      ensures meets <==> ChainBanned(byId, owner, bans, m)
    {
      var chainIds := InviteChainIds(m, owner, byId);
      ChainMeetsBan(byId, owner, bans, banned, chainIds, m);
      meets := exists id :: id in chainIds && id in banned;
    }

    /** The members with a banned user on their chain, found by walking up from each member; None when there is none. */
    method CheckBannedMembers(bans: seq<AuthorizedUserBan>, owner: Id) returns (res: Option<set<Id>>)
      ensures var flagged := FlaggedOf(MembersById(members), owner, bans, members);
              res == if flagged == {} then None else Some(flagged)
    {
      var bannedUserIds := set b | b in bans :: b.bannedUser;
      if bannedUserIds == {} {
        NobodyFlagged(MembersById(members), owner, bans, members, bannedUserIds);
        return None;
      }
      var byId := MembersById(members);
      var result: set<Id> := {};
      for i := 0 to |members|
        invariant result == FlaggedOf(byId, owner, bans, members[..i])
      {
        FlaggedStep(byId, owner, bans, members, i);
        var meets := MeetsBan(members[i], owner, byId, bans, bannedUserIds);
        if meets {
          result := result + {members[i].id};
        }
      }
      assert members[..|members|] == members;
      res := if result == {} then None else Some(result);
    }

    method HasBannedMembers(bans: seq<AuthorizedUserBan>, owner: Id) returns (has: bool)
      ensures has <==> FlaggedOf(MembersById(members), owner, bans, members) != {}
    {
      var flagged := CheckBannedMembers(bans, owner);
      has := flagged.Some?;
    }

    /** Lookup table of the list together with a delta; records already listed take precedence. */
    method CombinedById(added: seq<AuthorizedMember>) returns (combined: Roster)
      ensures combined == MembersById(AddNew(members, added))
    {
      combined := MembersById(members);
      for i := 0 to |added|
        invariant combined == MembersById(AddNew(members, added[..i]))
      {
        assert added[..i + 1][..i] == added[..i];
        ByIdAppend(AddNew(members, added[..i]), added[i]);
        if added[i].id !in combined {
          combined := combined[added[i].id := added[i]];
        }
      }
      assert added[..|added|] == added;
    }

    method VerifyAdded(added: seq<AuthorizedMember>, owner: Id, combined: Roster) returns (res: Result<(), MemberError>)
      requires Keyed(combined)
      ensures res.Ok? <==> forall m :: m in added ==> Admissible(combined, owner, m)
    {
      for i := 0 to |added|
        invariant forall j :: 0 <= j < i ==> Admissible(combined, owner, added[j])
      {
        res := VerifyMemberInviteWithLookup(added[i], owner, combined);
        if res.Err? {
          assert added[i] in added;
          return;
        }
      }
      return Ok(());
    }

    method PushNew(added: seq<AuthorizedMember>)
      modifies this
      ensures members == AddNew(old(members), added)
    {
      for i := 0 to |added|
        invariant members == AddNew(old(members), added[..i])
      {
        assert added[..i + 1][..i] == added[..i];
        if exists m :: m in members && m.id == added[i].id {
          continue;
        }
        members := members + [added[i]];
      }
      assert added[..|added|] == added;
    }

    /** The members step: all added invitations must be vouched for among the old and the added members; then bans
        cascade and the list is put in order. Any list; asked of the caller is only that the removal ends. */
    method ApplyDelta(bans: seq<AuthorizedUserBan>, owner: Id, delta: Option<seq<AuthorizedMember>>)
      returns (res: Result<(), MemberError>)
      requires RemovalEnds(members, owner, bans, delta)
      modifies this
      ensures res.Ok? <==> MembersApplied(old(members), owner, bans, delta).Some?
      ensures res.Ok? ==> members == MembersApplied(old(members), owner, bans, delta).value
      ensures res.Err? ==> members == old(members)
    {
      if delta.Some? {
        var combined := CombinedById(delta.value);
        res := VerifyAdded(delta.value, owner, combined);
        if res.Err? {
          return;
        }
        PushNew(delta.value);
      }
      RemoveBannedMembers(bans);
      members := Sort(members, MemberKey);
      res := Ok(());
    }
  }

  lemma NobodyFlagged(r: Roster, owner: Id, bans: seq<AuthorizedUserBan>, ms: seq<AuthorizedMember>, banned: set<Id>)
    requires banned == (set b | b in bans :: b.bannedUser) && banned == {}
    ensures FlaggedOf(r, owner, bans, ms) == {}
  {
    assert forall b :: b in bans ==> b.bannedUser in banned;
  }

  lemma FlaggedStep(r: Roster, owner: Id, bans: seq<AuthorizedUserBan>, ms: seq<AuthorizedMember>, i: nat)
    requires i < |ms|
    ensures FlaggedOf(r, owner, bans, ms[..i + 1])
            == FlaggedOf(r, owner, bans, ms[..i]) + if ChainBanned(r, owner, bans, ms[i]) then {ms[i].id} else {}
  {
    assert ms[..i + 1] == ms[..i] + [ms[i]];
  }

  lemma ChainMeetsBan(r: Roster, owner: Id, bans: seq<AuthorizedUserBan>, banned: set<Id>, chain: seq<Id>,
                      m: AuthorizedMember)
    requires forall a :: a in chain <==> OnChain(r, owner, m, a)
    requires banned == set b | b in bans :: b.bannedUser
    ensures (exists id :: id in chain && id in banned) <==> ChainBanned(r, owner, bans, m)
  {
    if b :| b in bans && OnChain(r, owner, m, b.bannedUser) {
      assert b.bannedUser in chain && b.bannedUser in banned;
    }
  }

  /** The chain of a listed member: whoever is above them, the owner left out. */
  lemma OnChainListed(r: Roster, owner: Id, m: AuthorizedMember, a: Id)
    requires m.id in r && r[m.id] == m && m.id != owner
    ensures OnChain(r, owner, m, a) <==> a != owner && Above(r, owner, a, m.id)
  {
    AboveLeavingOut(r, owner, m.id);
    AboveSelf(r, owner, m.id);
  }

  /** On a list without repeated identifiers or an owner entry the flagged members are those below a banned user. */
  lemma FlaggedListed(ms: seq<AuthorizedMember>, owner: Id, bans: seq<AuthorizedUserBan>)
    requires DistinctIds(ms) && owner !in MembersById(ms)
    ensures FlaggedOf(MembersById(ms), owner, bans, ms) == FlaggedIds(MembersById(ms), owner, bans)
  {
    var r := MembersById(ms);
    ByIdDistinct(ms);
    forall m | m in ms ensures ChainBanned(r, owner, bans, m) <==> Flagged(r, owner, bans, m.id) {
      ListedChainBanned(r, owner, bans, m);
    }
    forall x ensures x in FlaggedOf(r, owner, bans, ms) <==> x in FlaggedIds(r, owner, bans) {
      if x in FlaggedIds(r, owner, bans) {
        assert r[x] in ms && r[x].id == x;
      }
    }
  }

  lemma ListedChainBanned(r: Roster, owner: Id, bans: seq<AuthorizedUserBan>, m: AuthorizedMember)
    requires m.id in r && r[m.id] == m && m.id != owner
    ensures ChainBanned(r, owner, bans, m) <==> Flagged(r, owner, bans, m.id)
  {
    forall b | b in bans
      ensures OnChain(r, owner, m, b.bannedUser) <==> b.bannedUser != owner && Above(r, owner, b.bannedUser, m.id)
    {
      OnChainListed(r, owner, m, b.bannedUser);
    }
  }

  lemma OneMoreBan(all: seq<AuthorizedMember>, bans: seq<AuthorizedUserBan>, i: nat, x: Id)
    requires i < |bans|
    ensures Taken(all, bans[..i + 1], x) <==> Taken(all, bans[..i], x) || Reaches(all, bans[i].bannedUser, x)
  {
    assert bans[..i + 1] == bans[..i] + [bans[i]];
  }

  /** After the removal the upward walk flags nobody: `has_banned_members` is false. */
  lemma NobodyLeftFlagged(ms: seq<AuthorizedMember>, owner: Id, bans: seq<AuthorizedUserBan>)
    requires DistinctIds(ms) && VerifiedRoster(MembersById(ms), owner)
    ensures var left := Unbanned(ms, owner, bans); FlaggedOf(MembersById(left), owner, bans, left) == {}
  {
    var left := Unbanned(ms, owner, bans);
    var t := MembersById(left);
    UnbannedVerifies(ms, owner, bans);
    VerifiedHasNoOwner(t, owner);
    FlaggedListed(left, owner, bans);
    forall x | x in t ensures !Flagged(t, owner, bans, x) {
      NobodyLeftCondemned(ms, owner, bans, x);
    }
  }

  // ---------- An entry for the owner ----------

  /** An entry for the owner, invited by a member the owner invited, passes the check of added members; a ban of that
      member then sends the downward walk round for ever. */
  lemma OwnerEntryTrap(ms: seq<AuthorizedMember>, owner: Id, m: AuthorizedMember, entry: AuthorizedMember)
    requires DistinctIds(ms) && m in ms && entry in ms && m.id != owner
    requires m.invitedBy == owner && owner in m.signature
    requires entry.id == owner && entry.invitedBy == m.id && m.id in entry.signature
    ensures Admissible(MembersById(ms), owner, m) && Admissible(MembersById(ms), owner, entry)
    ensures !Ends(ms, m.id)
  {
    ByIdDistinct(ms);
    assert Vouched(MembersById(ms), owner, m, 1);
    assert Vouched(MembersById(ms), owner, entry, 2);
    WalkEndsOnForest(ms, Top(MembersById(ms), owner), m.id);
    OwnerLoop(MembersById(ms), Top(MembersById(ms), owner), m.id, owner);
  }

  lemma OwnerLoop(r: Roster, top: Id, x: Id, owner: Id)
    requires top !in r && x in r && owner in r && r[x].invitedBy == owner && r[owner].invitedBy == x
    ensures StrictlyAbove(r, top, x, x)
  {
    AboveStep(r, top, x);
    AboveStep(r, top, owner);
    AboveSelf(r, top, x);
  }
}
