/** The member list: invitations are vouched for up to the owner, and a ban takes the banned member's whole
    subtree with it. */
module Members {
  import opened Lists
  import opened Records
  import opened Forest
  import opened Descent

  datatype MemberError =
    | OwnerListed
    | SelfInvitation(id: Id)
    | CircularInviteChain(id: Id)
    | InviterNotFound(id: Id)
    | InvalidSignature(id: Id)

  // ---------- What the chain check decides ----------

  /** n signed invitations lead from the owner down to m. */
  ghost predicate Vouched(r: Roster, owner: Id, m: AuthorizedMember, n: nat)
    decreases n
  {
    n > 0 &&
    if m.invitedBy == owner then n == 1 && owner in m.signature
    else m.invitedBy in r && m.invitedBy in m.signature && Vouched(r, owner, r[m.invitedBy], n - 1)
  }

  /** m does not invite itself, is vouched for, and is not met again above its inviter. */
  ghost predicate ChainOk(r: Roster, owner: Id, m: AuthorizedMember) {
    && m.invitedBy != m.id
    && (m.id != owner ==> !Above(r, owner, m.id, m.invitedBy))
    && exists n: nat :: Vouched(r, owner, m, n)
  }

  /** c lists the records above m, nearest first, up to but excluding the owner. */
  ghost predicate IsInviteChain(r: Roster, owner: Id, m: AuthorizedMember, c: seq<AuthorizedMember>) {
    && Up(r, owner, m.invitedBy, |c|) == Some(owner)
    && forall i :: 0 <= i < |c| ==>
                     Up(r, owner, m.invitedBy, i) == Some(c[i].id) && c[i].id in r && r[c[i].id] == c[i]
  }

  ghost predicate VerifiedMember(r: Roster, owner: Id, m: AuthorizedMember) {
    m.id != owner && m.invitedBy != m.id && ChainOk(r, owner, m)
  }

  /** `MembersV1::verify`. */
  ghost predicate MembersVerify(ms: seq<AuthorizedMember>, owner: Id) {
    forall m :: m in ms ==> VerifiedMember(MembersById(ms), owner, m)
  }

  lemma {:induction false} VouchedReachesOwner(r: Roster, owner: Id, m: AuthorizedMember, n: nat)
    requires Vouched(r, owner, m, n)
    ensures Up(r, owner, m.invitedBy, n - 1) == Some(owner)
    ensures m.id in r && r[m.id] == m && m.id != owner ==> Up(r, owner, m.id, n) == Some(owner)
    decreases n
  {
    if m.invitedBy != owner {
      var p := r[m.invitedBy];
      VouchedReachesOwner(r, owner, p, n - 1);
    }
  }

  lemma VouchedHasNoCycle(r: Roster, owner: Id, m: AuthorizedMember, n: nat)
    requires m.id in r && r[m.id] == m && m.id != owner
    requires StrictlyAbove(r, owner, m.id, m.id)
    ensures !Vouched(r, owner, m, n)
  {
    if Vouched(r, owner, m, n) {
      VouchedReachesOwner(r, owner, m, n);
      RootedHasNoCycle(r, owner, m.id);
    }
  }

  /** For a listed record other than the owner's, being vouched for is the whole check. */
  lemma ListedChainOk(r: Roster, owner: Id, m: AuthorizedMember)
    requires m.id in r && r[m.id] == m && m.id != owner
    ensures ChainOk(r, owner, m) <==> exists n: nat :: Vouched(r, owner, m, n)
    ensures ChainOk(r, owner, m) ==> Rooted(r, owner, m.id) && !StrictlyAbove(r, owner, m.id, m.id)
  {
    if n: nat :| Vouched(r, owner, m, n) {
      VouchedReachesOwner(r, owner, m, n);
      AboveStep(r, owner, m.id);
      RootedHasNoCycle(r, owner, m.id);
      assert m.invitedBy != m.id by { AboveSelf(r, owner, m.id); }
      assert !Above(r, owner, m.id, m.invitedBy);
      assert exists k: nat :: Vouched(r, owner, m, k);
      assert ChainOk(r, owner, m);
    }
  }

  /** Every record of the table is someone other than the owner, vouched for within the table. */
  ghost predicate VerifiedRoster(r: Roster, owner: Id) {
    forall k :: k in r ==> r[k].id == k && k != owner && exists n: nat :: Vouched(r, owner, r[k], n)
  }

  /** `verify` on a list without repeated identifiers, in terms of its lookup table. */
  lemma VerifyOfRoster(ms: seq<AuthorizedMember>, owner: Id)
    requires DistinctIds(ms)
    ensures MembersVerify(ms, owner) <==> VerifiedRoster(MembersById(ms), owner)
  {
    var r := MembersById(ms);
    ByIdDistinct(ms);
    forall m | m in ms && m.id != owner
      ensures VerifiedMember(r, owner, m) <==> exists n: nat :: Vouched(r, owner, m, n)
    {
      ListedChainOk(r, owner, m);
    }
    if MembersVerify(ms, owner) {
      forall k | k in r ensures k != owner && exists n: nat :: Vouched(r, owner, r[k], n) {
        assert VerifiedMember(r, owner, r[k]);
      }
    }
    if VerifiedRoster(r, owner) {
      forall m | m in ms ensures VerifiedMember(r, owner, m) {
        assert m.id in r && r[m.id] == m;
      }
    }
  }

  /** In a verified table every identifier is rooted, and the owner is not listed. */
  lemma VerifiedIsRooted(r: Roster, owner: Id)
    requires VerifiedRoster(r, owner)
    ensures owner !in r
    ensures forall k :: k in r ==> Rooted(r, owner, k)
  {
    forall k | k in r ensures Rooted(r, owner, k) {
      var n: nat :| Vouched(r, owner, r[k], n);
      VouchedReachesOwner(r, owner, r[k], n);
    }
  }

  // ---------- Adding and removing ----------

  predicate HasId(ms: seq<AuthorizedMember>, id: Id) {
    exists m :: m in ms && m.id == id
  }

  /** The list after each added record whose identifier is not yet present is appended. */
  function AddNew(ms: seq<AuthorizedMember>, added: seq<AuthorizedMember>): (all: seq<AuthorizedMember>)
    ensures forall m :: m in ms ==> m in all
    ensures forall m :: m in all ==> m in ms || (m in added && !HasId(ms, m.id))
    ensures forall m :: m in added ==> HasId(all, m.id)
  {
    if added == [] then ms
    else
      var n := |added| - 1;
      var all := AddNew(ms, added[..n]);
      assert added == added[..n] + [added[n]];
      if HasId(all, added[n].id) then all else all + [added[n]]
  }

  lemma {:induction false} AddNewDistinct(ms: seq<AuthorizedMember>, added: seq<AuthorizedMember>)
    requires DistinctIds(ms)
    ensures DistinctIds(AddNew(ms, added))
  {
    if added != [] {
      AddNewDistinct(ms, added[..|added| - 1]);
    }
  }

  /** A ban names x or someone above x. */
  ghost predicate Condemned(r: Roster, owner: Id, bans: seq<AuthorizedUserBan>, x: Id) {
    exists b :: b in bans && Above(r, owner, b.bannedUser, x)
  }

  ghost function Unbanned(all: seq<AuthorizedMember>, owner: Id,
                          bans: seq<AuthorizedUserBan>): (r: seq<AuthorizedMember>)
    ensures forall m :: m in r <==> m in all && !Condemned(MembersById(all), owner, bans, m.id)
  {
    Filter(all, (m: AuthorizedMember) => !Condemned(MembersById(all), owner, bans, m.id))
  }

  /** What `verify_member_invite_with_lookup` accepts. */
  ghost predicate Admissible(r: Roster, owner: Id, m: AuthorizedMember) {
    if m.invitedBy == owner then owner in m.signature else ChainOk(r, owner, m)
  }

  function Added(delta: Option<seq<AuthorizedMember>>): seq<AuthorizedMember> {
    if delta.Some? then delta.value else []
  }

  /** x is named by a ban or below someone who is, on the list itself. */
  ghost predicate Taken(all: seq<AuthorizedMember>, bans: seq<AuthorizedUserBan>, x: Id) {
    exists b :: b in bans && Reaches(all, b.bannedUser, x)
  }

  ghost function Remaining(all: seq<AuthorizedMember>, bans: seq<AuthorizedUserBan>): seq<AuthorizedMember> {
    Filter(all, (m: AuthorizedMember) => !Taken(all, bans, m.id))
  }

  /** The member list after `apply_delta`, or None when the delta is rejected. Any list, repeated identifiers and an
      entry for the owner included. */
  ghost function MembersApplied(ms: seq<AuthorizedMember>, owner: Id, bans: seq<AuthorizedUserBan>,
                                delta: Option<seq<AuthorizedMember>>): Option<seq<AuthorizedMember>>
  {
    var all := AddNew(ms, Added(delta));
    if forall m :: m in Added(delta) ==> Admissible(MembersById(all), owner, m)
    then Some(Sort(Remaining(all, bans), MemberKey))
    else None
  }

  /** If the delta is accepted, each downward walk of the removal that follows ends. */
  ghost predicate RemovalEnds(ms: seq<AuthorizedMember>, owner: Id, bans: seq<AuthorizedUserBan>,
                              delta: Option<seq<AuthorizedMember>>)
  {
    MembersApplied(ms, owner, bans, delta).Some? ==>
      forall b :: b in bans ==> Ends(AddNew(ms, Added(delta)), b.bannedUser)
  }

  /** No banned user is above themselves. */
  ghost predicate WalksEnd(r: Roster, top: Id, bans: seq<AuthorizedUserBan>) {
    forall b :: b in bans ==> !StrictlyAbove(r, top, b.bannedUser, b.bannedUser)
  }

  lemma TakenIsCondemned(all: seq<AuthorizedMember>, top: Id, bans: seq<AuthorizedUserBan>, x: Id)
    requires DistinctIds(all) && top !in MembersById(all)
    ensures Taken(all, bans, x) <==> Condemned(MembersById(all), top, bans, x)
  {
    forall b | b in bans ensures Reaches(all, b.bannedUser, x) <==> Above(MembersById(all), top, b.bannedUser, x) {
      DescendsIsAbove(all, top, b.bannedUser, x);
    }
  }

  lemma RemainingIsUnbanned(all: seq<AuthorizedMember>, top: Id, bans: seq<AuthorizedUserBan>)
    requires DistinctIds(all) && top !in MembersById(all)
    ensures Remaining(all, bans) == Unbanned(all, top, bans)
  {
    forall x ensures Taken(all, bans, x) <==> Condemned(MembersById(all), top, bans, x) {
      TakenIsCondemned(all, top, bans, x);
    }
    FilterSame(all, (m: AuthorizedMember) => !Taken(all, bans, m.id),
               (m: AuthorizedMember) => !Condemned(MembersById(all), top, bans, m.id));
  }

  lemma WalksEndOnForest(all: seq<AuthorizedMember>, top: Id, bans: seq<AuthorizedUserBan>)
    requires DistinctIds(all) && top !in MembersById(all)
    ensures (forall b :: b in bans ==> Ends(all, b.bannedUser)) <==> WalksEnd(MembersById(all), top, bans)
  {
    forall b | b in bans
      ensures Ends(all, b.bannedUser) <==> !StrictlyAbove(MembersById(all), top, b.bannedUser, b.bannedUser)
    {
      WalkEndsOnForest(all, top, b.bannedUser);
    }
  }

  /** On a list without repeated identifiers an accepted step leaves whoever is neither banned nor below a banned user,
      and it ends exactly when no banned user is above themselves. */
  lemma StepOnForest(ms: seq<AuthorizedMember>, owner: Id, bans: seq<AuthorizedUserBan>,
                     delta: Option<seq<AuthorizedMember>>)
    requires DistinctIds(ms)
    ensures var all, after := AddNew(ms, Added(delta)), MembersApplied(ms, owner, bans, delta);
            var r := MembersById(all);
            && DistinctIds(all)
            && (after.Some? ==> after.value == Sort(Unbanned(all, Top(r, owner), bans), MemberKey))
            && (RemovalEnds(ms, owner, bans, delta) <==> (after.Some? ==> WalksEnd(r, Top(r, owner), bans)))
  {
    var all := AddNew(ms, Added(delta));
    AddNewDistinct(ms, Added(delta));
    RemainingIsUnbanned(all, Top(MembersById(all), owner), bans);
    WalksEndOnForest(all, Top(MembersById(all), owner), bans);
  }

  ghost predicate NoOwnerEntry(delta: Option<seq<AuthorizedMember>>, owner: Id) {
    forall m :: m in Added(delta) ==> m.id != owner
  }

  /** Dropping records without dropping anyone's inviter leaves a verified table. */
  lemma PruneKeepsVerify(r: Roster, t: Roster, owner: Id)
    requires VerifiedRoster(r, owner)
    requires forall k :: k in t ==> k in r && t[k] == r[k] && (t[k].invitedBy == owner || t[k].invitedBy in t)
    ensures VerifiedRoster(t, owner)
  {
    forall k | k in t ensures exists n: nat :: Vouched(t, owner, t[k], n) {
      var n: nat :| Vouched(r, owner, r[k], n);
      VouchedTransfers(r, t, owner, t[k], n);
    }
  }

  lemma {:induction false} VouchedTransfers(r: Roster, t: Roster, owner: Id, m: AuthorizedMember, n: nat)
    requires Vouched(r, owner, m, n)
    requires m.invitedBy == owner || m.invitedBy in t
    requires forall k :: k in t ==> k in r && t[k] == r[k] && (t[k].invitedBy == owner || t[k].invitedBy in t)
    ensures Vouched(t, owner, m, n)
    decreases n
  {
    if m.invitedBy != owner {
      VouchedTransfers(r, t, owner, t[m.invitedBy], n - 1);
    }
  }

  lemma {:induction false} VouchedGrows(r: Roster, t: Roster, owner: Id, m: AuthorizedMember, n: nat)
    requires Vouched(r, owner, m, n)
    requires forall k :: k in r ==> k in t && t[k] == r[k]
    ensures Vouched(t, owner, m, n)
    decreases n
  {
    if m.invitedBy != owner {
      VouchedGrows(r, t, owner, r[m.invitedBy], n - 1);
    }
  }

  lemma {:induction false} VouchedWithoutOwner(r: Roster, owner: Id, m: AuthorizedMember, n: nat)
    requires Vouched(r, owner, m, n)
    ensures Vouched(r - {owner}, owner, m, n)
    decreases n
  {
    if m.invitedBy != owner {
      VouchedWithoutOwner(r, owner, r[m.invitedBy], n - 1);
    }
  }

  /** An accepted delta leaves a verified table, but for an entry for the owner if it added one. */
  lemma AddNewVerifies(ms: seq<AuthorizedMember>, added: seq<AuthorizedMember>, owner: Id)
    requires DistinctIds(ms) && VerifiedRoster(MembersById(ms), owner)
    requires forall m :: m in added ==> Admissible(MembersById(AddNew(ms, added)), owner, m)
    ensures DistinctIds(AddNew(ms, added)) && VerifiedRoster(MembersById(AddNew(ms, added)) - {owner}, owner)
  {
    var all := AddNew(ms, added);
    var r, t := MembersById(ms), MembersById(all);
    AddNewDistinct(ms, added);
    ByIdDistinct(ms);
    ByIdDistinct(all);
    forall k | k in t && k != owner ensures exists n: nat :: Vouched(t - {owner}, owner, t[k], n) {
      var m := t[k];
      assert m in all;
      var n: nat;
      if m in ms {
        assert k in r && r[k] == m;
        n :| Vouched(r, owner, m, n);
        VouchedGrows(r, t, owner, m, n);
      } else {
        assert Admissible(t, owner, m);
        if m.invitedBy == owner {
          n := 1;
        } else {
          n :| Vouched(t, owner, m, n);
        }
      }
      VouchedWithoutOwner(t, owner, m, n);
    }
  }

  lemma CondemnedBelow(r: Roster, owner: Id, bans: seq<AuthorizedUserBan>, a: Id, x: Id)
    requires Above(r, owner, a, x) && Condemned(r, owner, bans, a)
    ensures Condemned(r, owner, bans, x)
  {
    var b :| b in bans && Above(r, owner, b.bannedUser, a);
    AboveTransitive(r, owner, b.bannedUser, a, x);
  }

  /** The lookup table of a filtered list. */
  lemma FilterRoster(ms: seq<AuthorizedMember>, p: AuthorizedMember -> bool)
    requires DistinctIds(ms)
    ensures var r, t := MembersById(ms), MembersById(Filter(ms, p));
            && DistinctIds(Filter(ms, p))
            && (forall k :: k in t <==> k in r && p(r[k]))
            && (forall k :: k in t ==> t[k] == r[k])
  {
    var r, ks := MembersById(ms), Filter(ms, p);
    FilterDistinctIds(ms, p);
    ByIdDistinct(ms);
    forall k | k in r && p(r[k]) ensures k in MembersById(ks) {
      assert r[k] in ks;
    }
    forall k | k in MembersById(ks) ensures k in r && MembersById(ks)[k] == r[k] && p(r[k]) {
      assert MembersById(ks)[k] in ks;
    }
  }

  lemma UnbannedRoster(all: seq<AuthorizedMember>, top: Id, bans: seq<AuthorizedUserBan>)
    requires DistinctIds(all)
    ensures var r, t := MembersById(all), MembersById(Unbanned(all, top, bans));
            && DistinctIds(Unbanned(all, top, bans))
            && (forall k :: k in t <==> k in r && !Condemned(r, top, bans, k))
            && (forall k :: k in t ==> t[k] == r[k])
  {
    FilterRoster(all, (m: AuthorizedMember) => !Condemned(MembersById(all), top, bans, m.id));
  }

  /** A ban removes whole subtrees, so, an entry for the owner apart, what is left still verifies, and nobody left is
      banned or below a banned user. */
  lemma RemovalVerifies(all: seq<AuthorizedMember>, owner: Id, bans: seq<AuthorizedUserBan>)
    requires DistinctIds(all) && VerifiedRoster(MembersById(all) - {owner}, owner)
    ensures var t := MembersById(Unbanned(all, Top(MembersById(all), owner), bans)) - {owner};
            VerifiedRoster(t, owner) && forall k :: k in t ==> !Condemned(t, owner, bans, k)
  {
    var r, top := MembersById(all), Top(MembersById(all), owner);
    UnbannedRoster(all, top, bans);
    RestVerifies(r, owner, top, bans, MembersById(Unbanned(all, top, bans)) - {owner});
  }

  lemma RestVerifies(r: Roster, owner: Id, top: Id, bans: seq<AuthorizedUserBan>, t: Roster)
    requires VerifiedRoster(r - {owner}, owner) && top !in r
    requires forall k :: k in t <==> k in r && k != owner && !Condemned(r, top, bans, k)
    requires forall k :: k in t ==> t[k] == r[k]
    ensures VerifiedRoster(t, owner) && forall k :: k in t ==> !Condemned(t, owner, bans, k)
  {
    forall k | k in t ensures t[k].invitedBy == owner || t[k].invitedBy in t {
      InviterStays(r, owner, top, bans, k);
    }
    PruneKeepsVerify(r - {owner}, t, owner);
    VerifiedIsRooted(t, owner);
    forall k | k in t ensures !Condemned(t, owner, bans, k) {
      RootedStable(t, r - {owner}, owner, k);
      CondemnedPastOwner(r, owner, top, bans, k);
    }
  }

  lemma CondemnedPastOwner(r: Roster, owner: Id, top: Id, bans: seq<AuthorizedUserBan>, x: Id)
    requires top !in r
    ensures Condemned(r - {owner}, owner, bans, x) ==> Condemned(r, top, bans, x)
  {
    if b :| b in bans && Above(r - {owner}, owner, b.bannedUser, x) {
      AboveWithoutOwner(r, owner, x);
      AbovePastOwner(r, owner, top, b.bannedUser, x);
    }
  }

  lemma InviterStays(r: Roster, owner: Id, top: Id, bans: seq<AuthorizedUserBan>, k: Id)
    requires VerifiedRoster(r - {owner}, owner) && top !in r
    requires k in r && k != owner && !Condemned(r, top, bans, k)
    ensures var p := r[k].invitedBy; p == owner || (p in r && !Condemned(r, top, bans, p))
  {
    var rest, p := r - {owner}, r[k].invitedBy;
    VerifiedIsRooted(rest, owner);
    AboveStep(rest, owner, k);
    AboveSelf(rest, owner, p);
    AboveRooted(rest, owner, p, k);
    AboveStep(r, top, k);
    AboveSelf(r, top, p);
    if Condemned(r, top, bans, p) {
      CondemnedBelow(r, top, bans, p, k);
    }
  }

  lemma VerifiedHasNoOwner(r: Roster, owner: Id)
    requires VerifiedRoster(r, owner)
    ensures r - {owner} == r && Top(r, owner) == owner
  {
  }

  /** On a verified list what is left still verifies. */
  lemma UnbannedVerifies(all: seq<AuthorizedMember>, owner: Id, bans: seq<AuthorizedUserBan>)
    requires DistinctIds(all) && VerifiedRoster(MembersById(all), owner)
    ensures DistinctIds(Unbanned(all, owner, bans))
    ensures VerifiedRoster(MembersById(Unbanned(all, owner, bans)), owner)
  {
    VerifiedHasNoOwner(MembersById(all), owner);
    UnbannedRoster(all, owner, bans);
    RemovalVerifies(all, owner, bans);
    var t := MembersById(Unbanned(all, owner, bans));
    assert t - {owner} == t;
  }

  lemma FilterDistinctIds(ms: seq<AuthorizedMember>, p: AuthorizedMember -> bool)
    requires DistinctIds(ms)
    ensures DistinctIds(Filter(ms, p))
  {
    assert DistinctKeys(ms, MemberKey);
    FilterKeepsOrder(ms, p, MemberKey);
    var r := Filter(ms, p);
    forall i, j | 0 <= i < j < |r| ensures r[i].id != r[j].id {
      assert MemberKey(r[i]) != MemberKey(r[j]);
    }
  }

  lemma SortDistinctIds(ms: seq<AuthorizedMember>)
    requires DistinctIds(ms)
    ensures StrictlySorted(Sort(ms, MemberKey), MemberKey)
    ensures DistinctIds(Sort(ms, MemberKey))
    ensures MembersById(Sort(ms, MemberKey)) == MembersById(ms)
  {
    assert DistinctKeys(ms, MemberKey);
    SortDistinct(ms, MemberKey);
    var s := Sort(ms, MemberKey);
    forall i, j | 0 <= i < j < |s| ensures s[i].id != s[j].id {
      assert Less(MemberKey(s[i]), MemberKey(s[j]));
    }
    SameRoster(s, ms);
  }

  /** Lists with the same elements have the same lookup table. */
  lemma SameRoster(a: seq<AuthorizedMember>, b: seq<AuthorizedMember>)
    requires DistinctIds(a) && DistinctIds(b)
    requires forall m :: m in a <==> m in b
    ensures MembersById(a) == MembersById(b)
  {
    ByIdDistinct(a);
    ByIdDistinct(b);
  }

  /** After the removal nobody left is flagged, whoever issued the bans. */
  lemma NobodyLeftCondemned(all: seq<AuthorizedMember>, owner: Id, bans: seq<AuthorizedUserBan>, x: Id)
    requires DistinctIds(all) && VerifiedRoster(MembersById(all), owner)
    requires x in MembersById(Unbanned(all, owner, bans))
    ensures !Condemned(MembersById(Unbanned(all, owner, bans)), owner, bans, x)
  {
    VerifiedHasNoOwner(MembersById(all), owner);
    RemovalVerifies(all, owner, bans);
    UnbannedVerifies(all, owner, bans);
    VerifiedHasNoOwner(MembersById(Unbanned(all, owner, bans)), owner);
  }

  // ---------- When the removal ends ----------

  /** On a verified list the removal after an accepted delta ends exactly when no banned user is above an entry for the
      owner. */
  lemma RemovalEndsExactly(ms: seq<AuthorizedMember>, owner: Id, bans: seq<AuthorizedUserBan>,
                           delta: Option<seq<AuthorizedMember>>)
    requires DistinctIds(ms) && MembersVerify(ms, owner) && MembersApplied(ms, owner, bans, delta).Some?
    ensures var r := MembersById(AddNew(ms, Added(delta)));
            RemovalEnds(ms, owner, bans, delta)
            <==> (owner in r ==> forall b :: b in bans ==> !Above(r, Top(r, owner), b.bannedUser, owner))
  {
    var r := MembersById(AddNew(ms, Added(delta)));
    VerifyOfRoster(ms, owner);
    AddNewVerifies(ms, Added(delta), owner);
    StepOnForest(ms, owner, bans, delta);
    OwnerEntryVouched(ms, owner, bans, delta);
    forall b | b in bans
      ensures StrictlyAbove(r, Top(r, owner), b.bannedUser, b.bannedUser)
              <==> owner in r && Above(r, Top(r, owner), b.bannedUser, owner)
    {
      CycleThroughOwner(r, owner, b.bannedUser);
    }
  }

  lemma OwnerEntryVouched(ms: seq<AuthorizedMember>, owner: Id, bans: seq<AuthorizedUserBan>,
                          delta: Option<seq<AuthorizedMember>>)
    requires DistinctIds(ms) && VerifiedRoster(MembersById(ms), owner) && MembersApplied(ms, owner, bans, delta).Some?
    ensures var r := MembersById(AddNew(ms, Added(delta)));
            owner in r ==> exists n: nat :: Vouched(r, owner, r[owner], n)
  {
    var r := MembersById(AddNew(ms, Added(delta)));
    if owner in r {
      var entry := r[owner];
      assert entry in AddNew(ms, Added(delta));
      assert owner !in MembersById(ms);
      assert entry !in ms;
      assert Admissible(r, owner, entry);
      if entry.invitedBy == owner { assert Vouched(r, owner, entry, 1); }
    }
  }

  /** Where every record is vouched for, someone is above themselves exactly if they are above an entry for the
      owner. */
  lemma CycleThroughOwner(r: Roster, owner: Id, x: Id)
    requires VerifiedRoster(r - {owner}, owner) && Keyed(r)
    requires owner in r ==> exists n: nat :: Vouched(r, owner, r[owner], n)
    ensures StrictlyAbove(r, Top(r, owner), x, x) <==> owner in r && Above(r, Top(r, owner), x, owner)
  {
    var top := Top(r, owner);
    if StrictlyAbove(r, top, x, x) {
      CycleMeetsOwner(r, owner, top, x);
    }
    if owner in r && Above(r, top, x, owner) {
      OwnerAbove(r, owner, top, x);
      AboveTransitive(r, top, x, owner, x);
    }
  }

  lemma CycleMeetsOwner(r: Roster, owner: Id, top: Id, x: Id)
    requires VerifiedRoster(r - {owner}, owner) && top !in r && StrictlyAbove(r, top, x, x)
    ensures owner in r && Above(r, top, x, owner)
  {
    if x !in r { AboveTop(r, top, x); }
    var n: nat := 0;
    if x != owner {
      VerifiedIsRooted(r - {owner}, owner);
      assert Rooted(r - {owner}, owner, x);
      n :| Up(r - {owner}, owner, x, n) == Some(owner);
      UpWithoutOwner(r, owner, x, n);
      UpPastOwner(r, owner, top, x, n);
    }
    OnLoop(r, top, x, n);
    assert StrictlyAbove(r, top, x, owner);
    if owner !in r { AboveTop(r, top, owner); }
  }

  lemma OwnerAboveItself(r: Roster, owner: Id, top: Id, n: nat)
    requires top !in r && owner in r && Vouched(r, owner, r[owner], n)
    ensures StrictlyAbove(r, top, owner, owner)
  {
    VouchedReachesOwner(r, owner, r[owner], n);
    UpPastOwner(r, owner, top, r[owner].invitedBy, n - 1);
    AboveStep(r, top, owner);
  }

  /** Past a vouched entry for the owner, the owner is strictly above everyone above the owner. */
  lemma OwnerAbove(r: Roster, owner: Id, top: Id, x: Id)
    requires top !in r && owner in r && Above(r, top, x, owner)
    requires exists n: nat :: Vouched(r, owner, r[owner], n)
    ensures StrictlyAbove(r, top, owner, x)
  {
    var n: nat :| Vouched(r, owner, r[owner], n);
    OwnerAboveItself(r, owner, top, n);
    var k: nat :| Up(r, top, owner, k) == Some(x);
    OnLoop(r, top, owner, k);
  }
}
