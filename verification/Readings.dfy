/** The parts of the step said of the records themselves: walks as sequences of identifiers, chains as sequences of
    signed records, lists by their elements and their order. What each part accepts and leaves is proved to be exactly
    this. */
module Readings {
  import opened Lists
  import opened Records
  import opened Forest
  import opened Descent
  import opened Members
  import opened Bans
  import MI = MemberInfos
  import opened Secrets
  import M = Messages

  // ---------- Tables and walks ----------

  /** Position i holds the last record with this identifier. */
  ghost predicate LastRecord(ms: seq<AuthorizedMember>, i: nat, k: Id) {
    i < |ms| && ms[i].id == k && forall j :: i < j < |ms| ==> ms[j].id != k
  }

  /** m is the last record with this identifier. */
  ghost predicate IsLast(ms: seq<AuthorizedMember>, k: Id, m: AuthorizedMember) {
    exists i: nat :: LastRecord(ms, i, k) && ms[i] == m
  }

  lemma LastOfMore(ms: seq<AuthorizedMember>, last: AuthorizedMember, k: Id, m: AuthorizedMember)
    ensures IsLast(ms + [last], k, m) <==> if last.id == k then m == last else IsLast(ms, k, m)
  {
    var n, all := |ms|, ms + [last];
    assert all[n] == last && forall j :: 0 <= j < n ==> all[j] == ms[j];
    if last.id == k {
      assert LastRecord(all, n, k);
    } else {
      forall i: nat ensures LastRecord(all, i, k) <==> LastRecord(ms, i, k) {
      }
    }
  }

  /** The lookup table of a list gives each identifier its last record. */
  lemma {:induction false} TableReads(ms: seq<AuthorizedMember>, k: Id, m: AuthorizedMember)
    ensures k in MembersById(ms) && MembersById(ms)[k] == m <==> IsLast(ms, k, m)
  {
    if ms != [] {
      var rest, last := ms[..|ms| - 1], ms[|ms| - 1];
      TableReads(rest, k, m);
      RosterLast(ms);
      SplitLast(ms);
      LastOfMore(rest, last, k, m);
    }
  }

  /** p goes up from x to a, invitation by invitation, and does not pass the owner. */
  ghost predicate Line(r: Roster, owner: Id, x: Id, p: seq<Id>, a: Id) {
    && p != [] && p[0] == x && p[|p| - 1] == a
    && forall i :: 0 <= i < |p| - 1 ==> p[i] != owner && p[i] in r && r[p[i]].invitedBy == p[i + 1]
  }

  /** Invitations lead up from x to a. */
  ghost predicate Upline(r: Roster, owner: Id, a: Id, x: Id) {
    exists p :: Line(r, owner, x, p, a)
  }

  lemma {:induction false} LineOfUp(r: Roster, owner: Id, x: Id, n: nat, a: Id) returns (p: seq<Id>)
    requires Up(r, owner, x, n) == Some(a)
    ensures Line(r, owner, x, p, a) && |p| == n + 1
    decreases n
  {
    if n == 0 {
      p := [x];
    } else {
      var rest := LineOfUp(r, owner, r[x].invitedBy, n - 1, a);
      p := [x] + rest;
    }
  }

  lemma {:induction false} UpOfLine(r: Roster, owner: Id, x: Id, p: seq<Id>, a: Id)
    requires Line(r, owner, x, p, a)
    ensures Up(r, owner, x, |p| - 1) == Some(a)
    decreases |p|
  {
    if |p| > 1 {
      assert p[0] != owner && r[p[0]].invitedBy == p[1];
      forall i | 0 <= i < |p[1..]| - 1
        ensures p[1..][i] != owner && p[1..][i] in r && r[p[1..][i]].invitedBy == p[1..][i + 1]
      {
        assert p[1..][i] == p[i + 1] && p[1..][i + 1] == p[i + 2];
      }
      UpOfLine(r, owner, p[1], p[1..], a);
    }
  }

  /** The relation of the walks: a is above x exactly when a line goes up from x to a. */
  lemma WalkReads(r: Roster, owner: Id, a: Id, x: Id)
    ensures Above(r, owner, a, x) <==> Upline(r, owner, a, x)
  {
    if Above(r, owner, a, x) {
      var n: nat :| Up(r, owner, x, n) == Some(a);
      var p := LineOfUp(r, owner, x, n, a);
    }
    if p :| Line(r, owner, x, p, a) {
      UpOfLine(r, owner, x, p, a);
    }
  }

  /** A record of the list says that a invited x. */
  ghost predicate Invites(ms: seq<AuthorizedMember>, a: Id, x: Id) {
    exists m :: m in ms && m.id == x && m.invitedBy == a
  }

  /** p goes down from a to x through records of the list. */
  ghost predicate Downline(ms: seq<AuthorizedMember>, a: Id, p: seq<Id>, x: Id) {
    && p != [] && p[0] == a && p[|p| - 1] == x
    && forall i :: 0 <= i < |p| - 1 ==> Invites(ms, p[i], p[i + 1])
  }

  lemma {:induction false} DownlineOfLeads(ms: seq<AuthorizedMember>, a: Id, x: Id, n: nat) returns (p: seq<Id>)
    requires Leads(ms, a, x, n)
    ensures Downline(ms, a, p, x) && |p| == n + 1
    decreases n
  {
    if n == 0 {
      p := [x];
    } else {
      var m :| m in ms && m.id == x && Leads(ms, a, m.invitedBy, n - 1);
      var rest := DownlineOfLeads(ms, a, m.invitedBy, n - 1);
      assert Invites(ms, m.invitedBy, x);
      p := OneFurther(ms, a, rest, m.invitedBy, x);
    }
  }

  lemma OneFurther(ms: seq<AuthorizedMember>, a: Id, p: seq<Id>, b: Id, x: Id) returns (q: seq<Id>)
    requires Downline(ms, a, p, b) && Invites(ms, b, x)
    ensures Downline(ms, a, q, x) && |q| == |p| + 1
  {
    q := p + [x];
    forall i | 0 <= i < |q| - 1 ensures Invites(ms, q[i], q[i + 1]) {
      assert i < |p| - 1 ==> q[i] == p[i] && q[i + 1] == p[i + 1];
    }
  }

  lemma OneShorter(ms: seq<AuthorizedMember>, a: Id, p: seq<Id>, x: Id)
    requires Downline(ms, a, p, x) && |p| > 1
    ensures Downline(ms, a, p[..|p| - 1], p[|p| - 2]) && Invites(ms, p[|p| - 2], x)
  {
    var n := |p| - 1;
    assert forall i :: 0 <= i < n ==> p[..n][i] == p[i];
  }

  lemma {:induction false} LeadsOfDownline(ms: seq<AuthorizedMember>, a: Id, p: seq<Id>, x: Id)
    requires Downline(ms, a, p, x)
    ensures Leads(ms, a, x, |p| - 1)
    decreases |p|
  {
    if |p| > 1 {
      OneShorter(ms, a, p, x);
      LeadsOfDownline(ms, a, p[..|p| - 1], p[|p| - 2]);
    }
  }

  /** What the downward walk follows: it reaches x from a exactly when records lead down from a to x, and x is below a
      exactly when there is such a line of more than one. */
  lemma DescentReads(ms: seq<AuthorizedMember>, a: Id, x: Id)
    ensures Reaches(ms, a, x) <==> exists p :: Downline(ms, a, p, x)
    ensures Descends(ms, a, x) <==> exists p :: Downline(ms, a, p, x) && |p| > 1
  {
    if n: nat :| Leads(ms, a, x, n) {
      var p := DownlineOfLeads(ms, a, x, n);
    }
    if n: nat :| n > 0 && Leads(ms, a, x, n) {
      var p := DownlineOfLeads(ms, a, x, n);
    }
    if p :| Downline(ms, a, p, x) {
      LeadsOfDownline(ms, a, p, x);
    }
    if p :| Downline(ms, a, p, x) && |p| > 1 {
      LeadsOfDownline(ms, a, p, x);
    }
  }

  // ---------- Invitations ----------

  /** c starts with m; each of its records carries its inviter's signature, and the inviter's record comes next, until
      the inviter is the owner. */
  ghost predicate SignedLine(r: Roster, owner: Id, m: AuthorizedMember, c: seq<AuthorizedMember>) {
    && c != [] && c[0] == m && c[|c| - 1].invitedBy == owner
    && (forall i :: 0 <= i < |c| ==> c[i].invitedBy in c[i].signature)
    && forall i :: 0 <= i < |c| - 1 ==>
                     c[i].invitedBy != owner && c[i].invitedBy in r && r[c[i].invitedBy] == c[i + 1]
  }

  ghost predicate NotMetAgain(m: AuthorizedMember, c: seq<AuthorizedMember>) {
    forall i :: 0 < i < |c| ==> c[i].id != m.id
  }

  /** m does not invite itself and has a signed line up to the owner on which it is not met again. */
  ghost predicate Invited(r: Roster, owner: Id, m: AuthorizedMember) {
    m.invitedBy != m.id &&
    exists c :: SignedLine(r, owner, m, c) && (m.id != owner ==> NotMetAgain(m, c))
  }

  lemma {:induction false} LineOfVouched(r: Roster, owner: Id, m: AuthorizedMember, n: nat)
    returns (c: seq<AuthorizedMember>)
    requires Vouched(r, owner, m, n)
    ensures SignedLine(r, owner, m, c) && |c| == n
    decreases n
  {
    if m.invitedBy == owner {
      c := [m];
    } else {
      var rest := LineOfVouched(r, owner, r[m.invitedBy], n - 1);
      c := [m] + rest;
      assert forall i :: 0 < i < |c| ==> c[i] == rest[i - 1];
    }
  }

  lemma LineTail(r: Roster, owner: Id, m: AuthorizedMember, c: seq<AuthorizedMember>)
    requires SignedLine(r, owner, m, c) && |c| > 1
    ensures SignedLine(r, owner, c[1], c[1..])
    ensures m.invitedBy != owner && m.invitedBy in r && r[m.invitedBy] == c[1] && m.invitedBy in m.signature
  {
    assert forall i :: 0 <= i < |c| - 1 ==> c[1..][i] == c[i + 1];
    assert c[0].invitedBy != owner;
  }

  lemma {:induction false} VouchedOfLine(r: Roster, owner: Id, m: AuthorizedMember, c: seq<AuthorizedMember>)
    requires SignedLine(r, owner, m, c)
    ensures Vouched(r, owner, m, |c|)
    decreases |c|
  {
    if |c| > 1 {
      LineTail(r, owner, m, c);
      VouchedOfLine(r, owner, c[1], c[1..]);
    }
  }

  /** The walk up from m's inviter goes through the line and ends at the owner. */
  lemma {:induction false} UpOfSignedLine(r: Roster, owner: Id, m: AuthorizedMember, c: seq<AuthorizedMember>, n: nat)
    requires SignedLine(r, owner, m, c) && Keyed(r)
    ensures Up(r, owner, m.invitedBy, n) == if n < |c| - 1 then Some(c[n + 1].id)
                                            else if n == |c| - 1 then Some(owner) else None
    decreases |c|
  {
    if |c| > 1 {
      LineTail(r, owner, m, c);
      assert c[1].id == m.invitedBy;
      if n > 0 {
        UpOfSignedLine(r, owner, c[1], c[1..], n - 1);
      }
    }
  }

  /** What `get_invite_chain_with_lookup` accepts. */
  lemma ChainReads(r: Roster, owner: Id, m: AuthorizedMember)
    requires Keyed(r)
    ensures ChainOk(r, owner, m) <==> Invited(r, owner, m)
  {
    if n: nat :| Vouched(r, owner, m, n) {
      var c := LineOfVouched(r, owner, m, n);
      MetOnLine(r, owner, m, c);
    }
    if c :| SignedLine(r, owner, m, c) && (m.id != owner ==> NotMetAgain(m, c)) {
      VouchedOfLine(r, owner, m, c);
      MetOnLine(r, owner, m, c);
    }
  }

  lemma MetOnLine(r: Roster, owner: Id, m: AuthorizedMember, c: seq<AuthorizedMember>)
    requires SignedLine(r, owner, m, c) && Keyed(r)
    ensures m.id != owner ==> (Above(r, owner, m.id, m.invitedBy) <==> exists i :: 0 < i < |c| && c[i].id == m.id)
  {
    if m.id != owner && Above(r, owner, m.id, m.invitedBy) {
      var n: nat :| Up(r, owner, m.invitedBy, n) == Some(m.id);
      UpOfSignedLine(r, owner, m, c, n);
      assert c[n + 1].id == m.id;
    }
    if i :| 0 < i < |c| && c[i].id == m.id {
      UpOfSignedLine(r, owner, m, c, i - 1);
    }
  }

  /** The chain of an accepted record is its signed line. */
  lemma ChainIsSigned(r: Roster, owner: Id, m: AuthorizedMember, chain: seq<AuthorizedMember>)
    requires Keyed(r) && ChainOk(r, owner, m) && IsInviteChain(r, owner, m, chain)
    ensures SignedLine(r, owner, m, [m] + chain)
  {
    var n: nat :| Vouched(r, owner, m, n);
    var c := LineOfVouched(r, owner, m, n);
    UpOfSignedLine(r, owner, m, c, |chain|);
    forall i | 0 < i < |c| ensures c[i].id != owner {
      assert r[c[i - 1].invitedBy] == c[i];
    }
    forall i | 0 <= i < |chain| ensures chain[i] == c[i + 1] {
      UpOfSignedLine(r, owner, m, c, i);
      assert r[chain[i].id] == chain[i] && c[i + 1].id == chain[i].id && r[c[i].invitedBy] == c[i + 1];
    }
    assert [m] + chain == c;
  }

  /** `MembersV1::verify`: nobody listed is the owner, and every record is invited. */
  lemma MembersVerifyReads(ms: seq<AuthorizedMember>, owner: Id)
    ensures MembersVerify(ms, owner) <==> forall m :: m in ms ==> m.id != owner && Invited(MembersById(ms), owner, m)
  {
    forall m | m in ms ensures VerifiedMember(MembersById(ms), owner, m)
                               <==> m.id != owner && Invited(MembersById(ms), owner, m) {
      ChainReads(MembersById(ms), owner, m);
    }
  }

  /** So every record of a verified list is signed by its inviter. */
  lemma VerifiedIsSigned(ms: seq<AuthorizedMember>, owner: Id)
    requires MembersVerify(ms, owner)
    ensures forall m :: m in ms ==> m.invitedBy in m.signature
  {
    MembersVerifyReads(ms, owner);
    forall m | m in ms ensures m.invitedBy in m.signature {
      var c :| SignedLine(MembersById(ms), owner, m, c);
    }
  }

  // ---------- The members step ----------

  /** m comes with the delta under an identifier nobody listed has and nobody earlier in the delta. */
  ghost predicate Joins(ms: seq<AuthorizedMember>, added: seq<AuthorizedMember>, m: AuthorizedMember) {
    && (forall x :: x in ms ==> x.id != m.id)
    && exists i :: 0 <= i < |added| && added[i] == m && forall j :: 0 <= j < i ==> added[j].id != m.id
  }

  /** The list with a delta is the list and who joins it. */
  lemma {:induction false} JoinedReads(ms: seq<AuthorizedMember>, added: seq<AuthorizedMember>, m: AuthorizedMember)
    ensures m in AddNew(ms, added) <==> m in ms || Joins(ms, added, m)
  {
    if added != [] {
      var n := |added| - 1;
      JoinedReads(ms, added[..n], m);
      JoinsOneMore(ms, added[..n], added[n], m);
      SplitLast(added);
    }
  }

  lemma JoinsOneMore(ms: seq<AuthorizedMember>, added: seq<AuthorizedMember>, last: AuthorizedMember,
                     m: AuthorizedMember)
    ensures Joins(ms, added + [last], m)
            <==> Joins(ms, added, m) || (m == last && !HasId(ms, m.id) && !HasId(added, m.id))
  {
    var n, all := |added|, added + [last];
    assert all[n] == last && forall j :: 0 <= j < n ==> all[j] == added[j];
    if Joins(ms, added, m) {
      var i :| 0 <= i < n && added[i] == m && forall j :: 0 <= j < i ==> added[j].id != m.id;
      assert all[i] == m;
    }
    if Joins(ms, all, m) {
      var i :| 0 <= i < |all| && all[i] == m && forall j :: 0 <= j < i ==> all[j].id != m.id;
      if i < n {
        assert added[i] == m;
      }
    }
  }

  /** The table the delta is checked against: the list's own, and whoever joins. */
  lemma {:induction false} JoinedTableReads(ms: seq<AuthorizedMember>, added: seq<AuthorizedMember>, k: Id,
                                            m: AuthorizedMember)
    ensures k in MembersById(AddNew(ms, added)) && MembersById(AddNew(ms, added))[k] == m
            <==> IsLast(ms, k, m) || (m.id == k && Joins(ms, added, m))
  {
    if added == [] {
      TableReads(ms, k, m);
    } else {
      var n := |added| - 1;
      var all := AddNew(ms, added[..n]);
      JoinedTableReads(ms, added[..n], k, m);
      JoinsOneMore(ms, added[..n], added[n], m);
      SplitLast(added);
      RosterAppend(all, added[n]);
      NobodyYet(ms, added[..n], all, added[n]);
    }
  }

  lemma NobodyYet(ms: seq<AuthorizedMember>, added: seq<AuthorizedMember>, all: seq<AuthorizedMember>,
                  last: AuthorizedMember)
    requires all == AddNew(ms, added)
    ensures HasId(all, last.id) <==> HasId(ms, last.id) || HasId(added, last.id)
    ensures HasId(all, last.id) <==> last.id in MembersById(all)
  {
    if last.id in MembersById(all) {
      assert MembersById(all)[last.id] in all;
    }
    if m :| m in ms && m.id == last.id {
      assert m in all;
    }
    if m :| m in added && m.id == last.id {
      assert HasId(all, m.id);
    }
  }

  /** Every record of the delta is the owner's own invitation, signed, or is invited up to the owner. */
  ghost predicate MembersPass(ms: seq<AuthorizedMember>, owner: Id, delta: Option<seq<AuthorizedMember>>) {
    delta.Some? ==>
      forall m :: m in delta.value ==>
                    if m.invitedBy == owner then owner in m.signature
                    else Invited(MembersById(AddNew(ms, delta.value)), owner, m)
  }

  /** A ban names x, or records lead down to x from someone a ban names. */
  ghost predicate Outlawed(all: seq<AuthorizedMember>, bans: seq<AuthorizedUserBan>, x: Id) {
    exists b, p :: b in bans && Downline(all, b.bannedUser, p, x)
  }

  ghost predicate ByIdentifier(ms: seq<AuthorizedMember>) {
    forall i, j :: 0 <= i < j < |ms| ==> ms[i].id <= ms[j].id
  }

  /** Whoever was listed or joins, but for the outlawed, by identifier. */
  ghost predicate MembersLeave(ms: seq<AuthorizedMember>, bans: seq<AuthorizedUserBan>,
                               delta: Option<seq<AuthorizedMember>>, after: seq<AuthorizedMember>)
  {
    var all := AddNew(ms, Added(delta));
    && ByIdentifier(after)
    && forall m :: m in after <==> (m in ms || Joins(ms, Added(delta), m)) && !Outlawed(all, bans, m.id)
  }

  lemma OutlawedReads(all: seq<AuthorizedMember>, bans: seq<AuthorizedUserBan>, x: Id)
    ensures Taken(all, bans, x) <==> Outlawed(all, bans, x)
  {
    if b :| b in bans && Reaches(all, b.bannedUser, x) {
      DescentReads(all, b.bannedUser, x);
    }
    if b, p :| b in bans && Downline(all, b.bannedUser, p, x) {
      DescentReads(all, b.bannedUser, x);
    }
  }

  lemma MembersOrdered(ms: seq<AuthorizedMember>)
    requires Sorted(ms, MemberKey)
    ensures ByIdentifier(ms)
  {
  }

  /** The members step accepts exactly the deltas that pass, and leaves exactly that. */
  lemma MembersRead(ms: seq<AuthorizedMember>, owner: Id, bans: seq<AuthorizedUserBan>,
                    delta: Option<seq<AuthorizedMember>>)
    ensures MembersApplied(ms, owner, bans, delta).Some? <==> MembersPass(ms, owner, delta)
    ensures MembersApplied(ms, owner, bans, delta).Some? ==>
              MembersLeave(ms, bans, delta, MembersApplied(ms, owner, bans, delta).value)
  {
    var all := AddNew(ms, Added(delta));
    forall m | m in Added(delta) && m.invitedBy != owner
      ensures Admissible(MembersById(all), owner, m) <==> Invited(MembersById(all), owner, m)
    {
      ChainReads(MembersById(all), owner, m);
    }
    SortSorts(Remaining(all, bans), MemberKey);
    MembersOrdered(Sort(Remaining(all, bans), MemberKey));
    forall m ensures m in Sort(Remaining(all, bans), MemberKey)
                     <==> (m in ms || Joins(ms, Added(delta), m)) && !Outlawed(all, bans, m.id) {
      JoinedReads(ms, Added(delta), m);
      OutlawedReads(all, bans, m.id);
    }
  }

  /** So an accepted delta carries its inviters' signatures, and one record without spoils it. */
  lemma AddedAreSigned(ms: seq<AuthorizedMember>, owner: Id, bans: seq<AuthorizedUserBan>,
                       added: seq<AuthorizedMember>, m: AuthorizedMember)
    requires m in added
    ensures MembersApplied(ms, owner, bans, Some(added)).Some? ==> m.invitedBy in m.signature
    ensures m.invitedBy !in m.signature ==> MembersApplied(ms, owner, bans, Some(added)).None?
  {
    MembersRead(ms, owner, bans, Some(added));
    if MembersApplied(ms, owner, bans, Some(added)).Some? && m.invitedBy != owner {
      var c :| SignedLine(MembersById(AddNew(ms, added)), owner, m, c);
    }
  }

  /** A record nobody signed does not join by naming a listed member as its inviter; signed by that member, it does. */
  lemma UnsignedRefusedHere()
    ensures var ms := [AuthorizedMember(1, 0, {0})];
            MembersVerify(ms, 0) && MembersApplied(ms, 0, [], Some([AuthorizedMember(9, 1, {})])).None?
            && MembersApplied(ms, 0, [], Some([AuthorizedMember(9, 1, {1})])).Some?
  {
    var one, unsigned, signed := AuthorizedMember(1, 0, {0}), AuthorizedMember(9, 1, {}), AuthorizedMember(9, 1, {1});
    AddedAreSigned([one], 0, [], [unsigned], unsigned);
    OneInvitation(one);
    SecondInvitation(one, signed);
  }

  lemma OneInvitation(m: AuthorizedMember)
    requires m.id != 0 && m.invitedBy == 0 && 0 in m.signature
    ensures MembersById([m]) == map[m.id := m] && MembersVerify([m], 0)
  {
    assert [m][..0] == [];
    var r := MembersById([m]);
    assert SignedLine(r, 0, m, [m]) && NotMetAgain(m, [m]);
    assert Invited(r, 0, m);
    MembersVerifyReads([m], 0);
  }

  lemma SecondInvitation(one: AuthorizedMember, two: AuthorizedMember)
    requires one == AuthorizedMember(1, 0, {0}) && two == AuthorizedMember(9, 1, {1})
    ensures MembersApplied([one], 0, [], Some([two])).Some?
  {
    assert [two][..0] == [] && [one] + [two] == [one, two];
    assert AddNew([one], [two]) == [one, two];
    OneInvitation(one);
    RosterAppend([one], two);
    var r := MembersById([one, two]);
    assert r == map[1 := one, 9 := two];
    var c := [two, one];
    assert SignedLine(r, 0, two, c) && NotMetAgain(two, c);
    assert Invited(r, 0, two);
    MembersRead([one], 0, [], Some([two]));
  }

  // ---------- The bans step ----------

  /** What a ban stands on: its target is gone, the owner or an admin made it, a listed banner is above the target or is
      the target, or a banner who is gone is not banned. */
  ghost predicate Grounded(r: Roster, cfg: Config, bs: seq<AuthorizedUserBan>, b: AuthorizedUserBan) {
    || b.bannedUser !in r
    || b.bannedBy == cfg.owner || b.bannedBy in cfg.admins
    || (b.bannedBy in r && Upline(r, cfg.owner, b.bannedBy, b.bannedUser))
    || (b.bannedBy !in r && forall c :: c in bs ==> c.bannedUser != b.bannedBy)
  }

  lemma GroundReads(r: Roster, cfg: Config, bs: seq<AuthorizedUserBan>, b: AuthorizedUserBan)
    ensures BanAuthorised(r, cfg, BannedUsers(bs), b) <==> Grounded(r, cfg, bs, b)
  {
    WalkReads(r, cfg.owner, b.bannedBy, b.bannedUser);
  }

  /** Grounded, and signed by its banner where the banner's key is at hand: the owner's or a listed member's. */
  ghost predicate GoodBan(r: Roster, cfg: Config, bs: seq<AuthorizedUserBan>, b: AuthorizedUserBan) {
    Grounded(r, cfg, bs, b) && (b.bannedBy == cfg.owner || b.bannedBy in r ==> b.bannedBy in b.signature)
  }

  /** `BansV1::verify`. */
  lemma BansVerifyReads(r: Roster, cfg: Config, bs: seq<AuthorizedUserBan>)
    ensures BansVerify(r, cfg, bs) <==> |bs| <= cfg.maxUserBans && forall b :: b in bs ==> GoodBan(r, cfg, bs, b)
  {
    forall b | b in bs ensures BanAuthorised(r, cfg, BannedUsers(bs), b) && BanSigned(r, cfg.owner, b)
                               <==> GoodBan(r, cfg, bs, b) {
      GroundReads(r, cfg, bs, b);
    }
  }

  /** e is at least as late as f, by time and then by identifier. */
  predicate NotEarlier(e: AuthorizedUserBan, f: AuthorizedUserBan) {
    f.bannedAt < e.bannedAt || (f.bannedAt == e.bannedAt && f.id <= e.id)
  }

  ghost predicate ByTime(bs: seq<AuthorizedUserBan>) {
    forall i, j :: 0 <= i < j < |bs| ==> NotEarlier(bs[j], bs[i])
  }

  /** As many as the limit allows, each as often as it was there or less, and nothing left out later than what stays. */
  ghost predicate Latest(all: seq<AuthorizedUserBan>, max: nat, kept: seq<AuthorizedUserBan>) {
    && |kept| == (if |all| <= max then |all| else max)
    && (forall b :: multiset(kept)[b] <= multiset(all)[b])
    && forall e, f :: e in kept && multiset(kept)[f] < multiset(all)[f] ==> NotEarlier(e, f)
  }

  lemma TrimReads(all: seq<AuthorizedUserBan>, max: nat)
    ensures Latest(all, max, KeepNewest(all, max))
  {
    if |all| > max {
      var s := Sort(all, BanKey);
      SortSorts(all, BanKey);
      SuffixIsLatest(s, |all| - max);
      LatestOfSame(s, all, max, s[|all| - max..]);
    }
  }

  lemma LatestOfSame(s: seq<AuthorizedUserBan>, all: seq<AuthorizedUserBan>, max: nat, kept: seq<AuthorizedUserBan>)
    requires Latest(s, max, kept) && multiset(s) == multiset(all)
    ensures Latest(all, max, kept)
  {
    SameLength(s, all);
  }

  lemma SuffixIsLatest(s: seq<AuthorizedUserBan>, n: nat)
    requires Sorted(s, BanKey) && n <= |s|
    ensures Latest(s, |s| - n, s[n..])
  {
    assert s == s[..n] + s[n..];
    forall e, f | e in s[n..] && multiset(s[n..])[f] < multiset(s)[f] ensures NotEarlier(e, f) {
      var j :| 0 <= j < |s[n..]| && s[n..][j] == e;
      assert f in s[..n];
      var i :| 0 <= i < n && s[..n][i] == f;
      assert AtMost(BanKey(s[i]), BanKey(s[n + j]));
    }
  }

  /** No ban of the delta reuses an identifier of the list, and those kept of both are good. */
  ghost predicate BansPass(r: Roster, cfg: Config, bs: seq<AuthorizedUserBan>, delta: Option<seq<AuthorizedUserBan>>) {
    delta.Some? ==>
      && (forall b, d :: b in bs && d in delta.value ==> b.id != d.id)
      && var kept := KeepNewest(bs + delta.value, cfg.maxUserBans);
         forall b :: b in kept ==> GoodBan(r, cfg, kept, b)
  }

  /** Without a delta the list as it was, with one the latest of both, by time. */
  ghost predicate BansLeave(cfg: Config, bs: seq<AuthorizedUserBan>, delta: Option<seq<AuthorizedUserBan>>,
                            after: seq<AuthorizedUserBan>)
  {
    && ByTime(after)
    && if delta.None? then multiset(after) == multiset(bs) else Latest(bs + delta.value, cfg.maxUserBans, after)
  }

  lemma BansOrdered(bs: seq<AuthorizedUserBan>)
    requires Sorted(bs, BanKey)
    ensures ByTime(bs)
  {
    forall i, j | 0 <= i < j < |bs| ensures NotEarlier(bs[j], bs[i]) {
      assert AtMost(BanKey(bs[i]), BanKey(bs[j]));
    }
  }

  lemma LatestSorted(all: seq<AuthorizedUserBan>, max: nat, kept: seq<AuthorizedUserBan>, s: seq<AuthorizedUserBan>)
    requires Latest(all, max, kept) && multiset(s) == multiset(kept)
    ensures Latest(all, max, s)
  {
    assert |s| == |multiset(s)| && |kept| == |multiset(kept)|;
    assert forall b :: b in s <==> b in multiset(s);
  }

  /** The bans step accepts exactly the deltas that pass, and leaves exactly that. */
  lemma BansRead(r: Roster, cfg: Config, bs: seq<AuthorizedUserBan>, delta: Option<seq<AuthorizedUserBan>>)
    ensures BansApplied(r, cfg, bs, delta).Some? <==> BansPass(r, cfg, bs, delta)
    ensures BansApplied(r, cfg, bs, delta).Some? ==> BansLeave(cfg, bs, delta, BansApplied(r, cfg, bs, delta).value)
  {
    if delta.None? {
      SortSorts(bs, BanKey);
      BansOrdered(Sort(bs, BanKey));
    } else {
      var kept := KeepNewest(bs + delta.value, cfg.maxUserBans);
      BansVerifyReads(r, cfg, kept);
      SortSorts(kept, BanKey);
      BansOrdered(Sort(kept, BanKey));
      TrimReads(bs + delta.value, cfg.maxUserBans);
      LatestSorted(bs + delta.value, cfg.maxUserBans, kept, Sort(kept, BanKey));
    }
  }

  /** One ban on a board whose bans verify is accepted exactly when its identifier is new and, unless it is itself
      trimmed away, it is good and takes no ground from another: no kept ban on a listed member stands only because its
      banner, whom this one bans, is gone and was not banned. */
  lemma BanAcceptedExactly(r: Roster, cfg: Config, bs: seq<AuthorizedUserBan>, ban: AuthorizedUserBan)
    requires BansVerify(r, cfg, bs)
    ensures var kept := KeepNewest(bs + [ban], cfg.maxUserBans);
            BansApplied(r, cfg, bs, Some([ban])).Some?
            <==> (forall b :: b in bs ==> b.id != ban.id)
                 && (ban in kept ==>
                       && GoodBan(r, cfg, kept, ban)
                       && forall b :: b in kept && LeansOnAbsent(r, cfg, b) ==> b.bannedBy != ban.bannedUser)
  {
    var kept := KeepNewest(bs + [ban], cfg.maxUserBans);
    BansRead(r, cfg, bs, Some([ban]));
    BansVerifyReads(r, cfg, bs);
    forall b | b in kept && b != ban
      ensures GoodBan(r, cfg, kept, b)
              <==> !(ban in kept && LeansOnAbsent(r, cfg, b) && b.bannedBy == ban.bannedUser)
    {
      OtherBanStays(r, cfg, bs, ban, kept, b);
    }
    assert ban in [ban];
  }

  lemma OtherBanStays(r: Roster, cfg: Config, bs: seq<AuthorizedUserBan>, ban: AuthorizedUserBan,
                      kept: seq<AuthorizedUserBan>, b: AuthorizedUserBan)
    requires b in kept && b != ban && (forall c :: c in kept ==> c in bs || c == ban)
    requires forall c :: c in bs ==> GoodBan(r, cfg, bs, c)
    ensures GoodBan(r, cfg, kept, b)
            <==> !(ban in kept && LeansOnAbsent(r, cfg, b) && b.bannedBy == ban.bannedUser)
  {
    assert GoodBan(r, cfg, bs, b);
  }

  /** An admin, listed or not, may ban anyone on the owner's terms: refused only where the ban would take the ground
      from another. */
  lemma AdminBanRefusedExactly(r: Roster, cfg: Config, bs: seq<AuthorizedUserBan>, ban: AuthorizedUserBan)
    requires BansVerify(r, cfg, bs) && !SharesBanId(bs, [ban])
    requires ban.bannedBy in cfg.admins && ban.bannedBy in ban.signature
    ensures var kept := KeepNewest(bs + [ban], cfg.maxUserBans);
            BansApplied(r, cfg, bs, Some([ban])).Some?
            <==> (ban in kept ==> forall b :: b in kept && LeansOnAbsent(r, cfg, b) ==> b.bannedBy != ban.bannedUser)
  {
    assert ban in [ban];
    BanAcceptedExactly(r, cfg, bs, ban);
  }

  /** An admin bans a member they did not invite; the same ban by a member who is no admin is refused. */
  lemma AdminBansHere()
    ensures var r := map[1 := AuthorizedMember(1, 0, {0}), 2 := AuthorizedMember(2, 0, {0})];
            var ban := AuthorizedUserBan(7, 1, 2, 1, {1});
            && BansApplied(r, Config(0, {1}, 10, 0, 0, 0, false), [], Some([ban])) == Some([ban])
            && BansApplied(r, Config(0, {}, 10, 0, 0, 0, false), [], Some([ban])).None?
  {
    var one, two := AuthorizedMember(1, 0, {0}), AuthorizedMember(2, 0, {0});
    var r := map[1 := one, 2 := two];
    var ban := AuthorizedUserBan(7, 1, 2, 1, {1});
    assert [] + [ban] == [ban];
    AdminBanRefusedExactly(r, Config(0, {1}, 10, 0, 0, 0, false), [], ban);
    AppliedIsNewest(r, Config(0, {1}, 10, 0, 0, 0, false), [], [ban]);
    SortIdentity([ban], BanKey);
    AboveStep(r, 0, 2);
    AboveTop(r, 0, 0);
    WalkReads(r, 0, 1, 2);
    BanAcceptedExactly(r, Config(0, {}, 10, 0, 0, 0, false), [], ban);
  }
}
