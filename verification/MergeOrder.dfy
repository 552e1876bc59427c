/** Merging any number of public boards: whatever the order and the grouping, the outcome is the closure of their
    union. */
module MergeOrder {
  import opened Lists
  import opened Records
  import opened Forest
  import opened Members
  import opened Bans
  import opened Actions
  import M = Messages
  import opened Board
  import opened Runs
  import opened Convergence

  /** An order and grouping of merges; a board may take part more than once. */
  datatype Plan = One(board: Snapshot) | Both(first: Plan, second: Plan)

  function Boards(p: Plan): seq<Snapshot> {
    match p
    case One(s) => [s]
    case Both(a, b) => Boards(a) + Boards(b)
  }

  /** The board the plan ends with; None when a merge is rejected. */
  ghost function Outcome(cfg: Config, p: Plan): Option<Snapshot> {
    match p
    case One(s) => Some(s)
    case Both(a, b) =>
      var s, t := Outcome(cfg, a), Outcome(cfg, b);
      if s.None? || t.None? then None else Merge(cfg, s.value, t.value)
  }

  /** All that the plan's boards have collected. */
  ghost function PlanWorld(p: Plan): World {
    match p
    case One(s) => WorldOf(s)
    case Both(a, b) => Union(PlanWorld(a), PlanWorld(b))
  }

  /** The plan's bans, each as often as on the board that holds it most often. */
  ghost function PlanBans(p: Plan): multiset<AuthorizedUserBan> {
    match p
    case One(s) => multiset(s.bans)
    case Both(a, b) => MostOf(PlanBans(a), PlanBans(b))
  }

  /** The same identifier means the same record. */
  ghost predicate WorldsAgree(v: World, w: World) {
    && (forall b, c :: b in v.bans && c in w.bans && b.id == c.id ==> b == c)
    && RostersAgree(v.roster, w.roster)
    && (forall g, h :: g in v.messages && h in w.messages && g.id == h.id ==> g == h)
  }

  /** Boards that can be merged, that agree, and whose bans fit together. */
  ghost predicate Compatible(cfg: Config, p: Plan) {
    && (forall s :: s in Boards(p) ==> Mergeable(cfg, s))
    && (forall s, t :: s in Boards(p) && t in Boards(p) && s != t ==> Agree(s, t))
    && RoomFor(cfg, PlanBans(p))
  }

  lemma AgreeIsWorldsAgree(s: Snapshot, t: Snapshot)
    requires Agree(s, t)
    ensures WorldsAgree(WorldOf(s), WorldOf(t))
  {
  }

  lemma SelfAgrees(cfg: Config, s: Snapshot)
    requires Mergeable(cfg, s)
    ensures Agree(s, s)
  {
  }

  lemma RostersSwap(v: World, w: World)
    requires RostersAgree(v.roster, w.roster)
    ensures Union(v, w) == Union(w, v) && RostersAgree(w.roster, v.roster)
  {
    var a, b := v.roster + w.roster, w.roster + v.roster;
    assert a.Keys == b.Keys;
    assert forall k :: k in a ==> a[k] == b[k];
    assert v.bans + w.bans == w.bans + v.bans && v.messages + w.messages == w.messages + v.messages;
  }

  lemma WorldsAgreeSwap(v: World, w: World)
    requires WorldsAgree(v, w)
    ensures WorldsAgree(w, v)
  {
  }

  lemma UnionAgrees(v: World, w: World, x: World)
    requires WorldsAgree(v, x) && WorldsAgree(w, x)
    ensures WorldsAgree(Union(v, w), x)
  {
  }

  lemma ClosuresAgree(owner: Id, v: World, s: Snapshot, w: World, t: Snapshot)
    requires IsClosureOf(owner, v, s) && IsClosureOf(owner, w, t) && WorldsAgree(v, w)
    ensures Agree(s, t)
  {
    forall b, c | b in s.bans && c in t.bans && b.id == c.id ensures b == c {
      assert b in v.bans && c in w.bans;
    }
    forall k | k in MembersById(s.members) && k in MembersById(t.members)
      ensures MembersById(s.members)[k] == MembersById(t.members)[k]
    {
      assert MembersById(s.members)[k] in s.members && MembersById(t.members)[k] in t.members;
    }
    forall g, h | g in s.messages && h in t.messages && g.id == h.id ensures g == h {
      assert g in v.messages && h in w.messages;
    }
  }

  /** A mergeable board is the closure of what it holds. */
  lemma SettledIsClosure(cfg: Config, s: Snapshot)
    requires Mergeable(cfg, s)
    ensures IsClosureOf(cfg.owner, WorldOf(s), s)
  {
    InvIsClosure(cfg.owner, s);
  }

  lemma InvIsClosure(owner: Id, s: Snapshot)
    requires Inv(owner, s)
    ensures IsClosureOf(owner, WorldOf(s), s)
  {
    EveryoneHereCounts(owner, s);
    ListIsClosure(owner, s);
  }

  lemma EveryoneHereCounts(owner: Id, s: Snapshot)
    requires MembersInv(owner, s)
    requires forall g :: g in s.messages ==> g.author == owner || g.author in MembersById(s.members)
    ensures forall g :: g in s.messages ==> Speaks(owner, WorldOf(s), g.author)
    ensures forall m :: m in s.members ==> Active(owner, WorldOf(s), m.id)
  {
    NobodyHereIsBanned(owner, s);
    EveryoneHereIsActive(owner, s);
  }

  lemma ListIsClosure(owner: Id, s: Snapshot)
    requires Sorted(s.bans, BanKey) && StrictlySorted(s.members, MemberKey)
    requires Sorted(s.messages, MessageKey) && DistinctIds(s.members) && s.actions == Rebuilt(s.messages)
    requires forall g :: g in s.messages ==> Speaks(owner, WorldOf(s), g.author)
    requires forall m :: m in s.members ==> Active(owner, WorldOf(s), m.id)
    ensures IsClosureOf(owner, WorldOf(s), s)
  {
    ByIdDistinct(s.members);
  }

  lemma NobodyHereIsBanned(owner: Id, s: Snapshot)
    requires MembersInv(owner, s)
    requires forall g :: g in s.messages ==> g.author == owner || g.author in MembersById(s.members)
    ensures forall x :: x in MembersById(s.members) ==> !Banned(owner, WorldOf(s), x)
    ensures forall g :: g in s.messages ==> Speaks(owner, WorldOf(s), g.author)
  {
    forall x | x in MembersById(s.members) ensures !Banned(owner, WorldOf(s), x) {
      assert MembersById(s.members)[x] in s.members;
      CondemnedIsBanned(owner, WorldOf(s), s.bans, x);
    }
  }

  lemma EveryoneHereIsActive(owner: Id, s: Snapshot)
    requires forall g :: g in s.messages ==> Speaks(owner, WorldOf(s), g.author)
    requires forall m {:trigger Required(MembersById(s.members), owner, s.messages, m.id)} :: m in s.members ==>
               Required(MembersById(s.members), owner, s.messages, m.id)
    ensures forall m :: m in s.members ==> Active(owner, WorldOf(s), m.id)
  {
    forall m | m in s.members ensures Active(owner, WorldOf(s), m.id) {
      RequiredIsActive(owner, s, m.id);
    }
  }

  lemma RequiredIsActive(owner: Id, s: Snapshot, x: Id)
    requires forall g :: g in s.messages ==> Speaks(owner, WorldOf(s), g.author)
    requires Required(MembersById(s.members), owner, s.messages, x)
    ensures Active(owner, WorldOf(s), x)
  {
    var r := MembersById(s.members);
    var g :| g in s.messages && g.author != owner && g.author in r && Above(r, owner, x, g.author);
    assert g in WorldOf(s).messages;
  }

  /** Merging the closures of two worlds gives the closure of both. */
  lemma MergeClosures(cfg: Config, v: World, s: Snapshot, w: World, t: Snapshot) returns (m: Snapshot)
    requires Mergeable(cfg, s) && Mergeable(cfg, t) && WorldsAgree(v, w) && BansFit(cfg, s, t)
    requires Coherent(cfg.owner, v) && IsClosureOf(cfg.owner, v, s)
    requires Coherent(cfg.owner, w) && IsClosureOf(cfg.owner, w, t)
    ensures Merge(cfg, s, t) == Some(m) && Mergeable(cfg, m) && m.bans == Sort(BansTogether(s.bans, t.bans), BanKey)
    ensures IsClosureOf(cfg.owner, Union(v, w), m) && Coherent(cfg.owner, Union(v, w))
  {
    ClosuresAgree(cfg.owner, v, s, w, t);
    m := MergeIsClosure(cfg, s, t);
    MergeableCoherent(cfg, s);
    MergeableCoherent(cfg, t);
    BothAbsorbed(cfg.owner, v, s, w, t, m);
    UnionCoherent(cfg.owner, v, w);
  }

  lemma BothAbsorbed(owner: Id, v: World, s: Snapshot, w: World, t: Snapshot, m: Snapshot)
    requires Coherent(owner, v) && IsClosureOf(owner, v, s) && DistinctIds(s.members) && Coherent(owner, WorldOf(s))
    requires Coherent(owner, w) && IsClosureOf(owner, w, t) && DistinctIds(t.members) && Coherent(owner, WorldOf(t))
    requires WorldsAgree(v, w) && IsClosureOf(owner, Union(WorldOf(s), WorldOf(t)), m)
    ensures IsClosureOf(owner, Union(v, w), m)
  {
    ClosureRosterAgrees(owner, w, t, v.roster);
    ClosureAbsorbs(owner, v, s, WorldOf(t), m);
    RostersSwap(v, WorldOf(t));
    ClosureAbsorbs(owner, w, t, v, m);
    RostersSwap(v, w);
  }

  lemma ClosureRosterAgrees(owner: Id, w: World, t: Snapshot, r: Roster)
    requires IsClosureOf(owner, w, t) && RostersAgree(r, w.roster)
    ensures RostersAgree(r, WorldOf(t).roster)
  {
    forall k | k in r && k in WorldOf(t).roster ensures r[k] == WorldOf(t).roster[k] {
      assert MembersById(t.members)[k] in t.members;
    }
  }

  // ---------- Plans ----------

  lemma {:induction false} PlanAgrees(p: Plan, w: World)
    requires forall s :: s in Boards(p) ==> WorldsAgree(WorldOf(s), w)
    ensures WorldsAgree(PlanWorld(p), w)
  {
    match p
    case One(s) => assert s in Boards(p);
    case Both(a, b) =>
      PlanAgrees(a, w);
      PlanAgrees(b, w);
      UnionAgrees(PlanWorld(a), PlanWorld(b), w);
  }

  lemma AgreesWithEach(cfg: Config, p: Plan, s: Snapshot, t: Snapshot)
    requires Compatible(cfg, p) && s in Boards(p) && t in Boards(p)
    ensures WorldsAgree(WorldOf(s), WorldOf(t))
  {
    if s == t {
      SelfAgrees(cfg, s);
    }
    AgreeIsWorldsAgree(s, t);
  }

  lemma PlansAgree(cfg: Config, p: Plan, a: Plan, b: Plan)
    requires Compatible(cfg, p) && p == Both(a, b)
    ensures WorldsAgree(PlanWorld(a), PlanWorld(b))
  {
    forall t | t in Boards(b) ensures WorldsAgree(WorldOf(t), PlanWorld(a)) {
      forall s | s in Boards(a) ensures WorldsAgree(WorldOf(s), WorldOf(t)) {
        AgreesWithEach(cfg, p, s, t);
      }
      PlanAgrees(a, WorldOf(t));
      WorldsAgreeSwap(PlanWorld(a), WorldOf(t));
    }
    PlanAgrees(b, PlanWorld(a));
    WorldsAgreeSwap(PlanWorld(b), PlanWorld(a));
  }

  lemma HalvesCompatible(cfg: Config, p: Plan, a: Plan, b: Plan)
    requires Compatible(cfg, p) && p == Both(a, b)
    ensures Compatible(cfg, a) && Compatible(cfg, b)
  {
    FewerAreSmaller(PlanBans(a), PlanBans(p));
    FewerAreSmaller(PlanBans(b), PlanBans(p));
  }

  /** Every plan over compatible boards is accepted merge by merge and ends with the closure of all they hold. */
  lemma {:induction false} PlanCloses(cfg: Config, p: Plan) returns (m: Snapshot)
    requires Compatible(cfg, p)
    ensures Outcome(cfg, p) == Some(m) && Mergeable(cfg, m)
    ensures IsClosureOf(cfg.owner, PlanWorld(p), m) && Coherent(cfg.owner, PlanWorld(p))
    ensures multiset(m.bans) <= PlanBans(p)
  {
    match p
    case One(s) =>
      assert s in Boards(p);
      SettledIsClosure(cfg, s);
      MergeableCoherent(cfg, s);
      m := s;
    case Both(a, b) =>
      HalvesCompatible(cfg, p, a, b);
      PlansAgree(cfg, p, a, b);
      var s := PlanCloses(cfg, a);
      var t := PlanCloses(cfg, b);
      WithinMost(multiset(s.bans), PlanBans(a), PlanBans(b));
      WithinMost(multiset(t.bans), PlanBans(a), PlanBans(b));
      m := MergeWithin(cfg, PlanBans(p), PlanWorld(a), s, PlanWorld(b), t);
      OutcomeOfBoth(cfg, a, b, s, t);
  }

  lemma OutcomeOfBoth(cfg: Config, l: Plan, r: Plan, s: Snapshot, t: Snapshot)
    requires Outcome(cfg, l) == Some(s) && Outcome(cfg, r) == Some(t)
    ensures Outcome(cfg, Both(l, r)) == Merge(cfg, s, t)
  {
  }

  lemma MergeWithin(cfg: Config, all: multiset<AuthorizedUserBan>, v: World, s: Snapshot, w: World, t: Snapshot)
    returns (m: Snapshot)
    requires RoomFor(cfg, all) && multiset(s.bans) <= all && multiset(t.bans) <= all
    requires Mergeable(cfg, s) && Mergeable(cfg, t) && WorldsAgree(v, w)
    requires Coherent(cfg.owner, v) && IsClosureOf(cfg.owner, v, s)
    requires Coherent(cfg.owner, w) && IsClosureOf(cfg.owner, w, t)
    ensures Merge(cfg, s, t) == Some(m) && Mergeable(cfg, m) && multiset(m.bans) <= all
    ensures IsClosureOf(cfg.owner, Union(v, w), m) && Coherent(cfg.owner, Union(v, w))
  {
    RoomToFit(cfg, s, t, all);
    m := MergeClosures(cfg, v, s, w, t);
  }

  // ---------- The world depends only on which boards take part ----------

  lemma {:induction false} WorldElements(p: Plan)
    ensures forall b :: b in PlanWorld(p).bans <==> exists s :: s in Boards(p) && b in s.bans
    ensures forall g :: g in PlanWorld(p).messages <==> exists s :: s in Boards(p) && g in s.messages
    ensures forall k :: k in PlanWorld(p).roster <==> exists s :: s in Boards(p) && k in MembersById(s.members)
  {
    match p
    case One(s) => assert s in Boards(p);
    case Both(a, b) =>
      WorldElements(a);
      WorldElements(b);
  }

  lemma WorldRecords(cfg: Config, p: Plan, s: Snapshot)
    requires Compatible(cfg, p) && s in Boards(p)
    ensures RostersAgree(PlanWorld(p).roster, WorldOf(s).roster)
  {
    forall t | t in Boards(p) ensures WorldsAgree(WorldOf(t), WorldOf(s)) {
      AgreesWithEach(cfg, p, t, s);
    }
    PlanAgrees(p, WorldOf(s));
  }

  lemma SameCollected(p: Plan, q: Plan)
    requires forall s :: s in Boards(p) <==> s in Boards(q)
    ensures PlanWorld(p).bans == PlanWorld(q).bans
    ensures PlanWorld(p).messages == PlanWorld(q).messages
  {
    WorldElements(p);
    WorldElements(q);
  }

  lemma SameBoards(p: Plan, q: Plan)
    requires Elements(Boards(p)) == Elements(Boards(q))
    ensures forall s :: s in Boards(p) <==> s in Boards(q)
  {
    forall s ensures s in Boards(p) <==> s in Boards(q) {
      assert s in Boards(p) <==> s in Elements(Boards(p));
      assert s in Boards(q) <==> s in Elements(Boards(q));
    }
  }

  lemma SameCompatible(cfg: Config, p: Plan, q: Plan)
    requires Compatible(cfg, p) && PlanBans(p) == PlanBans(q)
    requires forall s :: s in Boards(p) <==> s in Boards(q)
    ensures Compatible(cfg, q)
  {
  }

  /** The most often any board holds the ban. */
  ghost predicate IsMost(boards: seq<Snapshot>, b: AuthorizedUserBan, n: nat) {
    && (forall s :: s in boards ==> multiset(s.bans)[b] <= n)
    && exists s :: s in boards && multiset(s.bans)[b] == n
  }

  lemma {:induction false} PlanBansMost(p: Plan, b: AuthorizedUserBan)
    ensures IsMost(Boards(p), b, PlanBans(p)[b])
  {
    match p
    case One(s) => assert s in Boards(p);
    case Both(l, r) =>
      PlanBansMost(l, b);
      PlanBansMost(r, b);
      MostOfBoth(Boards(l), Boards(r), b, PlanBans(l)[b], PlanBans(r)[b]);
  }

  lemma MostOfBoth(l: seq<Snapshot>, r: seq<Snapshot>, b: AuthorizedUserBan, n: nat, k: nat)
    requires IsMost(l, b, n) && IsMost(r, b, k)
    ensures IsMost(l + r, b, if n > k then n else k)
  {
    var s :| s in l && multiset(s.bans)[b] == n;
    var t :| t in r && multiset(t.bans)[b] == k;
    assert s in l + r && t in l + r;
  }

  lemma SamePlanBans(p: Plan, q: Plan)
    requires forall s :: s in Boards(p) <==> s in Boards(q)
    ensures PlanBans(p) == PlanBans(q)
  {
    forall b ensures PlanBans(p)[b] == PlanBans(q)[b] {
      PlanBansMost(p, b);
      PlanBansMost(q, b);
    }
  }

  lemma SameWorld(cfg: Config, p: Plan, q: Plan)
    requires Compatible(cfg, p) && Elements(Boards(p)) == Elements(Boards(q))
    ensures Compatible(cfg, q) && PlanWorld(p) == PlanWorld(q)
  {
    SameBoards(p, q);
    SameCollected(p, q);
    SamePlanBans(p, q);
    SameCompatible(cfg, p, q);
    CompatibleKnown(cfg, p);
    CompatibleKnown(cfg, q);
    SameRosters(p, q);
  }

  /** The plan's table holds the record that each board that lists someone has of them. */
  ghost predicate RecordsKnown(p: Plan) {
    forall s :: s in Boards(p) ==> RostersAgree(PlanWorld(p).roster, WorldOf(s).roster)
  }

  lemma CompatibleKnown(cfg: Config, p: Plan)
    requires Compatible(cfg, p)
    ensures RecordsKnown(p)
  {
    forall s | s in Boards(p) ensures RostersAgree(PlanWorld(p).roster, WorldOf(s).roster) {
      WorldRecords(cfg, p, s);
    }
  }

  ghost predicate Within(r: Roster, t: Roster) {
    forall k :: k in r ==> k in t && t[k] == r[k]
  }

  lemma EitherWithin(r: Roster, t: Roster)
    requires Within(r, t) && Within(t, r)
    ensures r == t
  {
    forall k | k in r ensures k in t && t[k] == r[k] {
    }
    forall k | k in t ensures k in r {
    }
  }

  lemma RecordsWithin(p: Plan, q: Plan)
    requires RecordsKnown(p) && RecordsKnown(q) && forall s :: s in Boards(p) <==> s in Boards(q)
    ensures Within(PlanWorld(p).roster, PlanWorld(q).roster)
  {
    forall k | k in PlanWorld(p).roster
      ensures k in PlanWorld(q).roster && PlanWorld(q).roster[k] == PlanWorld(p).roster[k]
    {
      SameRecord(p, q, k);
    }
  }

  lemma SameRosters(p: Plan, q: Plan)
    requires RecordsKnown(p) && RecordsKnown(q) && forall s :: s in Boards(p) <==> s in Boards(q)
    ensures PlanWorld(p).roster == PlanWorld(q).roster
  {
    RecordsWithin(p, q);
    RecordsWithin(q, p);
    EitherWithin(PlanWorld(p).roster, PlanWorld(q).roster);
  }

  lemma SameRecord(p: Plan, q: Plan, k: Id)
    requires RecordsKnown(p) && RecordsKnown(q) && forall s :: s in Boards(p) <==> s in Boards(q)
    requires k in PlanWorld(p).roster
    ensures k in PlanWorld(q).roster && PlanWorld(q).roster[k] == PlanWorld(p).roster[k]
  {
    var s := ListedBy(p, k);
    ListsItself(q, s, k);
  }

  lemma ListedBy(p: Plan, k: Id) returns (s: Snapshot)
    requires k in PlanWorld(p).roster
    ensures s in Boards(p) && k in WorldOf(s).roster
  {
    WorldElements(p);
    s :| s in Boards(p) && k in MembersById(s.members);
  }

  lemma ListsItself(p: Plan, s: Snapshot, k: Id)
    requires s in Boards(p) && k in WorldOf(s).roster
    ensures k in PlanWorld(p).roster
  {
    WorldElements(p);
  }

  /** Any two ways of merging the same boards, whatever the order, the grouping and the repetitions, are accepted and
      give the same bans, members, messages and action state, if perhaps not each ban and message equally often. */
  lemma MergeOrderIrrelevant(cfg: Config, p: Plan, q: Plan)
    requires Compatible(cfg, p) && Elements(Boards(p)) == Elements(Boards(q))
    ensures Outcome(cfg, p).Some? && Outcome(cfg, q).Some?
    ensures SameUpToRepeats(Outcome(cfg, p).value, Outcome(cfg, q).value)
  {
    SameWorld(cfg, p, q);
    var m := PlanCloses(cfg, p);
    var n := PlanCloses(cfg, q);
    MergedLogsAgree(cfg, PlanWorld(p), m, n);
    ClosureUnique(cfg.owner, PlanWorld(p), m, n);
  }
}
