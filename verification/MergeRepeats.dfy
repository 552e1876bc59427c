/** Bans and messages that stand on a board more than once. A delta may repeat them, and a merge keeps each as often as
    the first board that holds it; so the order of merges shows in how often a record occurs, the grouping never. */
module MergeRepeats {
  import opened Lists
  import opened Records
  import opened Forest
  import opened Members
  import opened Bans
  import S = Secrets
  import opened Actions
  import M = Messages
  import opened Board
  import opened Runs
  import opened Convergence
  import opened MergeOrder

  function FirstOf(n: nat, k: nat): nat {
    if n > 0 then n else k
  }

  /** How often s holds the ban, and the message. */
  function BanCount(s: Snapshot, b: AuthorizedUserBan): nat {
    multiset(s.bans)[b]
  }

  function MessageCount(s: Snapshot, g: AuthorizedMessage): nat {
    multiset(s.messages)[g]
  }

  // ---------- One merge ----------

  lemma BansTogetherCount(bs: seq<AuthorizedUserBan>, cs: seq<AuthorizedUserBan>, b: AuthorizedUserBan)
    requires BansAgree(bs, cs)
    ensures multiset(Sort(BansTogether(bs, cs), BanKey))[b] == FirstOf(multiset(bs)[b], multiset(cs)[b])
  {
    SortSorts(BansTogether(bs, cs), BanKey);
    FilterCounts(cs, (c: AuthorizedUserBan) => c.id !in BanIds(bs), b);
    if b.id in BanIds(bs) && b in cs {
      var c :| c in bs && c.id == b.id;
    }
  }

  lemma LogsTogetherCount(ms: seq<AuthorizedMessage>, ns: seq<AuthorizedMessage>, g: AuthorizedMessage)
    requires M.Agree(ms, ns)
    ensures multiset(LogsTogether(ms, ns))[g] == FirstOf(multiset(ms)[g], multiset(ns)[g])
  {
    FilterCounts(ns, (n: AuthorizedMessage) => n.id !in M.MessageIds(ms), g);
    if g.id in M.MessageIds(ms) && g in ns {
      var m :| m in ms && m.id == g.id;
    }
  }

  lemma KeptCount(cfg: Config, r: Roster, ms: seq<AuthorizedMessage>, g: AuthorizedMessage)
    ensures multiset(M.Kept(cfg, r, ms))[g] == if g in M.Kept(cfg, r, ms) then multiset(ms)[g] else 0
  {
    var allowed := (m: AuthorizedMessage) => M.Allowed(cfg, r, m);
    SortSorts(Filter(ms, allowed), MessageKey);
    FilterCounts(ms, allowed, g);
  }

  /** m holds each ban, and each message it holds at all, as often as the first of s and t that holds it. */
  ghost predicate CountsMerged(s: Snapshot, t: Snapshot, m: Snapshot) {
    && (forall b :: BanCount(m, b) == FirstOf(BanCount(s, b), BanCount(t, b)))
    && (forall g :: g in m.messages ==> MessageCount(m, g) == FirstOf(MessageCount(s, g), MessageCount(t, g)))
  }

  lemma MergedCounts(cfg: Config, s: Snapshot, t: Snapshot) returns (m: Snapshot)
    requires Mergeable(cfg, s) && Mergeable(cfg, t) && Agree(s, t) && BansFit(cfg, s, t)
    ensures Merge(cfg, s, t) == Some(m) && Mergeable(cfg, m) && CountsMerged(s, t, m)
  {
    m := MergeIsClosure(cfg, s, t);
    MergeableIsSendable(cfg, s);
    MergeableIsSendable(cfg, t);
    var mid := MergeParts(cfg, s, t);
    assert m.messages == mid.messages;
    PartsCounted(cfg, s, t, mid, m);
  }

  lemma PartsCounted(cfg: Config, s: Snapshot, t: Snapshot, mid: Snapshot, m: Snapshot)
    requires BansAgree(s.bans, t.bans) && M.Agree(s.messages, t.messages)
    requires m.bans == Sort(BansTogether(s.bans, t.bans), BanKey) && m.messages == mid.messages
    requires mid.messages == M.Kept(cfg, MembersById(mid.members), LogsTogether(s.messages, t.messages))
    ensures CountsMerged(s, t, m)
  {
    forall b ensures BanCount(m, b) == FirstOf(BanCount(s, b), BanCount(t, b)) {
      BansTogetherCount(s.bans, t.bans, b);
    }
    forall g | g in m.messages ensures MessageCount(m, g) == FirstOf(MessageCount(s, g), MessageCount(t, g)) {
      KeptCount(cfg, MembersById(mid.members), LogsTogether(s.messages, t.messages), g);
      LogsTogetherCount(s.messages, t.messages, g);
    }
  }

  // ---------- When two outcomes are one ----------

  ghost predicate SameCounts(s: Snapshot, t: Snapshot) {
    && (forall b :: BanCount(s, b) == BanCount(t, b))
    && (forall g :: MessageCount(s, g) == MessageCount(t, g))
  }

  lemma SameBanLists(bs: seq<AuthorizedUserBan>, cs: seq<AuthorizedUserBan>)
    requires Sorted(bs, BanKey) && Sorted(cs, BanKey) && BansAgree(bs, bs)
    requires forall b :: multiset(bs)[b] == multiset(cs)[b]
    ensures bs == cs
  {
    assert multiset(bs) == multiset(cs);
    SortedListOnce(bs, cs, BanKey);
  }

  lemma SameLogs(ms: seq<AuthorizedMessage>, ns: seq<AuthorizedMessage>)
    requires Sorted(ms, MessageKey) && Sorted(ns, MessageKey) && M.Agree(ms, ms)
    requires forall g :: multiset(ms)[g] == multiset(ns)[g]
    ensures ms == ns
  {
    assert multiset(ms) == multiset(ns);
    SortedListOnce(ms, ns, MessageKey);
  }

  /** Boards that agree up to repeats are the same exactly when each record occurs equally often. */
  lemma SameExactly(cfg: Config, s: Snapshot, t: Snapshot)
    requires Mergeable(cfg, s) && Mergeable(cfg, t) && SameUpToRepeats(s, t)
    ensures SameCore(s, t) <==> SameCounts(s, t)
  {
    if SameCounts(s, t) {
      SameLists(cfg, s, t);
    }
  }

  lemma SameLists(cfg: Config, s: Snapshot, t: Snapshot)
    requires Sorted(s.bans, BanKey) && Sorted(t.bans, BanKey) && BansAgree(s.bans, s.bans)
    requires Sorted(s.messages, MessageKey) && Sorted(t.messages, MessageKey) && M.Agree(s.messages, s.messages)
    requires SameCounts(s, t)
    ensures s.bans == t.bans && s.messages == t.messages
  {
    forall b ensures multiset(s.bans)[b] == multiset(t.bans)[b] {
      assert BanCount(s, b) == BanCount(t, b);
    }
    forall g ensures multiset(s.messages)[g] == multiset(t.messages)[g] {
      assert MessageCount(s, g) == MessageCount(t, g);
    }
    SameBanLists(s.bans, t.bans);
    SameLogs(s.messages, t.messages);
  }

  // ---------- Order ----------

  /** Every ban both boards hold, and every message of both that m keeps, occurs equally often on both. */
  ghost predicate EquallyOften(s: Snapshot, t: Snapshot, m: Snapshot) {
    && (forall b :: b in s.bans && b in t.bans ==> BanCount(s, b) == BanCount(t, b))
    && (forall g :: g in m.messages && g in s.messages && g in t.messages ==> MessageCount(s, g) == MessageCount(t, g))
  }

  /** Merging either way gives one and the same board, member info apart, exactly when what both boards hold and the
      merge keeps occurs equally often on both. */
  lemma CommutesExactly(cfg: Config, s: Snapshot, t: Snapshot)
    requires Mergeable(cfg, s) && Mergeable(cfg, t) && Agree(s, t)
    requires BansFit(cfg, s, t) && BansFit(cfg, t, s)
    ensures Merge(cfg, s, t).Some? && Merge(cfg, t, s).Some?
    ensures var st := Merge(cfg, s, t).value;
            SameCore(st, Merge(cfg, t, s).value) <==> EquallyOften(s, t, st)
  {
    MergeCommutes(cfg, s, t);
    AgreeSwap(s, t);
    var st := MergedCounts(cfg, s, t);
    var ts := MergedCounts(cfg, t, s);
    SameExactly(cfg, st, ts);
    EitherFirst(s, t, st, ts);
  }

  lemma EitherFirst(s: Snapshot, t: Snapshot, st: Snapshot, ts: Snapshot)
    requires CountsMerged(s, t, st) && CountsMerged(t, s, ts) && SameUpToRepeats(st, ts)
    ensures SameCounts(st, ts) <==> EquallyOften(s, t, st)
  {
    forall b ensures BanCount(st, b) == BanCount(ts, b)
                     <==> (b in s.bans && b in t.bans ==> BanCount(s, b) == BanCount(t, b)) {
    }
    forall g ensures MessageCount(st, g) == MessageCount(ts, g)
                     <==> (g in st.messages && g in s.messages && g in t.messages ==>
                             MessageCount(s, g) == MessageCount(t, g)) {
    }
  }

  // ---------- Any number of boards ----------

  /** How often the first of the boards that holds the ban, or the message, holds it. */
  function FirstBanCount(boards: seq<Snapshot>, b: AuthorizedUserBan): nat {
    if boards == [] then 0 else FirstOf(BanCount(boards[0], b), FirstBanCount(boards[1..], b))
  }

  function FirstMessageCount(boards: seq<Snapshot>, g: AuthorizedMessage): nat {
    if boards == [] then 0 else FirstOf(MessageCount(boards[0], g), FirstMessageCount(boards[1..], g))
  }

  lemma {:induction false} FirstBanOfBoth(l: seq<Snapshot>, r: seq<Snapshot>, b: AuthorizedUserBan)
    ensures FirstBanCount(l + r, b) == FirstOf(FirstBanCount(l, b), FirstBanCount(r, b))
  {
    if l == [] {
      assert l + r == r;
    } else {
      assert (l + r)[1..] == l[1..] + r;
      FirstBanOfBoth(l[1..], r, b);
    }
  }

  lemma {:induction false} FirstMessageOfBoth(l: seq<Snapshot>, r: seq<Snapshot>, g: AuthorizedMessage)
    ensures FirstMessageCount(l + r, g) == FirstOf(FirstMessageCount(l, g), FirstMessageCount(r, g))
  {
    if l == [] {
      assert l + r == r;
    } else {
      assert (l + r)[1..] == l[1..] + r;
      FirstMessageOfBoth(l[1..], r, g);
    }
  }

  /** The outcome holds each record as often as the first of the plan's boards that holds it. */
  ghost predicate CountedFirst(boards: seq<Snapshot>, m: Snapshot) {
    && (forall b :: BanCount(m, b) == FirstBanCount(boards, b))
    && (forall g :: g in m.messages ==> MessageCount(m, g) == FirstMessageCount(boards, g))
  }

  lemma {:induction false} FirstMessageHeld(p: Plan, g: AuthorizedMessage)
    ensures FirstMessageCount(Boards(p), g) > 0 <==> g in PlanWorld(p).messages
  {
    match p
    case One(s) =>
      assert Boards(p)[1..] == [];
    case Both(l, r) =>
      FirstMessageHeld(l, g);
      FirstMessageHeld(r, g);
      FirstMessageOfBoth(Boards(l), Boards(r), g);
  }

  lemma {:induction false} PlanCounts(cfg: Config, p: Plan) returns (m: Snapshot)
    requires Compatible(cfg, p)
    ensures Outcome(cfg, p) == Some(m) && CountedFirst(Boards(p), m)
  {
    m := PlanCloses(cfg, p);
    match p
    case One(s) =>
      OneCounted(s);
    case Both(l, r) =>
      HalvesCompatible(cfg, p, l, r);
      var s := PlanCounts(cfg, l);
      var t := PlanCounts(cfg, r);
      HalvesCounted(cfg, p, l, r, s, t, m);
  }

  lemma OneCounted(s: Snapshot)
    ensures CountedFirst([s], s)
  {
    assert [s][1..] == [];
  }

  lemma HalvesCounted(cfg: Config, p: Plan, l: Plan, r: Plan, s: Snapshot, t: Snapshot, m: Snapshot)
    requires Compatible(cfg, p) && p == Both(l, r)
    requires Outcome(cfg, l) == Some(s) && Outcome(cfg, r) == Some(t) && Outcome(cfg, p) == Some(m)
    requires CountedFirst(Boards(l), s) && CountedFirst(Boards(r), t)
    ensures CountedFirst(Boards(p), m)
  {
    MergedHalves(cfg, p, l, r, s, t, m);
    ClosedHalves(cfg, p, l, r, s, t, m);
    BothCounted(cfg.owner, l, r, s, t, m);
  }

  lemma HalfCloses(cfg: Config, l: Plan, s: Snapshot)
    requires Compatible(cfg, l) && Outcome(cfg, l) == Some(s)
    ensures Mergeable(cfg, s) && IsClosureOf(cfg.owner, PlanWorld(l), s) && multiset(s.bans) <= PlanBans(l)
    ensures Coherent(cfg.owner, PlanWorld(l))
  {
    var s' := PlanCloses(cfg, l);
  }

  lemma HalvesFit(cfg: Config, p: Plan, l: Plan, r: Plan, s: Snapshot, t: Snapshot)
    requires RoomFor(cfg, PlanBans(p)) && p == Both(l, r) && WorldsAgree(PlanWorld(l), PlanWorld(r))
    requires IsClosureOf(cfg.owner, PlanWorld(l), s) && multiset(s.bans) <= PlanBans(l)
    requires IsClosureOf(cfg.owner, PlanWorld(r), t) && multiset(t.bans) <= PlanBans(r)
    ensures Agree(s, t) && BansFit(cfg, s, t)
  {
    ClosuresAgree(cfg.owner, PlanWorld(l), s, PlanWorld(r), t);
    WithinMost(multiset(s.bans), PlanBans(l), PlanBans(r));
    WithinMost(multiset(t.bans), PlanBans(l), PlanBans(r));
    RoomToFit(cfg, s, t, PlanBans(p));
  }

  lemma HalvesReady(cfg: Config, p: Plan, l: Plan, r: Plan, s: Snapshot, t: Snapshot)
    requires Compatible(cfg, p) && p == Both(l, r) && Outcome(cfg, l) == Some(s) && Outcome(cfg, r) == Some(t)
    ensures Mergeable(cfg, s) && Mergeable(cfg, t) && Agree(s, t) && BansFit(cfg, s, t)
  {
    HalvesCompatible(cfg, p, l, r);
    PlansAgree(cfg, p, l, r);
    HalfCloses(cfg, l, s);
    HalfCloses(cfg, r, t);
    HalvesFit(cfg, p, l, r, s, t);
  }

  lemma MergedHalves(cfg: Config, p: Plan, l: Plan, r: Plan, s: Snapshot, t: Snapshot, m: Snapshot)
    requires Compatible(cfg, p) && p == Both(l, r)
    requires Outcome(cfg, l) == Some(s) && Outcome(cfg, r) == Some(t) && Outcome(cfg, p) == Some(m)
    ensures CountsMerged(s, t, m)
  {
    HalvesReady(cfg, p, l, r, s, t);
    OutcomeOfBoth(cfg, l, r, s, t);
    var merged := MergedCounts(cfg, s, t);
  }

  lemma ClosedHalves(cfg: Config, p: Plan, l: Plan, r: Plan, s: Snapshot, t: Snapshot, m: Snapshot)
    requires Compatible(cfg, p) && p == Both(l, r)
    requires Outcome(cfg, l) == Some(s) && Outcome(cfg, r) == Some(t) && Outcome(cfg, p) == Some(m)
    ensures IsClosureOf(cfg.owner, PlanWorld(l), s) && IsClosureOf(cfg.owner, PlanWorld(r), t)
    ensures Coherent(cfg.owner, PlanWorld(l)) && Coherent(cfg.owner, PlanWorld(r))
    ensures WorldsAgree(PlanWorld(l), PlanWorld(r))
    ensures IsClosureOf(cfg.owner, Union(PlanWorld(l), PlanWorld(r)), m)
  {
    HalvesCompatible(cfg, p, l, r);
    PlansAgree(cfg, p, l, r);
    HalfCloses(cfg, l, s);
    HalfCloses(cfg, r, t);
    HalfCloses(cfg, p, m);
  }

  lemma BothCounted(owner: Id, l: Plan, r: Plan, s: Snapshot, t: Snapshot, m: Snapshot)
    requires CountsMerged(s, t, m) && CountedFirst(Boards(l), s) && CountedFirst(Boards(r), t)
    requires IsClosureOf(owner, PlanWorld(l), s) && IsClosureOf(owner, PlanWorld(r), t)
    requires Coherent(owner, PlanWorld(l)) && Coherent(owner, PlanWorld(r))
    requires WorldsAgree(PlanWorld(l), PlanWorld(r)) && IsClosureOf(owner, Union(PlanWorld(l), PlanWorld(r)), m)
    ensures CountedFirst(Boards(l) + Boards(r), m)
  {
    forall b ensures BanCount(m, b) == FirstBanCount(Boards(l) + Boards(r), b) {
      FirstBanOfBoth(Boards(l), Boards(r), b);
    }
    forall g | g in m.messages ensures MessageCount(m, g) == FirstMessageCount(Boards(l) + Boards(r), g) {
      FirstMessageOfBoth(Boards(l), Boards(r), g);
      HalvesHold(owner, l, r, s, t, g);
    }
  }

  lemma HalvesHold(owner: Id, l: Plan, r: Plan, s: Snapshot, t: Snapshot, g: AuthorizedMessage)
    requires CountedFirst(Boards(l), s) && IsClosureOf(owner, PlanWorld(l), s) && Coherent(owner, PlanWorld(l))
    requires CountedFirst(Boards(r), t) && IsClosureOf(owner, PlanWorld(r), t) && Coherent(owner, PlanWorld(r))
    requires WorldsAgree(PlanWorld(l), PlanWorld(r)) && Speaks(owner, Union(PlanWorld(l), PlanWorld(r)), g.author)
    ensures MessageCount(s, g) == FirstMessageCount(Boards(l), g)
    ensures MessageCount(t, g) == FirstMessageCount(Boards(r), g)
  {
    HalfCounted(owner, l, s, Union(PlanWorld(l), PlanWorld(r)), g);
    RostersSwap(PlanWorld(l), PlanWorld(r));
    HalfCounted(owner, r, t, Union(PlanWorld(l), PlanWorld(r)), g);
  }

  /** A message that counts in the end was counted by the half that held it. */
  lemma HalfCounted(owner: Id, l: Plan, s: Snapshot, whole: World, g: AuthorizedMessage)
    requires CountedFirst(Boards(l), s) && IsClosureOf(owner, PlanWorld(l), s) && Coherent(owner, PlanWorld(l))
    requires PlanWorld(l).bans <= whole.bans && Speaks(owner, whole, g.author)
    requires forall k :: k in PlanWorld(l).roster ==> k in whole.roster && whole.roster[k] == PlanWorld(l).roster[k]
    ensures MessageCount(s, g) == FirstMessageCount(Boards(l), g)
  {
    FirstMessageHeld(l, g);
    if g in PlanWorld(l).messages {
      if g.author != owner {
        SpeaksInLarger(owner, PlanWorld(l), whole, g.author);
      }
      assert g in s.messages;
    } else {
      assert g !in s.messages;
    }
  }

  /** What decides between two orders over the same boards: the first holder of each ban, and of each message that the
      outcome keeps. */
  ghost predicate FirstsAgree(p: Plan, q: Plan, m: Snapshot) {
    && (forall b :: FirstBanCount(Boards(p), b) == FirstBanCount(Boards(q), b))
    && (forall g :: g in m.messages ==> FirstMessageCount(Boards(p), g) == FirstMessageCount(Boards(q), g))
  }

  /** Two ways of merging the same boards give one and the same board, member info apart, exactly when in both orders
      the first board to hold a record that counts in the end holds it equally often. */
  lemma MergeOrderExactly(cfg: Config, p: Plan, q: Plan)
    requires Compatible(cfg, p) && Elements(Boards(p)) == Elements(Boards(q))
    ensures Outcome(cfg, p).Some? && Outcome(cfg, q).Some?
    ensures SameCore(Outcome(cfg, p).value, Outcome(cfg, q).value) <==> FirstsAgree(p, q, Outcome(cfg, p).value)
  {
    MergeOrderIrrelevant(cfg, p, q);
    SameWorld(cfg, p, q);
    var m := PlanCounts(cfg, p);
    var n := PlanCounts(cfg, q);
    var m' := PlanCloses(cfg, p);
    var n' := PlanCloses(cfg, q);
    SameExactly(cfg, m, n);
    FirstsDecide(p, q, m, n);
  }

  lemma FirstsDecide(p: Plan, q: Plan, m: Snapshot, n: Snapshot)
    requires CountedFirst(Boards(p), m) && CountedFirst(Boards(q), n) && SameUpToRepeats(m, n)
    ensures SameCounts(m, n) <==> FirstsAgree(p, q, m)
  {
    if FirstsAgree(p, q, m) {
      forall g ensures MessageCount(m, g) == MessageCount(n, g) {
        if g in m.messages {
          assert FirstMessageCount(Boards(p), g) == FirstMessageCount(Boards(q), g);
        }
      }
    }
    if SameCounts(m, n) {
      forall b ensures FirstBanCount(Boards(p), b) == FirstBanCount(Boards(q), b) {
        assert BanCount(m, b) == BanCount(n, b);
      }
    }
  }

  /** Grouping never shows: the same boards in the same order give one and the same board, member info apart. */
  lemma GroupingIrrelevant(cfg: Config, p: Plan, q: Plan)
    requires Compatible(cfg, p) && Boards(p) == Boards(q)
    ensures Outcome(cfg, p).Some? && Outcome(cfg, q).Some?
    ensures SameCore(Outcome(cfg, p).value, Outcome(cfg, q).value)
  {
    MergeOrderExactly(cfg, p, q);
  }

  /** In particular (s + t) + u and s + (t + u) are one and the same board, member info apart. */
  lemma AssociatesExactly(cfg: Config, s: Snapshot, t: Snapshot, u: Snapshot)
    requires Mergeable(cfg, s) && Mergeable(cfg, t) && Mergeable(cfg, u)
    requires Agree(s, t) && Agree(s, u) && Agree(t, u)
    requires RoomFor(cfg, BansOfThree(s, t, u))
    ensures Merge(cfg, s, t).Some? && Merge(cfg, t, u).Some?
    ensures var left, right := Merge(cfg, Merge(cfg, s, t).value, u), Merge(cfg, s, Merge(cfg, t, u).value);
            left.Some? && right.Some? && SameCore(left.value, right.value)
  {
    var p, q := Both(Both(One(s), One(t)), One(u)), Both(One(s), Both(One(t), One(u)));
    MergeAssociates(cfg, s, t, u);
    ThreeCompatible(cfg, s, t, u, p, q);
    GroupingIrrelevant(cfg, p, q);
    OutcomeOfThree(cfg, s, t, u, p, q);
  }

  lemma ThreeCompatible(cfg: Config, s: Snapshot, t: Snapshot, u: Snapshot, p: Plan, q: Plan)
    requires p == Both(Both(One(s), One(t)), One(u)) && q == Both(One(s), Both(One(t), One(u)))
    requires RoomFor(cfg, BansOfThree(s, t, u))
    requires Mergeable(cfg, s) && Mergeable(cfg, t) && Mergeable(cfg, u)
    requires Agree(s, t) && Agree(s, u) && Agree(t, u)
    ensures Compatible(cfg, p) && Boards(p) == Boards(q)
  {
    AgreeSwap(s, t);
    AgreeSwap(s, u);
    AgreeSwap(t, u);
    BoardsOfThree(s, t, u, p, q);
    AllOfThree(cfg, Boards(p), s, t, u);
  }

  lemma BoardsOfThree(s: Snapshot, t: Snapshot, u: Snapshot, p: Plan, q: Plan)
    requires p == Both(Both(One(s), One(t)), One(u)) && q == Both(One(s), Both(One(t), One(u)))
    ensures Boards(p) == [s, t, u] == Boards(q) && PlanBans(p) == BansOfThree(s, t, u)
  {
    assert Boards(p.first) == [s, t] && Boards(q.second) == [t, u];
    assert PlanBans(p.first) == MostOf(multiset(s.bans), multiset(t.bans));
  }

  lemma AllOfThree(cfg: Config, boards: seq<Snapshot>, s: Snapshot, t: Snapshot, u: Snapshot)
    requires boards == [s, t, u] && Mergeable(cfg, s) && Mergeable(cfg, t) && Mergeable(cfg, u)
    requires Agree(s, t) && Agree(s, u) && Agree(t, u) && Agree(t, s) && Agree(u, s) && Agree(u, t)
    ensures forall b :: b in boards ==> Mergeable(cfg, b)
    ensures forall b, c :: b in boards && c in boards && b != c ==> Agree(b, c)
  {
    forall b | b in boards ensures b == s || b == t || b == u {
    }
  }

  lemma OutcomeOfThree(cfg: Config, s: Snapshot, t: Snapshot, u: Snapshot, p: Plan, q: Plan)
    requires p == Both(Both(One(s), One(t)), One(u)) && q == Both(One(s), Both(One(t), One(u)))
    requires Merge(cfg, s, t).Some? && Merge(cfg, t, u).Some?
    ensures Outcome(cfg, p) == Merge(cfg, Merge(cfg, s, t).value, u)
    ensures Outcome(cfg, q) == Merge(cfg, s, Merge(cfg, t, u).value)
  {
    OutcomeOfBoth(cfg, One(s), One(t), s, t);
    OutcomeOfBoth(cfg, Both(One(s), One(t)), One(u), Merge(cfg, s, t).value, u);
    OutcomeOfBoth(cfg, One(t), One(u), t, u);
    OutcomeOfBoth(cfg, One(s), Both(One(t), One(u)), s, Merge(cfg, t, u).value);
  }

  // ---------- Where order shows ----------

  /** A delta that repeats a message of the owner is accepted, and the log keeps both. */
  lemma RepeatedMessageAccepted(cfg: Config, g: AuthorizedMessage)
    requires !cfg.privateMode && g.author == cfg.owner && g.body.Public? && M.TitleOk(cfg, g.body)
    requires g.body.ContentLen() <= cfg.maxMessageSize
    ensures var after := Applied(cfg, EMPTY_BOARD, Delta(None, None, None, None, Some([g, g])));
            after.Some? && after.value == EMPTY_BOARD.(messages := [g, g], actions := Rebuilt([g, g]))
  {
    var s := EMPTY_BOARD.(messages := [g, g], actions := Rebuilt([g, g]));
    var d := Delta(None, None, None, None, Some([g, g]));
    EmptyInv(cfg.owner);
    EmptyBansStep(map[], cfg, []);
    EmptyMembersStep(EMPTY_BOARD, cfg.owner);
    TwiceInLog(cfg, g);
    PartsAssemble(cfg, EMPTY_BOARD, d, s);
    OwnerBoardSettled(cfg, s);
    EmptyCleanup(cfg.owner, s);
  }

  /** So is a delta that repeats a ban of the owner, where there is room for both. */
  lemma RepeatedBanAccepted(r: Roster, cfg: Config, b: AuthorizedUserBan)
    requires b.bannedBy == cfg.owner && cfg.owner in b.signature && cfg.maxUserBans >= 2
    ensures BansApplied(r, cfg, [], Some([b, b])) == Some([b, b])
  {
    TwoOwnerBans(r, cfg, [b, b]);
  }

  lemma TwoOwnerBans(r: Roster, cfg: Config, two: seq<AuthorizedUserBan>)
    requires OwnerSigned(cfg.owner, two) && |two| <= cfg.maxUserBans && Sorted(two, BanKey)
    ensures BansApplied(r, cfg, [], Some(two)) == Some(two)
  {
    OwnerBansAccepted(r, cfg, [], two);
    assert [] + two == two;
    SortIdentity(two, BanKey);
  }

  lemma TwiceInLog(cfg: Config, g: AuthorizedMessage)
    requires !cfg.privateMode && g.author == cfg.owner && g.body.Public? && M.TitleOk(cfg, g.body)
    requires g.body.ContentLen() <= cfg.maxMessageSize
    ensures M.MessagesApplied(cfg, map[], S.EMPTY, [], Some([g, g])) == Some([g, g])
  {
    OwnerLogArrives(cfg, [g, g]);
  }

  lemma OwnerLogArrives(cfg: Config, log: seq<AuthorizedMessage>)
    requires !cfg.privateMode && Sorted(log, MessageKey)
    requires forall m :: m in log ==> m.author == cfg.owner && m.body.Public? && M.TitleOk(cfg, m.body)
    requires forall m :: m in log ==> m.body.ContentLen() <= cfg.maxMessageSize
    ensures M.MessagesApplied(cfg, map[], S.EMPTY, [], Some(log)) == Some(log)
  {
    FilterAll(log, (m: AuthorizedMessage) => m.id !in M.MessageIds([]));
    assert [] + log == log;
    FilterAll(log, (m: AuthorizedMessage) => M.Allowed(cfg, map[], m));
    SortIdentity(log, MessageKey);
  }

  lemma OwnerBoardSettled(cfg: Config, s: Snapshot)
    requires s.bans == [] && s.members == [] && s.memberInfo == [] && s.secrets == S.EMPTY
    requires s.actions == Rebuilt(s.messages) && Sorted(s.messages, MessageKey)
    requires forall g :: g in s.messages ==> g.author == cfg.owner && g.body.ContentLen() <= cfg.maxMessageSize
    ensures Settled(cfg, s)
  {
  }

  /** A board that holds a message twice and one that holds it once can be merged, and each keeps its own count. */
  lemma RepeatsDoNotCommute(cfg: Config, g: AuthorizedMessage)
    requires !cfg.privateMode && g.author == cfg.owner && g.body.Public? && M.TitleOk(cfg, g.body)
    requires g.body.ContentLen() <= cfg.maxMessageSize
    ensures var s := EMPTY_BOARD.(messages := [g, g], actions := Rebuilt([g, g]));
            var t := EMPTY_BOARD.(messages := [g], actions := Rebuilt([g]));
            && Mergeable(cfg, s) && Mergeable(cfg, t) && Agree(s, t)
            && Merge(cfg, s, t) == Some(s) && Merge(cfg, t, s) == Some(t) && s.messages != t.messages
  {
    var s := EMPTY_BOARD.(messages := [g, g], actions := Rebuilt([g, g]));
    var t := EMPTY_BOARD.(messages := [g], actions := Rebuilt([g]));
    OwnerBoardMergeable(cfg, s, g);
    OwnerBoardMergeable(cfg, t, g);
    NothingNew(cfg, s, t);
    NothingNew(cfg, t, s);
    assert |s.messages| != |t.messages|;
  }

  lemma OwnerBoardMergeable(cfg: Config, s: Snapshot, g: AuthorizedMessage)
    requires !cfg.privateMode && g.author == cfg.owner && M.TitleOk(cfg, g.body)
    requires g.body.ContentLen() <= cfg.maxMessageSize && forall m :: m in s.messages ==> m == g
    requires s.bans == [] && s.members == [] && s.memberInfo == [] && s.secrets == S.EMPTY
    requires s.actions == Rebuilt(s.messages)
    ensures Mergeable(cfg, s)
  {
    assert forall i :: 0 <= i < |s.messages| ==> s.messages[i] in s.messages;
    OwnerBoardSettled(cfg, s);
  }

  lemma NothingNew(cfg: Config, s: Snapshot, t: Snapshot)
    requires Settled(cfg, s) && s.secrets == S.EMPTY && t.secrets == S.EMPTY
    requires t.bans == [] && t.members == [] && t.memberInfo == [] && forall g :: g in t.messages ==> g in s.messages
    ensures Merge(cfg, s, t) == Some(s)
  {
    var ids := M.MessageIds(s.messages);
    FilterNone(t.messages, (g: AuthorizedMessage) => g.id !in ids);
    NothingLackedBySelf(S.EMPTY);
    assert DeltaSince(t, SummaryOf(s)) == NO_DELTA;
    SettledIsFixedPoint(cfg, s);
  }
}
