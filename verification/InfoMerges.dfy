/** Member info under merging. A merge keeps one record for each member left, the newer of the two boards'. It depends
    on order only through ties, and on grouping only through members that an early merge prunes. */
module InfoMerges {
  import opened Lists
  import opened Records
  import opened Forest
  import opened Members
  import opened Bans
  import opened MemberInfos
  import S = Secrets
  import opened Actions
  import M = Messages
  import opened Board
  import opened Runs
  import opened Convergence

  // ---------- One merge ----------

  /** The record of x is kept by s: x is the owner or listed. */
  predicate KeptBy(owner: Id, s: Snapshot, x: Id) {
    Kept(MembersById(s.members), owner, x)
  }

  /** What m must hold for x as the merge of s and t. */
  ghost predicate MergedRecord(owner: Id, s: Snapshot, t: Snapshot, m: Snapshot, x: Id) {
    RecordOf(m.memberInfo, x)
    == if KeptBy(owner, m, x) then Newer(RecordOf(s.memberInfo, x), RecordOf(t.memberInfo, x)) else None
  }

  /** Sending only what the peer lacks changes nothing of what the peer ends up with. */
  lemma SentRecord(infos: seq<AuthorizedMemberInfo>, others: seq<AuthorizedMemberInfo>, x: Id)
    requires DistinctInfos(infos) && DistinctInfos(others)
    ensures var sent := InfosBeyond(others, InfoVersions(infos));
            && DistinctInfos(sent)
            && Newer(RecordOf(infos, x), RecordOf(sent, x)) == Newer(RecordOf(infos, x), RecordOf(others, x))
  {
    var peer := InfoVersions(infos);
    InfoVersionsKnown(infos);
    FilterRecord(others, (i: AuthorizedMemberInfo) => i.memberId !in peer || i.version > peer[i.memberId], x);
  }

  lemma PartsRecord(r: Roster, cfg: Config, infos: seq<AuthorizedMemberInfo>, others: seq<AuthorizedMemberInfo>, x: Id)
    requires DistinctInfos(infos) && DistinctInfos(others)
    requires InfosApplied(r, cfg, infos, NonEmpty(InfosBeyond(others, InfoVersions(infos)))).Some?
    ensures RecordOf(InfosApplied(r, cfg, infos, NonEmpty(InfosBeyond(others, InfoVersions(infos)))).value, x)
            == if Kept(r, cfg.owner, x) then Newer(RecordOf(infos, x), RecordOf(others, x)) else None
  {
    var sent := InfosBeyond(others, InfoVersions(infos));
    SentRecord(infos, others, x);
    assert Infos(NonEmpty(sent)) == sent;
    AppliedRecord(r, cfg, infos, NonEmpty(sent), x);
  }

  lemma StayingRecord(r: Roster, owner: Id, messages: seq<AuthorizedMessage>, infos: seq<AuthorizedMemberInfo>, x: Id)
    requires StrictlySorted(infos, InfoKey)
    ensures RecordOf(StayingInfos(r, owner, messages, infos), x)
            == if x == owner || Required(r, owner, messages, x) then RecordOf(infos, x) else None
  {
    var keep := (i: AuthorizedMemberInfo) => i.memberId == owner || Required(r, owner, messages, i.memberId);
    InfosDistinct(infos);
    FilterRecord(infos, keep, x);
    StayingInfosKept(r, owner, messages, infos);
    InfosDistinct(StayingInfos(r, owner, messages, infos));
    SortedRecord(Filter(infos, keep), x);
  }

  lemma SortedRecord(infos: seq<AuthorizedMemberInfo>, x: Id)
    requires DistinctInfos(infos) && DistinctInfos(Sort(infos, InfoKey))
    ensures RecordOf(Sort(infos, InfoKey), x) == RecordOf(infos, x)
  {
    var i := RecordOf(infos, x);
    if i.Some? {
      RecordIsOnly(Sort(infos, InfoKey), i.value);
    }
  }

  lemma PartsInfos(cfg: Config, s: Snapshot, t: Snapshot, mid: Snapshot, x: Id)
    requires DistinctInfos(s.memberInfo) && DistinctInfos(t.memberInfo)
    requires PartsApplied(cfg, s, DeltaSince(t, SummaryOf(s))) == Some(mid)
    ensures StrictlySorted(mid.memberInfo, InfoKey)
    ensures RecordOf(mid.memberInfo, x)
            == if KeptBy(cfg.owner, mid, x) then Newer(RecordOf(s.memberInfo, x), RecordOf(t.memberInfo, x)) else None
  {
    var r := MembersById(mid.members);
    PartsRecord(r, cfg, s.memberInfo, t.memberInfo, x);
    InfosAppliedLatest(r, cfg, s.memberInfo, DeltaSince(t, SummaryOf(s)).memberInfo);
  }

  lemma KeptByCleaned(owner: Id, mid: Snapshot, x: Id)
    requires DistinctIds(mid.members) && VerifiedRoster(MembersById(mid.members), owner)
    ensures KeptBy(owner, Cleaned(owner, mid), x)
            <==> x == owner || Required(MembersById(mid.members), owner, mid.messages, x)
    ensures KeptBy(owner, Cleaned(owner, mid), x) ==> KeptBy(owner, mid, x)
  {
    PrunedElements(mid.members, owner, mid.messages);
    PruneKeepsVerified(mid.members, owner, mid.messages);
  }

  lemma CleanedRecord(cfg: Config, s: Snapshot, t: Snapshot, mid: Snapshot, x: Id)
    requires DistinctInfos(s.memberInfo) && DistinctInfos(t.memberInfo)
    requires PartsApplied(cfg, s, DeltaSince(t, SummaryOf(s))) == Some(mid)
    requires DistinctIds(mid.members) && VerifiedRoster(MembersById(mid.members), cfg.owner)
    ensures MergedRecord(cfg.owner, s, t, Cleaned(cfg.owner, mid), x)
  {
    PartsInfos(cfg, s, t, mid, x);
    KeptByCleaned(cfg.owner, mid, x);
    StayingRecord(MembersById(mid.members), cfg.owner, mid.messages, mid.memberInfo, x);
  }

  /** A merge holds, for the owner and every member left, the newer of the two records, the local one on a tie. */
  lemma MergedInfos(cfg: Config, s: Snapshot, t: Snapshot) returns (m: Snapshot)
    requires Mergeable(cfg, s) && Mergeable(cfg, t) && Agree(s, t)
    requires BansFit(cfg, s, t)
    ensures Merge(cfg, s, t) == Some(m) && Mergeable(cfg, m)
    ensures m.bans == Sort(BansTogether(s.bans, t.bans), BanKey)
    ensures IsClosureOf(cfg.owner, Union(WorldOf(s), WorldOf(t)), m)
    ensures forall x :: MergedRecord(cfg.owner, s, t, m, x)
  {
    m := MergeIsClosure(cfg, s, t);
    MergeableIsSendable(cfg, s);
    MergeableIsSendable(cfg, t);
    var mid := MergeParts(cfg, s, t);
    forall x ensures MergedRecord(cfg.owner, s, t, m, x) {
      CleanedRecord(cfg, s, t, mid, x);
    }
  }

  // ---------- Order ----------

  /** Both boards have a record of x of the same version, and not the same one. */
  predicate Tied(s: Snapshot, t: Snapshot, x: Id) {
    var a, b := RecordOf(s.memberInfo, x), RecordOf(t.memberInfo, x);
    a.Some? && b.Some? && a.value.version == b.value.version && a != b
  }

  lemma BothOrders(cfg: Config, s: Snapshot, t: Snapshot) returns (st: Snapshot, ts: Snapshot)
    requires Mergeable(cfg, s) && Mergeable(cfg, t) && Agree(s, t)
    requires BansFit(cfg, s, t) && BansFit(cfg, t, s)
    ensures Merge(cfg, s, t) == Some(st) && Merge(cfg, t, s) == Some(ts)
    ensures Mergeable(cfg, st) && Mergeable(cfg, ts) && st.members == ts.members
    ensures forall x :: MergedRecord(cfg.owner, s, t, st, x)
    ensures forall x :: MergedRecord(cfg.owner, t, s, ts, x)
  {
    AgreeSwap(s, t);
    st := MergedInfos(cfg, s, t);
    ts := MergedInfos(cfg, t, s);
    MergeCommutes(cfg, s, t);
  }

  /** Merging either way gives the same member info exactly when the boards tie on nobody left. */
  lemma InfosCommuteExactly(cfg: Config, s: Snapshot, t: Snapshot)
    requires Mergeable(cfg, s) && Mergeable(cfg, t) && Agree(s, t)
    requires BansFit(cfg, s, t) && BansFit(cfg, t, s)
    ensures Merge(cfg, s, t).Some? && Merge(cfg, t, s).Some?
    ensures var st := Merge(cfg, s, t).value;
            st.memberInfo == Merge(cfg, t, s).value.memberInfo
            <==> forall x :: KeptBy(cfg.owner, st, x) ==> !Tied(s, t, x)
  {
    var st, ts := BothOrders(cfg, s, t);
    CompareOrders(cfg, s, t, st, ts);
  }

  lemma CompareOrders(cfg: Config, s: Snapshot, t: Snapshot, st: Snapshot, ts: Snapshot)
    requires Mergeable(cfg, st) && Mergeable(cfg, ts) && st.members == ts.members
    requires forall x :: MergedRecord(cfg.owner, s, t, st, x)
    requires forall x :: MergedRecord(cfg.owner, t, s, ts, x)
    ensures st.memberInfo == ts.memberInfo <==> forall x :: KeptBy(cfg.owner, st, x) ==> !Tied(s, t, x)
  {
    SameBoardRecords(cfg, st, ts);
    forall x
      ensures SameRecord(st, ts, x)
              <==> (KeptBy(cfg.owner, st, x) ==> !Tied(s, t, x))
    {
      OneOrder(cfg.owner, s, t, st, ts, x);
    }
  }

  predicate SameRecord(s: Snapshot, t: Snapshot, x: Id) {
    RecordOf(s.memberInfo, x) == RecordOf(t.memberInfo, x)
  }

  lemma SameBoardRecords(cfg: Config, s: Snapshot, t: Snapshot)
    requires Mergeable(cfg, s) && Mergeable(cfg, t)
    ensures s.memberInfo == t.memberInfo <==> forall x :: SameRecord(s, t, x)
  {
    InfosDistinct(s.memberInfo);
    InfosDistinct(t.memberInfo);
    SameRecords(s.memberInfo, t.memberInfo);
    assert forall x :: SameRecord(s, t, x) <==> RecordOf(s.memberInfo, x) == RecordOf(t.memberInfo, x);
  }

  lemma OneOrder(owner: Id, s: Snapshot, t: Snapshot, st: Snapshot, ts: Snapshot, x: Id)
    requires MergedRecord(owner, s, t, st, x) && MergedRecord(owner, t, s, ts, x) && st.members == ts.members
    ensures SameRecord(st, ts, x)
            <==> (KeptBy(owner, st, x) ==> !Tied(s, t, x))
  {
  }

  // ---------- Grouping ----------

  /** The newest of three records, the first on a tie. */
  function Newest3(s: Snapshot, t: Snapshot, u: Snapshot, x: Id): Option<AuthorizedMemberInfo> {
    Newer(RecordOf(s.memberInfo, x), Newer(RecordOf(t.memberInfo, x), RecordOf(u.memberInfo, x)))
  }

  /** The newest record of x gets through both groupings: the merge of s and t keeps it or u holds it, and the merge of
      t and u keeps it or s holds it. */
  predicate GetsThrough(owner: Id, s: Snapshot, t: Snapshot, u: Snapshot, st: Snapshot, tu: Snapshot, x: Id) {
    var i := Newest3(s, t, u, x);
    i.Some? ==> (KeptBy(owner, st, x) || RecordOf(u.memberInfo, x) == i)
                && (KeptBy(owner, tu, x) || RecordOf(s.memberInfo, x) == i)
  }

  lemma OneGrouping(owner: Id, s: Snapshot, t: Snapshot, u: Snapshot, st: Snapshot, tu: Snapshot,
                    left: Snapshot, right: Snapshot, x: Id)
    requires MergedRecord(owner, s, t, st, x) && MergedRecord(owner, st, u, left, x)
    requires MergedRecord(owner, t, u, tu, x) && MergedRecord(owner, s, tu, right, x)
    requires left.members == right.members
    requires KeptBy(owner, left, x) ==> KeptBy(owner, st, x) || KeptBy(owner, tu, x)
    ensures SameRecord(left, right, x)
            <==> (KeptBy(owner, left, x) ==> GetsThrough(owner, s, t, u, st, tu, x))
  {
  }

  /** The message that makes x active in a whole makes x active in each part that holds it. */
  lemma ActiveInPart(owner: Id, part: World, whole: World, x: Id, g: AuthorizedMessage)
    requires VerifiedRoster(part.roster, owner) && part.bans <= whole.bans
    requires forall k :: k in part.roster ==> k in whole.roster && whole.roster[k] == part.roster[k]
    requires g in part.messages && g.author in part.roster && g.author != owner && x != owner
    requires Speaks(owner, whole, g.author) && Above(whole.roster, owner, x, g.author)
    ensures Active(owner, part, x)
  {
    SpeaksInLarger(owner, part, whole, g.author);
  }

  lemma ClosureKeeps(owner: Id, w: World, s: Snapshot, x: Id)
    requires IsClosureOf(owner, w, s) && VerifiedRoster(w.roster, owner) && x != owner
    ensures KeptBy(owner, s, x) <==> Active(owner, w, x)
  {
    if Active(owner, w, x) {
      ActiveIsListed(owner, w, x);
      assert w.roster[x] in s.members;
    }
    if KeptBy(owner, s, x) {
      assert MembersById(s.members)[x] in s.members;
    }
  }

  /** Whoever is active in a world is active in one of two parts of it that together hold its messages. */
  lemma ActiveInOne(owner: Id, a: World, b: World, whole: World, x: Id)
    requires Coherent(owner, a) && Coherent(owner, b) && a.bans <= whole.bans && b.bans <= whole.bans
    requires forall k :: k in a.roster ==> k in whole.roster && whole.roster[k] == a.roster[k]
    requires forall k :: k in b.roster ==> k in whole.roster && whole.roster[k] == b.roster[k]
    requires whole.messages <= a.messages + b.messages && Active(owner, whole, x)
    ensures Active(owner, a, x) || Active(owner, b, x)
  {
    var g :| g in whole.messages && g.author != owner && Speaks(owner, whole, g.author)
        && Above(whole.roster, owner, x, g.author);
    if g in a.messages {
      ActiveInPart(owner, a, whole, x, g);
    } else {
      ActiveInPart(owner, b, whole, x, g);
    }
  }

  /** Whoever is left by all three boards is left by one of the two early merges. */
  lemma KeptEarly(owner: Id, v: World, w: World, u: World, vw: Snapshot, wu: Snapshot, all: Snapshot, x: Id)
    requires Coherent(owner, v) && Coherent(owner, w) && Coherent(owner, u)
    requires RostersAgree(v.roster, w.roster) && RostersAgree(v.roster, u.roster) && RostersAgree(w.roster, u.roster)
    requires IsClosureOf(owner, Union(v, w), vw) && IsClosureOf(owner, Union(w, u), wu)
    requires IsClosureOf(owner, Union(Union(v, w), u), all)
    requires KeptBy(owner, all, x)
    ensures KeptBy(owner, vw, x) || KeptBy(owner, wu, x)
  {
    if x != owner {
      var whole := Union(Union(v, w), u);
      UnionCoherent(owner, v, w);
      UnionCoherent(owner, w, u);
      UnionCoherent(owner, Union(v, w), u);
      ClosureKeeps(owner, whole, all, x);
      ClosureKeeps(owner, Union(v, w), vw, x);
      ClosureKeeps(owner, Union(w, u), wu, x);
      PartsOfThree(v, w, u);
      ActiveInOne(owner, Union(v, w), Union(w, u), whole, x);
    }
  }

  lemma PartsOfThree(v: World, w: World, u: World)
    requires RostersAgree(v.roster, w.roster) && RostersAgree(v.roster, u.roster) && RostersAgree(w.roster, u.roster)
    ensures var a, b, whole := Union(v, w), Union(w, u), Union(Union(v, w), u);
            && a.bans <= whole.bans && b.bans <= whole.bans && whole.messages <= a.messages + b.messages
            && (forall k :: k in a.roster ==> k in whole.roster && whole.roster[k] == a.roster[k])
            && forall k :: k in b.roster ==> k in whole.roster && whole.roster[k] == b.roster[k]
  {
  }

  /** Both groupings, with the early merges and what each holds for every member. */
  lemma Groupings(cfg: Config, s: Snapshot, t: Snapshot, u: Snapshot)
    returns (st: Snapshot, tu: Snapshot, left: Snapshot, right: Snapshot)
    requires Mergeable(cfg, s) && Mergeable(cfg, t) && Mergeable(cfg, u)
    requires Agree(s, t) && Agree(s, u) && Agree(t, u)
    requires RoomFor(cfg, BansOfThree(s, t, u))
    ensures Merge(cfg, s, t) == Some(st) && Merge(cfg, t, u) == Some(tu)
    ensures Merge(cfg, st, u) == Some(left) && Merge(cfg, s, tu) == Some(right)
    ensures Mergeable(cfg, left) && Mergeable(cfg, right)
    ensures left.members == right.members
    ensures forall x :: MergedRecord(cfg.owner, s, t, st, x)
    ensures forall x :: MergedRecord(cfg.owner, st, u, left, x)
    ensures forall x :: MergedRecord(cfg.owner, t, u, tu, x)
    ensures forall x :: MergedRecord(cfg.owner, s, tu, right, x)
    ensures IsClosureOf(cfg.owner, Union(WorldOf(s), WorldOf(t)), st)
    ensures IsClosureOf(cfg.owner, Union(WorldOf(t), WorldOf(u)), tu)
    ensures IsClosureOf(cfg.owner, Union(Union(WorldOf(s), WorldOf(t)), WorldOf(u)), left)
  {
    MostOfThree(s, t, u);
    st, tu, left, right := GroupingsWithin(cfg, s, t, u, BansOfThree(s, t, u));
  }

  lemma GroupingsWithin(cfg: Config, s: Snapshot, t: Snapshot, u: Snapshot, all: multiset<AuthorizedUserBan>)
    returns (st: Snapshot, tu: Snapshot, left: Snapshot, right: Snapshot)
    requires Mergeable(cfg, s) && Mergeable(cfg, t) && Mergeable(cfg, u)
    requires Agree(s, t) && Agree(s, u) && Agree(t, u)
    requires RoomFor(cfg, all)
    requires multiset(s.bans) <= all && multiset(t.bans) <= all && multiset(u.bans) <= all
    ensures Merge(cfg, s, t) == Some(st) && Merge(cfg, t, u) == Some(tu)
    ensures Merge(cfg, st, u) == Some(left) && Merge(cfg, s, tu) == Some(right)
    ensures Mergeable(cfg, left) && Mergeable(cfg, right)
    ensures left.members == right.members
    ensures forall x :: MergedRecord(cfg.owner, s, t, st, x)
    ensures forall x :: MergedRecord(cfg.owner, st, u, left, x)
    ensures forall x :: MergedRecord(cfg.owner, t, u, tu, x)
    ensures forall x :: MergedRecord(cfg.owner, s, tu, right, x)
    ensures IsClosureOf(cfg.owner, Union(WorldOf(s), WorldOf(t)), st)
    ensures IsClosureOf(cfg.owner, Union(WorldOf(t), WorldOf(u)), tu)
    ensures IsClosureOf(cfg.owner, Union(Union(WorldOf(s), WorldOf(t)), WorldOf(u)), left)
  {
    AssociatesWithin(cfg, s, t, u, all);
    RoomToFit(cfg, s, t, all);
    RoomToFit(cfg, t, u, all);
    st := MergedInfos(cfg, s, t);
    tu := MergedInfos(cfg, t, u);
    ReadyForThird(cfg, s, t, st, u);
    ReadyForFirst(cfg, s, t, u, tu);
    RoomToFit(cfg, st, u, all);
    RoomToFit(cfg, s, tu, all);
    left := MergedInfos(cfg, st, u);
    right := MergedInfos(cfg, s, tu);
    var st', left' := MergeThree(cfg, s, t, u, all);
  }

  lemma ReadyForFirst(cfg: Config, s: Snapshot, t: Snapshot, u: Snapshot, tu: Snapshot)
    requires IsClosureOf(cfg.owner, Union(WorldOf(t), WorldOf(u)), tu)
    requires Agree(s, t) && Agree(s, u)
    ensures Agree(s, tu)
  {
    AgreeSwap(s, t);
    AgreeSwap(s, u);
    ReadyForThird(cfg, t, u, tu, s);
    AgreeSwap(tu, s);
  }

  /** Both groupings of three boards give the same member info exactly when the newest record of everyone left gets
      through both. */
  lemma InfosAssociateExactly(cfg: Config, s: Snapshot, t: Snapshot, u: Snapshot)
    requires Mergeable(cfg, s) && Mergeable(cfg, t) && Mergeable(cfg, u)
    requires Agree(s, t) && Agree(s, u) && Agree(t, u)
    requires RoomFor(cfg, BansOfThree(s, t, u))
    ensures Merge(cfg, s, t).Some? && Merge(cfg, t, u).Some?
    ensures var st, tu := Merge(cfg, s, t).value, Merge(cfg, t, u).value;
            var left, right := Merge(cfg, st, u), Merge(cfg, s, tu);
            && left.Some? && right.Some?
            && (left.value.memberInfo == right.value.memberInfo
                <==> forall x :: KeptBy(cfg.owner, left.value, x) ==> GetsThrough(cfg.owner, s, t, u, st, tu, x))
  {
    var st, tu, left, right := Groupings(cfg, s, t, u);
    MergeableCoherent(cfg, s);
    MergeableCoherent(cfg, t);
    MergeableCoherent(cfg, u);
    forall x | KeptBy(cfg.owner, left, x) ensures KeptBy(cfg.owner, st, x) || KeptBy(cfg.owner, tu, x) {
      KeptEarly(cfg.owner, WorldOf(s), WorldOf(t), WorldOf(u), st, tu, left, x);
    }
    CompareGroupings(cfg, s, t, u, st, tu, left, right);
  }

  lemma CompareGroupings(cfg: Config, s: Snapshot, t: Snapshot, u: Snapshot, st: Snapshot, tu: Snapshot,
                         left: Snapshot, right: Snapshot)
    requires Mergeable(cfg, left) && Mergeable(cfg, right) && left.members == right.members
    requires forall x :: MergedRecord(cfg.owner, s, t, st, x)
    requires forall x :: MergedRecord(cfg.owner, st, u, left, x)
    requires forall x :: MergedRecord(cfg.owner, t, u, tu, x)
    requires forall x :: MergedRecord(cfg.owner, s, tu, right, x)
    requires forall x :: KeptBy(cfg.owner, left, x) ==> KeptBy(cfg.owner, st, x) || KeptBy(cfg.owner, tu, x)
    ensures left.memberInfo == right.memberInfo
            <==> forall x :: KeptBy(cfg.owner, left, x) ==> GetsThrough(cfg.owner, s, t, u, st, tu, x)
  {
    SameBoardRecords(cfg, left, right);
    EachGrouping(cfg.owner, s, t, u, st, tu, left, right);
  }

  lemma EachGrouping(owner: Id, s: Snapshot, t: Snapshot, u: Snapshot, st: Snapshot, tu: Snapshot,
                     left: Snapshot, right: Snapshot)
    requires left.members == right.members
    requires forall x :: MergedRecord(owner, s, t, st, x)
    requires forall x :: MergedRecord(owner, st, u, left, x)
    requires forall x :: MergedRecord(owner, t, u, tu, x)
    requires forall x :: MergedRecord(owner, s, tu, right, x)
    requires forall x :: KeptBy(owner, left, x) ==> KeptBy(owner, st, x) || KeptBy(owner, tu, x)
    ensures (forall x :: SameRecord(left, right, x))
            <==> forall x :: KeptBy(owner, left, x) ==> GetsThrough(owner, s, t, u, st, tu, x)
  {
    if forall x :: SameRecord(left, right, x) {
      forall x | KeptBy(owner, left, x) ensures GetsThrough(owner, s, t, u, st, tu, x) {
        OneGrouping(owner, s, t, u, st, tu, left, right, x);
      }
    }
    if forall x :: KeptBy(owner, left, x) ==> GetsThrough(owner, s, t, u, st, tu, x) {
      forall x ensures SameRecord(left, right, x) {
        OneGrouping(owner, s, t, u, st, tu, left, right, x);
      }
    }
  }

  // ---------- Where it fails ----------

  /** Two boards on which the owner's record has the same version and differs: each keeps its own. */
  lemma TiesDoNotCommute(cfg: Config, a: AuthorizedMemberInfo, b: AuthorizedMemberInfo)
    requires !cfg.privateMode && a.memberId == b.memberId == cfg.owner && a.version == b.version && a != b
    requires a.nicknameLen <= cfg.maxNicknameSize && b.nicknameLen <= cfg.maxNicknameSize
    requires cfg.owner in a.signature && cfg.owner in b.signature
    ensures var s, t := EMPTY_BOARD.(memberInfo := [a]), EMPTY_BOARD.(memberInfo := [b]);
            && Mergeable(cfg, s) && Mergeable(cfg, t) && Agree(s, t)
            && Merge(cfg, s, t).Some? && Merge(cfg, t, s).Some?
            && Merge(cfg, s, t).value.memberInfo != Merge(cfg, t, s).value.memberInfo
  {
    var s, t := EMPTY_BOARD.(memberInfo := [a]), EMPTY_BOARD.(memberInfo := [b]);
    EmptyInv(cfg.owner);
    InfosCommuteExactly(cfg, s, t);
    assert RecordOf(s.memberInfo, cfg.owner) == Some(a) && RecordOf(t.memberInfo, cfg.owner) == Some(b);
    assert Tied(s, t, cfg.owner);
    assert KeptBy(cfg.owner, Merge(cfg, s, t).value, cfg.owner);
  }

  const CFG := Config(0, {}, 10, 10, 10, 10, false)

  // The owner 0 invited 1, who invited 2.
  const ONE := AuthorizedMember(1, 0, {0})
  const TWO := AuthorizedMember(2, 1, {1})

  const OLD_INFO := AuthorizedMemberInfo(1, 1, 0, {1})
  const NEW_INFO := AuthorizedMemberInfo(1, 2, 0, {1})

  const BY_ONE := AuthorizedMessage(10, 1, 0, Public(OtherType(9), Opaque, 0), {1})
  const BY_TWO := AuthorizedMessage(20, 2, 0, Public(OtherType(9), Opaque, 0), {2})

  const BAN_OF_TWO := AuthorizedUserBan(30, 0, 2, 0, {0})

  // 1 has its newer record here and is active only through 2.
  ghost const NEWER_BOARD := Snapshot([], [ONE, TWO], [NEW_INFO], S.EMPTY, [BY_TWO], Rebuilt([BY_TWO]))

  // 2 is banned here.
  ghost const BANNING_BOARD := Snapshot([BAN_OF_TWO], [], [], S.EMPTY, [], Rebuilt([]))

  // 1 speaks here, with its older record.
  ghost const OLDER_BOARD := Snapshot([], [ONE], [OLD_INFO], S.EMPTY, [BY_ONE], Rebuilt([BY_ONE]))

  lemma TwoOnRoster(r: Roster)
    requires 1 in r && r[1] == ONE
    ensures forall a :: Above(r, 0, a, 1) <==> a == 1 || a == 0
    ensures 2 in r && r[2] == TWO ==> forall a :: Above(r, 0, a, 2) <==> a == 2 || a == 1 || a == 0
    ensures Vouched(r, 0, ONE, 1)
    ensures Vouched(r, 0, TWO, 2)
  {
    AboveTop(r, 0, 0);
    AboveStep(r, 0, 1);
    if 2 in r && r[2] == TWO {
      AboveStep(r, 0, 2);
    }
  }

  lemma NewerRoster()
    ensures MembersById([ONE, TWO]) == map[1 := ONE, 2 := TWO] && MembersById([ONE]) == map[1 := ONE]
  {
    assert [ONE][..0] == [];
    assert [ONE, TWO][..1] == [ONE];
  }

  /** A board without bans or secrets, with at most one message and one record, both good, can be merged. */
  lemma PlainBoard(cfg: Config, s: Snapshot)
    requires !cfg.privateMode && s.bans == [] && s.secrets == S.EMPTY && s.actions == Rebuilt(s.messages)
    requires DistinctIds(s.members) && StrictlySorted(s.members, MemberKey) && MembersVerify(s.members, cfg.owner)
    requires forall m :: m in s.members ==> Required(MembersById(s.members), cfg.owner, s.messages, m.id)
    requires |s.messages| <= 1 && forall g :: g in s.messages ==> PlainMessage(cfg, MembersById(s.members), g)
    requires |s.memberInfo| <= 1 && forall i :: i in s.memberInfo ==> PlainInfo(cfg, MembersById(s.members), i)
    ensures Mergeable(cfg, s)
  {
    OneMessageAgrees(s.messages);
    NobodyCondemned(MembersById(s.members), cfg.owner);
    assert MembersInv(cfg.owner, s);
    PlainIsSettled(cfg, s);
  }

  lemma OneMessageAgrees(ms: seq<AuthorizedMessage>)
    requires |ms| <= 1
    ensures M.Agree(ms, ms)
  {
  }

  predicate PlainMessage(cfg: Config, r: Roster, g: AuthorizedMessage) {
    g.author in r && g.body.ContentLen() <= cfg.maxMessageSize && M.TitleOk(cfg, g.body)
  }

  predicate PlainInfo(cfg: Config, r: Roster, i: AuthorizedMemberInfo) {
    i.memberId in r && i.nicknameLen <= cfg.maxNicknameSize && i.memberId in i.signature
  }

  lemma NobodyCondemned(r: Roster, owner: Id)
    ensures forall x :: !Condemned(r, owner, [], x)
  {
  }

  lemma PlainIsSettled(cfg: Config, s: Snapshot)
    requires MembersInv(cfg.owner, s)
    requires s.bans == [] && s.secrets == S.EMPTY && s.actions == Rebuilt(s.messages)
    requires |s.messages| <= 1 && forall g :: g in s.messages ==> PlainMessage(cfg, MembersById(s.members), g)
    requires |s.memberInfo| <= 1 && forall i :: i in s.memberInfo ==> PlainInfo(cfg, MembersById(s.members), i)
    ensures Settled(cfg, s)
  {
    ShortIsSorted(s.messages, MessageKey);
    ShortIsSorted(s.memberInfo, InfoKey);
    PlainInfosVerify(cfg, MembersById(s.members), s.memberInfo);
    PlainInv(cfg.owner, s);
  }

  lemma PlainInv(owner: Id, s: Snapshot)
    requires MembersInv(owner, s) && s.bans == [] && s.secrets == S.EMPTY && s.actions == Rebuilt(s.messages)
    requires forall g :: g in s.messages ==> g.author in MembersById(s.members)
    requires InfosVerify(MembersById(s.members), owner, s.memberInfo)
    requires StrictlySorted(s.memberInfo, InfoKey) && Sorted(s.messages, MessageKey)
    ensures Inv(owner, s)
  {
    assert Sorted(s.bans, BanKey);
    assert Sorted(S.EMPTY.versions, VersionKey) && Sorted(S.EMPTY.encryptedSecrets, SecretKey);
  }

  lemma ShortIsSorted<T(!new)>(s: seq<T>, key: T -> Key)
    requires |s| <= 1
    ensures Sorted(s, key) && StrictlySorted(s, key)
  {
  }

  lemma PlainInfosVerify(cfg: Config, r: Roster, infos: seq<AuthorizedMemberInfo>)
    requires forall i :: i in infos ==> PlainInfo(cfg, r, i)
    ensures InfosVerify(r, cfg.owner, infos)
  {
  }

  lemma NewerMergeable()
    ensures Mergeable(CFG, NEWER_BOARD)
  {
    var s := NEWER_BOARD;
    NewerInOrder(s.members);
    NewerVerify(s.members);
    NewerRequired(s.members);
    NewerRoster();
    PlainByTwo(MembersById(s.members), s.messages, s.memberInfo);
    PlainBoard(CFG, s);
  }

  lemma PlainByTwo(r: Roster, messages: seq<AuthorizedMessage>, infos: seq<AuthorizedMemberInfo>)
    requires 1 in r && 2 in r && messages == [BY_TWO] && infos == [NEW_INFO]
    ensures forall g :: g in messages ==> PlainMessage(CFG, r, g)
    ensures forall i :: i in infos ==> PlainInfo(CFG, r, i)
  {
  }

  lemma NewerRequired(ms: seq<AuthorizedMember>)
    requires ms == [ONE, TWO]
    ensures forall m :: m in ms ==> Required(MembersById(ms), 0, [BY_TWO], m.id)
  {
    NewerRoster();
    NewerVerified(MembersById(ms));
    forall m | m in ms ensures Required(MembersById(ms), 0, [BY_TWO], m.id) {
      if m != ONE {
        assert m == TWO;
      }
    }
  }

  lemma NewerInOrder(ms: seq<AuthorizedMember>)
    requires ms == [ONE, TWO]
    ensures DistinctIds(ms) && StrictlySorted(ms, MemberKey)
  {
  }

  lemma NewerVerify(ms: seq<AuthorizedMember>)
    requires ms == [ONE, TWO]
    ensures MembersVerify(ms, 0)
  {
    NewerInOrder(ms);
    NewerRoster();
    NewerVerified(MembersById(ms));
    VerifyOfRoster(ms, 0);
  }

  lemma NewerVerified(r: Roster)
    requires r == map[1 := ONE, 2 := TWO]
    ensures VerifiedRoster(r, 0) && Required(r, 0, [BY_TWO], 1) && Required(r, 0, [BY_TWO], 2)
  {
    TwoOnRoster(r);
    assert BY_TWO in [BY_TWO];
  }

  lemma OlderMergeable()
    ensures Mergeable(CFG, OLDER_BOARD)
  {
    var s := OLDER_BOARD;
    NewerRoster();
    TwoOnRoster(MembersById(s.members));
    VerifyOfRoster(s.members, 0);
    assert BY_ONE in s.messages;
    PlainBoard(CFG, s);
  }

  lemma BanningMergeable()
    ensures Mergeable(CFG, BANNING_BOARD)
  {
  }

  /** The three boards before any merge takes effect: 1 and 2 listed, 2 banned, both have spoken. */
  lemma ThreeBoards(w: World)
    requires w == Union(Union(WorldOf(NEWER_BOARD), WorldOf(BANNING_BOARD)), WorldOf(OLDER_BOARD))
    ensures Active(0, w, 1) && VerifiedRoster(w.roster, 0)
  {
    NewerRoster();
    assert w.roster == map[1 := ONE, 2 := TWO];
    NewerVerified(w.roster);
    TwoOnRoster(w.roster);
    assert BY_ONE in w.messages;
    assert forall b :: b in w.bans ==> b == BAN_OF_TWO;
  }

  /** Without the third board 1 is active only through 2, who is banned. */
  lemma FirstTwoBoards(w: World)
    requires w == Union(WorldOf(NEWER_BOARD), WorldOf(BANNING_BOARD))
    ensures !Active(0, w, 1) && VerifiedRoster(w.roster, 0)
  {
    NewerRoster();
    assert w.roster == map[1 := ONE, 2 := TWO];
    NewerVerified(w.roster);
    TwoOnRoster(w.roster);
    assert BAN_OF_TWO in w.bans;
    assert forall g :: g in w.messages ==> g == BY_TWO;
  }

  /** Merging the first two boards early prunes 1 and with it the newer record, so the groupings differ. */
  lemma PruningLosesVersion()
    ensures Mergeable(CFG, NEWER_BOARD) && Mergeable(CFG, BANNING_BOARD) && Mergeable(CFG, OLDER_BOARD)
    ensures Merge(CFG, NEWER_BOARD, BANNING_BOARD).Some? && Merge(CFG, BANNING_BOARD, OLDER_BOARD).Some?
    ensures var left := Merge(CFG, Merge(CFG, NEWER_BOARD, BANNING_BOARD).value, OLDER_BOARD);
            var right := Merge(CFG, NEWER_BOARD, Merge(CFG, BANNING_BOARD, OLDER_BOARD).value);
            left.Some? && right.Some? && left.value.memberInfo != right.value.memberInfo
  {
    ExampleBoards();
    ExampleRecords(NEWER_BOARD.memberInfo, BANNING_BOARD.memberInfo, OLDER_BOARD.memberInfo);
    var two := Union(WorldOf(NEWER_BOARD), WorldOf(BANNING_BOARD));
    var three := Union(two, WorldOf(OLDER_BOARD));
    FirstTwoBoards(two);
    ThreeBoards(three);
    var st, tu, left, right := ExampleGroupings();
    PruningSeparates(0, NEWER_BOARD, BANNING_BOARD, OLDER_BOARD, st, tu, left, right, two, three, 1);
  }

  lemma ExampleGroupings() returns (st: Snapshot, tu: Snapshot, left: Snapshot, right: Snapshot)
    ensures Merge(CFG, NEWER_BOARD, BANNING_BOARD) == Some(st) && Merge(CFG, BANNING_BOARD, OLDER_BOARD) == Some(tu)
    ensures Merge(CFG, st, OLDER_BOARD) == Some(left) && Merge(CFG, NEWER_BOARD, tu) == Some(right)
    ensures left.members == right.members
    ensures MergedRecord(0, NEWER_BOARD, BANNING_BOARD, st, 1) && MergedRecord(0, st, OLDER_BOARD, left, 1)
    ensures MergedRecord(0, BANNING_BOARD, OLDER_BOARD, tu, 1) && MergedRecord(0, NEWER_BOARD, tu, right, 1)
    ensures IsClosureOf(0, Union(WorldOf(NEWER_BOARD), WorldOf(BANNING_BOARD)), st)
    ensures IsClosureOf(0, Union(Union(WorldOf(NEWER_BOARD), WorldOf(BANNING_BOARD)), WorldOf(OLDER_BOARD)), left)
  {
    ExampleBoards();
    st, tu, left, right :=
      GroupingsOf(CFG, NEWER_BOARD, BANNING_BOARD, OLDER_BOARD, multiset{BAN_OF_TWO}, 1);
  }

  lemma ExampleRecords(a: seq<AuthorizedMemberInfo>, b: seq<AuthorizedMemberInfo>, c: seq<AuthorizedMemberInfo>)
    requires a == [NEW_INFO] && b == [] && c == [OLD_INFO]
    ensures RecordOf(a, 1) == Some(NEW_INFO) && RecordOf(b, 1) == None && RecordOf(c, 1) == Some(OLD_INFO)
  {
  }

  lemma ExampleBoards()
    ensures Mergeable(CFG, NEWER_BOARD) && Mergeable(CFG, BANNING_BOARD) && Mergeable(CFG, OLDER_BOARD)
    ensures Agree(NEWER_BOARD, BANNING_BOARD) && Agree(NEWER_BOARD, OLDER_BOARD) && Agree(BANNING_BOARD, OLDER_BOARD)
    ensures multiset(NEWER_BOARD.bans) <= multiset{BAN_OF_TWO} && multiset(OLDER_BOARD.bans) <= multiset{BAN_OF_TWO}
    ensures multiset(BANNING_BOARD.bans) <= multiset{BAN_OF_TWO} && RoomFor(CFG, multiset{BAN_OF_TWO})
  {
    NewerMergeable();
    BanningMergeable();
    OlderMergeable();
    NewerRoster();
    ExampleAgrees(NEWER_BOARD, OLDER_BOARD);
  }

  lemma ExampleAgrees(s: Snapshot, u: Snapshot)
    requires s.bans == [] && s.messages == [BY_TWO] && MembersById(s.members) == map[1 := ONE, 2 := TWO]
    requires u.messages == [BY_ONE] && MembersById(u.members) == map[1 := ONE]
    ensures Agree(s, u)
  {
  }

  lemma GroupingsOf(cfg: Config, s: Snapshot, t: Snapshot, u: Snapshot, all: multiset<AuthorizedUserBan>, x: Id)
    returns (st: Snapshot, tu: Snapshot, left: Snapshot, right: Snapshot)
    requires Mergeable(cfg, s) && Mergeable(cfg, t) && Mergeable(cfg, u)
    requires Agree(s, t) && Agree(s, u) && Agree(t, u)
    requires RoomFor(cfg, all)
    requires multiset(s.bans) <= all && multiset(t.bans) <= all && multiset(u.bans) <= all
    ensures Merge(cfg, s, t) == Some(st) && Merge(cfg, t, u) == Some(tu)
    ensures Merge(cfg, st, u) == Some(left) && Merge(cfg, s, tu) == Some(right)
    ensures left.members == right.members
    ensures MergedRecord(cfg.owner, s, t, st, x) && MergedRecord(cfg.owner, st, u, left, x)
    ensures MergedRecord(cfg.owner, t, u, tu, x) && MergedRecord(cfg.owner, s, tu, right, x)
    ensures IsClosureOf(cfg.owner, Union(WorldOf(s), WorldOf(t)), st)
    ensures IsClosureOf(cfg.owner, Union(Union(WorldOf(s), WorldOf(t)), WorldOf(u)), left)
  {
    st, tu, left, right := GroupingsWithin(cfg, s, t, u, all);
  }

  /** When x's newer record is in s, an older one in u, and x is active only through u, the groupings differ. */
  lemma PruningSeparates(owner: Id, s: Snapshot, t: Snapshot, u: Snapshot, st: Snapshot, tu: Snapshot, left: Snapshot,
                         right: Snapshot, two: World, three: World, x: Id)
    requires NewerThenOlder(s, t, u, x) && left.members == right.members && x != owner
    requires MergedRecord(owner, s, t, st, x) && MergedRecord(owner, st, u, left, x)
    requires MergedRecord(owner, t, u, tu, x) && MergedRecord(owner, s, tu, right, x)
    requires IsClosureOf(owner, two, st) && !Active(owner, two, x) && VerifiedRoster(two.roster, owner)
    requires IsClosureOf(owner, three, left) && Active(owner, three, x) && VerifiedRoster(three.roster, owner)
    ensures left.memberInfo != right.memberInfo
  {
    ClosureKeeps(owner, two, st, x);
    ClosureKeeps(owner, three, left, x);
    NewerIsLost(owner, s, t, u, st, tu, left, right, x);
  }

  predicate NewerThenOlder(s: Snapshot, t: Snapshot, u: Snapshot, x: Id) {
    var a, b, c := RecordOf(s.memberInfo, x), RecordOf(t.memberInfo, x), RecordOf(u.memberInfo, x);
    a.Some? && b.None? && c.Some? && c.value.version < a.value.version
  }

  lemma NewerIsLost(owner: Id, s: Snapshot, t: Snapshot, u: Snapshot, st: Snapshot, tu: Snapshot, left: Snapshot,
                    right: Snapshot, x: Id)
    requires NewerThenOlder(s, t, u, x) && !KeptBy(owner, st, x) && KeptBy(owner, left, x)
    requires left.members == right.members
    requires MergedRecord(owner, s, t, st, x) && MergedRecord(owner, st, u, left, x)
    requires MergedRecord(owner, t, u, tu, x) && MergedRecord(owner, s, tu, right, x)
    ensures left.memberInfo != right.memberInfo
  {
    assert RecordOf(left.memberInfo, x) != RecordOf(right.memberInfo, x);
  }
}
