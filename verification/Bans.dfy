/** The ban list: who may ban whom, and how the list is trimmed. */
module Bans {
  import opened Lists
  import opened Records
  import opened Forest

  datatype BanValidationError =
    | BannerNotFound(banner: Id)
    | NotInInviteChain(banner: Id, banned: Id)
    | SelfInvitationDetected(id: Id)
    | InviterNotFound(id: Id)
    | ExceededMaximumBans

  datatype BanError = DuplicateBan(banId: int) | InvalidBans | InvalidBanSignature

  /** banner is banned, or an inviter above it, and is not the owner. */
  ghost predicate MayBan(r: Roster, owner: Id, banner: Id, banned: Id) {
    banner != owner && Above(r, owner, banner, banned)
  }

  /** Why a single ban is accepted: its target is gone, the owner or an admin issued it, a listed banner sits above
      the target, or the banner left without having been banned. */
  ghost predicate BanAuthorised(r: Roster, cfg: Config, banned: set<Id>, b: AuthorizedUserBan) {
    || b.bannedUser !in r
    || b.bannedBy == cfg.owner
    || b.bannedBy in cfg.admins
    || (if b.bannedBy in r then MayBan(r, cfg.owner, b.bannedBy, b.bannedUser) else b.bannedBy !in banned)
  }

  /** The signature is checked under the owner's or the listed banner's key; an absent banner's cannot be. */
  predicate BanSigned(r: Roster, owner: Id, b: AuthorizedUserBan) {
    (b.bannedBy == owner || b.bannedBy in r) ==> b.bannedBy in b.signature
  }

  function BannedUsers(bs: seq<AuthorizedUserBan>): set<Id> {
    set b | b in bs :: b.bannedUser
  }

  /** `BansV1::verify`. */
  ghost predicate BansVerify(r: Roster, cfg: Config, bs: seq<AuthorizedUserBan>) {
    && |bs| <= cfg.maxUserBans
    && forall b :: b in bs ==> BanAuthorised(r, cfg, BannedUsers(bs), b) && BanSigned(r, cfg.owner, b)
  }

  /** The newest max bans; the list itself when it already fits. */
  function KeepNewest(bs: seq<AuthorizedUserBan>, max: nat): (kept: seq<AuthorizedUserBan>)
    ensures |kept| <= max
    ensures forall b :: b in kept ==> b in bs
  {
    if |bs| <= max then bs else Sort(bs, BanKey)[|bs| - max..]
  }

  predicate SharesBanId(bs: seq<AuthorizedUserBan>, delta: seq<AuthorizedUserBan>) {
    exists b, d :: b in bs && d in delta && b.id == d.id
  }

  /** The ban list after `apply_delta`, or None when the delta is rejected. Trimming happens only under a delta. */
  ghost function BansApplied(r: Roster, cfg: Config, bs: seq<AuthorizedUserBan>, delta: Option<seq<AuthorizedUserBan>>)
    : Option<seq<AuthorizedUserBan>>
  {
    if delta.None? then Some(Sort(bs, BanKey))
    else if SharesBanId(bs, delta.value) then None
    else
      var kept := KeepNewest(bs + delta.value, cfg.maxUserBans);
      if BansVerify(r, cfg, kept) then Some(Sort(kept, BanKey)) else None
  }

  /** The bans `identify_excess_bans` marks: all but the oldest max. */
  function ExcessBans(bs: seq<AuthorizedUserBan>, max: nat): (excess: seq<AuthorizedUserBan>)
    ensures forall b :: b in excess ==> b in bs
  {
    if |bs| <= max then [] else Sort(bs, BanKey)[max..]
  }

  ghost predicate IdAmong(bs: seq<AuthorizedUserBan>, from: nat, id: int) {
    exists k :: from <= k < |bs| && bs[k].id == id
  }

  lemma ExcessIds(bs: seq<AuthorizedUserBan>, from: nat)
    requires from <= |bs|
    ensures forall id :: IdAmong(bs, from, id) <==> exists b :: b in bs[from..] && b.id == id
  {
    forall id | IdAmong(bs, from, id) ensures exists b :: b in bs[from..] && b.id == id {
      var k :| from <= k < |bs| && bs[k].id == id;
      assert bs[from..][k - from] == bs[k];
    }
    forall b | b in bs[from..] ensures IdAmong(bs, from, b.id) {
      var k :| 0 <= k < |bs[from..]| && bs[from..][k] == b;
      assert bs[from + k] == b;
    }
  }

  ghost predicate IsInvalid(r: Roster, cfg: Config, bs: seq<AuthorizedUserBan>, b: AuthorizedUserBan) {
    !BanAuthorised(r, cfg, BannedUsers(bs), b) || b in ExcessBans(bs, cfg.maxUserBans)
  }

  // ---------- Order independence ----------

  /** The list a delta leaves behind: the newest max bans, in order. */
  function Newest(bs: seq<AuthorizedUserBan>, max: nat): seq<AuthorizedUserBan> {
    if |bs| <= max then Sort(bs, BanKey) else Sort(bs, BanKey)[|bs| - max..]
  }

  /** Sorting what the trim keeps gives the newest bans in order, whatever the list. */
  lemma SortedNewest(bs: seq<AuthorizedUserBan>, max: nat)
    ensures Sort(KeepNewest(bs, max), BanKey) == Newest(bs, max)
  {
    if |bs| > max {
      TrimmedInPlace(bs, max);
    }
  }

  lemma TrimmedInPlace(bs: seq<AuthorizedUserBan>, max: nat)
    requires |bs| > max
    ensures Sort(KeepNewest(bs, max), BanKey) == KeepNewest(bs, max)
  {
    SortSorts(bs, BanKey);
    SortedSuffix(Sort(bs, BanKey), |bs| - max);
  }

  lemma AppliedIsNewest(r: Roster, cfg: Config, bs: seq<AuthorizedUserBan>, delta: seq<AuthorizedUserBan>)
    requires BansApplied(r, cfg, bs, Some(delta)).Some?
    ensures BansApplied(r, cfg, bs, Some(delta)).value == Newest(bs + delta, cfg.maxUserBans)
  {
    SortedNewest(bs + delta, cfg.maxUserBans);
  }

  lemma SortedSuffix(s: seq<AuthorizedUserBan>, n: nat)
    requires Sorted(s, BanKey) && n <= |s|
    ensures Sort(s[n..], BanKey) == s[n..]
  {
    SuffixStaysInOrder(s, n);
    SortIdentity(s[n..], BanKey);
  }

  lemma SuffixStaysInOrder(s: seq<AuthorizedUserBan>, n: nat)
    requires n <= |s|
    ensures Sorted(s, BanKey) ==> Sorted(s[n..], BanKey)
    ensures StrictlySorted(s, BanKey) ==> StrictlySorted(s[n..], BanKey)
  {
    assert forall i :: 0 <= i < |s| - n ==> s[n..][i] == s[n + i];
  }

  /** The newest bans are a suffix of the sorted list. */
  lemma NewestIsSuffix(bs: seq<AuthorizedUserBan>, max: nat)
    requires DistinctKeys(bs, BanKey)
    ensures |Newest(bs, max)| == (if |bs| <= max then |bs| else max)
    ensures Newest(bs, max) == Sort(bs, BanKey)[|bs| - |Newest(bs, max)|..]
    ensures StrictlySorted(Newest(bs, max), BanKey)
  {
    SortDistinct(bs, BanKey);
    if |bs| > max {
      SuffixStaysInOrder(Sort(bs, BanKey), |bs| - max);
    }
  }

  lemma NewestSameElements(a: seq<AuthorizedUserBan>, b: seq<AuthorizedUserBan>, max: nat)
    requires DistinctKeys(a, BanKey) && DistinctKeys(b, BanKey)
    requires forall x :: x in a <==> x in b
    ensures Newest(a, max) == Newest(b, max)
  {
    SortDistinct(a, BanKey);
    SortDistinct(b, BanKey);
    SortedListUnique(Sort(a, BanKey), Sort(b, BanKey), BanKey);
    NewestIsSuffix(a, max);
    NewestIsSuffix(b, max);
  }

  /** Trimming early loses nothing that trimming late would keep. */
  lemma NewestAbsorbs(a: seq<AuthorizedUserBan>, b: seq<AuthorizedUserBan>, max: nat)
    requires DistinctKeys(a, BanKey) && DistinctKeys(b, BanKey) && DisjointKeys(a, b, BanKey)
    ensures Newest(Newest(a, max) + b, max) == Newest(a + b, max)
  {
    if |a| <= max {
      DistinctConcat(a, b, BanKey);
      TrimmedStayDistinct(a, b, max);
      NewestSameElements(Newest(a, max) + b, a + b, max);
    } else {
      TrimmedEarly(a, b, max);
    }
  }

  lemma TrimmedEarly(a: seq<AuthorizedUserBan>, b: seq<AuthorizedUserBan>, max: nat)
    requires DistinctKeys(a, BanKey) && DistinctKeys(b, BanKey) && DisjointKeys(a, b, BanKey) && |a| > max
    ensures Newest(Newest(a, max) + b, max) == Newest(a + b, max)
  {
    DistinctConcat(a, b, BanKey);
    TrimmedStayDistinct(a, b, max);
    TrimmedLate(a, b, max);
  }

  lemma TrimmedLate(a: seq<AuthorizedUserBan>, b: seq<AuthorizedUserBan>, max: nat)
    requires DistinctKeys(a, BanKey) && DistinctKeys(Newest(a, max) + b, BanKey) && DistinctKeys(a + b, BanKey)
             && |a| > max
    ensures Newest(Newest(a, max) + b, max) == Newest(a + b, max)
  {
    SameSizes(a, b, max);
    LateTrimUpwardClosed(a, b, max);
    SameSuffix(a + b, Newest(a, max) + b, max);
  }

  lemma TrimmedStayDistinct(a: seq<AuthorizedUserBan>, b: seq<AuthorizedUserBan>, max: nat)
    requires DistinctKeys(a, BanKey) && DistinctKeys(b, BanKey) && DisjointKeys(a, b, BanKey)
    ensures DistinctKeys(Newest(a, max) + b, BanKey)
  {
    NewestIsSuffix(a, max);
    StrictIsSorted(Newest(a, max), BanKey);
    DistinctConcat(Newest(a, max), b, BanKey);
  }

  lemma NewestSize(bs: seq<AuthorizedUserBan>, max: nat)
    requires |bs| >= max
    ensures |Newest(bs, max)| == max
  {
  }

  /** Whatever is closed upward in a list and as long as its newest bans is its newest bans. */
  lemma SameSuffix(bs: seq<AuthorizedUserBan>, cs: seq<AuthorizedUserBan>, max: nat)
    requires DistinctKeys(bs, BanKey) && DistinctKeys(cs, BanKey) && |Newest(cs, max)| == |Newest(bs, max)|
    requires UpwardClosed(Sort(bs, BanKey), Newest(cs, max), BanKey)
    ensures Newest(cs, max) == Newest(bs, max)
  {
    SortDistinct(bs, BanKey);
    NewestIsSuffix(bs, max);
    NewestIsSuffix(cs, max);
    UpwardClosedIsSuffix(Sort(bs, BanKey), Newest(cs, max), BanKey);
  }

  lemma SameSizes(a: seq<AuthorizedUserBan>, b: seq<AuthorizedUserBan>, max: nat)
    requires |a| > max
    ensures |Newest(Newest(a, max) + b, max)| == max == |Newest(a + b, max)|
  {
    NewestSize(a, max);
    NewestSize(Newest(a, max) + b, max);
    NewestSize(a + b, max);
  }

  lemma LateTrimUpwardClosed(a: seq<AuthorizedUserBan>, b: seq<AuthorizedUserBan>, max: nat)
    requires DistinctKeys(a, BanKey) && DistinctKeys(Newest(a, max) + b, BanKey) && |a| > max
    ensures UpwardClosed(Sort(a + b, BanKey), Newest(Newest(a, max) + b, max), BanKey)
  {
    var x, z := Sort(a + b, BanKey), Newest(Newest(a, max) + b, max);
    forall e | e in z ensures e in x {
      assert e in Newest(a, max) + b;
    }
    forall e, f | e in z && f in x && Less(BanKey(e), BanKey(f)) ensures f in z {
      NothingTrimmedAbove(a, b, max, e, f);
    }
  }

  /** A ban trimmed from the first list lies below max newer ones, so none that stays lies below it. */
  lemma NothingTrimmedAbove(a: seq<AuthorizedUserBan>, b: seq<AuthorizedUserBan>, max: nat,
                            e: AuthorizedUserBan, f: AuthorizedUserBan)
    requires DistinctKeys(a, BanKey) && DistinctKeys(Newest(a, max) + b, BanKey) && |a| > max
    requires e in Newest(Newest(a, max) + b, max) && f in a + b && Less(BanKey(e), BanKey(f))
    ensures f in Newest(Newest(a, max) + b, max)
  {
    if f in Newest(a, max) + b {
      NewestUpwardClosed(Newest(a, max) + b, max, e, f);
    } else {
      forall g | g in Newest(a, max) ensures Less(BanKey(e), BanKey(g)) && g in Newest(Newest(a, max) + b, max) {
        TrimmedIsBelow(a, max, f, g);
        NewestUpwardClosed(Newest(a, max) + b, max, e, g);
      }
      NewestIsSuffix(a, max);
      NewestIsSuffix(Newest(a, max) + b, max);
      TooMany(Newest(a, max), Newest(Newest(a, max) + b, max), e, BanKey);
    }
  }

  lemma TrimmedIsBelow(a: seq<AuthorizedUserBan>, max: nat, f: AuthorizedUserBan, g: AuthorizedUserBan)
    requires DistinctKeys(a, BanKey) && f in a && f !in Newest(a, max) && g in Newest(a, max)
    ensures Less(BanKey(f), BanKey(g))
  {
    SortDistinct(a, BanKey);
    NewestIsSuffix(a, max);
    BelowSuffix(Sort(a, BanKey), |a| - |Newest(a, max)|, BanKey, f, g);
  }

  lemma NewestUpwardClosed(bs: seq<AuthorizedUserBan>, max: nat, e: AuthorizedUserBan, f: AuthorizedUserBan)
    requires DistinctKeys(bs, BanKey)
    requires e in Newest(bs, max) && f in bs && Less(BanKey(e), BanKey(f))
    ensures f in Newest(bs, max)
  {
    SortDistinct(bs, BanKey);
    NewestIsSuffix(bs, max);
    SuffixIsUpwardClosed(Sort(bs, BanKey), |bs| - |Newest(bs, max)|, BanKey, e, f);
  }

  /** The walk up from x has passed the records of chain and stands at current, above all of them; what is above x is
      what was passed and what is above current. */
  ghost predicate Passed(r: Roster, owner: Id, x: Id, chain: seq<AuthorizedMember>, passed: set<Id>, current: Id) {
    && passed <= r.Keys && owner !in passed
    && (forall c :: c in chain ==> c.id in passed)
    && (forall id :: id in passed ==> r[id] in chain && StrictlyAbove(r, owner, current, id))
    && (forall id {:trigger r[id].invitedBy} :: id in passed ==>
          r[id].invitedBy in passed || r[id].invitedBy == current)
    && (forall a :: Above(r, owner, a, x) <==> a in passed || Above(r, owner, a, current))
  }

  lemma PassedStep(r: Roster, owner: Id, x: Id, chain: seq<AuthorizedMember>, passed: set<Id>,
                   current: AuthorizedMember)
    requires Passed(r, owner, x, chain, passed, current.id)
    requires current.id in r && r[current.id] == current && current.id != owner
    ensures Passed(r, owner, x, chain + [current], passed + {current.id}, current.invitedBy)
    ensures Above(r, owner, current.id, x)
  {
    AboveStep(r, owner, current.id);
    AboveSelf(r, owner, current.id);
    AboveSelf(r, owner, current.invitedBy);
    InviterAbovePassed(r, owner, passed, current);
  }

  lemma InviterAbovePassed(r: Roster, owner: Id, passed: set<Id>, current: AuthorizedMember)
    requires current.id in r && r[current.id] == current && current.id != owner
    requires forall id :: id in passed ==> StrictlyAbove(r, owner, current.id, id)
    ensures forall id :: id in passed + {current.id} ==> StrictlyAbove(r, owner, current.invitedBy, id)
  {
    AboveStep(r, owner, current.id);
    AboveSelf(r, owner, current.invitedBy);
    forall id | id in passed ensures StrictlyAbove(r, owner, current.invitedBy, id) {
      AboveTransitive(r, owner, current.invitedBy, current.id, id);
    }
  }

  /** Coming back to a passed record closes a cycle, and everything above x has been passed. */
  lemma PassedTwice(r: Roster, owner: Id, x: Id, chain: seq<AuthorizedMember>, passed: set<Id>,
                    current: AuthorizedMember)
    requires Passed(r, owner, x, chain, passed, current.id) && current in chain
    ensures StrictlyAbove(r, owner, current.id, current.id) && Above(r, owner, current.id, x)
    ensures forall a :: Above(r, owner, a, x) ==> a in passed
  {
    AllInVisited(r, owner, passed, current.id);
  }

  class BansV1 {
    var bans: seq<AuthorizedUserBan>

    constructor ()
      ensures bans == []
    {
      bans := [];
    }

    /** Walks up from the banned member looking for the banner. Ends on any table. Where the table has no owner
        entry, a walk that misses the banner ends in `InviterNotFound` at the top, never in `NotInInviteChain`. */
    static method ValidateInviteChain(banned: AuthorizedMember, banner: Id, memberMap: Roster, owner: Id)
      returns (res: Result<(), BanValidationError>)
      requires Keyed(memberMap) && banned.id in memberMap && memberMap[banned.id] == banned && banner in memberMap
      ensures res.Ok? <==> MayBan(memberMap, owner, banner, banned.id)
      ensures res.Ok? <==> banner != owner && Above(memberMap, owner, banner, banned.id)
      ensures res.Err? && res.error.InviterNotFound? ==>
                Above(memberMap, owner, res.error.id, banned.id) && res.error.id in memberMap &&
                memberMap[res.error.id].invitedBy !in memberMap
      ensures res.Err? && res.error.SelfInvitationDetected? ==>
                Above(memberMap, owner, res.error.id, banned.id) &&
                StrictlyAbove(memberMap, owner, res.error.id, res.error.id)
      ensures res.Err? && res.error.NotInInviteChain? ==> owner in memberMap && Rooted(memberMap, owner, banned.id)
      ensures res.Err? ==> !res.error.BannerNotFound? && !res.error.ExceededMaximumBans?
    {
      var current := banned;
      var chain: seq<AuthorizedMember> := [];
      ghost var passed: set<Id> := {};
      while current.id != owner
        invariant current.id in memberMap && memberMap[current.id] == current && current !in chain
        invariant Passed(memberMap, owner, banned.id, chain, passed, current.id) && banner !in passed
        decreases memberMap.Keys - passed
      {
        PassedStep(memberMap, owner, banned.id, chain, passed, current);
        assert current.id !in passed;
        chain := chain + [current];
        passed := passed + {current.id};
        if current.id == banner {
          return Ok(());
        }
        if current.invitedBy !in memberMap {
          AboveTop(memberMap, owner, current.invitedBy);
          return Err(InviterNotFound(current.id));
        }
        current := memberMap[current.invitedBy];
        if current in chain {
          PassedTwice(memberMap, owner, banned.id, chain, passed, current);
          return Err(SelfInvitationDetected(current.id));
        }
      }
      AboveTop(memberMap, owner, owner);
      return Err(NotInInviteChain(banner, banned.id));
    }

    /** Judges one ban; None means it is accepted. */
    static method ValidateSingleBan(ban: AuthorizedUserBan, memberMap: Roster, cfg: Config, bannedUserIds: set<Id>)
      returns (invalid: Option<BanValidationError>)
      requires Keyed(memberMap)
      ensures invalid.None? <==> BanAuthorised(memberMap, cfg, bannedUserIds, ban)
      ensures invalid.None?
              <==> || ban.bannedUser !in memberMap
                   || ban.bannedBy == cfg.owner || ban.bannedBy in cfg.admins
                   || (ban.bannedBy in memberMap && Above(memberMap, cfg.owner, ban.bannedBy, ban.bannedUser))
                   || (ban.bannedBy !in memberMap && ban.bannedBy !in bannedUserIds)
    {
      if ban.bannedUser !in memberMap {
        return None;
      }
      if ban.bannedBy != cfg.owner && ban.bannedBy !in cfg.admins {
        if ban.bannedBy !in memberMap {
          return if ban.bannedBy in bannedUserIds then Some(BannerNotFound(ban.bannedBy)) else None;
        }
        var valid := ValidateInviteChain(memberMap[ban.bannedUser], ban.bannedBy, memberMap, cfg.owner);
        if valid.Err? {
          return Some(valid.error);
        }
      }
      return None;
    }

    /** Marks the bans beyond the limit, newest first, although the list is trimmed from its oldest end. */
    method IdentifyExcessBans(cfg: Config, invalid: map<int, BanValidationError>)
      returns (marked: map<int, BanValidationError>)
      ensures forall id :: id in marked
                           <==> id in invalid || exists b :: b in ExcessBans(bans, cfg.maxUserBans) && b.id == id
    {
      marked := invalid;
      if |bans| > cfg.maxUserBans {
        var extra := Sort(bans, BanKey);
        var taken := |extra|;
        while taken > cfg.maxUserBans
          invariant cfg.maxUserBans <= taken <= |extra|
          invariant forall id :: id in marked <==> id in invalid || IdAmong(extra, taken, id)
        {
          taken := taken - 1;
          marked := marked[extra[taken].id := ExceededMaximumBans];
        }
        ExcessIds(extra, taken);
      }
    }

    method GetInvalidBans(memberMap: Roster, cfg: Config) returns (invalid: map<int, BanValidationError>)
      requires Keyed(memberMap)
      ensures forall id :: id in invalid <==> exists b :: b in bans && b.id == id && IsInvalid(memberMap, cfg, bans, b)
    {
      var bannedUserIds := BannedUsers(bans);
      var marks: map<int, BanValidationError> := map[];
      for i := 0 to |bans|
        invariant forall id :: id in marks <==>
                                 exists j :: 0 <= j < i && bans[j].id == id
                                     && !BanAuthorised(memberMap, cfg, bannedUserIds, bans[j])
      {
        var error := ValidateSingleBan(bans[i], memberMap, cfg, bannedUserIds);
        if error.Some? {
          marks := marks[bans[i].id := error.value];
        }
      }
      invalid := IdentifyExcessBans(cfg, marks);
      forall id ensures id in invalid <==> exists b :: b in bans && b.id == id && IsInvalid(memberMap, cfg, bans, b) {
        if id in marks {
          var j :| 0 <= j < |bans| && bans[j].id == id && !BanAuthorised(memberMap, cfg, bannedUserIds, bans[j]);
          assert bans[j] in bans && IsInvalid(memberMap, cfg, bans, bans[j]);
        } else if b :| b in ExcessBans(bans, cfg.maxUserBans) && b.id == id {
          assert b in bans && IsInvalid(memberMap, cfg, bans, b);
        }
        if b :| b in bans && b.id == id && IsInvalid(memberMap, cfg, bans, b) {
          var j :| 0 <= j < |bans| && bans[j] == b;
        }
      }
    }

    method Verify(memberMap: Roster, cfg: Config) returns (res: Result<(), BanError>)
      requires Keyed(memberMap)
      ensures res.Ok? <==> BansVerify(memberMap, cfg, bans)
    {
      var invalid := GetInvalidBans(memberMap, cfg);
      InvalidIsUnverified(memberMap, cfg, bans, invalid.Keys);
      if invalid.Keys != {} || |bans| > cfg.maxUserBans {
        return Err(InvalidBans);
      }
      for i := 0 to |bans|
        invariant forall j :: 0 <= j < i ==> BanSigned(memberMap, cfg.owner, bans[j])
      {
        if !BanSigned(memberMap, cfg.owner, bans[i]) {
          assert bans[i] in bans;
          return Err(InvalidBanSignature);
        }
      }
      return Ok(());
    }

    /** No ban of the delta may reuse the identifier of a listed one. */
    method CheckDuplicates(delta: seq<AuthorizedUserBan>) returns (res: Result<(), BanError>)
      ensures res.Ok? <==> !SharesBanId(bans, delta)
    {
      for i := 0 to |delta|
        invariant forall b, j :: b in bans && 0 <= j < i ==> b.id != delta[j].id
      {
        if exists b :: b in bans && b.id == delta[i].id {
          assert delta[i] in delta;
          return Err(DuplicateBan(delta[i].id));
        }
      }
      res := Ok(());
    }

    method TrimOldest(max: nat)
      modifies this
      ensures bans == KeepNewest(old(bans), max)
    {
      if |bans| > max {
        bans := Sort(bans, BanKey);
        bans := bans[|bans| - max..];
      }
    }

    /** The bans step. A rejected delta leaves the list as it was. */
    method ApplyDelta(memberMap: Roster, cfg: Config, delta: Option<seq<AuthorizedUserBan>>)
      returns (res: Result<(), BanError>)
      requires Keyed(memberMap)
      modifies this
      ensures res.Ok? <==> BansApplied(memberMap, cfg, old(bans), delta).Some?
      ensures res.Ok? ==> bans == BansApplied(memberMap, cfg, old(bans), delta).value
      ensures res.Err? ==> bans == old(bans)
    {
      if delta.Some? {
        res := CheckDuplicates(delta.value);
        if res.Err? {
          return;
        }
        var temp := new BansV1();
        temp.bans := bans + delta.value;
        temp.TrimOldest(cfg.maxUserBans);
        res := temp.Verify(memberMap, cfg);
        if res.Err? {
          return;
        }
        bans := temp.bans;
      }
      bans := Sort(bans, BanKey);
      res := Ok(());
    }
  }

  // ---------- What the list becomes ----------

  ghost predicate DistinctBanIds(bs: seq<AuthorizedUserBan>) {
    forall i, j :: 0 <= i < j < |bs| ==> bs[i].id != bs[j].id
  }

  /** After two accepted, id-disjoint deltas the list is the same whichever came first: the newest bans of all. */
  lemma BanOrderIrrelevant(r: Roster, cfg: Config, bs: seq<AuthorizedUserBan>, d: seq<AuthorizedUserBan>,
                           e: seq<AuthorizedUserBan>)
    requires DistinctBanIds(bs) && DistinctBanIds(d) && DistinctBanIds(e) && !SharesBanId(d, e)
    requires BansApplied(r, cfg, bs, Some(d)).Some? && BansApplied(r, cfg, bs, Some(e)).Some?
    requires BansApplied(r, cfg, BansApplied(r, cfg, bs, Some(d)).value, Some(e)).Some?
    requires BansApplied(r, cfg, BansApplied(r, cfg, bs, Some(e)).value, Some(d)).Some?
    ensures BansApplied(r, cfg, BansApplied(r, cfg, bs, Some(d)).value, Some(e)).value
            == Newest(bs + d + e, cfg.maxUserBans)
    ensures BansApplied(r, cfg, BansApplied(r, cfg, bs, Some(e)).value, Some(d)).value
            == Newest(bs + d + e, cfg.maxUserBans)
  {
    ApartByKey(bs, d);
    ApartByKey(bs, e);
    ApartByKey(d, e);
    DistinctKeysOf(bs);
    DistinctKeysOf(d);
    DistinctKeysOf(e);
    AppliedIsNewest(r, cfg, bs, d);
    AppliedIsNewest(r, cfg, bs, e);
    AppliedIsNewest(r, cfg, BansApplied(r, cfg, bs, Some(d)).value, e);
    AppliedIsNewest(r, cfg, BansApplied(r, cfg, bs, Some(e)).value, d);
    EitherOrder(bs, d, e, cfg.maxUserBans);
  }

  lemma ApartByKey(bs: seq<AuthorizedUserBan>, cs: seq<AuthorizedUserBan>)
    requires !SharesBanId(bs, cs)
    ensures DisjointKeys(bs, cs, BanKey)
  {
  }

  lemma DistinctKeysOf(bs: seq<AuthorizedUserBan>)
    requires DistinctBanIds(bs)
    ensures DistinctKeys(bs, BanKey)
  {
  }

  lemma EitherOrder(bs: seq<AuthorizedUserBan>, d: seq<AuthorizedUserBan>, e: seq<AuthorizedUserBan>, max: nat)
    requires DistinctKeys(bs, BanKey) && DistinctKeys(d, BanKey) && DistinctKeys(e, BanKey)
    requires DisjointKeys(bs, d, BanKey) && DisjointKeys(bs, e, BanKey) && DisjointKeys(d, e, BanKey)
    ensures Newest(Newest(bs + d, max) + e, max) == Newest(bs + d + e, max)
    ensures Newest(Newest(bs + e, max) + d, max) == Newest(bs + d + e, max)
  {
    ThenAnother(bs, d, e, max);
    ThenAnother(bs, e, d, max);
    NewestSameElements(bs + d + e, bs + e + d, max);
  }

  lemma ThenAnother(bs: seq<AuthorizedUserBan>, d: seq<AuthorizedUserBan>, e: seq<AuthorizedUserBan>, max: nat)
    requires DistinctKeys(bs, BanKey) && DistinctKeys(d, BanKey) && DistinctKeys(e, BanKey)
    requires DisjointKeys(bs, d, BanKey) && DisjointKeys(bs, e, BanKey)
    requires DisjointKeys(d, e, BanKey) || DisjointKeys(e, d, BanKey)
    ensures DistinctKeys(bs + d + e, BanKey)
    ensures Newest(Newest(bs + d, max) + e, max) == Newest(bs + d + e, max)
  {
    DistinctConcat(bs, d, BanKey);
    assert DisjointKeys(bs + d, e, BanKey);
    DistinctConcat(bs + d, e, BanKey);
    NewestAbsorbs(bs + d, e, max);
  }

  ghost predicate OwnerSigned(owner: Id, bs: seq<AuthorizedUserBan>) {
    forall b :: b in bs ==> b.bannedBy == owner && owner in b.signature
  }

  /** Owner-signed bans are always accepted, whatever the member list. */
  lemma OwnerBansAccepted(r: Roster, cfg: Config, bs: seq<AuthorizedUserBan>, d: seq<AuthorizedUserBan>)
    requires OwnerSigned(cfg.owner, bs) && OwnerSigned(cfg.owner, d) && !SharesBanId(bs, d)
    ensures BansApplied(r, cfg, bs, Some(d)) == Some(Newest(bs + d, cfg.maxUserBans))
    ensures OwnerSigned(cfg.owner, Newest(bs + d, cfg.maxUserBans))
  {
    SortedNewest(bs + d, cfg.maxUserBans);
  }

  /** b stands only because its banner left without being banned. */
  ghost predicate LeansOnAbsent(r: Roster, cfg: Config, b: AuthorizedUserBan) {
    b.bannedUser in r && b.bannedBy !in r && b.bannedBy != cfg.owner && b.bannedBy !in cfg.admins
  }

  /** The owner may ban anyone, except that banning someone who left while a ban of theirs still stands on a listed
      member is refused: that ban would lose its ground. */
  lemma OwnerBanRefusedExactly(r: Roster, cfg: Config, bs: seq<AuthorizedUserBan>, ban: AuthorizedUserBan)
    requires BansVerify(r, cfg, bs) && !SharesBanId(bs, [ban])
    requires ban.bannedBy == cfg.owner && cfg.owner in ban.signature
    ensures var kept := KeepNewest(bs + [ban], cfg.maxUserBans);
            BansApplied(r, cfg, bs, Some([ban])).Some?
            <==> (ban in kept ==> forall b :: b in kept && LeansOnAbsent(r, cfg, b) ==> b.bannedBy != ban.bannedUser)
  {
    var kept := KeepNewest(bs + [ban], cfg.maxUserBans);
    assert ban in kept ==> ban.bannedUser in BannedUsers(kept);
    forall b | b in kept
      ensures BanSigned(r, cfg.owner, b)
      ensures BanAuthorised(r, cfg, BannedUsers(kept), b)
              <==> !(ban in kept && LeansOnAbsent(r, cfg, b) && b.bannedBy == ban.bannedUser)
    {
      assert b in bs + [ban];
      if b != ban {
        assert BanAuthorised(r, cfg, BannedUsers(bs), b) && BanSigned(r, cfg.owner, b);
        assert b.bannedBy in BannedUsers(kept) ==>
                 b.bannedBy in BannedUsers(bs) || (ban in kept && b.bannedBy == ban.bannedUser);
      }
    }
  }

  /** A ban `apply_delta` drops from a list over the limit. */
  ghost predicate TrimmedAway(bs: seq<AuthorizedUserBan>, max: nat, b: AuthorizedUserBan) {
    b in bs && b !in KeepNewest(bs, max)
  }

  lemma InSuffix(s: seq<AuthorizedUserBan>, n: nat, k: nat)
    requires StrictlySorted(s, BanKey) && n <= |s| && k < |s|
    ensures s[k] in s[n..] <==> n <= k
  {
    if n <= k {
      assert s[n..][k - n] == s[k];
    }
    if s[k] in s[n..] {
      var i :| 0 <= i < |s[n..]| && s[n..][i] == s[k];
      assert s[n + i] == s[k];
      assert !(k < n + i);
    }
  }

  /** Over the limit `verify` marks the newest bans and `apply_delta` drops the oldest, by position in the sorted
      list. */
  lemma MarkedAndTrimmed(bs: seq<AuthorizedUserBan>, max: nat, k: nat)
    requires DistinctKeys(bs, BanKey) && k < |bs|
    ensures var b := Sort(bs, BanKey)[k];
            && (b in ExcessBans(bs, max) <==> |bs| > max && k >= max)
            && (TrimmedAway(bs, max, b) <==> |bs| > max && k < |bs| - max)
  {
    var s := Sort(bs, BanKey);
    SortDistinct(bs, BanKey);
    assert s[k] in bs;
    if |bs| > max {
      InSuffix(s, max, k);
      InSuffix(s, |bs| - max, k);
    }
  }

  /** No ban is both marked and dropped exactly up to twice the limit. */
  lemma MarkedIsNotTrimmed(bs: seq<AuthorizedUserBan>, max: nat)
    requires DistinctKeys(bs, BanKey)
    ensures (forall b :: b in ExcessBans(bs, max) ==> !TrimmedAway(bs, max, b)) <==> |bs| <= 2 * max
  {
    var s := Sort(bs, BanKey);
    if |bs| > 2 * max {
      MarkedAndTrimmed(bs, max, max);
      assert s[max] in ExcessBans(bs, max) && TrimmedAway(bs, max, s[max]);
    } else {
      forall b | b in ExcessBans(bs, max) ensures !TrimmedAway(bs, max, b) {
        var k :| 0 <= k < |s| && s[k] == b;
        MarkedAndTrimmed(bs, max, k);
      }
    }
  }

  /** The marked bans are the dropped ones exactly when there are none, or the limit is zero. */
  lemma MarkedIsTrimmed(bs: seq<AuthorizedUserBan>, max: nat)
    requires DistinctKeys(bs, BanKey)
    ensures (forall b :: b in ExcessBans(bs, max) <==> TrimmedAway(bs, max, b)) <==> |bs| <= max || max == 0
  {
    var s := Sort(bs, BanKey);
    if |bs| > max && max > 0 {
      MarkedAndTrimmed(bs, max, |bs| - 1);
      var last := s[|bs| - 1];
      assert last in ExcessBans(bs, max) && !TrimmedAway(bs, max, last);
    } else {
      forall b ensures b in ExcessBans(bs, max) <==> TrimmedAway(bs, max, b) {
        if b in bs {
          var k :| 0 <= k < |s| && s[k] == b;
          MarkedAndTrimmed(bs, max, k);
        }
      }
    }
  }

  /** A board on which the owner's ban is refused: someone who left has banned a member, and the owner bans them. */
  lemma OwnerBanRefusedHere()
    ensures var cfg := Config(0, {}, 10, 0, 0, 0, false);
            var r := map[1 := AuthorizedMember(1, 0, {0})];
            var bs := [AuthorizedUserBan(7, 1, 1, 2, {2})];
            BansVerify(r, cfg, bs) && BansApplied(r, cfg, bs, Some([AuthorizedUserBan(8, 2, 2, 0, {0})])).None?
  {
    var cfg := Config(0, {}, 10, 0, 0, 0, false);
    var r := map[1 := AuthorizedMember(1, 0, {0})];
    var earlier, ban := AuthorizedUserBan(7, 1, 1, 2, {2}), AuthorizedUserBan(8, 2, 2, 0, {0});
    var bs := [earlier];
    assert BannedUsers(bs) == {1};
    assert BansVerify(r, cfg, bs);
    OwnerBanRefusedExactly(r, cfg, bs, ban);
    var kept := KeepNewest(bs + [ban], cfg.maxUserBans);
    assert kept == [earlier, ban];
    assert earlier in kept && ban in kept && LeansOnAbsent(r, cfg, earlier);
  }

  /** The signature of a banner who is neither the owner nor listed is not looked at: on an empty list such a ban is
      always accepted. */
  lemma AbsentBannerUnchecked(r: Roster, cfg: Config, b: AuthorizedUserBan)
    requires b.bannedBy != cfg.owner && b.bannedBy !in r
    ensures BansApplied(r, cfg, [], Some([b])).Some?
  {
    assert [] + [b] == [b];
    assert BannedUsers([b]) == {b.bannedUser};
  }

  lemma InvalidIsUnverified(r: Roster, cfg: Config, bs: seq<AuthorizedUserBan>, invalid: set<int>)
    requires forall id :: id in invalid <==> exists b :: b in bs && b.id == id && IsInvalid(r, cfg, bs, b)
    ensures invalid != {} || |bs| > cfg.maxUserBans
            <==> |bs| > cfg.maxUserBans || exists b :: b in bs && !BanAuthorised(r, cfg, BannedUsers(bs), b)
  {
    forall b | b in bs && !BanAuthorised(r, cfg, BannedUsers(bs), b) ensures b.id in invalid {
      assert IsInvalid(r, cfg, bs, b);
    }
    if |bs| <= cfg.maxUserBans && forall b :: b in bs ==> BanAuthorised(r, cfg, BannedUsers(bs), b) {
      assert forall b :: b in bs ==> !IsInvalid(r, cfg, bs, b);
      assert forall id :: id !in invalid;
      assert invalid == {};
    }
  }
}
