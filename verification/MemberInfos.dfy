/** Member info: one versioned record for each member and the owner. */
module MemberInfos {
  import opened Lists
  import opened Records
  import opened Forest

  datatype InfoError = NicknameTooLong(id: Id) | InvalidInfoSignature(id: Id) | UnknownMember(id: Id)

  /** The owner's record is signed by the owner, a listed member's by that member; others are not looked at. */
  predicate InfoOk(r: Roster, cfg: Config, i: AuthorizedMemberInfo) {
    && i.nicknameLen <= cfg.maxNicknameSize
    && (i.memberId == cfg.owner || i.memberId in r ==> i.memberId in i.signature)
  }

  predicate Kept(r: Roster, owner: Id, id: Id) {
    id == owner || id in r
  }

  ghost predicate DistinctInfos(infos: seq<AuthorizedMemberInfo>) {
    forall i, j :: 0 <= i < j < |infos| ==> infos[i].memberId != infos[j].memberId
  }

  /** The first position holding a record of the member, or the length of the list. */
  function Find(infos: seq<AuthorizedMemberInfo>, id: Id): (k: nat)
    ensures k <= |infos|
    ensures k < |infos| ==> infos[k].memberId == id
    ensures forall j :: 0 <= j < k ==> infos[j].memberId != id
  {
    if infos == [] || infos[0].memberId == id then 0 else 1 + Find(infos[1..], id)
  }

  /** A newer version replaces the member's record in place; the same or an older one is ignored. */
  function Upsert(infos: seq<AuthorizedMemberInfo>, i: AuthorizedMemberInfo): seq<AuthorizedMemberInfo> {
    var k := Find(infos, i.memberId);
    if k == |infos| then infos + [i]
    else if i.version > infos[k].version then infos[k := i]
    else infos
  }

  function UpsertAll(r: Roster, owner: Id, infos: seq<AuthorizedMemberInfo>, delta: seq<AuthorizedMemberInfo>)
    : seq<AuthorizedMemberInfo>
  {
    if delta == [] then infos
    else
      var n := |delta| - 1;
      var acc := UpsertAll(r, owner, infos, delta[..n]);
      if Kept(r, owner, delta[n].memberId) then Upsert(acc, delta[n]) else acc
  }

  function Infos(delta: Option<seq<AuthorizedMemberInfo>>): seq<AuthorizedMemberInfo> {
    if delta.Some? then delta.value else []
  }

  /** The list after `apply_delta`, or None when the delta is rejected. */
  ghost function InfosApplied(r: Roster, cfg: Config, infos: seq<AuthorizedMemberInfo>,
                              delta: Option<seq<AuthorizedMemberInfo>>)
    : Option<seq<AuthorizedMemberInfo>>
  {
    if forall i :: i in Infos(delta) ==> InfoOk(r, cfg, i) then
      Some(Sort(Filter(UpsertAll(r, cfg.owner, infos, Infos(delta)),
                       (i: AuthorizedMemberInfo) => Kept(r, cfg.owner, i.memberId)), InfoKey))
    else None
  }

  /** The position of the first record the step refuses, or the length of the delta. */
  function FirstRefused(r: Roster, cfg: Config, delta: seq<AuthorizedMemberInfo>): (n: nat)
    ensures n <= |delta| && forall j :: 0 <= j < n ==> InfoOk(r, cfg, delta[j])
    ensures n < |delta| ==> !InfoOk(r, cfg, delta[n])
  {
    if delta == [] || !InfoOk(r, cfg, delta[0]) then 0 else 1 + FirstRefused(r, cfg, delta[1..])
  }

  /** `MemberInfoV1::verify`: every record is the owner's or a listed member's, and signed by its subject. */
  ghost predicate InfosVerify(r: Roster, owner: Id, infos: seq<AuthorizedMemberInfo>) {
    forall i :: i in infos ==> Kept(r, owner, i.memberId) && i.memberId in i.signature
  }

  class MemberInfoV1 {
    var memberInfo: seq<AuthorizedMemberInfo>

    constructor ()
      ensures memberInfo == []
    {
      memberInfo := [];
    }

    method Verify(members: Roster, owner: Id) returns (res: Result<(), InfoError>)
      ensures res.Ok? <==> InfosVerify(members, owner, memberInfo)
    {
      for i := 0 to |memberInfo|
        invariant forall j :: 0 <= j < i ==>
                                Kept(members, owner, memberInfo[j].memberId)
                                    && memberInfo[j].memberId in memberInfo[j].signature
      {
        var info := memberInfo[i];
        assert info in memberInfo;
        if info.memberId != owner && info.memberId !in members { return Err(UnknownMember(info.memberId)); }
        if info.memberId !in info.signature { return Err(InvalidInfoSignature(info.memberId)); }
      }
      return Ok(());
    }

    /** One good record of the owner or a listed member. */
    method Upserted(info: AuthorizedMemberInfo)
      modifies this
      ensures memberInfo == Upsert(old(memberInfo), info)
    {
      var k := Find(memberInfo, info.memberId);
      if k < |memberInfo| {
        if info.version > memberInfo[k].version {
          memberInfo := memberInfo[k := info];
        }
      } else {
        memberInfo := memberInfo + [info];
      }
    }

    /** The member-info step. A rejected delta leaves the records before the first refused one applied. */
    method ApplyDelta(members: Roster, cfg: Config, delta: Option<seq<AuthorizedMemberInfo>>)
      returns (res: Result<(), InfoError>)
      modifies this
      ensures res.Ok? <==> InfosApplied(members, cfg, old(memberInfo), delta).Some?
      ensures res.Ok? ==> memberInfo == InfosApplied(members, cfg, old(memberInfo), delta).value
      ensures res.Err? ==>
                var n := FirstRefused(members, cfg, Infos(delta));
                n < |Infos(delta)| && memberInfo == UpsertAll(members, cfg.owner, old(memberInfo), Infos(delta)[..n])
    {
      ghost var before := memberInfo;
      if delta.Some? {
        var added := delta.value;
        for i := 0 to |added|
          invariant memberInfo == UpsertAll(members, cfg.owner, before, added[..i])
          invariant forall j :: 0 <= j < i ==> InfoOk(members, cfg, added[j])
        {
          var info := added[i];
          UpsertAllStep(members, cfg.owner, before, added, i);
          if info.nicknameLen > cfg.maxNicknameSize {
            FirstRefusedHere(members, cfg, before, delta, i);
            return Err(NicknameTooLong(info.memberId));
          }
          if info.memberId != cfg.owner && info.memberId !in members {
            continue;
          }
          if info.memberId !in info.signature {
            FirstRefusedHere(members, cfg, before, delta, i);
            return Err(InvalidInfoSignature(info.memberId));
          }
          Upserted(info);
        }
        assert added[..|added|] == added;
      }
      assert forall i :: i in Infos(delta) ==> InfoOk(members, cfg, i);
      memberInfo := Filter(memberInfo, (i: AuthorizedMemberInfo) => Kept(members, cfg.owner, i.memberId));
      memberInfo := Sort(memberInfo, InfoKey);
      res := Ok(());
    }
  }

  lemma UpsertAllStep(r: Roster, owner: Id, infos: seq<AuthorizedMemberInfo>, delta: seq<AuthorizedMemberInfo>, i: nat)
    requires i < |delta|
    ensures var acc := UpsertAll(r, owner, infos, delta[..i]);
            UpsertAll(r, owner, infos, delta[..i + 1])
            == if Kept(r, owner, delta[i].memberId) then Upsert(acc, delta[i]) else acc
  {
    assert delta[..i + 1][..i] == delta[..i];
  }

  lemma FirstRefusedHere(r: Roster, cfg: Config, infos: seq<AuthorizedMemberInfo>,
                         delta: Option<seq<AuthorizedMemberInfo>>, i: nat)
    requires i < |Infos(delta)| && !InfoOk(r, cfg, Infos(delta)[i])
    requires forall j :: 0 <= j < i ==> InfoOk(r, cfg, Infos(delta)[j])
    ensures FirstRefused(r, cfg, Infos(delta)) == i
    ensures InfosApplied(r, cfg, infos, delta).None?
  {
    assert Infos(delta)[i] in Infos(delta);
  }

  // ---------- What the list becomes ----------

  lemma UpsertDistinct(infos: seq<AuthorizedMemberInfo>, i: AuthorizedMemberInfo)
    requires DistinctInfos(infos)
    ensures DistinctInfos(Upsert(infos, i))
  {
  }

  lemma {:induction false} UpsertAllDistinct(r: Roster, owner: Id, infos: seq<AuthorizedMemberInfo>,
                                             delta: seq<AuthorizedMemberInfo>)
    requires DistinctInfos(infos)
    ensures DistinctInfos(UpsertAll(r, owner, infos, delta))
  {
    if delta != [] {
      var n := |delta| - 1;
      UpsertAllDistinct(r, owner, infos, delta[..n]);
      UpsertDistinct(UpsertAll(r, owner, infos, delta[..n]), delta[n]);
    }
  }

  /** i is a record from one of the lists, no older than any of the same member in either, and the local one if that
      is as new. */
  ghost predicate IsLatest(infos: seq<AuthorizedMemberInfo>, delta: seq<AuthorizedMemberInfo>, i: AuthorizedMemberInfo)
  {
    && (i in infos || i in delta)
    && (forall d :: (d in infos || d in delta) && d.memberId == i.memberId ==> d.version <= i.version)
    && (forall d :: d in infos && d.memberId == i.memberId && d.version == i.version ==> d == i)
  }

  /** acc holds the latest record of every kept member that has one. */
  ghost predicate HoldsLatest(r: Roster, owner: Id, infos: seq<AuthorizedMemberInfo>, delta: seq<AuthorizedMemberInfo>,
                              acc: seq<AuthorizedMemberInfo>)
  {
    && (forall i :: i in acc && Kept(r, owner, i.memberId) ==> IsLatest(infos, delta, i))
    && (forall d :: (d in infos || d in delta) && Kept(r, owner, d.memberId) ==> Find(acc, d.memberId) < |acc|)
  }

  lemma {:induction false} UpsertAllLatest(r: Roster, owner: Id, infos: seq<AuthorizedMemberInfo>,
                                           delta: seq<AuthorizedMemberInfo>)
    requires DistinctInfos(infos)
    ensures HoldsLatest(r, owner, infos, delta, UpsertAll(r, owner, infos, delta))
  {
    if delta == [] {
      forall i | i in infos ensures IsLatest(infos, delta, i) && Find(infos, i.memberId) < |infos| {
        SameIdSameInfo(infos, i);
        var k :| 0 <= k < |infos| && infos[k] == i;
      }
    } else {
      var n := |delta| - 1;
      var acc := UpsertAll(r, owner, infos, delta[..n]);
      assert delta == delta[..n] + [delta[n]];
      UpsertAllLatest(r, owner, infos, delta[..n]);
      UpsertAllDistinct(r, owner, infos, delta[..n]);
      if Kept(r, owner, delta[n].memberId) {
        UpsertLatest(r, owner, infos, delta[..n], acc, delta[n]);
      } else {
        assert HoldsLatest(r, owner, infos, delta, acc);
      }
    }
  }

  lemma SameIdSameInfo(infos: seq<AuthorizedMemberInfo>, i: AuthorizedMemberInfo)
    requires DistinctInfos(infos) && i in infos
    ensures forall d :: d in infos && d.memberId == i.memberId ==> d == i
  {
    forall d | d in infos && d.memberId == i.memberId ensures d == i {
      var j :| 0 <= j < |infos| && infos[j] == i;
      var k :| 0 <= k < |infos| && infos[k] == d;
      assert !(j < k) && !(k < j);
    }
  }

  lemma UpsertLatest(r: Roster, owner: Id, infos: seq<AuthorizedMemberInfo>, delta: seq<AuthorizedMemberInfo>,
                     acc: seq<AuthorizedMemberInfo>, d: AuthorizedMemberInfo)
    requires DistinctInfos(acc) && HoldsLatest(r, owner, infos, delta, acc) && Kept(r, owner, d.memberId)
    ensures HoldsLatest(r, owner, infos, delta + [d], Upsert(acc, d))
  {
    var k := Find(acc, d.memberId);
    var next := Upsert(acc, d);
    if k < |acc| {
      assert acc[k] in acc;
    }
    forall i | i in next && Kept(r, owner, i.memberId) ensures IsLatest(infos, delta + [d], i) {
      if i in acc && i.memberId == d.memberId {
        SameIdSameInfo(acc, i);
      }
      var j :| 0 <= j < |next| && next[j] == i;
      assert k < |acc| && j != k ==> acc[j] in acc && acc[j].memberId != d.memberId;
    }
    forall e | (e in infos || e in delta + [d]) && Kept(r, owner, e.memberId) ensures Find(next, e.memberId) < |next| {
      var j := if e == d then k else Find(acc, e.memberId);
      assert j < |next| && next[j].memberId == e.memberId;
    }
  }

  /** The records left by the step: one for each member still listed, or the owner, that has a record in either
      list, and always the latest; a tie keeps the local record. */
  lemma InfosAppliedLatest(r: Roster, cfg: Config, infos: seq<AuthorizedMemberInfo>,
                           delta: Option<seq<AuthorizedMemberInfo>>)
    requires DistinctInfos(infos) && InfosApplied(r, cfg, infos, delta).Some?
    ensures var after := InfosApplied(r, cfg, infos, delta).value;
            && StrictlySorted(after, InfoKey)
            && (forall i :: i in after ==> Kept(r, cfg.owner, i.memberId) && IsLatest(infos, Infos(delta), i))
            && (forall d :: (d in infos || d in Infos(delta)) && Kept(r, cfg.owner, d.memberId) ==>
                              exists i :: i in after && i.memberId == d.memberId)
  {
    var all := UpsertAll(r, cfg.owner, infos, Infos(delta));
    var keep := (i: AuthorizedMemberInfo) => Kept(r, cfg.owner, i.memberId);
    var after := InfosApplied(r, cfg, infos, delta).value;
    UpsertAllDistinct(r, cfg.owner, infos, Infos(delta));
    UpsertAllLatest(r, cfg.owner, infos, Infos(delta));
    assert DistinctKeys(all, InfoKey);
    FilterKeepsOrder(all, keep, InfoKey);
    SortDistinct(Filter(all, keep), InfoKey);
    forall d | (d in infos || d in Infos(delta)) && Kept(r, cfg.owner, d.memberId)
      ensures exists i :: i in after && i.memberId == d.memberId
    {
      var i := all[Find(all, d.memberId)];
      assert i in all && keep(i);
      assert i in after && i.memberId == d.memberId;
    }
  }

  /** The step keeps verification: a kept record was there before or was checked on arrival. */
  lemma StepKeepsInfosVerify(r: Roster, t: Roster, cfg: Config, infos: seq<AuthorizedMemberInfo>,
                             delta: Option<seq<AuthorizedMemberInfo>>)
    requires DistinctInfos(infos) && InfosVerify(t, cfg.owner, infos) && InfosApplied(r, cfg, infos, delta).Some?
    ensures InfosVerify(r, cfg.owner, InfosApplied(r, cfg, infos, delta).value)
  {
    InfosAppliedLatest(r, cfg, infos, delta);
  }

  // ---------- Member by member ----------

  function RecordOf(infos: seq<AuthorizedMemberInfo>, x: Id): (i: Option<AuthorizedMemberInfo>)
    ensures i.Some? ==> i.value in infos && i.value.memberId == x
    ensures i.None? ==> forall d :: d in infos ==> d.memberId != x
  {
    var k := Find(infos, x);
    if k < |infos| then Some(infos[k]) else None
  }

  /** The newer of two records, the first on a tie. */
  function Newer(a: Option<AuthorizedMemberInfo>, b: Option<AuthorizedMemberInfo>): Option<AuthorizedMemberInfo> {
    if a.None? || (b.Some? && b.value.version > a.value.version) then b else a
  }

  lemma RecordIsOnly(infos: seq<AuthorizedMemberInfo>, i: AuthorizedMemberInfo)
    requires DistinctInfos(infos) && i in infos
    ensures RecordOf(infos, i.memberId) == Some(i)
  {
    SameIdSameInfo(infos, i);
  }

  /** A sorted list is determined by what it holds for each member. */
  lemma SameRecords(a: seq<AuthorizedMemberInfo>, b: seq<AuthorizedMemberInfo>)
    requires StrictlySorted(a, InfoKey) && StrictlySorted(b, InfoKey) && DistinctInfos(a) && DistinctInfos(b)
    ensures a == b <==> forall x :: RecordOf(a, x) == RecordOf(b, x)
  {
    if forall x :: RecordOf(a, x) == RecordOf(b, x) {
      forall i ensures i in a <==> i in b {
        if i in a { RecordIsOnly(a, i); }
        if i in b { RecordIsOnly(b, i); }
      }
      SortedListUnique(a, b, InfoKey);
    }
  }

  /** What the step leaves for a member: the newer of the two records, the local one on a tie, if the member is kept. */
  lemma AppliedRecord(r: Roster, cfg: Config, infos: seq<AuthorizedMemberInfo>,
                      delta: Option<seq<AuthorizedMemberInfo>>, x: Id)
    requires DistinctInfos(infos) && DistinctInfos(Infos(delta)) && InfosApplied(r, cfg, infos, delta).Some?
    ensures RecordOf(InfosApplied(r, cfg, infos, delta).value, x)
            == if Kept(r, cfg.owner, x) then Newer(RecordOf(infos, x), RecordOf(Infos(delta), x)) else None
  {
    var after := InfosApplied(r, cfg, infos, delta).value;
    InfosAppliedLatest(r, cfg, infos, delta);
    var i := RecordOf(after, x);
    if i.Some? {
      LatestRecord(infos, Infos(delta), i.value);
    } else if Kept(r, cfg.owner, x) {
      assert RecordOf(infos, x).None? && RecordOf(Infos(delta), x).None?;
    }
  }

  lemma LatestRecord(infos: seq<AuthorizedMemberInfo>, delta: seq<AuthorizedMemberInfo>, i: AuthorizedMemberInfo)
    requires DistinctInfos(infos) && DistinctInfos(delta) && IsLatest(infos, delta, i)
    ensures Newer(RecordOf(infos, i.memberId), RecordOf(delta, i.memberId)) == Some(i)
  {
    if i in infos { RecordIsOnly(infos, i); }
    if i in delta { RecordIsOnly(delta, i); }
  }

  lemma FilterRecord(infos: seq<AuthorizedMemberInfo>, keep: AuthorizedMemberInfo -> bool, x: Id)
    requires DistinctInfos(infos)
    ensures var i := RecordOf(infos, x);
            RecordOf(Filter(infos, keep), x) == if i.Some? && keep(i.value) then i else None
    ensures DistinctInfos(Filter(infos, keep))
  {
    assert DistinctKeys(infos, InfoKey);
    FilterKeepsOrder(infos, keep, InfoKey);
    var after := Filter(infos, keep);
    forall i, j | 0 <= i < j < |after| ensures after[i].memberId != after[j].memberId {
      assert InfoKey(after[i]) != InfoKey(after[j]);
    }
    var i := RecordOf(after, x);
    if i.Some? {
      RecordIsOnly(infos, i.value);
    }
  }

  // ---------- What a rejected delta leaves ----------

  /** The list has a record of the member at least as new. */
  predicate Known(infos: seq<AuthorizedMemberInfo>, i: AuthorizedMemberInfo) {
    var known := RecordOf(infos, i.memberId);
    known.Some? && i.version <= known.value.version
  }

  /** b is a with newer records in place and others behind. */
  ghost predicate GrownFrom(a: seq<AuthorizedMemberInfo>, b: seq<AuthorizedMemberInfo>) {
    |a| <= |b| && forall k :: 0 <= k < |a| ==> a[k].version <= b[k].version
  }

  lemma UpsertGrows(infos: seq<AuthorizedMemberInfo>, i: AuthorizedMemberInfo)
    ensures GrownFrom(infos, Upsert(infos, i))
    ensures Upsert(infos, i) == infos <==> Known(infos, i)
    ensures !Known(infos, i) ==> !GrownFrom(Upsert(infos, i), infos)
  {
    var k := Find(infos, i.memberId);
    if k < |infos| && i.version > infos[k].version {
      assert Upsert(infos, i)[k] == i;
    }
  }

  lemma GrownTransitive(a: seq<AuthorizedMemberInfo>, b: seq<AuthorizedMemberInfo>, c: seq<AuthorizedMemberInfo>)
    requires GrownFrom(a, b) && GrownFrom(b, c)
    ensures GrownFrom(a, c)
  {
  }

  /** Records arriving leave any list as it was exactly when it knows those of kept members already. */
  lemma {:induction false} UpsertAllSame(r: Roster, owner: Id, infos: seq<AuthorizedMemberInfo>,
                                         delta: seq<AuthorizedMemberInfo>)
    ensures GrownFrom(infos, UpsertAll(r, owner, infos, delta))
    ensures GrownFrom(UpsertAll(r, owner, infos, delta), infos) ==> UpsertAll(r, owner, infos, delta) == infos
    ensures UpsertAll(r, owner, infos, delta) == infos
            <==> forall j :: 0 <= j < |delta| && Kept(r, owner, delta[j].memberId) ==> Known(infos, delta[j])
  {
    if delta != [] {
      var n := |delta| - 1;
      var acc := UpsertAll(r, owner, infos, delta[..n]);
      UpsertAllSame(r, owner, infos, delta[..n]);
      if Kept(r, owner, delta[n].memberId) {
        UpsertGrows(acc, delta[n]);
        GrownTransitive(infos, acc, Upsert(acc, delta[n]));
        if GrownFrom(Upsert(acc, delta[n]), infos) {
          GrownTransitive(acc, Upsert(acc, delta[n]), infos);
          GrownTransitive(Upsert(acc, delta[n]), infos, acc);
        }
      }
      assert forall j :: 0 <= j < n ==> delta[..n][j] == delta[j];
    }
  }

  /** A rejected delta leaves the list as it was exactly when every record of a kept member before the first refused one
      was known already. */
  lemma RejectedLeavesExactly(r: Roster, cfg: Config, infos: seq<AuthorizedMemberInfo>,
                              delta: Option<seq<AuthorizedMemberInfo>>)
    requires InfosApplied(r, cfg, infos, delta).None?
    ensures var n := FirstRefused(r, cfg, Infos(delta));
            && n < |Infos(delta)|
            && (UpsertAll(r, cfg.owner, infos, Infos(delta)[..n]) == infos
                <==> forall j :: 0 <= j < n && Kept(r, cfg.owner, Infos(delta)[j].memberId) ==>
                                   Known(infos, Infos(delta)[j]))
  {
    var n := FirstRefused(r, cfg, Infos(delta));
    UpsertAllSame(r, cfg.owner, infos, Infos(delta)[..n]);
    assert forall j :: 0 <= j < n ==> Infos(delta)[..n][j] == Infos(delta)[j];
  }
}
