/** The invite forest. One relation, `Above`, says which identifiers lie on the way up from a member to the owner. */
module Forest {
  import opened Lists
  import opened Records

  /** Lookup table of a member list; a later record replaces an earlier one with the same identifier. */
  type Roster = map<Id, AuthorizedMember>

  function MembersById(ms: seq<AuthorizedMember>): (r: Roster)
    ensures forall k :: k in r ==> r[k].id == k && r[k] in ms
    ensures forall m :: m in ms ==> m.id in r
  {
    if ms == [] then map[]
    else
      var n := |ms| - 1;
      assert ms == ms[..n] + [ms[n]];
      MembersById(ms[..n])[ms[n].id := ms[n]]
  }

  ghost predicate Keyed(r: Roster) {
    forall k :: k in r ==> r[k].id == k
  }

  ghost predicate DistinctIds(ms: seq<AuthorizedMember>) {
    forall i, j :: 0 <= i < j < |ms| ==> ms[i].id != ms[j].id
  }

  function Ids(ms: seq<AuthorizedMember>): set<Id> {
    set m | m in ms :: m.id
  }

  /** The members x invited, in list order. */
  function Kids(ms: seq<AuthorizedMember>, x: Id): (kids: seq<Id>)
    ensures forall k :: k in kids ==> k in Ids(ms)
  {
    if ms == [] then []
    else
      var n := |ms| - 1;
      assert ms == ms[..n] + [ms[n]];
      Kids(ms[..n], x) + if ms[n].invitedBy == x then [ms[n].id] else []
  }

  /** Where n invitations up from x lead, stopping at the owner. */
  function Up(r: Roster, owner: Id, x: Id, n: nat): Option<Id>
    decreases n
  {
    if n == 0 then Some(x)
    else if x == owner || x !in r then None
    else Up(r, owner, r[x].invitedBy, n - 1)
  }

  /** a is x itself, or an inviter of x, directly or through others. */
  ghost predicate Above(r: Roster, owner: Id, a: Id, x: Id) {
    exists n: nat :: Up(r, owner, x, n) == Some(a)
  }

  ghost predicate StrictlyAbove(r: Roster, owner: Id, a: Id, x: Id) {
    exists n: nat :: n > 0 && Up(r, owner, x, n) == Some(a)
  }

  /** The invitations above x lead to the owner. */
  ghost predicate Rooted(r: Roster, owner: Id, x: Id) {
    Above(r, owner, owner, x)
  }

  // ---------- Laws of the relation ----------

  lemma {:induction false} ByIdDistinct(ms: seq<AuthorizedMember>)
    requires DistinctIds(ms)
    ensures forall m :: m in ms ==> MembersById(ms)[m.id] == m
  {
    var r := MembersById(ms);
    forall m | m in ms ensures r[m.id] == m {
      assert r[m.id] in ms;
      var i :| 0 <= i < |ms| && ms[i] == m;
      var j :| 0 <= j < |ms| && ms[j] == r[m.id];
      assert !(i < j) && !(j < i);
    }
  }

  lemma {:induction false} UpCompose(r: Roster, owner: Id, x: Id, n: nat, m: nat)
    requires Up(r, owner, x, n).Some?
    ensures Up(r, owner, x, n + m) == Up(r, owner, Up(r, owner, x, n).value, m)
    decreases n
  {
    if n > 0 {
      UpCompose(r, owner, r[x].invitedBy, n - 1, m);
    }
  }

  lemma AboveTransitive(r: Roster, owner: Id, a: Id, b: Id, x: Id)
    requires Above(r, owner, a, b) && Above(r, owner, b, x)
    ensures Above(r, owner, a, x)
    ensures StrictlyAbove(r, owner, b, x) ==> StrictlyAbove(r, owner, a, x)
    ensures StrictlyAbove(r, owner, a, b) ==> StrictlyAbove(r, owner, a, x)
  {
    var m: nat :| Up(r, owner, b, m) == Some(a);
    var n: nat :| Up(r, owner, x, n) == Some(b);
    UpCompose(r, owner, x, n, m);
    if StrictlyAbove(r, owner, b, x) {
      var n': nat :| n' > 0 && Up(r, owner, x, n') == Some(b);
      UpCompose(r, owner, x, n', m);
    }
    if StrictlyAbove(r, owner, a, b) {
      var m': nat :| m' > 0 && Up(r, owner, b, m') == Some(a);
      UpCompose(r, owner, x, n, m');
    }
  }

  lemma AboveSelf(r: Roster, owner: Id, x: Id)
    ensures Above(r, owner, x, x)
  {
    assert Up(r, owner, x, 0) == Some(x);
  }

  /** One step: the inviter of a listed x other than the owner is above it, and so is all above the inviter. */
  lemma AboveStep(r: Roster, owner: Id, x: Id)
    requires x in r && x != owner
    ensures StrictlyAbove(r, owner, r[x].invitedBy, x)
    ensures forall a :: Above(r, owner, a, x) <==> a == x || Above(r, owner, a, r[x].invitedBy)
    ensures forall a :: StrictlyAbove(r, owner, a, x) <==> Above(r, owner, a, r[x].invitedBy)
  {
    var p := r[x].invitedBy;
    assert Up(r, owner, x, 1) == Up(r, owner, p, 0) == Some(p);
    forall a
      ensures StrictlyAbove(r, owner, a, x) <==> Above(r, owner, a, p)
      ensures Above(r, owner, a, x) <==> a == x || Above(r, owner, a, p)
    {
      if Above(r, owner, a, p) {
        var n: nat :| Up(r, owner, p, n) == Some(a);
        assert Up(r, owner, x, n + 1) == Some(a);
      }
      if StrictlyAbove(r, owner, a, x) {
        var n: nat :| n > 0 && Up(r, owner, x, n) == Some(a);
        assert Up(r, owner, p, n - 1) == Some(a);
      }
      if Above(r, owner, a, x) && a != x {
        var n: nat :| Up(r, owner, x, n) == Some(a);
        assert n > 0;
      }
      AboveSelf(r, owner, x);
    }
  }

  /** Nothing but itself is above the owner or an unlisted identifier. */
  lemma AboveTop(r: Roster, owner: Id, x: Id)
    requires x == owner || x !in r
    ensures forall a :: Above(r, owner, a, x) <==> a == x
    ensures forall a :: !StrictlyAbove(r, owner, a, x)
  {
    forall a ensures Above(r, owner, a, x) <==> a == x {
      AboveSelf(r, owner, x);
    }
  }

  /** A walk that reaches the owner passes no identifier twice. */
  lemma RootedHasNoCycle(r: Roster, owner: Id, x: Id)
    requires Rooted(r, owner, x)
    ensures !StrictlyAbove(r, owner, x, x)
  {
    var n: nat :| Up(r, owner, x, n) == Some(owner);
    if StrictlyAbove(r, owner, x, x) {
      var k: nat :| k > 0 && Up(r, owner, x, k) == Some(x);
      UpCompose(r, owner, x, k, n);
      UpCompose(r, owner, x, n, k);
      assert false;
    }
  }

  /** Everything above a rooted identifier is rooted, and is listed unless it is the owner. */
  lemma AboveRooted(r: Roster, owner: Id, a: Id, x: Id)
    requires Rooted(r, owner, x) && Above(r, owner, a, x)
    ensures Rooted(r, owner, a) && (a == owner || a in r)
  {
    var n: nat :| Up(r, owner, x, n) == Some(owner);
    var m: nat :| Up(r, owner, x, m) == Some(a);
    if m <= n {
      UpCompose(r, owner, x, m, n - m);
    } else {
      UpCompose(r, owner, x, n, m - n);
      assert false;
    }
  }

  /** Two rosters that agree on everything above x walk alike from x. */
  lemma {:induction false} UpAgrees(r: Roster, t: Roster, owner: Id, x: Id, n: nat)
    requires forall a :: Above(r, owner, a, x) && a != owner ==>
                           (a in r <==> a in t) && (a in r ==> r[a].invitedBy == t[a].invitedBy)
    ensures Up(r, owner, x, n) == Up(t, owner, x, n)
    decreases n
  {
    AboveSelf(r, owner, x);
    if n > 0 && x != owner && x in r {
      AboveStep(r, owner, x);
      UpAgrees(r, t, owner, r[x].invitedBy, n - 1);
    }
  }

  lemma AboveAgrees(r: Roster, t: Roster, owner: Id, x: Id)
    requires forall a :: Above(r, owner, a, x) && a != owner ==>
                           (a in r <==> a in t) && (a in r ==> r[a].invitedBy == t[a].invitedBy)
    ensures forall a :: Above(r, owner, a, x) <==> Above(t, owner, a, x)
  {
    forall n: nat ensures Up(r, owner, x, n) == Up(t, owner, x, n) {
      UpAgrees(r, t, owner, x, n);
    }
    forall a ensures Above(r, owner, a, x) <==> Above(t, owner, a, x) {
      if Above(r, owner, a, x) {
        var n: nat :| Up(r, owner, x, n) == Some(a);
        assert Up(t, owner, x, n) == Some(a);
      }
      if Above(t, owner, a, x) {
        var n: nat :| Up(t, owner, x, n) == Some(a);
        assert Up(r, owner, x, n) == Some(a);
      }
    }
  }

  /** Adding records leaves the walk from a rooted identifier as it was. */
  lemma RootedStable(r: Roster, t: Roster, owner: Id, x: Id)
    requires Rooted(r, owner, x)
    requires forall k :: k in r ==> k in t && t[k] == r[k]
    ensures Rooted(t, owner, x)
    ensures forall a :: Above(r, owner, a, x) <==> Above(t, owner, a, x)
  {
    forall a | Above(r, owner, a, x) && a != owner ensures a in r {
      AboveRooted(r, owner, a, x);
    }
    AboveAgrees(r, t, owner, x);
  }

  /** What a smaller table finds above x, a larger one finds too. */
  lemma {:induction false} UpInLarger(r: Roster, t: Roster, owner: Id, x: Id, n: nat)
    requires forall k :: k in t ==> k in r && t[k] == r[k]
    ensures Up(t, owner, x, n).Some? ==> Up(r, owner, x, n) == Up(t, owner, x, n)
    decreases n
  {
    if n > 0 && x != owner && x in t {
      UpInLarger(r, t, owner, t[x].invitedBy, n - 1);
    }
  }

  lemma AboveInLarger(r: Roster, t: Roster, owner: Id, a: Id, x: Id)
    requires (forall k :: k in t ==> k in r && t[k] == r[k]) && Above(t, owner, a, x)
    ensures Above(r, owner, a, x)
  {
    var n: nat :| Up(t, owner, x, n) == Some(a);
    UpInLarger(r, t, owner, x, n);
  }

  /** A set that holds the inviter of each of its members holds everything above them. */
  lemma {:induction false} ClosedUpward(r: Roster, owner: Id, s: set<Id>, x: Id, n: nat)
    requires forall y :: y in s && y != owner && y in r ==> r[y].invitedBy in s
    requires x in s
    ensures Up(r, owner, x, n).Some? ==> Up(r, owner, x, n).value in s
    decreases n
  {
    if n > 0 && x != owner && x in r {
      ClosedUpward(r, owner, s, r[x].invitedBy, n - 1);
    }
  }

  lemma AllInVisited(r: Roster, owner: Id, visited: set<Id>, x: Id)
    requires owner !in visited && x in visited && visited <= r.Keys
    requires forall y :: y in visited ==> r[y].invitedBy in visited
    ensures forall a :: Above(r, owner, a, x) ==> a in visited
  {
    forall a | Above(r, owner, a, x) ensures a in visited {
      var n: nat :| Up(r, owner, x, n) == Some(a);
      ClosedUpward(r, owner, visited, x, n);
    }
  }

  // ---------- Tables of filtered and sorted lists ----------

  lemma RosterAppend(ms: seq<AuthorizedMember>, m: AuthorizedMember)
    ensures MembersById(ms + [m]) == MembersById(ms)[m.id := m]
  {
    assert (ms + [m])[..|ms|] == ms;
  }

  /** A filter that looks only at identifiers keeps or drops all records of one identifier. */
  ghost predicate ByIdOnly(p: AuthorizedMember -> bool) {
    forall m: AuthorizedMember, n: AuthorizedMember {:trigger p(m), p(n)} :: m.id == n.id ==> p(m) == p(n)
  }

  /** t is r without the identifiers whose records p drops. */
  ghost predicate Restricts(t: Roster, r: Roster, p: AuthorizedMember -> bool) {
    && (forall k :: k in t <==> k in r && p(r[k]))
    && (forall k :: k in t ==> t[k] == r[k])
  }

  lemma RestrictsOneMore(t: Roster, r: Roster, p: AuthorizedMember -> bool, m: AuthorizedMember)
    requires ByIdOnly(p) && Keyed(r) && Restricts(t, r, p)
    ensures Restricts(if p(m) then t[m.id := m] else t, r[m.id := m], p)
  {
    assert forall k :: k in r && k == m.id ==> p(r[k]) == p(m);
  }

  lemma {:induction false} RosterOfFilter(ms: seq<AuthorizedMember>, p: AuthorizedMember -> bool)
    requires ByIdOnly(p)
    ensures Restricts(MembersById(Filter(ms, p)), MembersById(ms), p)
  {
    if ms != [] {
      var rest, last := ms[..|ms| - 1], ms[|ms| - 1];
      RosterOfFilter(rest, p);
      RestrictsOneMore(MembersById(Filter(rest, p)), MembersById(rest), p, last);
      FilterLast(ms, p);
      RosterLast(ms);
      if p(last) {
        RosterAppend(Filter(rest, p), last);
      }
    }
  }

  lemma RosterLast(ms: seq<AuthorizedMember>)
    requires ms != []
    ensures MembersById(ms) == MembersById(ms[..|ms| - 1])[ms[|ms| - 1].id := ms[|ms| - 1]]
  {
  }

  lemma RosterSwap(r: Roster, m: AuthorizedMember, n: AuthorizedMember)
    requires m.id != n.id
    ensures r[m.id := m][n.id := n] == r[n.id := n][m.id := m]
  {
  }

  lemma {:induction false} RosterOfInsert(ms: seq<AuthorizedMember>, m: AuthorizedMember)
    ensures MembersById(Insert(ms, m, MemberKey)) == MembersById(ms)[m.id := m]
  {
    if ms == [] || AtMost(MemberKey(ms[|ms| - 1]), MemberKey(m)) {
      RosterAppend(ms, m);
    } else {
      var rest, last := ms[..|ms| - 1], ms[|ms| - 1];
      RosterOfInsert(rest, m);
      RosterBelow(rest, last, Insert(rest, m, MemberKey), m);
      SplitLast(ms);
      InsertBelow(ms, m, MemberKey);
    }
  }

  lemma RosterBelow(rest: seq<AuthorizedMember>, last: AuthorizedMember, more: seq<AuthorizedMember>,
                    m: AuthorizedMember)
    requires MembersById(more) == MembersById(rest)[m.id := m] && m.id != last.id
    ensures MembersById(more + [last]) == MembersById(rest + [last])[m.id := m]
  {
    RosterAppend(more, last);
    RosterAppend(rest, last);
    RosterSwap(MembersById(rest), m, last);
  }

  /** The sort is stable, so the last record of each identifier stays the last. */
  lemma {:induction false} RosterOfSort(ms: seq<AuthorizedMember>)
    ensures MembersById(Sort(ms, MemberKey)) == MembersById(ms)
  {
    if ms != [] {
      var rest, last := ms[..|ms| - 1], ms[|ms| - 1];
      assert ms == rest + [last];
      RosterOfSort(rest);
      RosterOfInsert(Sort(rest, MemberKey), last);
      RosterAppend(rest, last);
    }
  }

  // ---------- Invitees ----------

  lemma LastIsNew(ms: seq<AuthorizedMember>)
    requires ms != [] && DistinctIds(ms)
    ensures ms[|ms| - 1].id !in MembersById(ms[..|ms| - 1])
  {
    var r, n := MembersById(ms[..|ms| - 1]), |ms| - 1;
    forall k | k in r ensures k != ms[n].id {
      assert r[k] in ms[..n];
      var i :| 0 <= i < n && ms[..n][i] == r[k];
    }
  }

  lemma {:induction false} KidsOf(ms: seq<AuthorizedMember>, x: Id)
    requires DistinctIds(ms)
    ensures Distinct(Kids(ms, x))
    ensures forall k :: k in Kids(ms, x) <==> k in MembersById(ms) && MembersById(ms)[k].invitedBy == x
  {
    if ms != [] {
      var n := |ms| - 1;
      assert ms == ms[..n] + [ms[n]];
      KidsOf(ms[..n], x);
      LastIsNew(ms);
      LastKid(Kids(ms[..n], x), ms[n], x);
    }
  }

  lemma LastKid(kids: seq<Id>, m: AuthorizedMember, x: Id)
    requires Distinct(kids) && m.id !in kids
    ensures Distinct(kids + if m.invitedBy == x then [m.id] else [])
  {
    DistinctJoin(kids, if m.invitedBy == x then [m.id] else []);
  }

  lemma {:induction false} UpDefined(r: Roster, owner: Id, y: Id, n: nat)
    requires Up(r, owner, y, n + 1).Some?
    ensures Up(r, owner, y, n).Some?
    decreases n
  {
    if n > 0 {
      UpDefined(r, owner, r[y].invitedBy, n - 1);
    }
  }

  /** Whoever lies below x lies below someone x invited. */
  lemma LastInvitation(r: Roster, owner: Id, x: Id, y: Id) returns (k: Id)
    requires Above(r, owner, x, y) && x != y
    ensures k in r && k != owner && r[k].invitedBy == x && Above(r, owner, k, y)
  {
    var n: nat :| Up(r, owner, y, n) == Some(x);
    UpDefined(r, owner, y, n - 1);
    k := Up(r, owner, y, n - 1).value;
    UpCompose(r, owner, y, n - 1, 1);
    assert Up(r, owner, k, 1) == Some(x);
    assert Up(r, owner, r[k].invitedBy, 0) == Some(x);
  }

  // ---------- Tables that list the owner ----------

  lemma {:induction false} SomeOutsider(s: set<Id>)
    ensures exists x: Id :: x !in s && forall y :: y in s ==> y < x
  {
    if y :| y in s {
      SomeOutsider(s - {y});
      var x: Id :| x !in s - {y} && forall z :: z in s - {y} ==> z < x;
      var top := if x > y then x else y + 1;
      assert forall z :: z in s ==> z == y || z in s - {y};
      assert top !in s;
    } else {
      assert 0 !in s;
    }
  }

  ghost function Outsider(r: Roster): (x: Id)
    ensures x !in r
  {
    SomeOutsider(r.Keys);
    var x: Id :| x !in r.Keys;
    x
  }

  /** Where the unsigned walks end: at the owner, or, where the owner is listed and they go on, at nobody listed. */
  ghost function Top(r: Roster, owner: Id): (top: Id)
    ensures top !in r
  {
    if owner in r then Outsider(r) else owner
  }

  /** A walk that stops at the owner never reads an entry for the owner. */
  lemma {:induction false} UpWithoutOwner(r: Roster, owner: Id, x: Id, n: nat)
    ensures Up(r - {owner}, owner, x, n) == Up(r, owner, x, n)
    decreases n
  {
    if n > 0 && x != owner && x in r {
      UpWithoutOwner(r, owner, r[x].invitedBy, n - 1);
    }
  }

  lemma AboveWithoutOwner(r: Roster, owner: Id, x: Id)
    ensures forall a :: Above(r - {owner}, owner, a, x) <==> Above(r, owner, a, x)
  {
    forall n: nat ensures Up(r - {owner}, owner, x, n) == Up(r, owner, x, n) {
      UpWithoutOwner(r, owner, x, n);
    }
    forall a ensures Above(r - {owner}, owner, a, x) <==> Above(r, owner, a, x) {
      if Above(r, owner, a, x) {
        var n: nat :| Up(r, owner, x, n) == Some(a);
        assert Up(r - {owner}, owner, x, n) == Some(a);
      }
    }
  }

  /** A walk that stops nowhere listed goes at least as far as one that stops at the owner. */
  lemma {:induction false} UpPastOwner(r: Roster, owner: Id, top: Id, x: Id, n: nat)
    requires top !in r && Up(r, owner, x, n).Some?
    ensures Up(r, top, x, n) == Up(r, owner, x, n)
    decreases n
  {
    if n > 0 {
      UpPastOwner(r, owner, top, r[x].invitedBy, n - 1);
    }
  }

  lemma AbovePastOwner(r: Roster, owner: Id, top: Id, a: Id, x: Id)
    requires top !in r && Above(r, owner, a, x)
    ensures Above(r, top, a, x)
  {
    var n: nat :| Up(r, owner, x, n) == Some(a);
    UpPastOwner(r, owner, top, x, n);
  }

  /** From someone above themselves the walk never ends, and they are above everyone it meets. */
  lemma {:induction false} OnLoop(r: Roster, owner: Id, x: Id, n: nat)
    requires StrictlyAbove(r, owner, x, x)
    ensures Up(r, owner, x, n).Some? && StrictlyAbove(r, owner, x, Up(r, owner, x, n).value)
    decreases n
  {
    if n > 0 {
      OnLoop(r, owner, x, n - 1);
      var c := Up(r, owner, x, n - 1).value;
      if c == owner || c !in r {
        AboveTop(r, owner, c);
        assert false;
      }
      LoopStep(r, owner, x, c);
      UpCompose(r, owner, x, n - 1, 1);
      assert Up(r, owner, c, 1) == Up(r, owner, r[c].invitedBy, 0);
    }
  }

  lemma LoopStep(r: Roster, owner: Id, x: Id, c: Id)
    requires StrictlyAbove(r, owner, x, x) && StrictlyAbove(r, owner, x, c) && c in r && c != owner
    ensures StrictlyAbove(r, owner, x, r[c].invitedBy)
  {
    AboveStep(r, owner, c);
    if r[c].invitedBy != x {
      var n: nat :| Up(r, owner, r[c].invitedBy, n) == Some(x);
      assert n > 0;
    }
  }

  // ---------- Leaving out one record ----------

  lemma {:induction false} UpLeavingOut(r: Roster, owner: Id, x: Id, q: Id, n: nat)
    ensures Up(r - {x}, owner, q, n).Some? ==> Up(r - {x}, owner, q, n) == Up(r, owner, q, n)
    ensures Up(r, owner, q, n).Some? && Up(r - {x}, owner, q, n).None?
            ==> exists j: nat :: j < n && Up(r, owner, q, j) == Some(x)
    decreases n
  {
    if n > 0 && q != owner && q in r {
      if q == x {
        assert Up(r, owner, q, 0) == Some(x);
      } else {
        UpLeavingOut(r, owner, x, r[q].invitedBy, n - 1);
        if j: nat :| j < n - 1 && Up(r, owner, r[q].invitedBy, j) == Some(x) {
          assert Up(r, owner, q, j + 1) == Some(x);
        }
      }
    }
  }

  /** A walk that comes back to where it started meets nobody new after that. */
  lemma {:induction false} LeavingOutReaches(r: Roster, owner: Id, x: Id, a: Id, n: nat)
    requires x in r && x != owner && a != x && Up(r, owner, r[x].invitedBy, n) == Some(a)
    ensures Above(r - {x}, owner, a, r[x].invitedBy)
    decreases n
  {
    var p := r[x].invitedBy;
    UpLeavingOut(r, owner, x, p, n);
    if Up(r - {x}, owner, p, n).None? {
      var j: nat :| j < n && Up(r, owner, p, j) == Some(x);
      UpCompose(r, owner, p, j, n - j);
      assert Up(r, owner, x, n - j) == Up(r, owner, p, n - j - 1);
      LeavingOutReaches(r, owner, x, a, n - j - 1);
    }
  }

  lemma AboveLeavingOut(r: Roster, owner: Id, x: Id)
    requires x in r && x != owner
    ensures forall a :: a == x || Above(r - {x}, owner, a, r[x].invitedBy) <==> Above(r, owner, a, x)
  {
    AboveStep(r, owner, x);
    forall a | a != x ensures Above(r - {x}, owner, a, r[x].invitedBy) <==> Above(r, owner, a, r[x].invitedBy) {
      if Above(r - {x}, owner, a, r[x].invitedBy) {
        var n: nat :| Up(r - {x}, owner, r[x].invitedBy, n) == Some(a);
        UpLeavingOut(r, owner, x, r[x].invitedBy, n);
      }
      if Above(r, owner, a, r[x].invitedBy) {
        var n: nat :| Up(r, owner, r[x].invitedBy, n) == Some(a);
        LeavingOutReaches(r, owner, x, a, n);
      }
    }
  }
}
