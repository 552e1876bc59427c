/** The downward walk over a member list, as `get_downstream_members` makes it: a worklist and no visited set. On any
    list, with repeated identifiers or not, this says what the walk finds and when it ends. */
module Descent {
  import opened Lists
  import opened Records
  import opened Forest

  // ---------- Who lies below whom ----------

  /** n records of the list lead from a down to x. */
  ghost predicate Leads(ms: seq<AuthorizedMember>, a: Id, x: Id, n: nat)
    decreases n
  {
    if n == 0 then a == x else exists m :: m in ms && m.id == x && Leads(ms, a, m.invitedBy, n - 1)
  }

  ghost predicate Reaches(ms: seq<AuthorizedMember>, a: Id, x: Id) {
    exists n: nat :: Leads(ms, a, x, n)
  }

  ghost predicate Descends(ms: seq<AuthorizedMember>, a: Id, x: Id) {
    exists n: nat :: n > 0 && Leads(ms, a, x, n)
  }

  lemma ReachesOrSelf(ms: seq<AuthorizedMember>, a: Id, x: Id)
    ensures Reaches(ms, a, x) <==> a == x || Descends(ms, a, x)
  {
    assert Leads(ms, x, x, 0);
    if Reaches(ms, a, x) && a != x {
      var n: nat :| Leads(ms, a, x, n);
      assert n > 0;
    }
  }

  lemma {:induction false} KidsListed(ms: seq<AuthorizedMember>, x: Id)
    ensures forall k :: k in Kids(ms, x) <==> exists m :: m in ms && m.id == k && m.invitedBy == x
  {
    if ms != [] {
      var n := |ms| - 1;
      assert ms == ms[..n] + [ms[n]];
      KidsListed(ms[..n], x);
    }
  }

  /** More records lead wherever fewer do. */
  lemma {:induction false} LeadsInMore(ks: seq<AuthorizedMember>, ms: seq<AuthorizedMember>, a: Id, x: Id, n: nat)
    requires (forall m :: m in ks ==> m in ms) && Leads(ks, a, x, n)
    ensures Leads(ms, a, x, n)
    decreases n
  {
    if n > 0 {
      var m :| m in ks && m.id == x && Leads(ks, a, m.invitedBy, n - 1);
      LeadsInMore(ks, ms, a, m.invitedBy, n - 1);
    }
  }

  lemma ReachesInMore(ks: seq<AuthorizedMember>, ms: seq<AuthorizedMember>, a: Id, x: Id)
    requires (forall m :: m in ks ==> m in ms) && Reaches(ks, a, x)
    ensures Reaches(ms, a, x)
  {
    var n: nat :| Leads(ks, a, x, n);
    LeadsInMore(ks, ms, a, x, n);
  }

  lemma {:induction false} LeadsCompose(ms: seq<AuthorizedMember>, a: Id, b: Id, x: Id, n: nat, k: nat)
    requires Leads(ms, a, b, n) && Leads(ms, b, x, k)
    ensures Leads(ms, a, x, n + k)
    decreases k
  {
    if k > 0 {
      var m :| m in ms && m.id == x && Leads(ms, b, m.invitedBy, k - 1);
      LeadsCompose(ms, a, b, m.invitedBy, n, k - 1);
    }
  }

  lemma ReachesTransitive(ms: seq<AuthorizedMember>, a: Id, b: Id, x: Id)
    requires Reaches(ms, a, b) && Reaches(ms, b, x)
    ensures Reaches(ms, a, x)
    ensures Descends(ms, a, b) || Descends(ms, b, x) ==> Descends(ms, a, x)
  {
    var n: nat :| Leads(ms, a, b, n);
    var k: nat :| Leads(ms, b, x, k);
    LeadsCompose(ms, a, b, x, n, k);
    if Descends(ms, a, b) {
      var n': nat :| n' > 0 && Leads(ms, a, b, n');
      LeadsCompose(ms, a, b, x, n', k);
    }
    if Descends(ms, b, x) {
      var k': nat :| k' > 0 && Leads(ms, b, x, k');
      LeadsCompose(ms, a, b, x, n, k');
    }
  }

  lemma KidDescends(ms: seq<AuthorizedMember>, a: Id, k: Id)
    requires k in Kids(ms, a)
    ensures Descends(ms, a, k) && k in Ids(ms)
  {
    KidsListed(ms, a);
    var m :| m in ms && m.id == k && m.invitedBy == a;
    assert Leads(ms, a, m.invitedBy, 0);
    assert Leads(ms, a, k, 1);
  }

  /** Whoever descends from a does so through one of a's invitees. */
  lemma {:induction false} FirstStep(ms: seq<AuthorizedMember>, a: Id, x: Id, n: nat) returns (k: Id)
    requires n > 0 && Leads(ms, a, x, n)
    ensures k in Kids(ms, a) && Reaches(ms, k, x)
    decreases n
  {
    var m :| m in ms && m.id == x && Leads(ms, a, m.invitedBy, n - 1);
    if n == 1 {
      KidsListed(ms, a);
      k := x;
      assert Leads(ms, k, x, 0);
    } else {
      k := FirstStep(ms, a, m.invitedBy, n - 1);
      var j: nat :| Leads(ms, k, m.invitedBy, j);
      assert Leads(ms, k, x, j + 1);
    }
  }

  lemma ThroughKid(ms: seq<AuthorizedMember>, a: Id, x: Id) returns (k: Id)
    requires Descends(ms, a, x)
    ensures k in Kids(ms, a) && Reaches(ms, k, x)
  {
    var n: nat :| n > 0 && Leads(ms, a, x, n);
    k := FirstStep(ms, a, x, n);
  }

  // ---------- The worklist ----------

  /** The worklist after one round. */
  function Round(ms: seq<AuthorizedMember>, stack: seq<Id>): seq<Id>
    requires stack != []
  {
    stack[..|stack| - 1] + Kids(ms, stack[|stack| - 1])
  }

  /** The walk from this worklist is over after at most n rounds. */
  predicate EndsIn(ms: seq<AuthorizedMember>, stack: seq<Id>, n: nat)
    decreases n
  {
    stack == [] || (n > 0 && EndsIn(ms, Round(ms, stack), n - 1))
  }

  ghost predicate Ends(ms: seq<AuthorizedMember>, start: Id) {
    exists n: nat :: EndsIn(ms, [start], n)
  }

  /** What the walk has found, and what it has yet to look at, is below the start, and together they lead to all that
      is. */
  ghost predicate Walking(ms: seq<AuthorizedMember>, start: Id, found: set<Id>, stack: seq<Id>) {
    && (forall x :: x in found ==> Descends(ms, start, x))
    && (forall y :: y in stack ==> Reaches(ms, start, y))
    && (forall x :: Descends(ms, start, x) ==> x in found || exists y :: y in stack && Descends(ms, y, x))
  }

  lemma WalkStarts(ms: seq<AuthorizedMember>, start: Id)
    ensures Walking(ms, start, {}, [start])
  {
    ReachesOrSelf(ms, start, start);
    assert start in [start];
  }

  lemma WalkGoesOn(ms: seq<AuthorizedMember>, start: Id, found: set<Id>, stack: seq<Id>, found': set<Id>)
    requires stack != [] && Walking(ms, start, found, stack)
    requires forall x :: x in found' <==> x in found || x in Kids(ms, stack[|stack| - 1])
    ensures Walking(ms, start, found', Round(ms, stack))
  {
    var rest, current := stack[..|stack| - 1], stack[|stack| - 1];
    assert stack == rest + [current];
    forall k | k in Kids(ms, current) ensures Descends(ms, start, k) && Reaches(ms, start, k) {
      KidBelowStart(ms, start, current, k);
    }
    forall x | Descends(ms, start, x) ensures x in found' || exists y :: y in Round(ms, stack) && Descends(ms, y, x) {
      if x !in found {
        var y :| y in stack && Descends(ms, y, x);
        if y == current {
          var k := ThroughKid(ms, current, x);
          ReachesOrSelf(ms, k, x);
          assert k in Round(ms, stack);
        } else {
          assert y in Round(ms, stack);
        }
      }
    }
  }

  lemma KidBelowStart(ms: seq<AuthorizedMember>, start: Id, current: Id, k: Id)
    requires Reaches(ms, start, current) && k in Kids(ms, current)
    ensures Descends(ms, start, k) && Reaches(ms, start, k)
  {
    KidDescends(ms, current, k);
    ReachesOrSelf(ms, current, k);
    ReachesTransitive(ms, start, current, k);
  }

  lemma WalkIsOver(ms: seq<AuthorizedMember>, start: Id, found: set<Id>)
    requires Walking(ms, start, found, [])
    ensures forall x :: x in found <==> Descends(ms, start, x)
  {
  }

  // ---------- When it ends ----------

  lemma RoundKeeps(ms: seq<AuthorizedMember>, stack: seq<Id>)
    requires stack != []
    ensures forall x :: x in stack && x != stack[|stack| - 1] ==> x in Round(ms, stack)
    ensures forall k :: k in Kids(ms, stack[|stack| - 1]) ==> k in Round(ms, stack)
  {
    assert stack == stack[..|stack| - 1] + [stack[|stack| - 1]];
  }

  lemma {:induction false} LoopNeverEnds(ms: seq<AuthorizedMember>, loop: set<Id>, stack: seq<Id>, x: Id, n: nat)
    requires x in loop && x in stack
    requires forall y {:trigger Kids(ms, y)} :: y in loop ==> exists k :: k in Kids(ms, y) && k in loop
    ensures !EndsIn(ms, stack, n)
    decreases n
  {
    if n > 0 {
      var last := stack[|stack| - 1];
      RoundKeeps(ms, stack);
      if x == last {
        var k :| k in Kids(ms, last) && k in loop;
        LoopNeverEnds(ms, loop, Round(ms, stack), k, n - 1);
      } else {
        LoopNeverEnds(ms, loop, Round(ms, stack), x, n - 1);
      }
    }
  }

  /** Below someone who descends from themselves there is always someone left to visit. */
  lemma NeverEndsOnLoop(ms: seq<AuthorizedMember>, start: Id, c: Id)
    requires Reaches(ms, start, c) && Descends(ms, c, c)
    ensures !Ends(ms, start)
  {
    var loop := {start} + set k | k in Ids(ms) && Reaches(ms, k, c);
    forall y | y in loop ensures exists k :: k in Kids(ms, y) && k in loop {
      ReachesOrSelf(ms, y, c);
      var k := ThroughKid(ms, y, c);
      KidDescends(ms, y, k);
      assert k in Kids(ms, y) && k in loop;
    }
    forall n: nat ensures !EndsIn(ms, [start], n) {
      LoopNeverEnds(ms, loop, [start], start, n);
    }
  }

  lemma {:induction false} EndsLater(ms: seq<AuthorizedMember>, stack: seq<Id>, n: nat, k: nat)
    requires EndsIn(ms, stack, n) && n <= k
    ensures EndsIn(ms, stack, k)
    decreases n
  {
    if stack != [] {
      EndsLater(ms, Round(ms, stack), n - 1, k - 1);
    }
  }

  /** The top of the worklist is worked off before the rest. */
  lemma {:induction false} EndsTogether(ms: seq<AuthorizedMember>, s: seq<Id>, t: seq<Id>, n: nat, k: nat)
    requires EndsIn(ms, s, n) && EndsIn(ms, t, k)
    ensures EndsIn(ms, s + t, n + k)
    decreases k
  {
    if t == [] {
      assert s + t == s;
      EndsLater(ms, s, n, n + k);
    } else {
      EndsTogether(ms, s, Round(ms, t), n, k - 1);
      RoundOnTop(ms, s, t);
      OneMoreRound(ms, s + t, n + k);
    }
  }

  lemma RoundOnTop(ms: seq<AuthorizedMember>, s: seq<Id>, t: seq<Id>)
    requires t != []
    ensures Round(ms, s + t) == s + Round(ms, t)
  {
  }

  lemma OneMoreRound(ms: seq<AuthorizedMember>, stack: seq<Id>, n: nat)
    requires stack != [] && n > 0 && EndsIn(ms, Round(ms, stack), n - 1)
    ensures EndsIn(ms, stack, n)
  {
  }

  lemma RoundsLeft(ms: seq<AuthorizedMember>, y: Id) returns (n: nat)
    requires Ends(ms, y)
    ensures EndsIn(ms, [y], n)
  {
    n :| EndsIn(ms, [y], n);
  }

  lemma EndsJoined(ms: seq<AuthorizedMember>, s: seq<Id>, y: Id, u: seq<Id>, n: nat, k: nat)
    requires EndsIn(ms, s, n) && EndsIn(ms, [y], k) && u == s + [y]
    ensures EndsIn(ms, u, n + k)
  {
    EndsTogether(ms, s, [y], n, k);
  }

  lemma {:induction false} EachEnds(ms: seq<AuthorizedMember>, stack: seq<Id>, i: nat) returns (n: nat)
    requires i <= |stack| && forall y :: y in stack ==> Ends(ms, y)
    ensures EndsIn(ms, stack[..i], n)
  {
    n := 0;
    if i > 0 {
      var k := EachEnds(ms, stack, i - 1);
      var j := RoundsLeft(ms, stack[i - 1]);
      EndsJoined(ms, stack[..i - 1], stack[i - 1], stack[..i], k, j);
      n := k + j;
    }
  }

  ghost function BelowOf(ms: seq<AuthorizedMember>, x: Id): set<Id> {
    set k | k in Ids(ms) && Descends(ms, x, k)
  }

  lemma FewerBelow(ms: seq<AuthorizedMember>, x: Id, k: Id)
    requires k in Kids(ms, x) && !Descends(ms, k, k)
    ensures |BelowOf(ms, k)| < |BelowOf(ms, x)|
  {
    KidDescends(ms, x, k);
    ReachesOrSelf(ms, x, k);
    forall y | y in BelowOf(ms, k) ensures y in BelowOf(ms, x) - {k} {
      ReachesOrSelf(ms, k, y);
      ReachesTransitive(ms, x, k, y);
    }
    SubsetSize(BelowOf(ms, k), BelowOf(ms, x) - {k});
  }

  /** No one reached from x descends from themselves. */
  ghost predicate LoopFree(ms: seq<AuthorizedMember>, x: Id) {
    forall y :: Reaches(ms, x, y) ==> !Descends(ms, y, y)
  }

  lemma KidLoopFree(ms: seq<AuthorizedMember>, x: Id, k: Id)
    requires LoopFree(ms, x) && k in Kids(ms, x)
    ensures LoopFree(ms, k) && !Descends(ms, k, k)
  {
    KidDescends(ms, x, k);
    ReachesOrSelf(ms, x, k);
    ReachesOrSelf(ms, k, k);
    forall y | Reaches(ms, k, y) ensures Reaches(ms, x, y) {
      ReachesTransitive(ms, x, k, y);
    }
  }

  lemma {:induction false} LoopFreeEnds(ms: seq<AuthorizedMember>, x: Id)
    requires LoopFree(ms, x)
    ensures Ends(ms, x)
    decreases |BelowOf(ms, x)|
  {
    forall k | k in Kids(ms, x) ensures Ends(ms, k) {
      KidLoopFree(ms, x, k);
      FewerBelow(ms, x, k);
      LoopFreeEnds(ms, k);
    }
    var n := EachEnds(ms, Kids(ms, x), |Kids(ms, x)|);
    assert Kids(ms, x)[..|Kids(ms, x)|] == Kids(ms, x);
    assert Round(ms, [x]) == Kids(ms, x);
    assert EndsIn(ms, [x], n + 1);
  }

  /** On any list the walk ends exactly when it meets nobody who descends from themselves. */
  lemma WalkEndsExactly(ms: seq<AuthorizedMember>, start: Id)
    ensures Ends(ms, start) <==> LoopFree(ms, start)
  {
    if LoopFree(ms, start) {
      LoopFreeEnds(ms, start);
    } else {
      var c :| Reaches(ms, start, c) && Descends(ms, c, c);
      NeverEndsOnLoop(ms, start, c);
    }
  }

  // ---------- Lists without repeated identifiers ----------

  /** r is the table of a list with one record for each identifier. */
  ghost predicate Tabled(ms: seq<AuthorizedMember>, r: Roster) {
    && (forall m :: m in ms ==> m.id in r && r[m.id] == m)
    && (forall k :: k in r ==> r[k] in ms && r[k].id == k)
  }

  lemma LeadsToListed(ms: seq<AuthorizedMember>, r: Roster, a: Id, x: Id, n: nat)
    requires Tabled(ms, r) && n > 0
    ensures Leads(ms, a, x, n) <==> x in r && Leads(ms, a, r[x].invitedBy, n - 1)
  {
  }

  /** There the walk down and the walk up are one relation. top is anyone not listed, so that the walk up passes an
      entry for the owner as the walk down does. */
  lemma {:induction false} LeadsIsUp(ms: seq<AuthorizedMember>, r: Roster, top: Id, a: Id, x: Id, n: nat)
    requires Tabled(ms, r) && top !in r
    ensures Leads(ms, a, x, n) <==> Up(r, top, x, n) == Some(a)
    decreases n
  {
    if n > 0 {
      LeadsToListed(ms, r, a, x, n);
      if x in r {
        LeadsIsUp(ms, r, top, a, r[x].invitedBy, n - 1);
      }
    }
  }

  lemma DescendsIsAbove(ms: seq<AuthorizedMember>, top: Id, a: Id, x: Id)
    requires DistinctIds(ms) && top !in MembersById(ms)
    ensures Reaches(ms, a, x) <==> Above(MembersById(ms), top, a, x)
    ensures Descends(ms, a, x) <==> StrictlyAbove(MembersById(ms), top, a, x)
  {
    ByIdDistinct(ms);
    forall n: nat ensures Leads(ms, a, x, n) <==> Up(MembersById(ms), top, x, n) == Some(a) {
      LeadsIsUp(ms, MembersById(ms), top, a, x, n);
    }
  }

  /** There the walk ends exactly when its start is not above itself. */
  lemma WalkEndsOnForest(ms: seq<AuthorizedMember>, top: Id, start: Id)
    requires DistinctIds(ms) && top !in MembersById(ms)
    ensures Ends(ms, start) <==> !StrictlyAbove(MembersById(ms), top, start, start)
  {
    WalkEndsExactly(ms, start);
    DescendsIsAbove(ms, top, start, start);
    ReachesOrSelf(ms, start, start);
    if y :| Reaches(ms, start, y) && Descends(ms, y, y) {
      DescendsIsAbove(ms, top, start, y);
      DescendsIsAbove(ms, top, y, y);
      StartOnLoop(MembersById(ms), top, start, y);
    }
  }

  /** In a forest, whoever is above someone on a loop is on it. */
  lemma StartOnLoop(r: Roster, top: Id, start: Id, y: Id)
    requires Above(r, top, start, y) && StrictlyAbove(r, top, y, y)
    ensures StrictlyAbove(r, top, start, start)
  {
    var n: nat :| Up(r, top, y, n) == Some(start);
    OnLoop(r, top, y, n);
    AboveTransitive(r, top, start, y, start);
  }
}
