/** The member panel's order: the invite tree in depth-first preorder, then everyone the owner does not reach. */
module InviteTree {
  import opened Lists
  import opened Records
  import opened Forest

  /** Visits each identifier of todo and then its subtree, passing over what has been seen: the order of the visits,
      and everything seen afterwards. */
  function Walk(ms: seq<AuthorizedMember>, universe: set<Id>, todo: seq<Id>, seen: set<Id>): (w: (seq<Id>, set<Id>))
    requires Ids(ms) <= universe && forall x :: x in todo ==> x in universe
    ensures seen <= w.1
    decreases universe - seen, |todo|
  {
    if todo == [] then ([], seen)
    else if todo[0] in seen then Walk(ms, universe, todo[1..], seen)
    else
      var x := todo[0];
      var below := Walk(ms, universe, Kids(ms, x), seen + {x});
      var rest := Walk(ms, universe, todo[1..], below.1);
      ([x] + below.0 + rest.0, rest.1)
  }

  function Unseen(ms: seq<AuthorizedMember>, seen: set<Id>): (ids: seq<Id>)
    ensures forall x :: x in ids <==> x in Ids(ms) && x !in seen
  {
    if ms == [] then []
    else
      var n := |ms| - 1;
      assert ms == ms[..n] + [ms[n]];
      Unseen(ms[..n], seen) + if ms[n].id in seen then [] else [ms[n].id]
  }

  lemma UnseenStep(ms: seq<AuthorizedMember>, i: nat, seen: set<Id>)
    requires i < |ms|
    ensures Unseen(ms[..i + 1], seen) == Unseen(ms[..i], seen) + if ms[i].id in seen then [] else [ms[i].id]
  {
    assert ms[..i + 1][..i] == ms[..i];
  }

  function TreeOrder(owner: Id, ms: seq<AuthorizedMember>): seq<Id> {
    var w := Walk(ms, {owner} + Ids(ms), [owner], {});
    w.0 + Unseen(ms, w.1)
  }

  function Reverse(s: seq<Id>): (r: seq<Id>)
    ensures |r| == |s|
    ensures forall x :: x in r <==> x in s
  {
    if s == [] then [] else
      assert s == s[..|s| - 1] + [s[|s| - 1]];
      [s[|s| - 1]] + Reverse(s[..|s| - 1])
  }

  lemma {:induction false} WalkAppend(ms: seq<AuthorizedMember>, u: set<Id>, a: seq<Id>, b: seq<Id>, seen: set<Id>)
    requires Ids(ms) <= u && (forall x :: x in a ==> x in u) && forall x :: x in b ==> x in u
    ensures var wa := Walk(ms, u, a, seen);
            var wb := Walk(ms, u, b, wa.1);
            Walk(ms, u, a + b, seen) == (wa.0 + wb.0, wb.1)
    decreases u - seen, |a|
  {
    if a == [] {
      assert a + b == b;
      assert [] + Walk(ms, u, b, seen).0 == Walk(ms, u, b, seen).0;
    } else {
      assert (a + b)[0] == a[0] && (a + b)[1..] == a[1..] + b;
      if a[0] in seen {
        WalkAppend(ms, u, a[1..], b, seen);
      } else {
        var below := Walk(ms, u, Kids(ms, a[0]), seen + {a[0]});
        WalkAppend(ms, u, a[1..], b, below.1);
        var rest := Walk(ms, u, a[1..], below.1);
        var wb := Walk(ms, u, b, rest.1);
        assert [a[0]] + below.0 + (rest.0 + wb.0) == [a[0]] + below.0 + rest.0 + wb.0;
      }
    }
  }

  /** One round of the explicit-stack loop is one step of the recursive walk. */
  lemma WalkStep(ms: seq<AuthorizedMember>, u: set<Id>, x: Id, rest: seq<Id>, seen: set<Id>)
    requires Ids(ms) <= u && x in u && forall y :: y in rest ==> y in u
    ensures Walk(ms, u, [x] + rest, seen) ==
              if x in seen then Walk(ms, u, rest, seen)
              else var w := Walk(ms, u, Kids(ms, x) + rest, seen + {x}); ([x] + w.0, w.1)
  {
    assert ([x] + rest)[0] == x && ([x] + rest)[1..] == rest;
    if x !in seen {
      WalkAppend(ms, u, Kids(ms, x), rest, seen + {x});
      var below := Walk(ms, u, Kids(ms, x), seen + {x});
      var after := Walk(ms, u, rest, below.1);
      assert [x] + below.0 + after.0 == [x] + (below.0 + after.0);
    }
  }

  method ChildrenOf(members: seq<AuthorizedMember>) returns (childrenOf: map<Id, seq<Id>>)
    ensures forall x :: Kids(members, x) == if x in childrenOf then childrenOf[x] else []
  {
    childrenOf := map[];
    for i := 0 to |members|
      invariant forall x :: Kids(members[..i], x) == if x in childrenOf then childrenOf[x] else []
    {
      var m := members[i];
      assert members[..i + 1][..i] == members[..i];
      var kids := if m.invitedBy in childrenOf then childrenOf[m.invitedBy] else [];
      childrenOf := childrenOf[m.invitedBy := kids + [m.id]];
    }
    assert members[..|members|] == members;
  }

  /** Pushes a member's invitees last first, so that the first is on top. */
  method PushReversed(base: seq<Id>, kids: seq<Id>) returns (stack: seq<Id>)
    ensures Reverse(stack) == kids + Reverse(base)
    ensures forall x :: x in stack <==> x in base || x in kids
  {
    stack := base;
    var j := |kids|;
    assert kids[j..] + Reverse(base) == Reverse(base);
    while j > 0
      invariant 0 <= j <= |kids|
      invariant Reverse(stack) == kids[j..] + Reverse(base)
    {
      j := j - 1;
      assert kids[j..] == [kids[j]] + kids[j + 1..];
      assert (stack + [kids[j]])[..|stack|] == stack;
      stack := stack + [kids[j]];
    }
    assert kids[0..] == kids;
    forall x ensures x in stack <==> x in base || x in kids {
      assert x in stack <==> x in Reverse(stack);
    }
  }

  /** What has been ordered, followed by the walk still due, is the whole walk. */
  ghost predicate Progress(owner: Id, ms: seq<AuthorizedMember>, ordered: seq<Id>, visited: set<Id>, todo: seq<Id>) {
    var u := {owner} + Ids(ms);
    && (forall x :: x in todo ==> x in u)
    && visited <= u
    && (var w := Walk(ms, u, todo, visited); (ordered + w.0, w.1) == Walk(ms, u, [owner], {}))
  }

  lemma ProgressStep(owner: Id, ms: seq<AuthorizedMember>, ordered: seq<Id>, visited: set<Id>, x: Id, rest: seq<Id>)
    requires Progress(owner, ms, ordered, visited, [x] + rest)
    ensures x in {owner} + Ids(ms)
    ensures x in visited ==> Progress(owner, ms, ordered, visited, rest)
    ensures x !in visited ==> Progress(owner, ms, ordered + [x], visited + {x}, Kids(ms, x) + rest)
  {
    var u := {owner} + Ids(ms);
    assert x in [x] + rest;
    assert forall y :: y in rest ==> y in [x] + rest;
    WalkStep(ms, u, x, rest, visited);
    if x !in visited {
      var w := Walk(ms, u, Kids(ms, x) + rest, visited + {x});
      assert ordered + ([x] + w.0) == ordered + [x] + w.0;
    }
  }

  lemma ProgressStart(owner: Id, ms: seq<AuthorizedMember>)
    ensures Progress(owner, ms, [], {}, Reverse([owner]))
    ensures forall ordered, visited :: Progress(owner, ms, ordered, visited, []) ==>
                                       (ordered, visited) == Walk(ms, {owner} + Ids(ms), [owner], {})
  {
    assert Reverse([owner]) == [owner];
    var w := Walk(ms, {owner} + Ids(ms), [owner], {});
    assert [] + w.0 == w.0;
    forall ordered, visited | Progress(owner, ms, ordered, visited, []) ensures (ordered, visited) == w {
      assert ordered + [] == ordered;
    }
  }

  /** The explicit-stack loop, on any list, cyclic or with repeated identifiers. */
  method VisitFromOwner(owner: Id, members: seq<AuthorizedMember>) returns (ordered: seq<Id>, visited: set<Id>)
    ensures (ordered, visited) == Walk(members, {owner} + Ids(members), [owner], {})
  {
    var childrenOf := ChildrenOf(members);
    ordered, visited := [], {};
    var stack := [owner];
    ProgressStart(owner, members);
    while stack != []
      invariant Progress(owner, members, ordered, visited, Reverse(stack))
      decreases {owner} + Ids(members) - visited, |stack|
    {
      var current := stack[|stack| - 1];
      stack := stack[..|stack| - 1];
      ProgressStep(owner, members, ordered, visited, current, Reverse(stack));
      if current in visited { continue; }
      visited := visited + {current};
      ordered := ordered + [current];
      stack := PushReversed(stack, if current in childrenOf then childrenOf[current] else []);
    }
  }

  /** The order of the panel: the traversal, then everyone it did not visit. */
  method InviteTreeOrder(owner: Id, members: seq<AuthorizedMember>) returns (ordered: seq<Id>)
    ensures ordered == TreeOrder(owner, members)
  {
    var visited;
    ordered, visited := VisitFromOwner(owner, members);
    ordered := AppendUnseen(members, visited, ordered);
  }

  method AppendUnseen(members: seq<AuthorizedMember>, visited: set<Id>, reached: seq<Id>) returns (ordered: seq<Id>)
    ensures ordered == reached + Unseen(members, visited)
  {
    ordered := reached;
    for i := 0 to |members|
      invariant ordered == reached + Unseen(members[..i], visited)
    {
      UnseenStep(members, i, visited);
      if members[i].id !in visited {
        ordered := ordered + [members[i].id];
      }
    }
    assert members[..|members|] == members;
  }

  // ---------- What the order is ----------

  /** Each visit is new, and what has been seen is what was seen before and what was visited. */
  lemma {:induction false} WalkOnce(ms: seq<AuthorizedMember>, u: set<Id>, todo: seq<Id>, seen: set<Id>)
    requires Ids(ms) <= u && forall x :: x in todo ==> x in u
    ensures var w := Walk(ms, u, todo, seen);
            && Distinct(w.0)
            && (forall x :: x in w.1 <==> x in seen || x in w.0)
            && (forall x :: x in w.0 ==> x !in seen && x in u)
    decreases u - seen, |todo|
  {
    if todo != [] {
      var x := todo[0];
      if x in seen {
        WalkOnce(ms, u, todo[1..], seen);
      } else {
        var below := Walk(ms, u, Kids(ms, x), seen + {x});
        WalkOnce(ms, u, Kids(ms, x), seen + {x});
        WalkOnce(ms, u, todo[1..], below.1);
        DistinctJoin([x], below.0);
        var rest := Walk(ms, u, todo[1..], below.1).0;
        forall y | y in [x] + below.0 ensures y in below.1 && y !in rest {
          assert y == x || y in below.0;
        }
        DistinctJoin([x] + below.0, rest);
      }
    }
  }

  /** The subtrees to visit are disjoint from each other and from what has been seen. */
  ghost predicate Clear(r: Roster, owner: Id, todo: seq<Id>, seen: set<Id>) {
    && Distinct(todo)
    && (forall x :: x in todo ==> Rooted(r, owner, x))
    && (forall x, y :: x in todo && y in todo && x != y ==> !Above(r, owner, x, y))
    && (forall x, y :: x in todo && y in seen ==> !Above(r, owner, x, y))
  }

  ghost predicate BelowSome(r: Roster, owner: Id, todo: seq<Id>, y: Id) {
    exists x :: x in todo && Above(r, owner, x, y)
  }

  /** The stretch of the order from i on that holds exactly the subtree of the member at i. */
  ghost predicate BlockAt(r: Roster, owner: Id, order: seq<Id>, i: int, n: int) {
    0 <= i && 0 < n && i + n <= |order| && forall y :: y in order[i..i + n] <==> Above(r, owner, order[i], y)
  }

  ghost predicate HasBlock(r: Roster, owner: Id, order: seq<Id>, i: int) {
    exists n :: BlockAt(r, owner, order, i, n)
  }

  ghost predicate Contiguous(r: Roster, owner: Id, order: seq<Id>) {
    forall i :: 0 <= i < |order| ==> HasBlock(r, owner, order, i)
  }

  /** Of two identifiers above the same one, one is above the other. */
  lemma AboveComparable(r: Roster, owner: Id, a: Id, b: Id, y: Id)
    requires Above(r, owner, a, y) && Above(r, owner, b, y)
    ensures Above(r, owner, a, b) || Above(r, owner, b, a)
  {
    var n: nat :| Up(r, owner, y, n) == Some(a);
    var m: nat :| Up(r, owner, y, m) == Some(b);
    if n <= m {
      UpCompose(r, owner, y, n, m - n);
    } else {
      UpCompose(r, owner, y, m, n - m);
    }
  }

  /** Below x lies x itself and what lies below the members x invited. */
  lemma BelowKids(ms: seq<AuthorizedMember>, owner: Id, x: Id, y: Id)
    requires DistinctIds(ms) && owner !in MembersById(ms)
    ensures Above(MembersById(ms), owner, x, y) <==> y == x || BelowSome(MembersById(ms), owner, Kids(ms, x), y)
  {
    var r := MembersById(ms);
    KidsOf(ms, x);
    AboveSelf(r, owner, x);
    if Above(r, owner, x, y) && y != x {
      var k := LastInvitation(r, owner, x, y);
      assert k in Kids(ms, x);
    }
    if BelowSome(r, owner, Kids(ms, x), y) {
      var k :| k in Kids(ms, x) && Above(r, owner, k, y);
      AboveStep(r, owner, k);
      AboveSelf(r, owner, x);
      AboveTransitive(r, owner, x, k, y);
    }
  }

  lemma KidsClear(ms: seq<AuthorizedMember>, owner: Id, todo: seq<Id>, seen: set<Id>)
    requires DistinctIds(ms) && owner !in MembersById(ms) && todo != [] && Clear(MembersById(ms), owner, todo, seen)
    ensures Clear(MembersById(ms), owner, Kids(ms, todo[0]), seen + {todo[0]})
  {
    var r, x := MembersById(ms), todo[0];
    var kids := Kids(ms, x);
    KidsOf(ms, x);
    assert x in todo;
    RootedHasNoCycle(r, owner, x);
    forall k | k in kids
      ensures Rooted(r, owner, k) && !Above(r, owner, k, x) && Above(r, owner, x, k) && StrictlyAbove(r, owner, x, k)
    {
      AboveStep(r, owner, k);
      AboveSelf(r, owner, x);
      AboveTransitive(r, owner, owner, x, k);
      if Above(r, owner, k, x) {
        AboveTransitive(r, owner, x, k, x);
      }
    }
    forall k, y | k in kids && y in kids && k != y ensures !Above(r, owner, k, y) {
      AboveStep(r, owner, y);
    }
    forall k, y | k in kids && y in seen + {x} ensures !Above(r, owner, k, y) {
      if y in seen && Above(r, owner, k, y) {
        AboveTransitive(r, owner, x, k, y);
      }
    }
  }

  lemma RestClear(ms: seq<AuthorizedMember>, owner: Id, todo: seq<Id>, seen: set<Id>, after: set<Id>)
    requires todo != [] && Clear(MembersById(ms), owner, todo, seen)
    requires forall y :: y in after ==> y in seen || Above(MembersById(ms), owner, todo[0], y)
    ensures Clear(MembersById(ms), owner, todo[1..], after)
  {
    var r, x, rest := MembersById(ms), todo[0], todo[1..];
    assert x in todo;
    forall z | z in rest ensures z in todo && z != x {
      var i :| 0 <= i < |rest| && rest[i] == z;
      assert todo[i + 1] == z;
    }
    forall z, y | z in rest && y in after ensures !Above(r, owner, z, y) {
      if Above(r, owner, z, y) && Above(r, owner, x, y) {
        AboveComparable(r, owner, z, x, y);
      }
    }
  }

  /** Where the subtrees are clear, the walk visits exactly them, each in one stretch. */
  lemma {:induction false} WalkBlocks(ms: seq<AuthorizedMember>, u: set<Id>, owner: Id, todo: seq<Id>, seen: set<Id>)
    requires DistinctIds(ms) && owner !in MembersById(ms)
    requires Ids(ms) <= u && forall x :: x in todo ==> x in u
    requires Clear(MembersById(ms), owner, todo, seen)
    ensures var order := Walk(ms, u, todo, seen).0;
            && (forall y :: y in order <==> BelowSome(MembersById(ms), owner, todo, y))
            && Contiguous(MembersById(ms), owner, order)
    decreases u - seen, |todo|
  {
    var r := MembersById(ms);
    if todo != [] {
      var x, rest := todo[0], todo[1..];
      AboveSelf(r, owner, x);
      assert x in todo && todo == [x] + rest;
      var below := Walk(ms, u, Kids(ms, x), seen + {x});
      KidsClear(ms, owner, todo, seen);
      WalkBlocks(ms, u, owner, Kids(ms, x), seen + {x});
      WalkOnce(ms, u, Kids(ms, x), seen + {x});
      forall y ensures y in [x] + below.0 <==> Above(r, owner, x, y) {
        BelowKids(ms, owner, x, y);
      }
      RestClear(ms, owner, todo, seen, below.1);
      WalkBlocks(ms, u, owner, rest, below.1);
      var after := Walk(ms, u, rest, below.1).0;
      forall y ensures y in [x] + below.0 + after <==> BelowSome(r, owner, todo, y) {
        BelowFirstOrRest(r, owner, todo, y);
      }
      JoinBlocks(r, owner, x, below.0, after);
    }
  }

  lemma BelowFirstOrRest(r: Roster, owner: Id, todo: seq<Id>, y: Id)
    requires todo != []
    ensures BelowSome(r, owner, todo, y) <==> Above(r, owner, todo[0], y) || BelowSome(r, owner, todo[1..], y)
  {
    assert todo == [todo[0]] + todo[1..];
    if Above(r, owner, todo[0], y) {
      assert todo[0] in todo;
    }
    if x :| x in todo[1..] && Above(r, owner, x, y) {
      assert x in todo;
    }
  }

  lemma JoinBlocks(r: Roster, owner: Id, x: Id, below: seq<Id>, after: seq<Id>)
    requires Contiguous(r, owner, below) && Contiguous(r, owner, after)
    requires forall y :: y in [x] + below <==> Above(r, owner, x, y)
    ensures Contiguous(r, owner, [x] + below + after)
  {
    var order := [x] + below + after;
    forall i | 0 <= i < |order| ensures HasBlock(r, owner, order, i) {
      if i == 0 {
        assert order[0..1 + |below|] == [x] + below;
        assert BlockAt(r, owner, order, 0, 1 + |below|);
      } else if i <= |below| {
        assert HasBlock(r, owner, below, i - 1);
        var n :| BlockAt(r, owner, below, i - 1, n);
        assert order[i..i + n] == below[i - 1..i - 1 + n];
        assert BlockAt(r, owner, order, i, n);
      } else {
        var k := i - 1 - |below|;
        assert HasBlock(r, owner, after, k);
        var n :| BlockAt(r, owner, after, k, n);
        assert order[i..i + n] == after[k..k + n];
        assert BlockAt(r, owner, order, i, n);
      }
    }
  }

  lemma {:induction false} UnseenDistinct(ms: seq<AuthorizedMember>, seen: set<Id>)
    requires DistinctIds(ms)
    ensures Distinct(Unseen(ms, seen))
  {
    if ms != [] {
      var n := |ms| - 1;
      UnseenDistinct(ms[..n], seen);
      forall x | x in Unseen(ms[..n], seen) ensures x != ms[n].id {
        var m :| m in ms[..n] && m.id == x;
        var i :| 0 <= i < n && ms[..n][i] == m;
      }
      DistinctJoin(Unseen(ms[..n], seen), if ms[n].id in seen then [] else [ms[n].id]);
    }
  }

  /** On a list without repeated identifiers or an owner entry the order lists the owner and every member once; first
      those who reach the owner, each subtree in one stretch, then the rest in list order. */
  lemma TreeOrderMeaning(owner: Id, ms: seq<AuthorizedMember>)
    requires DistinctIds(ms) && owner !in MembersById(ms)
    ensures var order := TreeOrder(owner, ms);
            var w := Walk(ms, {owner} + Ids(ms), [owner], {});
            && Distinct(order)
            && (forall x :: x in order <==> x == owner || x in Ids(ms))
            && (forall x :: x in w.0 <==> Rooted(MembersById(ms), owner, x))
            && order == w.0 + Unseen(ms, w.1) && (forall x :: x in w.1 <==> x in w.0)
            && Contiguous(MembersById(ms), owner, w.0)
  {
    var u := {owner} + Ids(ms);
    var w := Walk(ms, u, [owner], {});
    AboveSelf(MembersById(ms), owner, owner);
    WalkOnce(ms, u, [owner], {});
    WalkBlocks(ms, u, owner, [owner], {});
    UnseenDistinct(ms, w.1);
    DistinctJoin(w.0, Unseen(ms, w.1));
    forall x ensures x in w.0 <==> Rooted(MembersById(ms), owner, x) {
      assert BelowSome(MembersById(ms), owner, [owner], x) <==> Above(MembersById(ms), owner, owner, x);
    }
    assert owner in w.0;
  }

  lemma BlockHoldsBelow(r: Roster, owner: Id, order: seq<Id>, p: Id, x: Id) returns (i: int, k: int)
    requires Contiguous(r, owner, order) && p in order && Above(r, owner, p, x) && p != x
    ensures 0 <= i < k < |order| && order[i] == p && order[k] == x
  {
    i :| 0 <= i < |order| && order[i] == p;
    assert HasBlock(r, owner, order, i);
    var n :| BlockAt(r, owner, order, i, n);
    assert x in order[i..i + n];
    var j :| 0 <= j < n && order[i..i + n][j] == x;
    k := i + j;
  }

  /** Every member who reaches the owner comes after whoever invited them. */
  lemma InviterComesFirst(owner: Id, ms: seq<AuthorizedMember>, j: int)
    requires DistinctIds(ms) && owner !in MembersById(ms)
    requires 0 <= j < |TreeOrder(owner, ms)|
    requires var x := TreeOrder(owner, ms)[j]; x in MembersById(ms) && Rooted(MembersById(ms), owner, x)
    ensures exists i :: 0 <= i < j && TreeOrder(owner, ms)[i] == MembersById(ms)[TreeOrder(owner, ms)[j]].invitedBy
  {
    var r, order := MembersById(ms), TreeOrder(owner, ms);
    var w := Walk(ms, {owner} + Ids(ms), [owner], {});
    TreeOrderMeaning(owner, ms);
    var x := order[j];
    var p := r[x].invitedBy;
    AboveStep(r, owner, x);
    AboveSelf(r, owner, p);
    RootedHasNoCycle(r, owner, x);
    var i, k := BlockHoldsBelow(r, owner, w.0, p, x);
    assert order[k] == x && order[i] == p;
    assert k == j;
  }

  // ---------- Siblings ----------

  ghost predicate Precedes(order: seq<Id>, a: Id, b: Id) {
    exists i, j :: 0 <= i < j < |order| && order[i] == a && order[j] == b
  }

  lemma PrecedesWithin(before: seq<Id>, order: seq<Id>, after: seq<Id>, a: Id, b: Id)
    requires Precedes(order, a, b)
    ensures Precedes(before + order + after, a, b)
  {
    var i, j :| 0 <= i < j < |order| && order[i] == a && order[j] == b;
    var all, n := before + order + after, |before|;
    assert all[n + i] == a && all[n + j] == b;
  }

  lemma {:induction false} KidsPrecede(ms: seq<AuthorizedMember>, p: Id, i: nat, j: nat)
    requires i < j < |ms| && ms[i].invitedBy == p && ms[j].invitedBy == p
    ensures Precedes(Kids(ms, p), ms[i].id, ms[j].id)
  {
    var n := |ms| - 1;
    var before := Kids(ms[..n], p);
    if j < n {
      KidsPrecede(ms[..n], p, i, j);
      PrecedesWithin([], before, if ms[n].invitedBy == p then [ms[n].id] else [], ms[i].id, ms[j].id);
      assert [] + before == before;
    } else {
      KidListed(ms[..n], p, i);
      var k :| 0 <= k < |before| && before[k] == ms[i].id;
      var kids := before + [ms[n].id];
      assert kids[k] == ms[i].id && kids[|before|] == ms[j].id;
    }
  }

  lemma {:induction false} KidListed(ms: seq<AuthorizedMember>, p: Id, i: nat)
    requires i < |ms| && ms[i].invitedBy == p
    ensures ms[i].id in Kids(ms, p)
  {
    if i < |ms| - 1 {
      KidListed(ms[..|ms| - 1], p, i);
    }
  }

  /** The walk starts the subtrees in the order of the worklist. */
  lemma {:induction false} WalkTodo(ms: seq<AuthorizedMember>, u: set<Id>, owner: Id, todo: seq<Id>, seen: set<Id>,
                                    a: Id, b: Id)
    requires DistinctIds(ms) && owner !in MembersById(ms)
    requires Ids(ms) <= u && forall x :: x in todo ==> x in u
    requires Clear(MembersById(ms), owner, todo, seen) && Precedes(todo, a, b)
    ensures Precedes(Walk(ms, u, todo, seen).0, a, b)
    decreases |todo|
  {
    var r, x, rest := MembersById(ms), todo[0], todo[1..];
    var below, after := SplitWalk(ms, u, owner, todo, seen);
    FirstOrLater(todo, a, b);
    if Precedes(rest, a, b) {
      WalkTodo(ms, u, owner, rest, Walk(ms, u, Kids(ms, x), seen + {x}).1, a, b);
      PrecedesWithin([x] + below, after, [], a, b);
      assert [x] + below + after + [] == [x] + below + after;
    } else {
      AboveSelf(r, owner, b);
      assert BelowSome(r, owner, rest, b);
      FirstPrecedes(x, below, after, b);
    }
  }

  lemma FirstOrLater(todo: seq<Id>, a: Id, b: Id)
    requires Precedes(todo, a, b)
    ensures todo != [] && (Precedes(todo[1..], a, b) || (a == todo[0] && b in todo[1..]))
  {
    var i, j :| 0 <= i < j < |todo| && todo[i] == a && todo[j] == b;
    assert todo[1..][j - 1] == b && (i > 0 ==> todo[1..][i - 1] == a);
  }

  lemma FirstPrecedes(x: Id, below: seq<Id>, after: seq<Id>, b: Id)
    requires b in after
    ensures Precedes([x] + below + after, x, b)
  {
    var k :| 0 <= k < |after| && after[k] == b;
    var all, n := [x] + below + after, 1 + |below|;
    assert all[0] == x && all[n + k] == b;
  }

  /** The walk is the first of the worklist, what is below it, and the rest. */
  lemma SplitWalk(ms: seq<AuthorizedMember>, u: set<Id>, owner: Id, todo: seq<Id>, seen: set<Id>)
    returns (below: seq<Id>, after: seq<Id>)
    requires DistinctIds(ms) && owner !in MembersById(ms) && todo != []
    requires Ids(ms) <= u && forall x :: x in todo ==> x in u
    requires Clear(MembersById(ms), owner, todo, seen)
    ensures var w := Walk(ms, u, Kids(ms, todo[0]), seen + {todo[0]});
            && below == w.0 && after == Walk(ms, u, todo[1..], w.1).0
            && Clear(MembersById(ms), owner, Kids(ms, todo[0]), seen + {todo[0]})
            && Clear(MembersById(ms), owner, todo[1..], w.1)
    ensures todo[0] !in seen && Walk(ms, u, todo, seen).0 == [todo[0]] + below + after
    ensures forall y :: y in after <==> BelowSome(MembersById(ms), owner, todo[1..], y)
  {
    var r, x := MembersById(ms), todo[0];
    AboveSelf(r, owner, x);
    assert x in todo;
    var w := Walk(ms, u, Kids(ms, x), seen + {x});
    KidsClear(ms, owner, todo, seen);
    WalkBlocks(ms, u, owner, Kids(ms, x), seen + {x});
    WalkOnce(ms, u, Kids(ms, x), seen + {x});
    forall y | y in w.1 ensures y in seen || Above(r, owner, x, y) {
      BelowKids(ms, owner, x, y);
    }
    RestClear(ms, owner, todo, seen, w.1);
    WalkBlocks(ms, u, owner, todo[1..], w.1);
    below, after := w.0, Walk(ms, u, todo[1..], w.1).0;
  }

  /** The walk visits the members someone invited in the order of the list. */
  lemma {:induction false} WalkSiblings(ms: seq<AuthorizedMember>, u: set<Id>, owner: Id, todo: seq<Id>, seen: set<Id>,
                                        p: Id, a: Id, b: Id)
    requires DistinctIds(ms) && owner !in MembersById(ms)
    requires Ids(ms) <= u && forall x :: x in todo ==> x in u
    requires Clear(MembersById(ms), owner, todo, seen)
    requires p in Walk(ms, u, todo, seen).0 && Precedes(Kids(ms, p), a, b)
    ensures Precedes(Walk(ms, u, todo, seen).0, a, b)
    decreases u - seen, |todo|
  {
    if todo != [] {
      var x := todo[0];
      var below, after := SplitWalk(ms, u, owner, todo, seen);
      if p == x {
        WalkTodo(ms, u, owner, Kids(ms, x), seen + {x}, a, b);
        PrecedesWithin([x], below, after, a, b);
      } else if p in below {
        WalkSiblings(ms, u, owner, Kids(ms, x), seen + {x}, p, a, b);
        PrecedesWithin([x], below, after, a, b);
      } else {
        WalkSiblings(ms, u, owner, todo[1..], Walk(ms, u, Kids(ms, x), seen + {x}).1, p, a, b);
        PrecedesWithin([x] + below, after, [], a, b);
        assert [x] + below + after + [] == [x] + below + after;
      }
    }
  }

  /** Of two members with the same inviter who reach the owner the one listed first comes first. */
  lemma SiblingsInListOrder(owner: Id, ms: seq<AuthorizedMember>, i: nat, j: nat)
    requires DistinctIds(ms) && owner !in MembersById(ms) && i < j < |ms|
    requires ms[i].invitedBy == ms[j].invitedBy && Rooted(MembersById(ms), owner, ms[i].id)
    ensures Precedes(TreeOrder(owner, ms), ms[i].id, ms[j].id)
  {
    var r, u, p := MembersById(ms), {owner} + Ids(ms), ms[i].invitedBy;
    var w := Walk(ms, u, [owner], {});
    TreeOrderMeaning(owner, ms);
    ByIdDistinct(ms);
    assert ms[i] in ms;
    AboveStep(r, owner, ms[i].id);
    AboveSelf(r, owner, owner);
    assert Rooted(r, owner, p);
    KidsPrecede(ms, p, i, j);
    WalkSiblings(ms, u, owner, [owner], {}, p, ms[i].id, ms[j].id);
    PrecedesWithin([], w.0, Unseen(ms, w.1), ms[i].id, ms[j].id);
    assert [] + w.0 == w.0;
  }
}
