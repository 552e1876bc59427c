/** The conversation view: messages grouped under what they reply to. The recursion has no visited set. */
module ReplyTree {
  import opened Lists

  datatype MessageData = MessageData(id: int, replyTo: Option<int>, time: int)

  datatype MessageWithReplies = MessageWithReplies(message: MessageData, replies: seq<MessageWithReplies>)

  function TimeKey(m: MessageData): Key { (m.time, 0) }

  ghost predicate DistinctIds(all: seq<MessageData>) {
    forall i, j :: 0 <= i < j < |all| ==> all[i].id != all[j].id
  }

  type Targets = map<int, Option<int>>

  /** t gives what each message replies to, by identifier. */
  ghost predicate Indexes(all: seq<MessageData>, t: Targets) {
    && t.Keys == (set m | m in all :: m.id)
    && forall m :: m in all ==> t[m.id] == m.replyTo
  }

  /** k replies up from x comes a message that replies to parent; None stands for the top level. */
  ghost predicate Path(t: Targets, x: int, parent: Option<int>, k: nat)
    decreases k
  {
    x in t && if k == 0 then t[x] == parent else t[x].Some? && Path(t, t[x].value, parent, k - 1)
  }

  /** parent does not lie below itself; the top level never does. */
  ghost predicate Acyclic(t: Targets, parent: Option<int>) {
    forall k: nat :: parent.Some? ==> !Path(t, parent.value, parent, k)
  }

  ghost predicate OnCycle(t: Targets, x: int) {
    exists k: nat :: Path(t, x, Some(x), k)
  }

  /** The direct replies to parent sit d levels below root. */
  ghost predicate AtDepth(t: Targets, root: Option<int>, parent: Option<int>, d: nat) {
    if d == 0 then parent == root else parent.Some? && Path(t, parent.value, root, d - 1)
  }

  /** On a list without repeated identifiers there is such an index. */
  lemma {:induction false} IndexExists(all: seq<MessageData>) returns (t: Targets)
    requires DistinctIds(all)
    ensures Indexes(all, t)
  {
    t := map[];
    if all != [] {
      var n := |all| - 1;
      var before := IndexExists(all[..n]);
      t := before[all[n].id := all[n].replyTo];
      assert all == all[..n] + [all[n]];
      forall m | m in all[..n] ensures m.id != all[n].id {
        var i :| 0 <= i < n && all[..n][i] == m;
      }
    }
  }

  lemma {:induction false} PathUnique(t: Targets, x: int, root: Option<int>, j: nat, k: nat)
    requires Acyclic(t, root) && Path(t, x, root, j) && Path(t, x, root, k)
    ensures j == k
    decreases j + k
  {
    if j > 0 && k > 0 {
      PathUnique(t, t[x].value, root, j - 1, k - 1);
    }
  }

  lemma {:induction false} PathCompose(t: Targets, x: int, s: int, j: nat, parent: Option<int>, k: nat)
    requires Path(t, x, Some(s), j) && Path(t, s, parent, k)
    ensures Path(t, x, parent, j + 1 + k)
    decreases j
  {
    if j > 0 {
      PathCompose(t, t[x].value, s, j - 1, parent, k);
    }
  }

  /** The messages on the way up from x to root, x included. */
  ghost function Chain(t: Targets, x: int, root: Option<int>, k: nat): set<int>
    requires Path(t, x, root, k)
    decreases k
  {
    if k == 0 then {x} else {x} + Chain(t, t[x].value, root, k - 1)
  }

  lemma {:induction false} ChainIsLong(t: Targets, x: int, root: Option<int>, k: nat)
    requires Acyclic(t, root) && Path(t, x, root, k)
    ensures |Chain(t, x, root, k)| == k + 1 && Chain(t, x, root, k) <= t.Keys
    decreases k
  {
    if k > 0 {
      ChainIsLong(t, t[x].value, root, k - 1);
      if x in Chain(t, t[x].value, root, k - 1) {
        var j := ChainDepth(t, t[x].value, root, k - 1, x);
        PathUnique(t, x, root, j, k);
      }
    }
  }

  lemma {:induction false} ChainDepth(t: Targets, x: int, root: Option<int>, k: nat, y: int) returns (j: nat)
    requires Path(t, x, root, k) && y in Chain(t, x, root, k)
    ensures j <= k && Path(t, y, root, j)
    decreases k
  {
    if y == x {
      j := k;
    } else {
      j := ChainDepth(t, t[x].value, root, k - 1, y);
    }
  }

  lemma {:induction false} IdsSize(all: seq<MessageData>)
    ensures |set m | m in all :: m.id| <= |all|
  {
    if all != [] {
      var n := |all| - 1;
      IdsSize(all[..n]);
      assert all == all[..n] + [all[n]];
      assert (set m | m in all :: m.id) == (set m | m in all[..n] :: m.id) + {all[n].id};
    }
  }

  /** No reply chain up to root is longer than the list: this is why the recursion ends. */
  lemma DepthBound(all: seq<MessageData>, t: Targets, x: int, root: Option<int>, k: nat)
    requires Indexes(all, t) && Acyclic(t, root) && Path(t, x, root, k)
    ensures k < |all|
  {
    ChainIsLong(t, x, root, k);
    SubsetSize(Chain(t, x, root, k), t.Keys);
    IdsSize(all);
  }

  /** The direct replies to parent, oldest first. */
  function DirectReplies(all: seq<MessageData>, parent: Option<int>): seq<MessageData> {
    Sort(Filter(all, (m: MessageData) => m.replyTo == parent), TimeKey)
  }

  /** They are exactly the messages that name parent, in time order. */
  lemma DirectRepliesMeaning(all: seq<MessageData>, parent: Option<int>)
    ensures forall m :: m in DirectReplies(all, parent) <==> m in all && m.replyTo == parent
    ensures var level := DirectReplies(all, parent);
            forall i, j :: 0 <= i < j < |level| ==> level[i].time <= level[j].time
  {
    var level := DirectReplies(all, parent);
    SortSorts(Filter(all, (m: MessageData) => m.replyTo == parent), TimeKey);
    forall i, j | 0 <= i < j < |level| ensures level[i].time <= level[j].time {
      assert AtMost(TimeKey(level[i]), TimeKey(level[j]));
    }
  }

  ghost predicate Level(all: seq<MessageData>, t: Targets, root: Option<int>, ms: seq<MessageData>, d: nat) {
    forall m :: m in ms ==> m in all && Path(t, m.id, root, d)
  }

  lemma RepliesLevel(all: seq<MessageData>, t: Targets, root: Option<int>, parent: Option<int>, d: nat)
    requires Indexes(all, t) && AtDepth(t, root, parent, d)
    ensures Level(all, t, root, DirectReplies(all, parent), d)
  {
    forall m | m in DirectReplies(all, parent) ensures Path(t, m.id, root, d) {
    }
  }

  lemma LevelStep(all: seq<MessageData>, t: Targets, root: Option<int>, ms: seq<MessageData>, d: nat)
    requires ms != [] && Indexes(all, t) && Acyclic(t, root) && Level(all, t, root, ms, d)
    ensures d < |all| && AtDepth(t, root, Some(ms[0].id), d + 1) && Level(all, t, root, ms[1..], d)
  {
    assert ms[0] in ms;
    DepthBound(all, t, ms[0].id, root, d);
  }

  /** `build_reply_tree`, d levels below the root it was first called for. */
  function BuildReplyTree(all: seq<MessageData>, ghost t: Targets, parent: Option<int>, ghost root: Option<int>,
                          ghost d: nat): seq<MessageWithReplies>
    requires Indexes(all, t) && Acyclic(t, root) && AtDepth(t, root, parent, d) && d <= |all|
    decreases |all| - d, 1, 0
  {
    RepliesLevel(all, t, root, parent, d);
    WithReplies(all, t, DirectReplies(all, parent), root, d)
  }

  /** Each message together with the tree of its replies. */
  function WithReplies(all: seq<MessageData>, ghost t: Targets, ms: seq<MessageData>, ghost root: Option<int>,
                       ghost d: nat): seq<MessageWithReplies>
    requires Indexes(all, t) && Acyclic(t, root) && Level(all, t, root, ms, d) && d <= |all|
    decreases |all| - d, 0, |ms|
  {
    if ms == [] then []
    else
      LevelStep(all, t, root, ms, d);
      [MessageWithReplies(ms[0], BuildReplyTree(all, t, Some(ms[0].id), root, d + 1))]
          + WithReplies(all, t, ms[1..], root, d)
  }

  function Flatten(trees: seq<MessageWithReplies>): seq<MessageData> {
    if trees == [] then []
    else [trees[0].message] + Flatten(trees[0].replies) + Flatten(trees[1..])
  }

  lemma FlattenFirst(first: MessageWithReplies, rest: seq<MessageWithReplies>)
    ensures Flatten([first] + rest) == [first.message] + Flatten(first.replies) + Flatten(rest)
  {
    assert ([first] + rest)[1..] == rest;
  }

  lemma WithRepliesStep(all: seq<MessageData>, t: Targets, ms: seq<MessageData>, root: Option<int>, d: nat)
    returns (below: seq<MessageWithReplies>, after: seq<MessageWithReplies>)
    requires Indexes(all, t) && Acyclic(t, root) && Level(all, t, root, ms, d) && d <= |all| && ms != []
    ensures d < |all| && AtDepth(t, root, Some(ms[0].id), d + 1) && Level(all, t, root, ms[1..], d)
    ensures below == BuildReplyTree(all, t, Some(ms[0].id), root, d + 1)
            && after == WithReplies(all, t, ms[1..], root, d)
    ensures WithReplies(all, t, ms, root, d) == [MessageWithReplies(ms[0], below)] + after
  {
    LevelStep(all, t, root, ms, d);
    below := BuildReplyTree(all, t, Some(ms[0].id), root, d + 1);
    after := WithReplies(all, t, ms[1..], root, d);
  }

  /** m lies somewhere below parent. */
  ghost predicate Under(all: seq<MessageData>, t: Targets, m: MessageData, parent: Option<int>) {
    m in all && exists k: nat :: Path(t, m.id, parent, k)
  }

  ghost predicate UnderOrIn(all: seq<MessageData>, t: Targets, m: MessageData, ms: seq<MessageData>) {
    exists s :: s in ms && (m == s || Under(all, t, m, Some(s.id)))
  }

  lemma {:induction false} LastReply(t: Targets, x: int, parent: Option<int>, k: nat) returns (s: int)
    requires Path(t, x, parent, k) && k > 0
    ensures Path(t, x, Some(s), k - 1) && s in t && t[s] == parent
    decreases k
  {
    if k == 1 {
      s := t[x].value;
    } else {
      s := LastReply(t, t[x].value, parent, k - 1);
    }
  }

  /** Below parent lie its direct replies and what lies below each of them. */
  lemma UnderReplies(all: seq<MessageData>, t: Targets, m: MessageData, parent: Option<int>)
    requires Indexes(all, t)
    ensures Under(all, t, m, parent) <==> UnderOrIn(all, t, m, DirectReplies(all, parent))
  {
    if Under(all, t, m, parent) {
      var k: nat :| Path(t, m.id, parent, k);
      if k == 0 {
        assert m in DirectReplies(all, parent);
      } else {
        var s := LastReply(t, m.id, parent, k);
        var r :| r in all && r.id == s && r.replyTo == t[s];
        assert r in DirectReplies(all, parent) && Under(all, t, m, Some(r.id));
      }
    }
    if UnderOrIn(all, t, m, DirectReplies(all, parent)) {
      var s :| s in DirectReplies(all, parent) && (m == s || Under(all, t, m, Some(s.id)));
      assert Path(t, s.id, parent, 0);
      if m != s {
        var k: nat :| Path(t, m.id, Some(s.id), k);
        PathCompose(t, m.id, s.id, k, parent, 0);
      }
    }
  }

  /** A message lies below at most one message of a given depth, and never below one as deep as itself. */
  lemma UnderOne(all: seq<MessageData>, t: Targets, root: Option<int>, m: MessageData, a: MessageData,
                 b: MessageData, d: nat)
    requires Acyclic(t, root)
    requires Path(t, a.id, root, d) && Path(t, b.id, root, d)
    requires Under(all, t, m, Some(a.id)) && (m == b || Under(all, t, m, Some(b.id)))
    ensures a.id == b.id && m != b
  {
    var j: nat :| Path(t, m.id, Some(a.id), j);
    PathCompose(t, m.id, a.id, j, root, d);
    if m == b {
      PathUnique(t, m.id, root, j + 1 + d, d);
    } else {
      var k: nat :| Path(t, m.id, Some(b.id), k);
      PathCompose(t, m.id, b.id, k, root, d);
      PathUnique(t, m.id, root, j + 1 + d, k + 1 + d);
      SamePathEnd(t, m.id, Some(a.id), Some(b.id), j);
    }
  }

  lemma {:induction false} SamePathEnd(t: Targets, x: int, a: Option<int>, b: Option<int>, k: nat)
    requires Path(t, x, a, k) && Path(t, x, b, k)
    ensures a == b
    decreases k
  {
    if k > 0 {
      SamePathEnd(t, t[x].value, a, b, k - 1);
    }
  }

  lemma RepliesDistinct(all: seq<MessageData>, parent: Option<int>)
    requires DistinctIds(all)
    ensures DistinctIds(DirectReplies(all, parent))
  {
    var id := (m: MessageData) => (m.id, 0);
    var f := Filter(all, (m: MessageData) => m.replyTo == parent);
    assert DistinctKeys(all, id);
    FilterKeepsOrder(all, (m: MessageData) => m.replyTo == parent, id);
    SortKeepsDistinct(f, TimeKey, id);
    var s := DirectReplies(all, parent);
    forall i, j | 0 <= i < j < |s| ensures s[i].id != s[j].id {
      assert id(s[i]) != id(s[j]);
    }
  }

  /** The flattened tree holds exactly the messages below parent, and once each where none repeats an identifier. */
  lemma {:induction false} TreeHoldsAll(all: seq<MessageData>, t: Targets, parent: Option<int>, root: Option<int>,
                                        d: nat)
    requires Indexes(all, t) && Acyclic(t, root) && AtDepth(t, root, parent, d) && d <= |all|
    ensures var flat := Flatten(BuildReplyTree(all, t, parent, root, d));
            && (forall m :: m in flat <==> Under(all, t, m, parent))
            && (DistinctIds(all) ==> Distinct(flat))
    decreases |all| - d, 1, 0
  {
    RepliesLevel(all, t, root, parent, d);
    if DistinctIds(all) {
      RepliesDistinct(all, parent);
    }
    TreesHoldAll(all, t, DirectReplies(all, parent), root, d);
    forall m ensures UnderOrIn(all, t, m, DirectReplies(all, parent)) <==> Under(all, t, m, parent) {
      UnderReplies(all, t, m, parent);
    }
  }

  /** flat holds exactly the messages of ms and what is below them, once each where none repeats an identifier. */
  ghost predicate HoldsIn(all: seq<MessageData>, t: Targets, ms: seq<MessageData>, flat: seq<MessageData>) {
    && (forall m :: m in flat <==> UnderOrIn(all, t, m, ms))
    && (DistinctIds(all) && DistinctIds(ms) ==> Distinct(flat))
  }

  lemma {:induction false} TreesHoldAll(all: seq<MessageData>, t: Targets, ms: seq<MessageData>, root: Option<int>,
                                        d: nat)
    requires Indexes(all, t) && Acyclic(t, root) && Level(all, t, root, ms, d) && d <= |all|
    ensures HoldsIn(all, t, ms, Flatten(WithReplies(all, t, ms, root, d)))
    decreases |all| - d, 0, |ms|
  {
    if ms == [] {
      NoTrees(all, t, ms);
    } else {
      var below, after := WithRepliesStep(all, t, ms, root, d);
      TreeHoldsAll(all, t, Some(ms[0].id), root, d + 1);
      TreesHoldAll(all, t, ms[1..], root, d);
      TreesJoin(all, t, root, ms, d, below, after, WithReplies(all, t, ms, root, d));
    }
  }

  lemma NoTrees(all: seq<MessageData>, t: Targets, ms: seq<MessageData>)
    requires ms == []
    ensures HoldsIn(all, t, ms, Flatten([]))
  {
  }

  lemma TreesJoin(all: seq<MessageData>, t: Targets, root: Option<int>, ms: seq<MessageData>, d: nat,
                  below: seq<MessageWithReplies>, after: seq<MessageWithReplies>, trees: seq<MessageWithReplies>)
    requires Acyclic(t, root) && Level(all, t, root, ms, d) && ms != []
    requires trees == [MessageWithReplies(ms[0], below)] + after
    requires forall m :: m in Flatten(below) <==> Under(all, t, m, Some(ms[0].id))
    requires HoldsIn(all, t, ms[1..], Flatten(after))
    requires DistinctIds(all) ==> Distinct(Flatten(below))
    ensures HoldsIn(all, t, ms, Flatten(trees))
  {
    FlattenFirst(MessageWithReplies(ms[0], below), after);
    FirstJoins(all, t, root, ms, d, Flatten(below), Flatten(after));
  }

  lemma FirstJoins(all: seq<MessageData>, t: Targets, root: Option<int>, ms: seq<MessageData>, d: nat,
                   below: seq<MessageData>, after: seq<MessageData>)
    requires Acyclic(t, root) && Level(all, t, root, ms, d) && ms != []
    requires forall m :: m in below <==> Under(all, t, m, Some(ms[0].id))
    requires forall m :: m in after <==> UnderOrIn(all, t, m, ms[1..])
    requires (DistinctIds(all) ==> Distinct(below)) && (DistinctIds(all) && DistinctIds(ms[1..]) ==> Distinct(after))
    ensures forall m :: m in [ms[0]] + below + after <==> UnderOrIn(all, t, m, ms)
    ensures DistinctIds(all) && DistinctIds(ms) ==> Distinct([ms[0]] + below + after)
  {
    FirstAndRest(all, t, ms, below, after);
    if DistinctIds(all) && DistinctIds(ms) {
      RestDistinct(ms);
      FirstThenRest(all, t, root, ms, d, below, after);
    }
  }

  lemma RestDistinct(ms: seq<MessageData>)
    requires ms != [] && DistinctIds(ms)
    ensures DistinctIds(ms[1..])
  {
  }

  lemma FirstAndRest(all: seq<MessageData>, t: Targets, ms: seq<MessageData>, below: seq<MessageData>,
                     after: seq<MessageData>)
    requires ms != [] && forall m :: m in below <==> Under(all, t, m, Some(ms[0].id))
    requires forall m :: m in after <==> UnderOrIn(all, t, m, ms[1..])
    ensures forall m :: m in [ms[0]] + below + after <==> UnderOrIn(all, t, m, ms)
  {
    forall m ensures m in [ms[0]] + below + after <==> UnderOrIn(all, t, m, ms) {
      FirstOrRest(all, t, m, ms);
    }
  }

  lemma FirstThenRest(all: seq<MessageData>, t: Targets, root: Option<int>, ms: seq<MessageData>, d: nat,
                      below: seq<MessageData>, after: seq<MessageData>)
    requires Acyclic(t, root) && Level(all, t, root, ms, d) && DistinctIds(ms) && ms != []
    requires Distinct(below) && forall m :: m in below <==> Under(all, t, m, Some(ms[0].id))
    requires Distinct(after) && forall m :: m in after <==> UnderOrIn(all, t, m, ms[1..])
    ensures Distinct([ms[0]] + below + after)
  {
    var s := ms[0];
    assert s in ms;
    if s in below {
      UnderOne(all, t, root, s, s, s, d);
    }
    DistinctJoin([s], below);
    forall m | m in [s] + below ensures m !in after {
      Apart(all, t, root, ms, m, d);
    }
    DistinctJoin([s] + below, after);
  }

  lemma FirstOrRest(all: seq<MessageData>, t: Targets, m: MessageData, ms: seq<MessageData>)
    requires ms != []
    ensures UnderOrIn(all, t, m, ms)
            <==> m == ms[0] || Under(all, t, m, Some(ms[0].id)) || UnderOrIn(all, t, m, ms[1..])
  {
    assert ms == [ms[0]] + ms[1..];
    if m == ms[0] || Under(all, t, m, Some(ms[0].id)) {
      assert ms[0] in ms;
    }
    if s :| s in ms[1..] && (m == s || Under(all, t, m, Some(s.id))) {
      assert s in ms;
    }
  }

  /** Nothing lies in the trees of two different siblings. */
  lemma Apart(all: seq<MessageData>, t: Targets, root: Option<int>, ms: seq<MessageData>, m: MessageData, d: nat)
    requires Acyclic(t, root) && Level(all, t, root, ms, d) && DistinctIds(ms) && ms != []
    requires m == ms[0] || Under(all, t, m, Some(ms[0].id))
    ensures !UnderOrIn(all, t, m, ms[1..])
  {
    if UnderOrIn(all, t, m, ms[1..]) {
      var s :| s in ms[1..] && (m == s || Under(all, t, m, Some(s.id)));
      var i :| 0 <= i < |ms[1..]| && ms[1..][i] == s;
      assert ms[i + 1] == s && ms[0].id != ms[i + 1].id;
      assert ms[0] in ms && s in ms;
      if Under(all, t, m, Some(ms[0].id)) {
        UnderOne(all, t, root, m, ms[0], s, d);
      } else if Under(all, t, m, Some(s.id)) {
        UnderOne(all, t, root, m, s, ms[0], d);
      }
    }
  }

  // ---------- What the tree is ----------

  function Messages(trees: seq<MessageWithReplies>): (ms: seq<MessageData>)
    ensures |ms| == |trees| && forall i :: 0 <= i < |trees| ==> ms[i] == trees[i].message
  {
    if trees == [] then [] else [trees[0].message] + Messages(trees[1..])
  }

  /** At every level the messages are exactly the direct replies to the one above, oldest first. */
  ghost predicate WellGrouped(all: seq<MessageData>, trees: seq<MessageWithReplies>, parent: Option<int>) {
    && Messages(trees) == DirectReplies(all, parent)
    && forall i :: 0 <= i < |trees| ==> WellGrouped(all, trees[i].replies, Some(trees[i].message.id))
  }

  lemma {:induction false} TreeGrouped(all: seq<MessageData>, t: Targets, parent: Option<int>, root: Option<int>,
                                       d: nat)
    requires Indexes(all, t) && Acyclic(t, root) && AtDepth(t, root, parent, d) && d <= |all|
    ensures WellGrouped(all, BuildReplyTree(all, t, parent, root, d), parent)
    decreases |all| - d, 1, 0
  {
    RepliesLevel(all, t, root, parent, d);
    TreesGrouped(all, t, DirectReplies(all, parent), root, d);
  }

  lemma {:induction false} TreesGrouped(all: seq<MessageData>, t: Targets, ms: seq<MessageData>, root: Option<int>,
                                        d: nat)
    requires Indexes(all, t) && Acyclic(t, root) && Level(all, t, root, ms, d) && d <= |all|
    ensures var trees := WithReplies(all, t, ms, root, d);
            && Messages(trees) == ms
            && forall i :: 0 <= i < |trees| ==> WellGrouped(all, trees[i].replies, Some(trees[i].message.id))
    decreases |all| - d, 0, |ms|
  {
    if ms != [] {
      var below, after := WithRepliesStep(all, t, ms, root, d);
      TreeGrouped(all, t, Some(ms[0].id), root, d + 1);
      TreesGrouped(all, t, ms[1..], root, d);
      FirstGrouped(all, MessageWithReplies(ms[0], below), after);
    }
  }

  lemma FirstGrouped(all: seq<MessageData>, first: MessageWithReplies, rest: seq<MessageWithReplies>)
    requires WellGrouped(all, first.replies, Some(first.message.id))
    requires forall i :: 0 <= i < |rest| ==> WellGrouped(all, rest[i].replies, Some(rest[i].message.id))
    ensures var trees := [first] + rest;
            && Messages(trees) == [first.message] + Messages(rest)
            && forall i :: 0 <= i < |trees| ==> WellGrouped(all, trees[i].replies, Some(trees[i].message.id))
  {
    var trees := [first] + rest;
    forall i | 0 <= i < |trees| ensures WellGrouped(all, trees[i].replies, Some(trees[i].message.id)) {
      assert i > 0 ==> trees[i] == rest[i - 1];
    }
  }

  /** No finite tree groups the replies to a message that lies below itself. */
  lemma {:induction false} NoTreeOnCycle(all: seq<MessageData>, t: Targets, trees: seq<MessageWithReplies>, q: int)
    requires Indexes(all, t) && OnCycle(t, q)
    ensures !WellGrouped(all, trees, Some(q))
    decreases trees
  {
    if WellGrouped(all, trees, Some(q)) {
      var s := NextOnCycle(all, t, q);
      assert s in Messages(trees);
      var i :| 0 <= i < |trees| && Messages(trees)[i] == s;
      NoTreeOnCycle(all, t, trees[i].replies, s.id);
    }
  }

  lemma NextOnCycle(all: seq<MessageData>, t: Targets, q: int) returns (s: MessageData)
    requires Indexes(all, t) && OnCycle(t, q)
    ensures s in DirectReplies(all, Some(q)) && OnCycle(t, s.id)
  {
    var k: nat :| Path(t, q, Some(q), k);
    var x := q;
    if k > 0 {
      x := LastReply(t, q, Some(q), k);
      PathCompose(t, x, q, 0, Some(x), k - 1);
    }
    s :| s in all && s.id == x && s.replyTo == t[x];
  }

  /** From the top level the tree always exists, even with reply cycles among the messages; from a message it exists
      exactly when that message is not below itself. It holds exactly the messages below the parent, and where none
      repeats an identifier, each once. */
  lemma ReplyTreeExists(all: seq<MessageData>, t: Targets, parent: Option<int>)
    requires Indexes(all, t)
    ensures Acyclic(t, parent) <==> exists trees :: WellGrouped(all, trees, parent)
    ensures Acyclic(t, parent) ==>
              var trees := BuildReplyTree(all, t, parent, parent, 0);
              && WellGrouped(all, trees, parent)
              && (forall m :: m in Flatten(trees) <==> Under(all, t, m, parent))
              && (DistinctIds(all) ==> Distinct(Flatten(trees)))
  {
    if Acyclic(t, parent) {
      TreeGrouped(all, t, parent, parent, 0);
      TreeHoldsAll(all, t, parent, parent, 0);
      assert exists trees :: WellGrouped(all, trees, parent);
    } else {
      var k: nat :| parent.Some? && Path(t, parent.value, parent, k);
      assert OnCycle(t, parent.value);
      forall trees ensures !WellGrouped(all, trees, parent) {
        NoTreeOnCycle(all, t, trees, parent.value);
      }
    }
  }

  /** A message that replies to itself has no reply tree, though the top level has one. */
  lemma SelfReplyHasNoTree()
    ensures var all := [MessageData(1, Some(1), 0)];
            && (forall trees :: !WellGrouped(all, trees, Some(1)))
            && exists trees :: WellGrouped(all, trees, None)
  {
    var all, t := [MessageData(1, Some(1), 0)], map[1 := Some(1)];
    assert Indexes(all, t) by {
      assert all[0] in all;
    }
    assert Path(t, 1, Some(1), 0);
    ReplyTreeExists(all, t, Some(1));
    ReplyTreeExists(all, t, None);
  }
}
