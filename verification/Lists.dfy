/** Lists with a canonical order: stable sorting by a lexicographic key, filtering, and the fact that a strictly
    sorted list is determined by its elements. Every component of a board keeps its list in such an order. */
module Lists {

  datatype Option<+T> = None | Some(value: T)

  datatype Result<+T, +E> = Ok(value: T) | Err(error: E)

  /** A sort key: compared by the first component, ties broken by the second. */
  type Key = (int, int)

  predicate Less(a: Key, b: Key) {
    a.0 < b.0 || (a.0 == b.0 && a.1 < b.1)
  }

  predicate AtMost(a: Key, b: Key) {
    a == b || Less(a, b)
  }

  ghost predicate Sorted<T(!new)>(s: seq<T>, key: T -> Key) {
    forall i, j :: 0 <= i < j < |s| ==> AtMost(key(s[i]), key(s[j]))
  }

  ghost predicate StrictlySorted<T(!new)>(s: seq<T>, key: T -> Key) {
    forall i, j :: 0 <= i < j < |s| ==> Less(key(s[i]), key(s[j]))
  }

  /** No two positions carry the same key. */
  ghost predicate DistinctKeys<T(!new)>(s: seq<T>, key: T -> Key) {
    forall i, j :: 0 <= i < j < |s| ==> key(s[i]) != key(s[j])
  }

  ghost predicate Distinct<T(!new)>(s: seq<T>) {
    forall i, j :: 0 <= i < j < |s| ==> s[i] != s[j]
  }

  lemma DistinctJoin<T(!new)>(a: seq<T>, b: seq<T>)
    requires Distinct(a) && Distinct(b) && forall x :: x in a ==> x !in b
    ensures Distinct(a + b)
  {
    forall i, j | 0 <= i < j < |a + b| ensures (a + b)[i] != (a + b)[j] {
      assert i < |a| ==> a[i] in a;
      assert j >= |a| ==> b[j - |a|] in b;
    }
  }

  // ---------- Filtering (Rust's `retain` and `filter`) ----------

  function Filter<T(!new)>(s: seq<T>, p: T -> bool): (r: seq<T>)
    ensures forall x :: x in r <==> x in s && p(x)
    ensures |r| <= |s|
  {
    if s == [] then []
    else if p(s[0]) then [s[0]] + Filter(s[1..], p)
    else Filter(s[1..], p)
  }

  ghost predicate Pairwise<T(!new)>(s: seq<T>, rel: (T, T) -> bool) {
    forall i, j :: 0 <= i < j < |s| ==> rel(s[i], s[j])
  }

  /** What holds between any two elements of a list, in their order, still holds after filtering. */
  lemma {:induction false} FilterKeepsPairwise<T(!new)>(s: seq<T>, p: T -> bool, rel: (T, T) -> bool)
    requires Pairwise(s, rel)
    ensures Pairwise(Filter(s, p), rel)
  {
    if s != [] {
      var r := Filter(s[1..], p);
      assert Pairwise(s[1..], rel);
      FilterKeepsPairwise(s[1..], p, rel);
      forall j | 0 <= j < |r| ensures rel(s[0], r[j]) {
        assert r[j] in r;
        var k :| 0 <= k < |s[1..]| && s[1..][k] == r[j];
        assert s[k + 1] == r[j];
      }
    }
  }

  lemma FilterKeepsOrder<T(!new)>(s: seq<T>, p: T -> bool, key: T -> Key)
    ensures Sorted(s, key) ==> Sorted(Filter(s, p), key)
    ensures StrictlySorted(s, key) ==> StrictlySorted(Filter(s, p), key)
    ensures DistinctKeys(s, key) ==> DistinctKeys(Filter(s, p), key)
  {
    var atMost := (x: T, y: T) => AtMost(key(x), key(y));
    var less := (x: T, y: T) => Less(key(x), key(y));
    var apart := (x: T, y: T) => key(x) != key(y);
    if Pairwise(s, atMost) { FilterKeepsPairwise(s, p, atMost); }
    if Pairwise(s, less) { FilterKeepsPairwise(s, p, less); }
    if Pairwise(s, apart) { FilterKeepsPairwise(s, p, apart); }
  }

  lemma {:induction false} FilterSame<T(!new)>(s: seq<T>, p: T -> bool, q: T -> bool)
    requires forall x :: x in s ==> p(x) == q(x)
    ensures Filter(s, p) == Filter(s, q)
  {
    if s != [] {
      assert s[0] in s;
      assert forall x :: x in s[1..] ==> x in s;
      FilterSame(s[1..], p, q);
    }
  }

  lemma {:induction false} FilterAll<T(!new)>(s: seq<T>, p: T -> bool)
    requires forall x :: x in s ==> p(x)
    ensures Filter(s, p) == s
  {
    if s != [] {
      assert s[0] in s;
      assert forall x :: x in s[1..] ==> x in s;
      FilterAll(s[1..], p);
      assert s == [s[0]] + s[1..];
    }
  }

  lemma FilterNone<T(!new)>(s: seq<T>, p: T -> bool)
    requires forall x :: x in s ==> !p(x)
    ensures Filter(s, p) == []
  {
    assert Filter(s, p) != [] ==> Filter(s, p)[0] in Filter(s, p);
  }

  lemma {:induction false} FilterAppend<T(!new)>(s: seq<T>, t: seq<T>, p: T -> bool)
    ensures Filter(s + t, p) == Filter(s, p) + Filter(t, p)
  {
    if s == [] {
      assert s + t == t;
    } else {
      assert (s + t)[0] == s[0] && (s + t)[1..] == s[1..] + t;
      FilterAppend(s[1..], t, p);
    }
  }

  lemma FilterLast<T(!new)>(s: seq<T>, p: T -> bool)
    requires s != []
    ensures p(s[|s| - 1]) ==> Filter(s, p) == Filter(s[..|s| - 1], p) + [s[|s| - 1]]
    ensures !p(s[|s| - 1]) ==> Filter(s, p) == Filter(s[..|s| - 1], p)
  {
    var rest, last := s[..|s| - 1], s[|s| - 1];
    assert s == rest + [last];
    FilterAppend(rest, [last], p);
    FilterOne(last, p);
  }

  lemma FilterOne<T(!new)>(x: T, p: T -> bool)
    ensures Filter([x], p) == if p(x) then [x] else []
  {
    assert [x][1..] == [];
  }

  // ---------- Stable sorting (Rust's `sort_by` and `sort_by_key`) ----------

  /** Inserts x behind every element of s whose key is not larger. */
  function Insert<T(!new)>(s: seq<T>, x: T, key: T -> Key): (r: seq<T>)
    ensures |r| == |s| + 1
    ensures forall y :: y in r <==> y in s || y == x
  {
    if s == [] || AtMost(key(s[|s| - 1]), key(x)) then s + [x]
    else
      var r := Insert(s[..|s| - 1], x, key);
      assert s == s[..|s| - 1] + [s[|s| - 1]];
      r + [s[|s| - 1]]
  }

  function Sort<T(!new)>(s: seq<T>, key: T -> Key): (r: seq<T>)
    ensures |r| == |s|
    ensures forall x :: x in r <==> x in s
  {
    if s == [] then []
    else
      assert s == s[..|s| - 1] + [s[|s| - 1]];
      Insert(Sort(s[..|s| - 1], key), s[|s| - 1], key)
  }

  lemma InsertBelow<T(!new)>(s: seq<T>, x: T, key: T -> Key)
    requires s != [] && !AtMost(key(s[|s| - 1]), key(x))
    ensures Insert(s, x, key) == Insert(s[..|s| - 1], x, key) + [s[|s| - 1]]
  {
  }

  lemma SplitLast<T>(s: seq<T>)
    requires s != []
    ensures s == s[..|s| - 1] + [s[|s| - 1]]
  {
  }

  lemma {:induction false} InsertSorted<T(!new)>(s: seq<T>, x: T, key: T -> Key)
    requires Sorted(s, key)
    ensures Sorted(Insert(s, x, key), key)
  {
    if s == [] || AtMost(key(s[|s| - 1]), key(x)) {
    } else {
      var last := s[|s| - 1];
      var r := Insert(s[..|s| - 1], x, key);
      InsertSorted(s[..|s| - 1], x, key);
      forall i | 0 <= i < |r|
        ensures AtMost(key(r[i]), key(last))
      {
        assert r[i] in r;
        if r[i] in s[..|s| - 1] {
          var k :| 0 <= k < |s| - 1 && s[..|s| - 1][k] == r[i];
        }
      }
    }
  }

  lemma {:induction false} InsertMultiset<T(!new)>(s: seq<T>, x: T, key: T -> Key)
    ensures multiset(Insert(s, x, key)) == multiset(s) + multiset{x}
  {
    if s != [] && !AtMost(key(s[|s| - 1]), key(x)) {
      InsertMultiset(s[..|s| - 1], x, key);
      assert s == s[..|s| - 1] + [s[|s| - 1]];
    }
  }

  lemma {:induction false} SortSorts<T(!new)>(s: seq<T>, key: T -> Key)
    ensures Sorted(Sort(s, key), key)
    ensures multiset(Sort(s, key)) == multiset(s)
  {
    if s != [] {
      SortSorts(s[..|s| - 1], key);
      InsertSorted(Sort(s[..|s| - 1], key), s[|s| - 1], key);
      InsertMultiset(Sort(s[..|s| - 1], key), s[|s| - 1], key);
      assert s == s[..|s| - 1] + [s[|s| - 1]];
    }
  }

  lemma {:induction false} SortIdentity<T(!new)>(s: seq<T>, key: T -> Key)
    requires Sorted(s, key)
    ensures Sort(s, key) == s
  {
    if s != [] {
      SortIdentity(s[..|s| - 1], key);
      assert s == s[..|s| - 1] + [s[|s| - 1]];
    }
  }

  lemma {:induction false} SortDistinct<T(!new)>(s: seq<T>, key: T -> Key)
    requires DistinctKeys(s, key)
    ensures StrictlySorted(Sort(s, key), key)
  {
    if s != [] {
      var t := s[..|s| - 1];
      var x := s[|s| - 1];
      SortDistinct(t, key);
      forall y | y in Sort(t, key)
        ensures key(y) != key(x)
      {
        var k :| 0 <= k < |t| && t[k] == y;
      }
      InsertStrict(Sort(t, key), x, key);
    }
  }

  lemma {:induction false} InsertStrict<T(!new)>(s: seq<T>, x: T, key: T -> Key)
    requires StrictlySorted(s, key)
    requires forall y :: y in s ==> key(y) != key(x)
    ensures StrictlySorted(Insert(s, x, key), key)
  {
    if s == [] {
    } else if AtMost(key(s[|s| - 1]), key(x)) {
      assert s[|s| - 1] in s;
    } else {
      var t := s[..|s| - 1];
      var last := s[|s| - 1];
      assert forall y :: y in t ==> y in s;
      InsertStrict(t, x, key);
      var r := Insert(t, x, key);
      forall i | 0 <= i < |r|
        ensures Less(key(r[i]), key(last))
      {
        assert r[i] in r;
        if r[i] in t {
          var k :| 0 <= k < |t| && t[k] == r[i];
        }
      }
    }
  }

  lemma LastKeyIsOwn<T(!new)>(s: seq<T>, id: T -> Key)
    requires s != [] && DistinctKeys(s, id)
    ensures DistinctKeys(s[..|s| - 1], id)
    ensures forall y :: y in s[..|s| - 1] ==> y in s && id(y) != id(s[|s| - 1])
  {
    forall y | y in s[..|s| - 1] ensures y in s && id(y) != id(s[|s| - 1]) {
      var k :| 0 <= k < |s| - 1 && s[..|s| - 1][k] == y;
      assert s[k] == y;
    }
  }

  lemma {:induction false} InsertKeepsDistinct<T(!new)>(s: seq<T>, x: T, key: T -> Key, id: T -> Key)
    requires DistinctKeys(s, id) && forall y :: y in s ==> id(y) != id(x)
    ensures DistinctKeys(Insert(s, x, key), id)
  {
    if s == [] || AtMost(key(s[|s| - 1]), key(x)) {
      DistinctConcat(s, [x], id);
    } else {
      LastKeyIsOwn(s, id);
      assert s[|s| - 1] in s;
      InsertKeepsDistinct(s[..|s| - 1], x, key, id);
      DistinctConcat(Insert(s[..|s| - 1], x, key), [s[|s| - 1]], id);
    }
  }

  /** Sorting by one key repeats no value of another. */
  lemma {:induction false} SortKeepsDistinct<T(!new)>(s: seq<T>, key: T -> Key, id: T -> Key)
    requires DistinctKeys(s, id)
    ensures DistinctKeys(Sort(s, key), id)
  {
    if s != [] {
      var t, x := s[..|s| - 1], s[|s| - 1];
      SortKeepsDistinct(t, key, id);
      forall y | y in Sort(t, key) ensures id(y) != id(x) {
        var k :| 0 <= k < |t| && t[k] == y;
      }
      InsertKeepsDistinct(Sort(t, key), x, key, id);
    }
  }

  /** A strictly sorted list is the only strictly sorted list of its elements. */
  lemma {:induction false} SortedListUnique<T(!new)>(a: seq<T>, b: seq<T>, key: T -> Key)
    requires StrictlySorted(a, key) && StrictlySorted(b, key)
    requires forall x :: x in a <==> x in b
    ensures a == b
  {
    assert a != [] ==> a[0] in a;
    assert b != [] ==> b[0] in b;
    if a != [] && b != [] {
      var i :| 0 <= i < |b| && b[i] == a[0];
      var j :| 0 <= j < |a| && a[j] == b[0];
      assert a[0] == b[0];
      forall x
        ensures x in a[1..] <==> x in a && x != a[0]
        ensures x in b[1..] <==> x in b && x != b[0]
      {
        TailElements(a, x, key);
        TailElements(b, x, key);
      }
      SortedListUnique(a[1..], b[1..], key);
      assert a == [a[0]] + a[1..] && b == [b[0]] + b[1..];
    }
  }

  lemma TailElements<T(!new)>(a: seq<T>, x: T, key: T -> Key)
    requires a != [] && StrictlySorted(a, key)
    ensures x in a[1..] <==> x in a && x != a[0]
  {
    if x in a[1..] {
      var k :| 0 <= k < |a[1..]| && a[1..][k] == x;
      assert a[k + 1] == x;
    }
    if x in a && x != a[0] {
      var k :| 0 <= k < |a| && a[k] == x;
      assert a[1..][k - 1] == x;
    }
  }

  lemma StrictIsSorted<T(!new)>(s: seq<T>, key: T -> Key)
    requires StrictlySorted(s, key)
    ensures Sorted(s, key) && DistinctKeys(s, key)
  {
  }

  // ---------- Concatenations and suffixes ----------

  ghost predicate DisjointKeys<T(!new)>(s: seq<T>, t: seq<T>, key: T -> Key) {
    forall x, y :: x in s && y in t ==> key(x) != key(y)
  }

  lemma DistinctConcat<T(!new)>(s: seq<T>, t: seq<T>, key: T -> Key)
    requires DistinctKeys(s, key) && DistinctKeys(t, key) && DisjointKeys(s, t, key)
    ensures DistinctKeys(s + t, key)
  {
    var u := s + t;
    forall i, j | 0 <= i < j < |u| ensures key(u[i]) != key(u[j]) {
      assert i < |s| ==> u[i] in s;
      assert j >= |s| ==> u[j] in t;
    }
  }

  /** z is part of x, and holds whatever of x lies above one of its own. */
  ghost predicate UpwardClosed<T(!new)>(x: seq<T>, z: seq<T>, key: T -> Key) {
    && (forall e :: e in z ==> e in x)
    && (forall e, f :: e in z && f in x && Less(key(e), key(f)) ==> f in z)
  }

  /** A list that holds every element of a sorted list above one of its own is a suffix of it. */
  lemma {:induction false} UpwardClosedIsSuffix<T(!new)>(x: seq<T>, z: seq<T>, key: T -> Key)
    requires StrictlySorted(x, key) && StrictlySorted(z, key) && UpwardClosed(x, z, key)
    ensures |z| <= |x| && z == x[|x| - |z|..]
  {
    if z != [] {
      assert z[|z| - 1] in z && x != [];
      SameLast(x, z, key);
      InitUpwardClosed(x, z, key);
      UpwardClosedIsSuffix(x[..|x| - 1], z[..|z| - 1], key);
      SuffixGrows(x, z);
    }
  }

  lemma InitUpwardClosed<T(!new)>(x: seq<T>, z: seq<T>, key: T -> Key)
    requires x != [] && z != [] && StrictlySorted(x, key) && StrictlySorted(z, key) && z[|z| - 1] == x[|x| - 1]
    requires UpwardClosed(x, z, key)
    ensures var x', z' := x[..|x| - 1], z[..|z| - 1];
            StrictlySorted(x', key) && StrictlySorted(z', key) && UpwardClosed(x', z', key)
  {
    InitElements(x, key);
    InitElements(z, key);
  }

  lemma SuffixGrows<T>(x: seq<T>, z: seq<T>)
    requires x != [] && z != [] && |z| <= |x| && z[|z| - 1] == x[|x| - 1]
    requires z[..|z| - 1] == x[..|x| - 1][|x| - |z|..]
    ensures z == x[|x| - |z|..]
  {
    forall i | 0 <= i < |z| ensures z[i] == x[|x| - |z| + i] {
      if i < |z| - 1 {
        assert z[i] == z[..|z| - 1][i] == x[..|x| - 1][|x| - |z| + i];
      }
    }
  }

  lemma SameLast<T(!new)>(x: seq<T>, z: seq<T>, key: T -> Key)
    requires x != [] && z != [] && StrictlySorted(x, key) && StrictlySorted(z, key)
    requires z[|z| - 1] in x
    requires forall f :: f in x && Less(key(z[|z| - 1]), key(f)) ==> f in z
    ensures z[|z| - 1] == x[|x| - 1]
  {
    var m := |x| - 1;
    assert x[m] in x;
    if x[m] in z {
      var k :| 0 <= k < |z| && z[k] == x[m];
    }
  }

  lemma InitElements<T(!new)>(a: seq<T>, key: T -> Key)
    requires a != [] && StrictlySorted(a, key)
    ensures forall x :: x in a[..|a| - 1] <==> x in a && x != a[|a| - 1]
  {
    var n := |a| - 1;
    assert a == a[..n] + [a[n]];
    forall x | x in a[..n] ensures x != a[n] {
      var k :| 0 <= k < n && a[..n][k] == x;
      assert Less(key(a[k]), key(a[n]));
    }
  }

  lemma SuffixIsUpwardClosed<T(!new)>(x: seq<T>, n: nat, key: T -> Key, e: T, f: T)
    requires StrictlySorted(x, key) && n <= |x|
    requires e in x[n..] && f in x && Less(key(e), key(f))
    ensures f in x[n..]
  {
    var i :| 0 <= i < |x[n..]| && x[n..][i] == e;
    var j :| 0 <= j < |x| && x[j] == f;
    assert x[n + i] == e;
    assert x[n..][j - n] == f;
  }

  lemma BelowSuffix<T(!new)>(x: seq<T>, n: nat, key: T -> Key, f: T, g: T)
    requires StrictlySorted(x, key) && n <= |x| && f in x && f !in x[n..] && g in x[n..]
    ensures Less(key(f), key(g))
  {
    assert x == x[..n] + x[n..];
    var i :| 0 <= i < |x[..n]| && x[..n][i] == f;
    var j :| 0 <= j < |x[n..]| && x[n..][j] == g;
    assert x[n + j] == g;
  }

  ghost function Elements<T(!new)>(s: seq<T>): set<T> {
    set e | e in s
  }

  lemma {:induction false} ElementsSize<T(!new)>(s: seq<T>)
    requires Distinct(s)
    ensures |Elements(s)| == |s|
  {
    if s != [] {
      ElementsSize(s[1..]);
      assert s == [s[0]] + s[1..];
      assert Elements(s) == {s[0]} + Elements(s[1..]);
      assert s[0] !in s[1..];
    }
  }

  lemma {:induction false} SubsetSize<T(!new)>(a: set<T>, b: set<T>)
    requires a <= b
    ensures |a| <= |b|
  {
    if a != {} {
      var x :| x in a;
      SubsetSize(a - {x}, b - {x});
    }
  }

  /** A sorted list no longer than another that it contains has no room for an element below that other. */
  lemma TooMany<T(!new)>(t: seq<T>, z: seq<T>, e: T, key: T -> Key)
    requires StrictlySorted(t, key) && StrictlySorted(z, key) && |z| <= |t|
    requires forall g :: g in t ==> g in z && Less(key(e), key(g))
    ensures e !in z
  {
    ElementsSize(t);
    ElementsSize(z);
    assert e !in Elements(t);
    if e in z {
      SubsetSize(Elements(t) + {e}, Elements(z));
    }
  }

  // ---------- How often an element occurs ----------

  lemma {:induction false} FilterCounts<T(!new)>(s: seq<T>, p: T -> bool, e: T)
    ensures multiset(Filter(s, p))[e] == if p(e) then multiset(s)[e] else 0
  {
    if s != [] {
      FilterCounts(s[1..], p, e);
      assert s == [s[0]] + s[1..];
    }
  }

  /** Each element as often as in whichever holds it more often. */
  function MostOf<T>(a: multiset<T>, b: multiset<T>): multiset<T> {
    a + (b - a)
  }

  lemma FewerAreSmaller<T>(a: multiset<T>, b: multiset<T>)
    requires a <= b
    ensures |a| <= |b|
  {
    assert b == a + (b - a);
  }

  /** Sorted lists of the same elements, each equally often, are equal when no two elements share a key. */
  lemma {:induction false} SortedListOnce<T(!new)>(a: seq<T>, b: seq<T>, key: T -> Key)
    requires Sorted(a, key) && Sorted(b, key) && multiset(a) == multiset(b)
    requires forall x, y :: x in a && y in a && key(x) == key(y) ==> x == y
    ensures a == b
  {
    SameLength(a, b);
    if a != [] {
      LastAgrees(a, b, key);
      var n := |a| - 1;
      SplitLast(a);
      WithoutLast(a, b);
      SortedListOnce(a[..n], b[..n], key);
      SplitLast(b);
    }
  }

  lemma SameLength<T>(a: seq<T>, b: seq<T>)
    requires multiset(a) == multiset(b)
    ensures |a| == |b|
  {
    assert |a| == |multiset(a)| && |b| == |multiset(b)|;
  }

  lemma LastAgrees<T(!new)>(a: seq<T>, b: seq<T>, key: T -> Key)
    requires Sorted(a, key) && Sorted(b, key) && multiset(a) == multiset(b) && a != [] && b != []
    requires forall x, y :: x in a && y in a && key(x) == key(y) ==> x == y
    ensures a[|a| - 1] == b[|b| - 1]
  {
    LastIsHighest(a, b, key);
    LastIsHighest(b, a, key);
  }

  lemma WithoutLast<T>(a: seq<T>, b: seq<T>)
    requires a != [] && b != [] && multiset(a) == multiset(b) && a[|a| - 1] == b[|b| - 1]
    ensures multiset(a[..|a| - 1]) == multiset(b[..|b| - 1])
  {
    SplitLast(a);
    SplitLast(b);
    calc {
      multiset(a[..|a| - 1]);
      multiset(a[..|a| - 1] + [a[|a| - 1]]) - multiset{a[|a| - 1]};
      multiset(b[..|b| - 1] + [b[|b| - 1]]) - multiset{b[|b| - 1]};
      multiset(b[..|b| - 1]);
    }
  }

  lemma LastIsHighest<T(!new)>(a: seq<T>, b: seq<T>, key: T -> Key)
    requires a != [] && b != [] && Sorted(b, key) && multiset(a) == multiset(b)
    ensures a[|a| - 1] in b && AtMost(key(a[|a| - 1]), key(b[|b| - 1]))
  {
    assert a[|a| - 1] in multiset(a);
    var k :| 0 <= k < |b| && b[k] == a[|a| - 1];
  }

  lemma WithinMost<T>(m: multiset<T>, a: multiset<T>, b: multiset<T>)
    requires m <= a || m <= b
    ensures m <= MostOf(a, b)
  {
  }
}
