/**
  Frequency tables over sequences: `collections.Counter` (distinct values with
  their counts, in order of first occurrence), stable sorting by descending count
  (`Counter.most_common`), sorting by key (the sorted group keys of `groupby` and
  `pivot_table`), and sums of counts.
 */
module Tables {

  /** A value and how often it occurs. */
  datatype Entry<K> = Entry(key: K, count: nat)

  /** The index of the first occurrence of `x` in `s`, or `|s|` when absent. */
  function Find<T(==)>(s: seq<T>, x: T): (i: nat)
    ensures i <= |s|
    ensures i < |s| <==> x in s
    ensures i < |s| ==> s[i] == x
    ensures forall j :: 0 <= j < i ==> s[j] != x
  {
    if |s| == 0 then 0 else if s[0] == x then 0 else 1 + Find(s[1..], x)
  }

  /** The index of the entry with key `k`, or `|t|` when there is none. */
  function KeyFind<K(==)>(t: seq<Entry<K>>, k: K): (i: nat)
    ensures i <= |t|
    ensures i < |t| ==> t[i].key == k
    ensures forall j :: 0 <= j < i ==> t[j].key != k
  {
    if |t| == 0 then 0 else if t[0].key == k then 0 else 1 + KeyFind(t[1..], k)
  }

  predicate DistinctKeys<K(==)>(t: seq<Entry<K>>) {
    forall i, j :: 0 <= i < j < |t| ==> t[i].key != t[j].key
  }

  /** The sum of the counts of `t`. */
  function Total<K>(t: seq<Entry<K>>): nat {
    if |t| == 0 then 0 else Total(t[..|t| - 1]) + t[|t| - 1].count
  }

  predicate NonIncreasing<K>(t: seq<Entry<K>>) {
    forall i, j :: 0 <= i < j < |t| ==> t[i].count >= t[j].count
  }

  lemma {:induction false} TotalAppend<K>(a: seq<Entry<K>>, b: seq<Entry<K>>)
    ensures Total(a + b) == Total(a) + Total(b)
    decreases |b|
  {
    if |b| == 0 {
      assert a + b == a;
    } else {
      assert (a + b)[..|a + b| - 1] == a + b[..|b| - 1];
      TotalAppend(a, b[..|b| - 1]);
    }
  }

  lemma TotalOne<K>(e: Entry<K>)
    ensures Total([e]) == e.count
  {
    assert [e][..0] == [];
  }

  lemma TotalUpdate<K>(t: seq<Entry<K>>, i: nat, e: Entry<K>)
    requires i < |t|
    ensures Total(t[i := e]) == Total(t) - t[i].count + e.count
  {
    assert t == t[..i] + [t[i]] + t[i + 1..];
    assert t[i := e] == t[..i] + [e] + t[i + 1..];
    TotalAppend(t[..i] + [t[i]], t[i + 1..]);
    TotalAppend(t[..i], [t[i]]);
    TotalAppend(t[..i] + [e], t[i + 1..]);
    TotalAppend(t[..i], [e]);
    TotalOne(t[i]);
    TotalOne(e);
  }

  // ---------------------------------------------------------------------------
  // Counter: the distinct values of a sequence with their counts.
  // ---------------------------------------------------------------------------

  /** One more occurrence of `x`: its entry's count goes up by one, or a new entry
      with count 1 goes at the end. */
  function Bump<K(==)>(t: seq<Entry<K>>, x: K): seq<Entry<K>> {
    var i := KeyFind(t, x);
    if i < |t| then t[i := Entry(x, t[i].count + 1)] else t + [Entry(x, 1)]
  }

  lemma FindAppend<T>(xs: seq<T>, x: T, y: T)
    requires y in xs
    ensures Find(xs + [x], y) == Find(xs, y)
  {
    var p := Find(xs, y);
    assert (xs + [x])[p] == y;
    assert forall j :: 0 <= j < p ==> (xs + [x])[j] == xs[j];
  }

  lemma FindAppendNew<T>(xs: seq<T>, x: T)
    requires x !in xs
    ensures Find(xs + [x], x) == |xs|
  {
    assert (xs + [x])[|xs|] == x;
    assert forall j :: 0 <= j < |xs| ==> (xs + [x])[j] == xs[j];
  }

  /** Every element of `xs` is the key of an entry of `t`. */
  ghost predicate Covers<K>(t: seq<Entry<K>>, xs: seq<K>) {
    forall x :: x in xs ==> exists i :: 0 <= i < |t| && t[i].key == x
  }

  /** Every entry of `t` counts the occurrences of its key in `xs`. */
  ghost predicate CountsOf<K>(t: seq<Entry<K>>, xs: seq<K>) {
    forall i :: 0 <= i < |t| ==> t[i].key in xs && t[i].count == multiset(xs)[t[i].key]
  }

  /** The keys of `t` appear in order of their first occurrence in `xs`. */
  ghost predicate FirstOccurrenceOrder<K>(t: seq<Entry<K>>, xs: seq<K>) {
    forall i, j :: 0 <= i < j < |t| ==> Find(xs, t[i].key) < Find(xs, t[j].key)
  }

  lemma CoversMeansFound<K>(t: seq<Entry<K>>, xs: seq<K>, x: K)
    requires Covers(t, xs) && x in xs
    ensures KeyFind(t, x) < |t|
  {
    var i :| 0 <= i < |t| && t[i].key == x;
    assert KeyFind(t, x) <= i;
  }

  lemma BumpDistinct<K>(t: seq<Entry<K>>, x: K)
    requires DistinctKeys(t)
    ensures DistinctKeys(Bump(t, x))
  {
  }

  lemma BumpCovers<K>(t: seq<Entry<K>>, xs: seq<K>, x: K)
    requires Covers(t, xs)
    ensures Covers(Bump(t, x), xs + [x])
  {
    var b := Bump(t, x);
    var i := KeyFind(t, x);
    assert forall j :: 0 <= j < |t| ==> b[j].key == t[j].key;
    forall y | y in xs + [x]
      ensures exists j :: 0 <= j < |b| && b[j].key == y
    {
      if y == x {
        if i < |t| {
          assert b[i].key == y;
        } else {
          assert b[|t|].key == y;
        }
      } else {
        var j :| 0 <= j < |t| && t[j].key == y;
        assert b[j].key == y;
      }
    }
  }

  lemma BumpCounts<K>(t: seq<Entry<K>>, xs: seq<K>, x: K)
    requires DistinctKeys(t) && Covers(t, xs) && CountsOf(t, xs)
    ensures CountsOf(Bump(t, x), xs + [x])
  {
    var ys := xs + [x];
    assert multiset(ys) == multiset(xs) + multiset{x};
    if KeyFind(t, x) == |t| {
      if x in xs {
        CoversMeansFound(t, xs, x);
      }
    }
  }

  /** Appending to `xs` leaves the first occurrences of the keys of `t` in place. */
  lemma FindKeysAppend<K>(t: seq<Entry<K>>, xs: seq<K>, x: K)
    requires CountsOf(t, xs)
    ensures forall j :: 0 <= j < |t| ==> Find(xs + [x], t[j].key) == Find(xs, t[j].key) < |xs|
  {
    forall j | 0 <= j < |t|
      ensures Find(xs + [x], t[j].key) == Find(xs, t[j].key) < |xs|
    {
      FindAppend(xs, x, t[j].key);
    }
  }

  lemma BumpOrder<K>(t: seq<Entry<K>>, xs: seq<K>, x: K)
    requires Covers(t, xs) && CountsOf(t, xs) && FirstOccurrenceOrder(t, xs)
    ensures FirstOccurrenceOrder(Bump(t, x), xs + [x])
  {
    var b, ys := Bump(t, x), xs + [x];
    FindKeysAppend(t, xs, x);
    if KeyFind(t, x) == |t| {
      if x in xs {
        CoversMeansFound(t, xs, x);
      }
      FindAppendNew(xs, x);
      forall i, j | 0 <= i < j < |b|
        ensures Find(ys, b[i].key) < Find(ys, b[j].key)
      {
        assert b[i] == t[i];
        if j < |t| {
          assert b[j] == t[j];
        }
      }
    } else {
      forall i, j | 0 <= i < j < |b|
        ensures Find(ys, b[i].key) < Find(ys, b[j].key)
      {
        assert b[i].key == t[i].key && b[j].key == t[j].key;
      }
    }
  }

  lemma BumpTotal<K>(t: seq<Entry<K>>, x: K)
    ensures Total(Bump(t, x)) == Total(t) + 1
  {
    var i := KeyFind(t, x);
    if i < |t| {
      TotalUpdate(t, i, Entry(x, t[i].count + 1));
    } else {
      TotalAppend(t, [Entry(x, 1)]);
      TotalOne(Entry(x, 1));
    }
  }

  /** `Counter(xs)`, built one occurrence at a time: each distinct value of `xs`
      once, with the number of its occurrences, in order of first occurrence, the
      counts adding up to `|xs|`. */
  function Tally<K(==)>(xs: seq<K>): (t: seq<Entry<K>>)
    ensures DistinctKeys(t) && Covers(t, xs) && CountsOf(t, xs) && FirstOccurrenceOrder(t, xs)
    ensures Total(t) == |xs|
  {
    if |xs| == 0 then []
    else
      var init, x := xs[..|xs| - 1], xs[|xs| - 1];
      var t := Tally(init);
      assert init + [x] == xs;
      BumpDistinct(t, x);
      BumpCovers(t, init, x);
      BumpCounts(t, init, x);
      BumpOrder(t, init, x);
      BumpTotal(t, x);
      Bump(t, x)
  }

  // ---------------------------------------------------------------------------
  // Insertion into a sorted sequence.
  // ---------------------------------------------------------------------------

  function InsertAt<T>(s: seq<T>, p: nat, e: T): (r: seq<T>)
    requires p <= |s|
    ensures |r| == |s| + 1 && multiset(r) == multiset(s) + multiset{e}
    ensures forall i :: 0 <= i < |r| ==> r[i] == (if i < p then s[i] else if i == p then e else s[i - 1])
  {
    assert s == s[..p] + s[p..];
    s[..p] + [e] + s[p..]
  }

  // ---------------------------------------------------------------------------
  // Stable sort by descending count: `sorted(items, key=count, reverse=True)`.
  // ---------------------------------------------------------------------------

  /** Where an entry with count `c` goes: after every entry with a count of at least `c`. */
  function CountInsertPoint<K>(s: seq<Entry<K>>, c: nat): (p: nat)
    ensures p <= |s|
    ensures forall i :: 0 <= i < p ==> s[i].count >= c
    ensures p < |s| ==> s[p].count < c
  {
    if |s| == 0 || s[0].count < c then 0 else 1 + CountInsertPoint(s[1..], c)
  }

  /** Equal counts keep the order they have in `t`. */
  ghost predicate StableBy<K>(r: seq<Entry<K>>, t: seq<Entry<K>>) {
    forall i, j :: 0 <= i < j < |r| && r[i].count == r[j].count ==> KeyFind(t, r[i].key) < KeyFind(t, r[j].key)
  }

  /** `KeyFind` is pinned down by its contract: the first index holding `k`. */
  lemma KeyFindIs<K>(t: seq<Entry<K>>, k: K, i: nat)
    requires i <= |t| && (i < |t| ==> t[i].key == k)
    requires forall j :: 0 <= j < i ==> t[j].key != k
    ensures KeyFind(t, k) == i
  {
  }

  lemma KeyFindAppend<K>(t: seq<Entry<K>>, e: Entry<K>, k: K)
    ensures KeyFind(t + [e], k) == (if KeyFind(t, k) < |t| then KeyFind(t, k) else if e.key == k then |t| else |t| + 1)
  {
    var u := t + [e];
    var p := KeyFind(t, k);
    forall j | 0 <= j < |t| ensures u[j] == t[j] { }
    if p < |t| {
      KeyFindIs(u, k, p);
    } else if e.key == k {
      KeyFindIs(u, k, |t|);
    } else {
      KeyFindIs(u, k, |u|);
    }
  }

  lemma CountInsertSorted<K>(s: seq<Entry<K>>, e: Entry<K>)
    requires NonIncreasing(s)
    ensures NonIncreasing(InsertAt(s, CountInsertPoint(s, e.count), e))
  {
    var p := CountInsertPoint(s, e.count);
    var r := InsertAt(s, p, e);
    forall i, j | 0 <= i < j < |r|
      ensures r[i].count >= r[j].count
    {
      if i < p && j > p {
        assert r[j] == s[j - 1];
      }
    }
  }

  /** Appending `e` keeps keys distinct exactly when `e.key` is new. */
  lemma DistinctSnoc<K>(t: seq<Entry<K>>, e: Entry<K>)
    requires DistinctKeys(t + [e])
    ensures DistinctKeys(t) && forall i :: 0 <= i < |t| ==> t[i].key != e.key
  {
    var u := t + [e];
    forall i | 0 <= i < |t| ensures u[i] == t[i] { }
    assert u[|t|] == e;
  }

  /** An entry of `t` keeps its place in `t + [e]` when `e.key` is new. */
  lemma AppendKeepsKey<K>(t: seq<Entry<K>>, e: Entry<K>, x: Entry<K>)
    requires x in t && forall i :: 0 <= i < |t| ==> t[i].key != e.key
    ensures x.key != e.key && KeyFind(t + [e], x.key) == KeyFind(t, x.key) < |t|
  {
    var a := Find(t, x);
    assert t[a].key == x.key;
    KeyFindAppend(t, e, x.key);
  }

  /** The entries of a permutation `s` of `t` keep their places in `t + [e]`, and
      the new key `e.key` comes last. */
  lemma PermutationKeys<K>(t: seq<Entry<K>>, s: seq<Entry<K>>, e: Entry<K>)
    requires multiset(s) == multiset(t) && DistinctKeys(t + [e])
    ensures KeyFind(t + [e], e.key) == |t|
    ensures forall k :: 0 <= k < |s| ==>
      s[k].key != e.key && KeyFind(t + [e], s[k].key) == KeyFind(t, s[k].key) < |t|
  {
    DistinctSnoc(t, e);
    KeyFindAppend(t, e, e.key);
    forall k | 0 <= k < |s|
      ensures s[k].key != e.key && KeyFind(t + [e], s[k].key) == KeyFind(t, s[k].key) < |t|
    {
      assert s[k] in multiset(t);
      AppendKeepsKey(t, e, s[k]);
    }
  }

  lemma InsertDistinct<K>(s: seq<Entry<K>>, p: nat, e: Entry<K>)
    requires p <= |s| && DistinctKeys(s)
    requires forall k :: 0 <= k < |s| ==> s[k].key != e.key
    ensures DistinctKeys(InsertAt(s, p, e))
  {
  }

  /** Inserting `e` keeps equal counts ordered by `rank` when `e` ranks after
      every entry already there. */
  lemma CountInsertByRank<K>(s: seq<Entry<K>>, e: Entry<K>, rank: K -> nat)
    requires NonIncreasing(s)
    requires forall i, j :: 0 <= i < j < |s| && s[i].count == s[j].count ==> rank(s[i].key) < rank(s[j].key)
    requires forall k :: 0 <= k < |s| ==> rank(s[k].key) < rank(e.key)
    ensures var r := InsertAt(s, CountInsertPoint(s, e.count), e);
      forall i, j :: 0 <= i < j < |r| && r[i].count == r[j].count ==> rank(r[i].key) < rank(r[j].key)
  {
    var p := CountInsertPoint(s, e.count);
    var r := InsertAt(s, p, e);
    forall i, j | 0 <= i < j < |r|
      ensures r[i].count == r[j].count ==> rank(r[i].key) < rank(r[j].key)
    {
      if j < p {
        assert r[i] == s[i] && r[j] == s[j];
      } else if j == p {
        assert r[i] == s[i];
      } else if i > p {
        assert r[i] == s[i - 1] && r[j] == s[j - 1];
      } else {
        assert r[j] == s[j - 1] && s[j - 1].count <= s[p].count;
      }
    }
  }

  lemma CountInsertStable<K>(t: seq<Entry<K>>, s: seq<Entry<K>>, e: Entry<K>)
    requires NonIncreasing(s) && StableBy(s, t)
    requires KeyFind(t + [e], e.key) == |t|
    requires forall k :: 0 <= k < |s| ==> KeyFind(t + [e], s[k].key) == KeyFind(t, s[k].key) < |t|
    ensures StableBy(InsertAt(s, CountInsertPoint(s, e.count), e), t + [e])
  {
    var u := t + [e];
    var rank := k => KeyFind(u, k);
    CountInsertByRank(s, e, rank);
  }

  lemma CountInsertKeys<K>(t: seq<Entry<K>>, s: seq<Entry<K>>, e: Entry<K>)
    requires multiset(s) == multiset(t) && NonIncreasing(s)
    requires DistinctKeys(t) ==> DistinctKeys(s) && StableBy(s, t)
    ensures var r := InsertAt(s, CountInsertPoint(s, e.count), e);
      DistinctKeys(t + [e]) ==> DistinctKeys(r) && StableBy(r, t + [e])
  {
    if DistinctKeys(t + [e]) {
      assert forall k :: 0 <= k < |t| ==> (t + [e])[k] == t[k];
      PermutationKeys(t, s, e);
      InsertDistinct(s, CountInsertPoint(s, e.count), e);
      CountInsertStable(t, s, e);
    }
  }

  /** Stable sort by descending count. */
  function SortByCount<K(==)>(t: seq<Entry<K>>): (r: seq<Entry<K>>)
    ensures |r| == |t| && multiset(r) == multiset(t)
    ensures NonIncreasing(r)
    ensures DistinctKeys(t) ==> DistinctKeys(r) && StableBy(r, t)
  {
    if |t| == 0 then []
    else
      var init, e := t[..|t| - 1], t[|t| - 1];
      var s := SortByCount(init);
      assert init + [e] == t;
      CountInsertSorted(s, e);
      CountInsertKeys(init, s, e);
      InsertAt(s, CountInsertPoint(s, e.count), e)
  }

  /** Equal multisets of entries have equal totals. */
  lemma {:induction false} TotalOfPermutation<K>(a: seq<Entry<K>>, b: seq<Entry<K>>)
    requires multiset(a) == multiset(b)
    ensures Total(a) == Total(b)
    decreases |a|
  {
    if |a| > 0 {
      var e := a[|a| - 1];
      assert e in multiset(b);
      var k :| 0 <= k < |b| && b[k] == e;
      var b' := b[..k] + b[k + 1..];
      assert b == b[..k] + [e] + b[k + 1..];
      assert a == a[..|a| - 1] + [e];
      assert multiset(b) == multiset(b[..k]) + multiset{e} + multiset(b[k + 1..]);
      assert multiset(a) == multiset(a[..|a| - 1]) + multiset{e};
      assert multiset(b') == multiset(b[..k]) + multiset(b[k + 1..]);
      assert multiset(a[..|a| - 1]) == multiset(a) - multiset{e};
      assert multiset(b') == multiset(b) - multiset{e};
      TotalOfPermutation(a[..|a| - 1], b');
      TotalAppend(b[..k] + [e], b[k + 1..]);
      TotalAppend(b[..k], [e]);
      TotalAppend(b[..k], b[k + 1..]);
      TotalOne(e);
    } else {
      assert |b| == 0;
    }
  }

  // ---------------------------------------------------------------------------
  // most_common.
  // ---------------------------------------------------------------------------

  /** Equal counts appear in order of first occurrence in `xs`. */
  ghost predicate TiesInFirstOccurrenceOrder<K>(r: seq<Entry<K>>, xs: seq<K>) {
    forall i, j :: 0 <= i < j < |r| && r[i].count == r[j].count ==> Find(xs, r[i].key) < Find(xs, r[j].key)
  }

  lemma PermutationMembers<T>(r: seq<T>, t: seq<T>)
    requires multiset(r) == multiset(t)
    ensures forall i :: 0 <= i < |r| ==> exists a :: 0 <= a < |t| && t[a] == r[i]
    ensures forall a :: 0 <= a < |t| ==> exists i :: 0 <= i < |r| && r[i] == t[a]
  {
    forall i | 0 <= i < |r|
      ensures exists a :: 0 <= a < |t| && t[a] == r[i]
    {
      assert r[i] in multiset(t);
    }
    forall a | 0 <= a < |t|
      ensures exists i :: 0 <= i < |r| && r[i] == t[a]
    {
      assert t[a] in multiset(r);
    }
  }

  lemma PermutedCounts<K>(r: seq<Entry<K>>, t: seq<Entry<K>>, xs: seq<K>)
    requires multiset(r) == multiset(t) && CountsOf(t, xs) && Covers(t, xs)
    ensures CountsOf(r, xs) && Covers(r, xs)
  {
    PermutationMembers(r, t);
    forall x | x in xs
      ensures exists i :: 0 <= i < |r| && r[i].key == x
    {
      var a :| 0 <= a < |t| && t[a].key == x;
      var i :| 0 <= i < |r| && r[i] == t[a];
    }
  }

  lemma PermutedKeyFind<K>(r: seq<Entry<K>>, t: seq<Entry<K>>)
    requires multiset(r) == multiset(t)
    ensures forall i :: 0 <= i < |r| ==> KeyFind(t, r[i].key) < |t|
  {
    forall i | 0 <= i < |r|
      ensures KeyFind(t, r[i].key) < |t|
    {
      assert r[i] in multiset(t);
      var a :| 0 <= a < |t| && t[a] == r[i];
      assert KeyFind(t, r[i].key) <= a;
    }
  }

  lemma PermutedTies<K>(r: seq<Entry<K>>, t: seq<Entry<K>>, xs: seq<K>)
    requires forall i :: 0 <= i < |r| ==> KeyFind(t, r[i].key) < |t|
    requires StableBy(r, t) && FirstOccurrenceOrder(t, xs)
    ensures TiesInFirstOccurrenceOrder(r, xs)
  {
    forall i, j | 0 <= i < j < |r| && r[i].count == r[j].count
      ensures Find(xs, r[i].key) < Find(xs, r[j].key)
    {
      var a, b := KeyFind(t, r[i].key), KeyFind(t, r[j].key);
      assert a < b;
      assert Find(xs, t[a].key) < Find(xs, t[b].key);
    }
  }

  /** `Counter(xs).most_common()`: every distinct value of `xs` with its number of
      occurrences, by descending count, equal counts in order of first occurrence,
      the counts adding up to `|xs|`. */
  function AllCounts<K(==)>(xs: seq<K>): (r: seq<Entry<K>>)
    ensures DistinctKeys(r) && NonIncreasing(r)
    ensures CountsOf(r, xs) && Covers(r, xs)
    ensures TiesInFirstOccurrenceOrder(r, xs)
    ensures Total(r) == |xs|
  {
    var t := Tally(xs);
    var r := SortByCount(t);
    TotalOfPermutation(r, t);
    PermutedCounts(r, t, xs);
    PermutedKeyFind(r, t);
    PermutedTies(r, t, xs);
    r
  }

  /** Every value left out of the top `n` occurs at most as often as the last
      one kept. */
  lemma TopCut<K>(all: seq<Entry<K>>, xs: seq<K>, n: nat)
    requires NonIncreasing(all) && CountsOf(all, xs) && Covers(all, xs)
    ensures var r := all[..if n < |all| then n else |all|];
      forall x :: x in xs && KeyFind(r, x) == |r| ==> |r| == n && (n > 0 ==> multiset(xs)[x] <= r[n - 1].count)
  {
    var r := all[..if n < |all| then n else |all|];
    forall x | x in xs && KeyFind(r, x) == |r|
      ensures |r| == n && (n > 0 ==> multiset(xs)[x] <= r[n - 1].count)
    {
      var q :| 0 <= q < |all| && all[q].key == x;
      if n > 0 {
        assert r[n - 1] == all[n - 1];
      }
    }
  }

  /** Among values tied with the last kept entry, the cut keeps the ones that occur first in `xs`. */
  lemma TopTieCut<K>(all: seq<Entry<K>>, xs: seq<K>, n: nat)
    requires CountsOf(all, xs) && Covers(all, xs) && TiesInFirstOccurrenceOrder(all, xs)
    ensures var r := all[..if n < |all| then n else |all|];
      forall x :: x in xs && KeyFind(r, x) == |r| && |r| == n && n > 0 && multiset(xs)[x] == r[n - 1].count ==>
        Find(xs, r[n - 1].key) < Find(xs, x)
  {
    var r := all[..if n < |all| then n else |all|];
    forall x | x in xs && KeyFind(r, x) == |r| && |r| == n && n > 0 && multiset(xs)[x] == r[n - 1].count
      ensures Find(xs, r[n - 1].key) < Find(xs, x)
    {
      var q :| 0 <= q < |all| && all[q].key == x;
      assert r[n - 1] == all[n - 1];
    }
  }

  lemma PrefixKeeps<K>(all: seq<Entry<K>>, xs: seq<K>, n: nat)
    requires n <= |all|
    requires DistinctKeys(all) && NonIncreasing(all) && CountsOf(all, xs) && TiesInFirstOccurrenceOrder(all, xs)
    ensures var r := all[..n];
      DistinctKeys(r) && NonIncreasing(r) && CountsOf(r, xs) && TiesInFirstOccurrenceOrder(r, xs)
  {
    var r := all[..n];
    assert forall i :: 0 <= i < n ==> r[i] == all[i];
  }

  /** `Counter(xs).most_common(n)`: the first `n` of `AllCounts(xs)`. */
  function MostCommon<K(==)>(xs: seq<K>, n: nat): (r: seq<Entry<K>>)
    ensures |r| <= n && DistinctKeys(r) && NonIncreasing(r)
    ensures CountsOf(r, xs)
    ensures TiesInFirstOccurrenceOrder(r, xs)
    ensures forall x :: x in xs && KeyFind(r, x) == |r| ==>
      |r| == n && (n > 0 ==> multiset(xs)[x] <= r[n - 1].count)
    ensures forall x :: x in xs && KeyFind(r, x) == |r| && |r| == n && n > 0 && multiset(xs)[x] == r[n - 1].count ==>
      Find(xs, r[n - 1].key) < Find(xs, x)
  {
    var all := AllCounts(xs);
    var m := if n < |all| then n else |all|;
    TopCut(all, xs, n);
    TopTieCut(all, xs, n);
    PrefixKeeps(all, xs, m);
    all[..m]
  }

  // ---------------------------------------------------------------------------
  // Sort by key: the sorted group keys of `groupby` and `pivot_table`.
  // ---------------------------------------------------------------------------

  /** `less` orders the keys of `t` totally and transitively. */
  ghost predicate OrdersKeys<K>(less: (K, K) -> bool, t: seq<Entry<K>>) {
    && (forall i, j :: 0 <= i < |t| && 0 <= j < |t| && t[i].key != t[j].key ==>
          less(t[i].key, t[j].key) || less(t[j].key, t[i].key))
    && (forall i, j, k ::
          0 <= i < |t| && 0 <= j < |t| && 0 <= k < |t| && less(t[i].key, t[j].key) && less(t[j].key, t[k].key)
          ==> less(t[i].key, t[k].key))
  }

  predicate Ascending<K>(less: (K, K) -> bool, r: seq<Entry<K>>) {
    forall i, j :: 0 <= i < j < |r| ==> less(r[i].key, r[j].key)
  }

  /** Where key `k` goes: after every key it is not below. */
  function KeyInsertPoint<K>(less: (K, K) -> bool, s: seq<Entry<K>>, k: K): (p: nat)
    ensures p <= |s|
    ensures forall i :: 0 <= i < p ==> !less(k, s[i].key)
    ensures p < |s| ==> less(k, s[p].key)
  {
    if |s| == 0 || less(k, s[0].key) then 0 else 1 + KeyInsertPoint(less, s[1..], k)
  }

  /** What inserting `e` into `s` needs of `less`: `e.key` is comparable with every
      key of `s`, and whatever is above a key of `s` that is above `e.key` is above
      `e.key` too. */
  ghost predicate FitsAmong<K>(less: (K, K) -> bool, s: seq<Entry<K>>, e: Entry<K>) {
    && (forall k :: 0 <= k < |s| ==>
          s[k].key != e.key && (less(e.key, s[k].key) || less(s[k].key, e.key)))
    && (forall k, m :: 0 <= k < |s| && 0 <= m < |s| && less(e.key, s[k].key) && less(s[k].key, s[m].key)
          ==> less(e.key, s[m].key))
  }

  /** A permutation of `t` inherits from `t + [e]` what inserting `e` needs. */
  lemma PermutedFitsAmong<K>(less: (K, K) -> bool, t: seq<Entry<K>>, s: seq<Entry<K>>, e: Entry<K>)
    requires DistinctKeys(t + [e]) && OrdersKeys(less, t + [e])
    requires multiset(s) == multiset(t)
    ensures FitsAmong(less, s, e)
  {
    var u := t + [e];
    assert u[|t|] == e;
    forall k | 0 <= k < |s|
      ensures exists a :: 0 <= a < |t| && u[a] == s[k]
    {
      assert s[k] in multiset(t);
      var a := Find(t, s[k]);
      assert u[a] == s[k];
    }
    forall k, m | 0 <= k < |s| && 0 <= m < |s| && less(e.key, s[k].key) && less(s[k].key, s[m].key)
      ensures less(e.key, s[m].key)
    {
      var a :| 0 <= a < |t| && u[a] == s[k];
      var b :| 0 <= b < |t| && u[b] == s[m];
      assert less(u[|t|].key, u[a].key) && less(u[a].key, u[b].key);
    }
  }

  /** Inserting `e` at its key's place keeps an ascending sequence ascending. */
  lemma InsertByKey<K>(less: (K, K) -> bool, s: seq<Entry<K>>, e: Entry<K>)
    requires Ascending(less, s) && FitsAmong(less, s, e)
    ensures Ascending(less, InsertAt(s, KeyInsertPoint(less, s, e.key), e))
  {
    var p := KeyInsertPoint(less, s, e.key);
    var r := InsertAt(s, p, e);
    forall i, j | 0 <= i < j < |r|
      ensures less(r[i].key, r[j].key)
    {
      if i == p && j > p + 1 {
        assert less(e.key, s[p].key) && less(s[p].key, s[j - 1].key);
      } else if i < p && j > p {
        assert r[j] == s[j - 1];
      }
    }
  }

  lemma SortByKeyStep<K>(less: (K, K) -> bool, t: seq<Entry<K>>, s: seq<Entry<K>>, e: Entry<K>)
    requires DistinctKeys(t + [e]) && OrdersKeys(less, t + [e])
    requires multiset(s) == multiset(t) && Ascending(less, s)
    ensures Ascending(less, InsertAt(s, KeyInsertPoint(less, s, e.key), e))
  {
    PermutedFitsAmong(less, t, s, e);
    InsertByKey(less, s, e);
  }

  lemma OrdersKeysPrefix<K>(less: (K, K) -> bool, t: seq<Entry<K>>, n: nat)
    requires n <= |t| && OrdersKeys(less, t) && DistinctKeys(t)
    ensures OrdersKeys(less, t[..n]) && DistinctKeys(t[..n])
  {
    var u := t[..n];
    assert forall i :: 0 <= i < n ==> u[i] == t[i];
  }

  /** Entries sorted by ascending key. */
  function SortByKey<K(==)>(less: (K, K) -> bool, t: seq<Entry<K>>): (r: seq<Entry<K>>)
    requires DistinctKeys(t) && OrdersKeys(less, t)
    ensures |r| == |t| && multiset(r) == multiset(t)
    ensures Ascending(less, r)
  {
    if |t| == 0 then []
    else
      var init, e := t[..|t| - 1], t[|t| - 1];
      OrdersKeysPrefix(less, t, |t| - 1);
      var s := SortByKey(less, init);
      assert init + [e] == t;
      SortByKeyStep(less, init, s, e);
      InsertAt(s, KeyInsertPoint(less, s, e.key), e)
  }

  /** `less` orders the values of `xs` totally and transitively. */
  ghost predicate OrdersValues<K>(less: (K, K) -> bool, xs: seq<K>) {
    && (forall a, b :: a in xs && b in xs && a != b ==> less(a, b) || less(b, a))
    && (forall a, b, c :: a in xs && b in xs && c in xs && less(a, b) && less(b, c) ==> less(a, c))
  }

  lemma OrdersTallyKeys<K>(less: (K, K) -> bool, xs: seq<K>, t: seq<Entry<K>>)
    requires OrdersValues(less, xs) && CountsOf(t, xs)
    ensures OrdersKeys(less, t)
  {
  }

  /** `groupby(key).count()` with sorted keys: each distinct value of `xs` once, in
      ascending order, with its number of occurrences, the counts adding up to `|xs|`. */
  function GroupCount<K(==)>(less: (K, K) -> bool, xs: seq<K>): (r: seq<Entry<K>>)
    requires OrdersValues(less, xs)
    ensures Ascending(less, r)
    ensures CountsOf(r, xs) && Covers(r, xs)
    ensures Total(r) == |xs|
  {
    var t := Tally(xs);
    OrdersTallyKeys(less, xs, t);
    var r := SortByKey(less, t);
    TotalOfPermutation(r, t);
    PermutedCounts(r, t, xs);
    r
  }

  // ---------------------------------------------------------------------------
  // Sums of occurrence counts over a list of keys.
  // ---------------------------------------------------------------------------

  /** The occurrences in `xs` of the keys `ks`, added up. */
  function Occurrences<T(==)>(xs: seq<T>, ks: seq<T>): nat {
    if |ks| == 0 then 0 else Occurrences(xs, ks[..|ks| - 1]) + multiset(xs)[ks[|ks| - 1]]
  }

  predicate Distinct<T(==)>(ks: seq<T>) {
    forall i, j :: 0 <= i < j < |ks| ==> ks[i] != ks[j]
  }

  lemma {:induction false} OccurrencesOfOne<T>(xs: seq<T>, x: T, ks: seq<T>)
    requires Distinct(ks)
    ensures Occurrences(xs + [x], ks) == Occurrences(xs, ks) + (if x in ks then 1 else 0)
    decreases |ks|
  {
    if |ks| > 0 {
      var init := ks[..|ks| - 1];
      assert Distinct(init);
      OccurrencesOfOne(xs, x, init);
      assert multiset(xs + [x]) == multiset(xs) + multiset{x};
      assert x in ks <==> x in init || x == ks[|ks| - 1];
      if x == ks[|ks| - 1] {
        assert x !in init;
      }
    }
  }

  /** Counting each of a list of distinct keys that covers `xs` counts every element
      of `xs` exactly once. */
  lemma {:induction false} OccurrencesCover<T>(xs: seq<T>, ks: seq<T>)
    requires Distinct(ks)
    requires forall x :: x in xs ==> x in ks
    ensures Occurrences(xs, ks) == |xs|
    decreases |xs|
  {
    if |xs| == 0 {
      OccurrencesOfNothing(ks);
    } else {
      var init, x := xs[..|xs| - 1], xs[|xs| - 1];
      assert xs == init + [x];
      OccurrencesCover(init, ks);
      OccurrencesOfOne(init, x, ks);
    }
  }

  lemma {:induction false} OccurrencesOfNothing<T>(ks: seq<T>)
    ensures Occurrences([], ks) == 0
  {
    if |ks| > 0 {
      OccurrencesOfNothing(ks[..|ks| - 1]);
    }
  }

  /** The sum of a row of numbers. */
  function RowSum(row: seq<nat>): nat {
    if |row| == 0 then 0 else RowSum(row[..|row| - 1]) + row[|row| - 1]
  }

  /** A row of occurrence counts adds up to `Occurrences`. */
  lemma {:induction false} RowSumOfOccurrences<T>(row: seq<nat>, xs: seq<T>, ks: seq<T>)
    requires |row| == |ks|
    requires forall j :: 0 <= j < |row| ==> row[j] == multiset(xs)[ks[j]]
    ensures RowSum(row) == Occurrences(xs, ks)
    decreases |ks|
  {
    if |ks| > 0 {
      RowSumOfOccurrences(row[..|row| - 1], xs, ks[..|ks| - 1]);
    }
  }

  /** The keys of `t`, in order. */
  function Keys<K>(t: seq<Entry<K>>): seq<K> {
    seq(|t|, i requires 0 <= i < |t| => t[i].key)
  }

  /** A row holding the counts of `t` adds up to `Total(t)`. */
  lemma {:induction false} RowSumOfCounts<K>(row: seq<nat>, t: seq<Entry<K>>)
    requires |row| == |t|
    requires forall i :: 0 <= i < |row| ==> row[i] == t[i].count
    ensures RowSum(row) == Total(t)
    decreases |t|
  {
    if |t| > 0 {
      RowSumOfCounts(row[..|row| - 1], t[..|t| - 1]);
    }
  }
}
