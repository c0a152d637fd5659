/**
 * `collections.Counter` as the analysis uses it: counting the keys of a
 * stream while remembering the order in which each key first appeared, and
 * `most_common(n)`, the first `n` items after a stable sort by descending count.
 * Also the filter-and-project streams that feed the counters.
 */
module Counting {

  /** Index of the first `k` in `xs`, or `|xs|` when `k` does not occur. */
  function FirstIndex<K(==)>(xs: seq<K>, k: K): (i: nat)
    ensures i <= |xs|
    ensures i < |xs| <==> k in xs
    ensures i < |xs| ==> xs[i] == k
    ensures forall j :: 0 <= j < i ==> xs[j] != k
  {
    if xs == [] then 0 else if xs[0] == k then 0 else 1 + FirstIndex(xs[1..], k)
  }

  /** Appending an element does not move the first occurrence of a key already present. */
  lemma FirstIndexSnoc<K>(xs: seq<K>, x: K)
    ensures forall k :: k in xs ==> FirstIndex(xs + [x], k) == FirstIndex(xs, k)
    ensures x !in xs ==> FirstIndex(xs + [x], x) == |xs|
  {
    assert forall j :: 0 <= j < |xs| ==> (xs + [x])[j] == xs[j];
  }

  // ------------------------------------------------------------ the counter

  /** An order-preserving counting map: the keys in first-insertion order and their counts. */
  datatype Counter<K(==, !new)> = Counter(order: seq<K>, counts: map<K, nat>)
  {
    ghost predicate Valid()
    {
      && (forall i, j :: 0 <= i < j < |order| ==> order[i] != order[j])
      && (forall k :: k in counts <==> k in order)
    }

    /** `Counter.items()`, in insertion order. */
    function Items(): seq<(K, nat)>
      requires Valid()
    {
      seq(|order|, i requires 0 <= i < |order| => (order[i], counts[order[i]]))
    }
  }

  /** `counter[k] += 1`: a new key goes to the end, a known key keeps its place. */
  function Add<K(!new)>(c: Counter<K>, k: K): (r: Counter<K>)
    requires c.Valid()
    ensures r.Valid()
  {
    if k in c.counts then Counter(c.order, c.counts[k := c.counts[k] + 1])
    else Counter(c.order + [k], c.counts[k := 1])
  }

  /**
   * `Counter(xs)`: every key of `xs` with its number of occurrences, the keys
   * ordered by where they first occur in `xs`.
   */
  function Tally<K(!new)>(xs: seq<K>): (c: Counter<K>)
    decreases |xs|
    ensures c.Valid()
    ensures forall k :: k in c.counts <==> k in xs
    ensures forall k :: k in c.counts ==> c.counts[k] == multiset(xs)[k]
    ensures forall i, j :: 0 <= i < j < |c.order| ==> FirstIndex(xs, c.order[i]) < FirstIndex(xs, c.order[j])
  {
    if xs == [] then Counter([], map[])
    else
      var init, x := xs[..|xs| - 1], xs[|xs| - 1];
      assert xs == init + [x];
      AddCountsOneMore(init, x, Tally(init));
      Add(Tally(init), x)
  }

  /** Counting one more element keeps the counter an exact tally in first-occurrence order. */
  lemma AddCountsOneMore<K(!new)>(init: seq<K>, x: K, c: Counter<K>)
    requires c.Valid()
    requires forall k :: k in c.counts <==> k in init
    requires forall k :: k in c.counts ==> c.counts[k] == multiset(init)[k]
    requires forall i, j :: 0 <= i < j < |c.order| ==> FirstIndex(init, c.order[i]) < FirstIndex(init, c.order[j])
    ensures forall k :: k in Add(c, x).counts <==> k in init + [x]
    ensures forall k :: k in Add(c, x).counts ==> Add(c, x).counts[k] == multiset(init + [x])[k]
    ensures forall i, j :: 0 <= i < j < |Add(c, x).order| ==>
              FirstIndex(init + [x], Add(c, x).order[i]) < FirstIndex(init + [x], Add(c, x).order[j])
  {
    assert multiset(init + [x]) == multiset(init) + multiset{x};
    AddKeepsFirstOccurrenceOrder(init, x, c);
  }

  lemma AddKeepsFirstOccurrenceOrder<K(!new)>(init: seq<K>, x: K, c: Counter<K>)
    requires c.Valid()
    requires forall k :: k in c.counts <==> k in init
    requires forall i, j :: 0 <= i < j < |c.order| ==> FirstIndex(init, c.order[i]) < FirstIndex(init, c.order[j])
    ensures forall i, j :: 0 <= i < j < |Add(c, x).order| ==>
              FirstIndex(init + [x], Add(c, x).order[i]) < FirstIndex(init + [x], Add(c, x).order[j])
  {
    if x in c.counts {
      OrderAfterSnoc(init, x, c.order, c.order);
    } else {
      OrderAfterSnoc(init, x, c.order, c.order + [x]);
    }
  }

  /**
   * Keys of `init` in order of first occurrence, possibly followed by a new
   * key `x`, stay in order of first occurrence in `init + [x]`.
   */
  lemma OrderAfterSnoc<K>(init: seq<K>, x: K, order: seq<K>, order': seq<K>)
    requires forall k :: k in order ==> k in init
    requires forall i, j :: 0 <= i < j < |order| ==> FirstIndex(init, order[i]) < FirstIndex(init, order[j])
    requires order' == order || (x !in init && order' == order + [x])
    ensures forall i, j :: 0 <= i < j < |order'| ==>
              FirstIndex(init + [x], order'[i]) < FirstIndex(init + [x], order'[j])
  {
    var xs := init + [x];
    FirstIndexSnoc(init, x);
    forall i, j | 0 <= i < j < |order'|
      ensures FirstIndex(xs, order'[i]) < FirstIndex(xs, order'[j])
    {
      assert order'[i] == order[i] && order[i] in init;
      if j < |order| {
        assert order'[j] == order[j] && order[j] in init;
      }
    }
  }

  // ------------------------------------------------------- stable ranking

  /** Insert `x` before the first item whose count is not larger, so `x` goes ahead of its ties. */
  function InsertByCount<K>(x: (K, nat), s: seq<(K, nat)>): (r: seq<(K, nat)>)
    ensures multiset(r) == multiset(s) + multiset{x}
  {
    if s == [] || s[0].1 <= x.1 then [x] + s
    else
      assert s == [s[0]] + s[1..];
      [s[0]] + InsertByCount(x, s[1..])
  }

  /** `sorted(items, key=count, reverse=True)`: a stable sort by descending count. */
  function SortByCount<K>(s: seq<(K, nat)>): (r: seq<(K, nat)>)
    ensures multiset(r) == multiset(s)
  {
    if s == [] then []
    else
      assert s == [s[0]] + s[1..];
      InsertByCount(s[0], SortByCount(s[1..]))
  }

  function Take<T>(s: seq<T>, n: nat): (r: seq<T>)
  {
    if n <= |s| then s[..n] else s
  }

  /** `Counter.most_common(n)`. */
  function MostCommon<K(!new)>(c: Counter<K>, n: nat): seq<(K, nat)>
    requires c.Valid()
  {
    Take(SortByCount(c.Items()), n)
  }

  /**
   * `a` is ranked ahead of `b`: a larger count, or the same count and a key
   * that occurs earlier in `xs`.
   */
  ghost predicate Precedes<K>(a: (K, nat), b: (K, nat), xs: seq<K>)
  {
    a.1 > b.1 || (a.1 == b.1 && FirstIndex(xs, a.0) < FirstIndex(xs, b.0))
  }

  ghost predicate Ranked<K>(s: seq<(K, nat)>, xs: seq<K>)
  {
    forall i, j :: 0 <= i < j < |s| ==> Precedes(s[i], s[j], xs)
  }

  lemma {:induction false} InsertRanked<K>(x: (K, nat), s: seq<(K, nat)>, xs: seq<K>)
    requires Ranked(s, xs)
    requires forall e :: e in s ==> FirstIndex(xs, x.0) < FirstIndex(xs, e.0)
    ensures Ranked(InsertByCount(x, s), xs)
  {
    var r := InsertByCount(x, s);
    if s == [] || s[0].1 <= x.1 {
      assert r == [x] + s;
      forall j | 0 <= j < |s|
        ensures Precedes(x, s[j], xs)
      {
        if j > 0 {
          assert Precedes(s[0], s[j], xs);
        }
        assert s[j] in s;
      }
    } else {
      var rest := InsertByCount(x, s[1..]);
      assert r == [s[0]] + rest;
      forall e | e in s[1..]
        ensures FirstIndex(xs, x.0) < FirstIndex(xs, e.0)
      {
        assert e in s;
      }
      InsertRanked(x, s[1..], xs);
      forall j | 0 <= j < |rest|
        ensures Precedes(s[0], rest[j], xs)
      {
        assert rest[j] in multiset(rest);
        if rest[j] != x {
          assert rest[j] in s[1..];
          var k :| 0 <= k < |s[1..]| && s[1..][k] == rest[j];
          assert s[k + 1] == rest[j];
        }
      }
    }
  }

  /**
   * Sorting items whose keys are listed in order of first occurrence in `xs`
   * ranks them by count, ties in order of first occurrence.
   */
  lemma {:induction false} SortRanked<K>(s: seq<(K, nat)>, xs: seq<K>)
    requires forall i, j :: 0 <= i < j < |s| ==> FirstIndex(xs, s[i].0) < FirstIndex(xs, s[j].0)
    ensures Ranked(SortByCount(s), xs)
  {
    if s != [] {
      var rest := SortByCount(s[1..]);
      SortRanked(s[1..], xs);
      forall e | e in rest
        ensures FirstIndex(xs, s[0].0) < FirstIndex(xs, e.0)
      {
        assert e in multiset(rest);
        var k :| 0 <= k < |s[1..]| && s[1..][k] == e;
        assert s[k + 1] == e;
      }
      InsertRanked(s[0], rest, xs);
    }
  }

  /**
   * What `Counter(xs).most_common(n)` promises: at most `n` items, each a key
   * of `xs` with its exact count, ranked by count with ties in order of first
   * occurrence, and no key of `xs` left out unless `n` items were kept that
   * each rank ahead of it.
   */
  ghost predicate IsMostCommon<K>(top: seq<(K, nat)>, xs: seq<K>, n: nat)
  {
    && |top| <= n
    && ExactCounts(top, xs)
    && Ranked(top, xs)
    && (forall k :: k in xs ==>
          HasKey(top, k) || (|top| == n && forall i :: 0 <= i < |top| ==> Precedes(top[i], (k, multiset(xs)[k]), xs)))
  }

  lemma MostCommonOfTally<K(!new)>(xs: seq<K>, n: nat)
    ensures IsMostCommon(MostCommon(Tally(xs), n), xs, n)
  {
    SortedTallyExact(xs);
    SortedTallyComplete(xs);
    SortRanked(Tally(xs).Items(), xs);
    TakeOfRanking(SortByCount(Tally(xs).Items()), xs, n);
  }

  /** The first `n` items of a complete, exact ranking of `xs` are its `n` most common. */
  lemma TakeOfRanking<K>(sorted: seq<(K, nat)>, xs: seq<K>, n: nat)
    requires Ranked(sorted, xs)
    requires ExactCounts(sorted, xs)
    requires forall k :: k in xs ==> HasKey(sorted, k)
    ensures IsMostCommon(Take(sorted, n), xs, n)
  {
    var top := Take(sorted, n);
    forall k | k in xs
      ensures HasKey(top, k) || (|top| == n && forall i :: 0 <= i < |top| ==> Precedes(top[i], (k, multiset(xs)[k]), xs))
    {
      var q :| 0 <= q < |sorted| && sorted[q].0 == k;
      if q < |top| {
        assert top[q].0 == k;
      } else {
        assert sorted[q] == (k, multiset(xs)[k]);
        forall i | 0 <= i < |top|
          ensures Precedes(top[i], (k, multiset(xs)[k]), xs)
        {
          assert Precedes(sorted[i], sorted[q], xs);
        }
      }
    }
  }

  /** Every item is a key of `xs` with its number of occurrences in `xs`. */
  ghost predicate ExactCounts<K>(s: seq<(K, nat)>, xs: seq<K>)
  {
    forall i :: 0 <= i < |s| ==> s[i].0 in xs && s[i].1 == multiset(xs)[s[i].0]
  }

  /** Every ranked item of `Counter(xs)` is a key of `xs` with its exact count. */
  lemma SortedTallyExact<K(!new)>(xs: seq<K>)
    ensures ExactCounts(SortByCount(Tally(xs).Items()), xs)
  {
    var c := Tally(xs);
    var items := c.Items();
    var sorted := SortByCount(items);
    forall i | 0 <= i < |sorted|
      ensures sorted[i].0 in xs && sorted[i].1 == multiset(xs)[sorted[i].0]
    {
      assert sorted[i] in multiset(items);
      CounterItem(c, xs, sorted[i]);
    }
  }

  lemma CounterItem<K(!new)>(c: Counter<K>, xs: seq<K>, item: (K, nat))
    requires c.Valid()
    requires forall k :: k in c.counts ==> k in xs && c.counts[k] == multiset(xs)[k]
    requires item in c.Items()
    ensures item.0 in xs && item.1 == multiset(xs)[item.0]
  {
    var items := c.Items();
    var p :| 0 <= p < |items| && items[p] == item;
    assert item == (c.order[p], c.counts[c.order[p]]);
  }

  /** Some item of `s` has key `k`. */
  predicate HasKey<K(==)>(s: seq<(K, nat)>, k: K)
  {
    exists q :: 0 <= q < |s| && s[q].0 == k
  }

  /** Every key of `xs` is among the ranked items of `Counter(xs)`. */
  lemma SortedTallyComplete<K(!new)>(xs: seq<K>)
    ensures forall k :: k in xs ==> HasKey(SortByCount(Tally(xs).Items()), k)
  {
    var c := Tally(xs);
    forall k | k in xs
      ensures HasKey(SortByCount(c.Items()), k)
    {
      SortedCounterHasKey(c, k);
    }
  }

  lemma SortedCounterHasKey<K(!new)>(c: Counter<K>, k: K)
    requires c.Valid() && k in c.counts
    ensures HasKey(SortByCount(c.Items()), k)
  {
    var p :| 0 <= p < |c.order| && c.order[p] == k;
    var items, sorted := c.Items(), SortByCount(c.Items());
    assert items[p] in multiset(items);
    assert items[p] in multiset(sorted);
    var q :| 0 <= q < |sorted| && sorted[q] == items[p];
    assert sorted[q].0 == k;
  }

  // --------------------------------------------------------------- streams

  /** A generator expression `(key(t) for t in s if keep(t))`. */
  function Project<T, K>(s: seq<T>, keep: T -> bool, key: T -> K): seq<K>
  {
    if s == [] then []
    else Project(s[..|s| - 1], keep, key) + (if keep(s[|s| - 1]) then [key(s[|s| - 1])] else [])
  }

  /** The number of elements of `s` that are kept and have key `k`. */
  function CountMatching<T, K(==)>(s: seq<T>, keep: T -> bool, key: T -> K, k: K): nat
  {
    if s == [] then 0
    else CountMatching(s[..|s| - 1], keep, key, k) + (if keep(s[|s| - 1]) && key(s[|s| - 1]) == k then 1 else 0)
  }

  /** The index of the first element of `s` that is kept and has key `k`, or `|s|`. */
  function FirstMatching<T, K(==)>(s: seq<T>, keep: T -> bool, key: T -> K, k: K): (i: nat)
    ensures i <= |s|
    ensures i < |s| ==> keep(s[i]) && key(s[i]) == k
    ensures forall j :: 0 <= j < i ==> !(keep(s[j]) && key(s[j]) == k)
  {
    if s == [] then 0
    else if keep(s[0]) && key(s[0]) == k then 0
    else 1 + FirstMatching(s[1..], keep, key, k)
  }

  /** The projected stream holds each key as often as the source has kept elements with that key. */
  lemma {:induction false} ProjectCounts<T, K>(s: seq<T>, keep: T -> bool, key: T -> K)
    ensures forall k :: multiset(Project(s, keep, key))[k] == CountMatching(s, keep, key, k)
    ensures forall k :: k in Project(s, keep, key) <==> CountMatching(s, keep, key, k) > 0
  {
    if s != [] {
      ProjectCounts(s[..|s| - 1], keep, key);
    }
  }

  lemma FirstMatchingSnoc<T, K>(s: seq<T>, t: T, keep: T -> bool, key: T -> K, k: K)
    ensures FirstMatching(s, keep, key, k) < |s| ==> FirstMatching(s + [t], keep, key, k) == FirstMatching(s, keep, key, k)
    ensures FirstMatching(s, keep, key, k) == |s| ==> FirstMatching(s + [t], keep, key, k) >= |s|
  {
    assert forall j :: 0 <= j < |s| ==> (s + [t])[j] == s[j];
  }

  /**
   * First occurrences in the projected stream come in the same order as the
   * first matching elements of the source.
   */
  lemma {:induction false} ProjectOrder<T, K>(s: seq<T>, keep: T -> bool, key: T -> K, k1: K, k2: K)
    requires k1 in Project(s, keep, key) && k2 in Project(s, keep, key)
    ensures FirstIndex(Project(s, keep, key), k1) < FirstIndex(Project(s, keep, key), k2)
        <==> FirstMatching(s, keep, key, k1) < FirstMatching(s, keep, key, k2)
  {
    var init, t := s[..|s| - 1], s[|s| - 1];
    assert s == init + [t];
    var p := Project(init, keep, key);
    ProjectCounts(init, keep, key);
    ProjectCounts(s, keep, key);
    FirstMatchingSnoc(init, t, keep, key, k1);
    FirstMatchingSnoc(init, t, keep, key, k2);
    FirstMatchingInRange(init, keep, key, k1);
    FirstMatchingInRange(init, keep, key, k2);
    if keep(t) {
      FirstIndexSnoc(p, key(t));
      assert Project(s, keep, key) == p + [key(t)];
    } else {
      assert Project(s, keep, key) == p;
    }
    if k1 in p && k2 in p {
      ProjectOrder(init, keep, key, k1, k2);
    }
  }

  /** A key that the projected stream holds has a first matching element. */
  lemma {:induction false} FirstMatchingInRange<T, K>(s: seq<T>, keep: T -> bool, key: T -> K, k: K)
    ensures FirstMatching(s, keep, key, k) < |s| <==> CountMatching(s, keep, key, k) > 0
  {
    if s != [] {
      var init, t := s[..|s| - 1], s[|s| - 1];
      assert s == init + [t];
      FirstMatchingInRange(init, keep, key, k);
      FirstMatchingSnoc(init, t, keep, key, k);
      var i := FirstMatching(s, keep, key, k);
      if i == |init| {
        assert s[i] == t;
      }
    }
  }

  /** A kept element's key is counted at least once and has a first matching element. */
  lemma KeptIsCounted<T, K>(s: seq<T>, keep: T -> bool, key: T -> K, t: nat)
    requires t < |s| && keep(s[t])
    ensures FirstMatching(s, keep, key, key(s[t])) <= t
    ensures CountMatching(s, keep, key, key(s[t])) > 0
  {
    FirstMatchingInRange(s, keep, key, key(s[t]));
  }

  /**
   * `a` ranks ahead of `b` in a count of `s`: a larger count, or the same
   * count and a key whose first kept element comes earlier in `s`.
   */
  ghost predicate StreamPrecedes<T, K>(a: (K, nat), b: (K, nat), s: seq<T>, keep: T -> bool, key: T -> K)
  {
    a.1 > b.1 || (a.1 == b.1 && FirstMatching(s, keep, key, a.0) < FirstMatching(s, keep, key, b.0))
  }

  /**
   * What `Counter(key(t) for t in s if keep(t)).most_common(n)` promises,
   * stated on the stream `s` itself: at most `n` distinct keys of kept
   * elements, each with the exact number of kept elements carrying it, ranked
   * by count with ties broken by first appearance, and every key left out
   * ranked behind all `n` kept ones.
   */
  ghost predicate RanksStream<T, K>(top: seq<(K, nat)>, s: seq<T>, keep: T -> bool, key: T -> K, n: nat)
  {
    && |top| <= n
    && (forall i :: 0 <= i < |top| ==>
          FirstMatching(s, keep, key, top[i].0) < |s| && top[i].1 == CountMatching(s, keep, key, top[i].0))
    && (forall i, j :: 0 <= i < j < |top| ==> top[i].0 != top[j].0)
    && (forall i, j :: 0 <= i < j < |top| ==> StreamPrecedes(top[i], top[j], s, keep, key))
    && (forall t :: 0 <= t < |s| && keep(s[t]) ==>
          || HasKey(top, key(s[t]))
          || (&& |top| == n
              && forall i :: 0 <= i < |top| ==>
                   StreamPrecedes(top[i], (key(s[t]), CountMatching(s, keep, key, key(s[t]))), s, keep, key)))
  }

  /** `Counter(generator).most_common(n)` ranks the generator's source stream. */
  lemma MostCommonOfStream<T, K(!new)>(s: seq<T>, keep: T -> bool, key: T -> K, n: nat)
    ensures RanksStream(MostCommon(Tally(Project(s, keep, key)), n), s, keep, key, n)
  {
    var xs := Project(s, keep, key);
    var top := MostCommon(Tally(xs), n);
    MostCommonOfTally(xs, n);
    ProjectCounts(s, keep, key);
    forall i | 0 <= i < |top|
      ensures FirstMatching(s, keep, key, top[i].0) < |s| && top[i].1 == CountMatching(s, keep, key, top[i].0)
    {
      FirstMatchingInRange(s, keep, key, top[i].0);
    }
    forall i, j | 0 <= i < j < |top|
      ensures top[i].0 != top[j].0 && StreamPrecedes(top[i], top[j], s, keep, key)
    {
      assert Precedes(top[i], top[j], xs);
      ProjectOrder(s, keep, key, top[i].0, top[j].0);
    }
    forall t | 0 <= t < |s| && keep(s[t])
      ensures || HasKey(top, key(s[t]))
              || (&& |top| == n
                  && forall i :: 0 <= i < |top| ==>
                       StreamPrecedes(top[i], (key(s[t]), CountMatching(s, keep, key, key(s[t]))), s, keep, key))
    {
      var k := key(s[t]);
      KeptIsCounted(s, keep, key, t);
      if !HasKey(top, k) {
        forall i | 0 <= i < |top|
          ensures StreamPrecedes(top[i], (k, CountMatching(s, keep, key, k)), s, keep, key)
        {
          assert top[i].0 != k;
          assert Precedes(top[i], (k, multiset(xs)[k]), xs);
          ProjectOrder(s, keep, key, top[i].0, k);
        }
      }
    }
  }

  /** The number of kept elements of `s`. */
  function CountKept<T>(s: seq<T>, keep: T -> bool): (n: nat)
    ensures n <= |s|
  {
    if s == [] then 0 else CountKept(s[..|s| - 1], keep) + (if keep(s[|s| - 1]) then 1 else 0)
  }

  /**
   * `m` maps each key of a kept element of `s` to the number of kept elements
   * carrying it, and holds no other key: a `defaultdict(int)` after counting `s`.
   */
  ghost predicate CountsOf<T, K(!new)>(m: map<K, nat>, s: seq<T>, keep: T -> bool, key: T -> K)
  {
    && (forall k :: k in m <==> CountMatching(s, keep, key, k) > 0)
    && (forall k :: k in m ==> m[k] == CountMatching(s, keep, key, k))
  }

  /** `counts[key(t)] += 1` for a kept `t` (and nothing otherwise) extends the count to `s + [t]`. */
  lemma CountsOfStep<T, K(!new)>(m: map<K, nat>, s: seq<T>, t: T, keep: T -> bool, key: T -> K)
    requires CountsOf(m, s, keep, key)
    ensures keep(t) ==> CountsOf(m[key(t) := (if key(t) in m then m[key(t)] else 0) + 1], s + [t], keep, key)
    ensures !keep(t) ==> CountsOf(m, s + [t], keep, key)
  {
    assert (s + [t])[..|s|] == s;
  }

  /** A list comprehension `[t for t in s if keep(t)]`. */
  function Filter<T>(s: seq<T>, keep: T -> bool): seq<T>
  {
    if s == [] then []
    else Filter(s[..|s| - 1], keep) + (if keep(s[|s| - 1]) then [s[|s| - 1]] else [])
  }

  /** The comprehension holds exactly the kept elements, as many as there are. */
  lemma {:induction false} FilterKept<T>(s: seq<T>, keep: T -> bool)
    ensures |Filter(s, keep)| == CountKept(s, keep)
    ensures forall t :: t in Filter(s, keep) <==> t in s && keep(t)
  {
    if s != [] {
      var init, last := s[..|s| - 1], s[|s| - 1];
      assert s == init + [last];
      FilterKept(init, keep);
    }
  }

  /** The per-key counts of `s`, summed over the keys `ks`. */
  function SumOverKeys<T, K(==)>(ks: seq<K>, s: seq<T>, keep: T -> bool, key: T -> K): nat
  {
    if ks == [] then 0 else CountMatching(s, keep, key, ks[0]) + SumOverKeys(ks[1..], s, keep, key)
  }

  lemma {:induction false} SumOverKeysSnoc<T, K>(ks: seq<K>, s: seq<T>, t: T, keep: T -> bool, key: T -> K)
    requires forall i, j :: 0 <= i < j < |ks| ==> ks[i] != ks[j]
    ensures SumOverKeys(ks, s + [t], keep, key)
         == SumOverKeys(ks, s, keep, key) + (if keep(t) && key(t) in ks then 1 else 0)
  {
    if ks != [] {
      assert (s + [t])[..|s|] == s;
      SumOverKeysSnoc(ks[1..], s, t, keep, key);
      assert key(t) in ks <==> key(t) == ks[0] || key(t) in ks[1..];
    }
  }

  /**
   * Counting per key and summing over distinct keys that cover every kept
   * element counts each kept element exactly once.
   */
  lemma {:induction false} SumOverKeysIsCountKept<T, K>(ks: seq<K>, s: seq<T>, keep: T -> bool, key: T -> K)
    requires forall i, j :: 0 <= i < j < |ks| ==> ks[i] != ks[j]
    requires forall i :: 0 <= i < |s| && keep(s[i]) ==> key(s[i]) in ks
    ensures SumOverKeys(ks, s, keep, key) == CountKept(s, keep)
  {
    if s == [] {
      SumOverKeysEmpty(ks, s, keep, key);
    } else {
      var init, t := s[..|s| - 1], s[|s| - 1];
      assert s == init + [t];
      SumOverKeysIsCountKept(ks, init, keep, key);
      SumOverKeysSnoc(ks, init, t, keep, key);
    }
  }

  lemma {:induction false} SumOverKeysEmpty<T, K>(ks: seq<K>, s: seq<T>, keep: T -> bool, key: T -> K)
    requires s == []
    ensures SumOverKeys(ks, s, keep, key) == 0
  {
    if ks != [] {
      SumOverKeysEmpty(ks[1..], s, keep, key);
    }
  }
}
