/** What the children of a cut group are, in terms of the rows and their centers. */
module Clusters {
  import opened Bytes
  import opened Ordering
  import opened GroupSizes
  import opened Grouping
  import opened Ranks

  /** The sample is in canonical order and holds the rows that come first by hash and then ID. */
  lemma SampleSmallest(kernel: Kernel, config: Config, s: seq<Item>)
    requires Canonical(s)
    ensures var r := Sample(kernel, config, s);
      && |r| == Min(config.sampleItems, |s|) && Canonical(r) && (forall x :: x in r ==> x in s)
      && forall x, y :: x in r && y in s && y !in r ==>
           kernel.hash(x.id) < kernel.hash(y.id) || (kernel.hash(x.id) == kernel.hash(y.id) && Less(x.id, y.id))
  {
    hide SortBy;
    var key, n := HashKey(kernel), Min(config.sampleItems, |s|);
    var t, r := SortBy(key, s), Sample(kernel, config, s);
    CanonicalDistinctIds(s);
    SortBySorted(key, s);
    StretchCanonical(s, t, 0, n);
    assert t[0..n] == t[..n];
    forall x ensures (x in r <==> x in t[..n]) && (x in s <==> x in t) {
      assert x in multiset(r) <==> x in multiset(t[..n]);
      assert x in multiset(s) <==> x in multiset(t);
    }
    forall x, y | x in r && y in s && y !in r ensures Before(key, x, y) {
      var i :| 0 <= i < n && t[..n][i] == x;
      var j :| 0 <= j < |t| && t[j] == y;
      assert Before(key, t[i], t[j]);
    }
  }

  lemma ChildIndex(kernel: Kernel, config: Config, s: seq<Item>, level: nat, i: nat, x: Item) returns (at: nat)
    requires Groupable(kernel, config, s) && |s| > config.MaxEntries(level)
    requires i < |ChildSizes(kernel, config, s, level)| && x in Child(kernel, config, s, level, i)
    ensures var sizes, t := ChildSizes(kernel, config, s, level), CutOrder(kernel, config, s, level);
            Start(sizes, i) <= at < Start(sizes, i) + sizes[i] && at < |t| && t[at] == x
  {
    hide ChildSizes, CutOrder, Start, Child;
    ChildMembers(kernel, config, s, level, i);
    var sizes, t := ChildSizes(kernel, config, s, level), CutOrder(kernel, config, s, level);
    var lo, hi := Start(sizes, i), Start(sizes, i) + sizes[i];
    assert x in multiset(Child(kernel, config, s, level, i));
    assert x in t[lo..hi];
    var k :| 0 <= k < hi - lo && t[lo..hi][k] == x;
    at := lo + k;
  }

  lemma {:induction false} StartMonotone(sizes: seq<nat>, i: nat, j: nat)
    requires i < j <= |sizes|
    ensures Start(sizes, i) + sizes[i] <= Start(sizes, j)
    decreases j
  {
    hide Start;
    StartNext(sizes, j - 1);
    if i < j - 1 { StartMonotone(sizes, i, j - 1); }
  }

  /** Earlier children hold the rows of earlier centers, and within one center of earlier IDs. */
  lemma ChildrenByCenter(kernel: Kernel, config: Config, s: seq<Item>, level: nat, i: nat, j: nat, x: Item, y: Item)
    requires Groupable(kernel, config, s) && |s| > config.MaxEntries(level)
    requires i < j < |ChildSizes(kernel, config, s, level)|
    requires x in Child(kernel, config, s, level, i) && y in Child(kernel, config, s, level, j)
    ensures var centers := Centers(kernel, config, s, level);
            var a, b := Nearest(kernel, x.vector, centers), Nearest(kernel, y.vector, centers);
            a < b || (a == b && Less(x.id, y.id))
  {
    hide ChildSizes, Child, Start, Centers, Nearest, SortBy;
    var p := ChildIndex(kernel, config, s, level, i, x);
    var q := ChildIndex(kernel, config, s, level, j, y);
    StartMonotone(ChildSizes(kernel, config, s, level), i, j);
    CutOrderSorted(kernel, config, s, level);
    var t := CutOrder(kernel, config, s, level);
    assert Before(LabelKey(kernel, Centers(kernel, config, s, level)), t[p], t[q]);
  }

  lemma {:induction false} OffsetIsSum(key: Key, s: seq<Item>, k: nat, center: nat)
    requires center <= k
    ensures Offset(key, s, center) == Sum(Counts(key, s, k)[..center])
  {
    hide CountLabel, Sum;
    var counts := Counts(key, s, k);
    if center == 0 {
      assert counts[..0] == [];
      NoSum();
    } else {
      OffsetIsSum(key, s, k, center - 1);
      SumPrefix(counts, center - 1);
    }
  }

  lemma NoSum()
    ensures Sum([]) == 0
  {
  }

  /** Natural clusters within the bounds become the children: child `i` holds exactly the rows
      whose nearest center is `i`. */
  lemma NaturalChildren(kernel: Kernel, config: Config, s: seq<Item>, level: nat, i: nat, x: Item)
    requires Groupable(kernel, config, s) && |s| > config.MaxEntries(level)
    requires i < |ChildSizes(kernel, config, s, level)|
    requires var centers := Centers(kernel, config, s, level);
             WithinBounds(Counts(LabelKey(kernel, centers), s, |centers|), config.MinEntries(level), 3 * |s| / 4)
    ensures x in Child(kernel, config, s, level, i) <==> x in s && Nearest(kernel, x.vector, Centers(kernel, config, s, level)) == i
  {
    hide ChildSizes, Child, CutOrder, Centers, Nearest, SortBy, CountLabel, Start, WithLabel, Canonical, WithinBounds, Counts;
    var centers := Centers(kernel, config, s, level);
    var key := LabelKey(kernel, centers);
    NaturalSizes(kernel, config, s, level);
    NaturalStretch(kernel, config, s, level, i);
    WithLabelMembers(key, s, i, x);
    assert x in multiset(Child(kernel, config, s, level, i)) <==> x in multiset(WithLabel(key, s, i));
  }

  lemma NaturalSizes(kernel: Kernel, config: Config, s: seq<Item>, level: nat)
    requires Groupable(kernel, config, s) && |s| > config.MaxEntries(level)
    requires var centers := Centers(kernel, config, s, level);
             WithinBounds(Counts(LabelKey(kernel, centers), s, |centers|), config.MinEntries(level), 3 * |s| / 4)
    ensures var centers := Centers(kernel, config, s, level);
            ChildSizes(kernel, config, s, level) == Counts(LabelKey(kernel, centers), s, |centers|)
  {
    hide Centers, Counts, Sizes, WithinBounds, Canonical, ValidKernel;
    var centers := Centers(kernel, config, s, level);
    OversizedSplittable(kernel, config, s, level);
    CapIsThreeQuarters(|s|);
    LegalCountsKept(Counts(LabelKey(kernel, centers), s, |centers|), config.MinEntries(level));
  }

  lemma NaturalStretch(kernel: Kernel, config: Config, s: seq<Item>, level: nat, i: nat)
    requires Groupable(kernel, config, s) && |s| > config.MaxEntries(level)
    requires i < |ChildSizes(kernel, config, s, level)|
    requires var centers := Centers(kernel, config, s, level);
             ChildSizes(kernel, config, s, level) == Counts(LabelKey(kernel, centers), s, |centers|)
    ensures multiset(Child(kernel, config, s, level, i))
         == multiset(WithLabel(LabelKey(kernel, Centers(kernel, config, s, level)), s, i))
  {
    hide ChildSizes, Child, Centers, SortBy, CountLabel, Start, WithLabel, Canonical, Counts;
    var centers := Centers(kernel, config, s, level);
    ChildMembers(kernel, config, s, level, i);
    ClusterStretch(LabelKey(kernel, centers), s, |centers|, i);
  }

  /** A cluster is one stretch of the cutting order. */
  lemma ClusterStretch(key: Key, s: seq<Item>, k: nat, center: nat)
    requires Canonical(s) && center < k && forall x :: x in s ==> key(x) < k
    ensures var counts := Counts(key, s, k); var lo := Start(counts, center);
            lo + counts[center] <= |s| && SortBy(key, s)[lo..lo + counts[center]] == WithLabel(key, s, center)
  {
    hide CountLabel, WithLabel, SortBy, Buckets, Offset, Sum, Canonical;
    BucketsAreSorted(key, s, k);
    OffsetIsSum(key, s, k, center);
    BucketLength(key, s, center);
    BucketStretch(key, s, center, k);
  }

  lemma {:induction false} BucketStretch(key: Key, s: seq<Item>, center: nat, k: nat)
    requires center < k
    ensures var lo, hi := Offset(key, s, center), Offset(key, s, center) + CountLabel(key, s, center);
            hi <= |Buckets(key, s, k)| && Buckets(key, s, k)[lo..hi] == WithLabel(key, s, center)
    decreases k
  {
    hide WithLabel, CountLabel;
    BucketLength(key, s, center);
    if center + 1 < k { BucketStretch(key, s, center, k - 1); }
  }
}
