/** Rank arithmetic of the scratch-file path.

    A canonical run is cut in (center, ID) order without sorting its vectors: a
    row's rank is the size of the clusters before its own plus the rows of its
    own cluster already passed. These lemmas show that rank is the row's index in
    the sorted order, and that routing rows by rank rebuilds each cut stretch in
    canonical order. The bounded sampling heap is treated here too. */
module Ranks {
  import opened Bytes
  import opened Ordering
  import opened GroupSizes
  import opened Grouping

  // ---------------------------------------------------------------- ranks

  ghost function WithLabel(key: Key, s: seq<Item>, center: nat): (r: seq<Item>)
    ensures |r| == CountLabel(key, s, center)
  {
    if s == [] then []
    else WithLabel(key, s[..|s| - 1], center) + (if key(s[|s| - 1]) == center then [s[|s| - 1]] else [])
  }

  ghost function Buckets(key: Key, s: seq<Item>, k: nat): seq<Item> {
    if k == 0 then [] else Buckets(key, s, k - 1) + WithLabel(key, s, k - 1)
  }

  lemma {:induction false} WithLabelMembers(key: Key, s: seq<Item>, center: nat, x: Item)
    ensures x in WithLabel(key, s, center) <==> x in s && key(x) == center
    decreases |s|
  {
    if s != [] {
      WithLabelMembers(key, s[..|s| - 1], center, x);
      assert s == s[..|s| - 1] + [s[|s| - 1]];
    }
  }

  lemma {:induction false} BucketMembers(key: Key, s: seq<Item>, k: nat, x: Item)
    ensures x in Buckets(key, s, k) <==> x in s && key(x) < k
    decreases k
  {
    hide WithLabel, CountLabel;
    if k > 0 {
      BucketMembers(key, s, k - 1, x);
      WithLabelMembers(key, s, k - 1, x);
    }
  }

  lemma {:induction false} WithLabelSorted(key: Key, s: seq<Item>, center: nat)
    requires Canonical(s)
    ensures SortedBy(key, WithLabel(key, s, center))
    decreases |s|
  {
    if s != [] {
      var front, x := s[..|s| - 1], s[|s| - 1];
      WithLabelSorted(key, front, center);
      var w := WithLabel(key, front, center);
      if key(x) == center {
        forall i | 0 <= i < |w| ensures Before(key, w[i], x) {
          WithLabelMembers(key, front, center, w[i]);
          var j := IndexOf(front, w[i]);
          assert Before(Canon, s[j], s[|s| - 1]);
        }
      }
    }
  }

  lemma SmallerKey(key: Key, a: Item, b: Item)
    requires key(a) < key(b)
    ensures Before(key, a, b)
  {
  }

  lemma {:induction false} BucketsSorted(key: Key, s: seq<Item>, k: nat)
    requires Canonical(s)
    ensures SortedBy(key, Buckets(key, s, k))
    decreases k
  {
    hide WithLabel, Before;
    if k > 0 {
      BucketsSorted(key, s, k - 1);
      WithLabelSorted(key, s, k - 1);
      var a, b := Buckets(key, s, k - 1), WithLabel(key, s, k - 1);
      forall i, j | 0 <= i < |a| && 0 <= j < |b| ensures Before(key, a[i], b[j]) {
        BucketMembers(key, s, k - 1, a[i]);
        WithLabelMembers(key, s, k - 1, b[j]);
        SmallerKey(key, a[i], b[j]);
      }
    }
  }

  /** Concatenated clusters are the cutting order. */
  lemma BucketsAreSorted(key: Key, s: seq<Item>, k: nat)
    requires Canonical(s) && forall x :: x in s ==> key(x) < k
    ensures Buckets(key, s, k) == SortBy(key, s)
  {
    var b := Buckets(key, s, k);
    BucketsSorted(key, s, k);
    SortedDistinct(key, b);
    SortedDistinct(Canon, s);
    forall x ensures x in s <==> x in b {
      BucketMembers(key, s, k, x);
    }
    SameMembersPermute(s, b);
    CanonicalDistinctIds(s);
    SortByFixed(key, s, b);
  }

  /** Rows in the clusters before `center`. */
  ghost function Offset(key: Key, s: seq<Item>, center: nat): nat {
    if center == 0 then 0 else Offset(key, s, center - 1) + CountLabel(key, s, center - 1)
  }

  /** The rank of row `j`. */
  ghost function Rank(key: Key, s: seq<Item>, j: nat): nat
    requires j < |s|
  {
    Offset(key, s, key(s[j])) + CountLabel(key, s[..j], key(s[j]))
  }

  lemma {:induction false} BucketAt(key: Key, s: seq<Item>, center: nat, k: nat, i: nat)
    requires center < k && i < CountLabel(key, s, center)
    ensures Offset(key, s, center) + i < |Buckets(key, s, k)|
    ensures |Buckets(key, s, center)| == Offset(key, s, center)
    ensures Buckets(key, s, k)[Offset(key, s, center) + i] == WithLabel(key, s, center)[i]
    decreases k
  {
    hide WithLabel, CountLabel;
    BucketLength(key, s, center);
    if center + 1 < k {
      BucketAt(key, s, center, k - 1, i);
    }
  }

  lemma {:induction false} BucketLength(key: Key, s: seq<Item>, k: nat)
    ensures |Buckets(key, s, k)| == Offset(key, s, k)
    decreases k
  {
    if k > 0 { BucketLength(key, s, k - 1); }
  }

  lemma {:induction false} WithLabelAt(key: Key, s: seq<Item>, j: nat)
    requires j < |s|
    ensures CountLabel(key, s[..j], key(s[j])) < CountLabel(key, s, key(s[j]))
    ensures WithLabel(key, s, key(s[j]))[CountLabel(key, s[..j], key(s[j]))] == s[j]
    decreases |s|
  {
    var front := s[..|s| - 1];
    if j < |front| {
      WithLabelAt(key, front, j);
      assert front[..j] == s[..j];
    } else {
      assert s[..j] == front;
    }
  }

  /** A row's rank is its index in the cutting order. */
  lemma RankIsIndex(key: Key, s: seq<Item>, k: nat, j: nat)
    requires Canonical(s) && j < |s| && forall x :: x in s ==> key(x) < k
    ensures Rank(key, s, j) < |s| && SortBy(key, s)[Rank(key, s, j)] == s[j]
  {
    hide WithLabel, CountLabel, Buckets, SortBy, Offset, Canonical;
    BucketsAreSorted(key, s, k);
    WithLabelAt(key, s, j);
    var c, i := key(s[j]), CountLabel(key, s[..j], key(s[j]));
    BucketAt(key, s, c, k, i);
    assert Rank(key, s, j) == Offset(key, s, c) + i;
    assert Buckets(key, s, k)[Offset(key, s, c) + i] == s[j];
  }

  // ---------------------------------------------------------------- routing

  /** Of the first `j` rows, those whose rank falls in a stretch, in run order. */
  ghost function Routed(key: Key, s: seq<Item>, j: nat, lo: nat, hi: nat): seq<Item>
    requires j <= |s|
  {
    if j == 0 then []
    else Routed(key, s, j - 1, lo, hi) + (if lo <= Rank(key, s, j - 1) < hi then [s[j - 1]] else [])
  }

  lemma {:induction false} RoutedMembers(key: Key, s: seq<Item>, j: nat, lo: nat, hi: nat, x: Item)
    requires j <= |s|
    ensures x in Routed(key, s, j, lo, hi) <==> exists i :: 0 <= i < j && s[i] == x && lo <= Rank(key, s, i) < hi
    decreases j
  {
    if j > 0 {
      RoutedMembers(key, s, j - 1, lo, hi, x);
      if x in Routed(key, s, j, lo, hi) && x !in Routed(key, s, j - 1, lo, hi) {
        assert s[j - 1] == x && lo <= Rank(key, s, j - 1) < hi;
      }
    }
  }

  lemma {:induction false} RoutedCanonical(key: Key, s: seq<Item>, j: nat, lo: nat, hi: nat)
    requires Canonical(s) && j <= |s|
    ensures Canonical(Routed(key, s, j, lo, hi))
    decreases j
  {
    if j > 0 {
      RoutedCanonical(key, s, j - 1, lo, hi);
      var r := Routed(key, s, j - 1, lo, hi);
      forall i | 0 <= i < |r| ensures Before(Canon, r[i], s[j - 1]) {
        RoutedMembers(key, s, j - 1, lo, hi, r[i]);
      }
    }
  }

  /** Routing by rank yields the stretch of the cutting order, canonically sorted. */
  lemma RoutedIsStretch(key: Key, s: seq<Item>, k: nat, lo: nat, hi: nat)
    requires Canonical(s) && lo <= hi <= |s| && forall x :: x in s ==> key(x) < k
    ensures Routed(key, s, |s|, lo, hi) == SortBy(Canon, SortBy(key, s)[lo..hi])
  {
    hide SortBy, Routed, Rank, Before;
    var t, r := SortBy(key, s), Routed(key, s, |s|, lo, hi);
    CanonicalDistinctIds(s);
    SortBySorted(key, s);
    SortedDistinct(key, t);
    RoutedCanonical(key, s, |s|, lo, hi);
    SortedDistinct(Canon, r);
    forall x ensures x in r <==> x in t[lo..hi] {
      RoutedMembers(key, s, |s|, lo, hi, x);
      if x in r {
        var i :| 0 <= i < |s| && s[i] == x && lo <= Rank(key, s, i) < hi;
        RankIsIndex(key, s, k, i);
        assert t[lo..hi][Rank(key, s, i) - lo] == x;
      }
      if x in t[lo..hi] {
        var p :| lo <= p < hi && t[p] == x;
        assert x in multiset(t);
        var i := IndexOf(s, x);
        RankIsIndex(key, s, k, i);
        assert Rank(key, s, i) == p;
      }
    }
    SameMembersPermute(t[lo..hi], r);
    SliceDistinctIds(s, t, lo, hi);
    SortByFixed(Canon, t[lo..hi], r);
  }

  /** Routing one more row extends exactly the stretch its rank falls in. */
  lemma RoutedStep(key: Key, s: seq<Item>, j: nat, lo: nat, hi: nat)
    requires j < |s|
    ensures Routed(key, s, j + 1, lo, hi)
         == Routed(key, s, j, lo, hi) + (if lo <= Rank(key, s, j) < hi then [s[j]] else [])
  {
  }

  /** Cluster offsets are running sums of the cluster sizes. */
  lemma {:induction false} OffsetIsSum(key: Key, s: seq<Item>, k: nat, center: nat)
    requires center <= k
    ensures Offset(key, s, center) == Sum(Counts(key, s, k)[..center])
    decreases center
  {
    if center > 0 {
      OffsetIsSum(key, s, k, center - 1);
      SumPrefix(Counts(key, s, k), center - 1);
    }
  }

  /** The next rank of every cluster once `j` rows are passed. */
  ghost predicate RanksAt(key: Key, s: seq<Item>, j: nat, ranks: seq<nat>)
    requires j <= |s|
  {
    forall c :: 0 <= c < |ranks| ==> ranks[c] == Offset(key, s, c) + CountLabel(key, s[..j], c)
  }

  lemma RanksStart(key: Key, s: seq<Item>, starts: seq<nat>)
    requires forall c :: 0 <= c < |starts| ==> starts[c] == Sum(Counts(key, s, |starts|)[..c])
    ensures RanksAt(key, s, 0, starts)
  {
    forall c | 0 <= c < |starts| ensures starts[c] == Offset(key, s, c) + CountLabel(key, s[..0], c) {
      OffsetIsSum(key, s, |starts|, c);
      assert s[..0] == [];
    }
  }

  /** A row takes its cluster's next rank and advances it. */
  lemma RanksStep(key: Key, s: seq<Item>, j: nat, ranks: seq<nat>)
    requires j < |s| && key(s[j]) < |ranks| && RanksAt(key, s, j, ranks)
    ensures ranks[key(s[j])] == Rank(key, s, j)
    ensures RanksAt(key, s, j + 1, ranks[key(s[j]) := ranks[key(s[j])] + 1])
  {
    assert s[..j + 1][..j] == s[..j];
  }

  /** Running totals after each size. */
  method RunningEnds(sizes: seq<nat>) returns (ends: seq<nat>)
    ensures |ends| == |sizes|
    ensures forall i :: 0 <= i < |sizes| ==> ends[i] == Start(sizes, i + 1)
  {
    ends := [];
    var end := 0;
    for i := 0 to |sizes|
      invariant end == Sum(sizes[..i]) && |ends| == i
      invariant forall j :: 0 <= j < i ==> ends[j] == Start(sizes, j + 1)
    {
      SumPrefix(sizes, i);
      end := end + sizes[i];
      ends := ends + [end];
    }
  }

  /** Running totals before each size. */
  method RunningStarts(counts: seq<nat>) returns (starts: seq<nat>)
    ensures |starts| == |counts|
    ensures forall i :: 0 <= i < |counts| ==> starts[i] == Sum(counts[..i])
  {
    starts := [];
    var offset := 0;
    for i := 0 to |counts|
      invariant offset == Sum(counts[..i]) && |starts| == i
      invariant forall j :: 0 <= j < i ==> starts[j] == Sum(counts[..j])
    {
      SumPrefix(counts, i);
      starts := starts + [offset];
      offset := offset + counts[i];
    }
  }

  /** The first end beyond a rank. */
  method PartitionPoint(ends: seq<nat>, rank: nat) returns (child: nat)
    requires forall i, j :: 0 <= i < j < |ends| ==> ends[i] <= ends[j]
    ensures child <= |ends|
    ensures forall i :: 0 <= i < child ==> ends[i] <= rank
    ensures forall i :: child <= i < |ends| ==> rank < ends[i]
  {
    child := 0;
    while child < |ends| && ends[child] <= rank
      invariant child <= |ends|
      invariant forall i :: 0 <= i < child ==> ends[i] <= rank
    {
      child := child + 1;
    }
  }

  // ---------------------------------------------------------------- the sampling heap

  /** The `m` smallest rows seen, smallest first: what a bounded max-heap holds. */
  ghost function Smallest(key: Key, s: seq<Item>, m: nat): (r: seq<Item>)
    ensures |r| == Min(m, |s|)
  {
    SortBy(key, s)[..Min(m, |s|)]
  }

  lemma {:induction false} InsertPrefix(key: Key, t: seq<Item>, x: Item, m: nat)
    requires SortedBy(key, t) && 0 < m <= |t|
    ensures Before(key, x, t[m - 1]) ==> Insert(key, t, x)[..m] == Insert(key, t[..m - 1], x)
    ensures !Before(key, x, t[m - 1]) ==> Insert(key, t, x)[..m] == t[..m]
    decreases |t|
  {
    hide Before, Insert;
    InsertUnfold(key, t, x);
    if Before(key, x, t[0]) {
      if m > 1 {
        BeforeTransitive(key, x, t[0], t[m - 1]);
      }
      InsertFront(key, t, x, m);
    } else if m > 1 {
      InsertPrefix(key, t[1..], x, m - 1);
      InsertLater(key, t, x, m);
    } else {
      ConsTake(t[0], Insert(key, t[1..], x), m);
    }
  }

  lemma InsertFront(key: Key, t: seq<Item>, x: Item, m: nat)
    requires 0 < m <= |t| && Before(key, x, t[0])
    ensures Insert(key, t, x)[..m] == Insert(key, t[..m - 1], x)
  {
    hide Before, Insert;
    InsertUnfold(key, t, x);
    InsertUnfold(key, t[..m - 1], x);
    ConsTake(x, t, m);
  }

  lemma InsertLater(key: Key, t: seq<Item>, x: Item, m: nat)
    requires 1 < m <= |t| && !Before(key, x, t[0])
    ensures Insert(key, t, x)[..m] == [t[0]] + Insert(key, t[1..], x)[..m - 1]
    ensures Insert(key, t[..m - 1], x) == [t[0]] + Insert(key, t[1..][..m - 2], x)
    ensures t[..m] == [t[0]] + t[1..][..m - 1]
  {
    hide Before, Insert;
    InsertUnfold(key, t, x);
    InsertUnfold(key, t[..m - 1], x);
    ConsTake(t[0], Insert(key, t[1..], x), m);
    assert t[1..][..m - 2] == t[..m - 1][1..];
  }

  lemma ConsTake(x: Item, t: seq<Item>, m: nat)
    requires 0 < m <= |t| + 1
    ensures ([x] + t)[..m] == [x] + t[..m - 1]
  {
  }

  lemma InsertUnfold(key: Key, t: seq<Item>, x: Item)
    ensures Insert(key, t, x) == if t == [] || Before(key, x, t[0]) then [x] + t else [t[0]] + Insert(key, t[1..], x)
  {
    hide Before;
  }

  /** One heap step: grow below the bound, else replace the largest if improved. */
  function Offer(key: Key, heap: seq<Item>, x: Item, m: nat): seq<Item>
    requires m > 0
  {
    if |heap| < m then Insert(key, heap, x)
    else if Before(key, x, heap[|heap| - 1]) then Insert(key, heap[..|heap| - 1], x)
    else heap
  }

  /** The heap step keeps the smallest rows of everything seen so far. */
  lemma OfferKeepsSmallest(key: Key, s: seq<Item>, x: Item, m: nat)
    requires m > 0 && DistinctIds(s + [x])
    ensures Offer(key, Smallest(key, s, m), x, m) == Smallest(key, s + [x], m)
  {
    hide Insert, Before, SortBy;
    SortByAppend(key, s, x);
    assert forall i :: 0 <= i < |s| ==> (s + [x])[i] == s[i];
    SortBySorted(key, s);
    var t := SortBy(key, s);
    if |s| < m {
      assert t[..|s|] == t;
      var r := Insert(key, t, x);
      assert r[..|r|] == r;
    } else {
      InsertPrefix(key, t, x, m);
      assert t[..m][..m - 1] == t[..m - 1];
    }
  }

  lemma SortByAppend(key: Key, s: seq<Item>, x: Item)
    ensures SortBy(key, s + [x]) == Insert(key, SortBy(key, s), x)
  {
    hide Insert;
    assert (s + [x])[..|s|] == s;
  }
}
