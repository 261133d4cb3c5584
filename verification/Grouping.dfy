/** What one level of construction computes, independent of where the rows live.

    Hashing, distances, training and centroids are parameters: pure functions of
    canonically ordered inputs. `Leaves` is the reference result both the resident
    and the scratch-file path are proved to emit. */
module Grouping {
  import opened Bytes
  import opened Ordering
  import opened GroupSizes

  /** The numeric kernel of one construction. */
  datatype Kernel = Kernel(
    hash: Bytes -> nat,
    distance: (Vector, Vector) -> real,
    train: (seq<Item>, nat) -> seq<Vector>,
    mean: seq<Item> -> Vector
  )

  /** Training returns exactly the requested number of centers. */
  ghost predicate ValidKernel(kernel: Kernel) {
    forall sample, k :: |kernel.train(sample, k)| == k
  }

  /** Occupancy bounds and the training sample size. */
  datatype Config = Config(minLeaf: nat, maxLeaf: nat, minInternal: nat, maxInternal: nat, sampleItems: nat) {
    predicate Valid() {
      && 1 <= minLeaf && 2 * minLeaf <= maxLeaf <= 65_536
      && 1 <= minInternal && 2 * minInternal <= maxInternal <= 65_536
      && sampleItems >= 2
    }

    function MinEntries(level: nat): nat {
      if level == 1 then minLeaf else minInternal
    }

    function MaxEntries(level: nat): nat {
      if level == 1 then maxLeaf else maxInternal
    }
  }

  // ---------------------------------------------------------------- nearest center

  /** The distance of center `i` as the scan computes it: a center alone in the last block of
      four lanes is measured from the vector, any other one to the vector. */
  function LaneDistance(kernel: Kernel, vector: Vector, centers: seq<Vector>, i: nat): real
    requires i < |centers|
  {
    if i + 1 == |centers| && i % 4 == 0 then kernel.distance(vector, centers[i]) else kernel.distance(centers[i], vector)
  }

  ghost predicate SymmetricDistance(kernel: Kernel) {
    forall a, b :: kernel.distance(a, b) == kernel.distance(b, a)
  }

  /** The first center of the smallest distance among the first `i`. */
  function NearestUpTo(kernel: Kernel, vector: Vector, centers: seq<Vector>, i: nat): (r: nat)
    requires 0 < i <= |centers|
    ensures r < i
  {
    if i == 1 then 0 else
      var best := NearestUpTo(kernel, vector, centers, i - 1);
      if LaneDistance(kernel, vector, centers, i - 1) < LaneDistance(kernel, vector, centers, best) then i - 1 else best
  }

  lemma {:induction false} NearestIsLeast(kernel: Kernel, vector: Vector, centers: seq<Vector>, i: nat)
    requires 0 < i <= |centers| && SymmetricDistance(kernel)
    ensures var r := NearestUpTo(kernel, vector, centers, i);
            && (forall j :: 0 <= j < i ==> kernel.distance(centers[r], vector) <= kernel.distance(centers[j], vector))
            && (forall j :: 0 <= j < r ==> kernel.distance(centers[r], vector) < kernel.distance(centers[j], vector))
  {
    if i > 1 {
      NearestIsLeast(kernel, vector, centers, i - 1);
    }
  }

  lemma NearestNext(kernel: Kernel, vector: Vector, centers: seq<Vector>, i: nat)
    requires i < |centers|
    ensures NearestUpTo(kernel, vector, centers, i + 1) ==
            if i == 0 || LaneDistance(kernel, vector, centers, i)
                         < LaneDistance(kernel, vector, centers, NearestUpTo(kernel, vector, centers, i))
            then i else NearestUpTo(kernel, vector, centers, i)
  {
  }

  function Nearest(kernel: Kernel, vector: Vector, centers: seq<Vector>): (r: nat)
    ensures centers != [] ==> r < |centers|
  {
    if centers == [] then 0 else NearestUpTo(kernel, vector, centers, |centers|)
  }

  /** The scan in blocks of four lanes finds the same center as the plain scan. */
  method NearestBatched(kernel: Kernel, vector: Vector, centers: seq<Vector>) returns (best: nat)
    ensures best == Nearest(kernel, vector, centers)
  {
    hide NearestUpTo;
    best := 0;
    var distance := 0.0;
    var base := 0;
    while base < |centers|
      invariant 0 <= base <= |centers| && (base < |centers| ==> base % 4 == 0)
      invariant base == 0 ==> best == 0
      invariant base > 0 ==> best == NearestUpTo(kernel, vector, centers, base)
      invariant base > 0 ==> distance == LaneDistance(kernel, vector, centers, best)
    {
      var width := Min(4, |centers| - base);
      var lane := 0;
      while lane < width
        invariant 0 <= lane <= width
        invariant base + lane > 0 ==> best == NearestUpTo(kernel, vector, centers, base + lane)
        invariant base + lane > 0 ==> distance == LaneDistance(kernel, vector, centers, best)
      {
        var index := base + lane;
        var candidate := if width == 1 then kernel.distance(vector, centers[index]) else kernel.distance(centers[index], vector);
        NearestNext(kernel, vector, centers, index);
        // The scan starts from an infinite distance, so the first lane always wins.
        if index == 0 || candidate < distance {
          best, distance := index, candidate;
        }
        lane := lane + 1;
      }
      base := base + width;
    }
  }

  // ---------------------------------------------------------------- sampling

  function HashKey(kernel: Kernel): Key {
    (x: Item) => kernel.hash(x.id)
  }

  /** The rows of the smallest (hash, ID) pairs, in canonical order. */
  function Sample(kernel: Kernel, config: Config, s: seq<Item>): (r: seq<Item>)
    ensures |r| == Min(config.sampleItems, |s|)
  {
    SortBy(Canon, SortBy(HashKey(kernel), s)[..Min(config.sampleItems, |s|)])
  }

  function LabelKey(kernel: Kernel, centers: seq<Vector>): Key {
    (x: Item) => Nearest(kernel, x.vector, centers)
  }

  function Centers(kernel: Kernel, config: Config, s: seq<Item>, level: nat): seq<Vector>
    requires config.Valid()
  {
    var sample := Sample(kernel, config, s);
    kernel.train(sample, Fanout(|s|, |sample|, config.MaxEntries(level)))
  }

  // ---------------------------------------------------------------- cutting

  function CountLabel(key: Key, s: seq<Item>, center: nat): nat {
    if s == [] then 0
    else CountLabel(key, s[..|s| - 1], center) + (if key(s[|s| - 1]) == center then 1 else 0)
  }

  /** Natural cluster sizes. */
  function Counts(key: Key, s: seq<Item>, k: nat): (r: seq<nat>)
    ensures |r| == k
  {
    seq(k, center requires 0 <= center < k => CountLabel(key, s, center))
  }

  lemma {:induction false} SumBump(a: seq<nat>, b: seq<nat>, at: nat)
    requires |a| == |b| && at < |a|
    requires forall i :: 0 <= i < |a| ==> b[i] == a[i] + (if i == at then 1 else 0)
    ensures Sum(b) == Sum(a) + 1
  {
    assert a == a[..at] + ([a[at]] + a[at + 1..]) && b == b[..at] + ([b[at]] + b[at + 1..]);
    assert a[..at] == b[..at] && a[at + 1..] == b[at + 1..];
    SumAppend(a[..at], [a[at]] + a[at + 1..]);
    SumAppend(b[..at], [b[at]] + b[at + 1..]);
  }

  lemma {:induction false} SumZeros(a: seq<nat>)
    requires forall i :: 0 <= i < |a| ==> a[i] == 0
    ensures Sum(a) == 0
    decreases |a|
  {
    if a != [] { SumZeros(a[1..]); }
  }

  /** Every row is counted once. */
  lemma {:induction false} CountsTotal(key: Key, s: seq<Item>, k: nat)
    requires forall i :: 0 <= i < |s| ==> key(s[i]) < k
    ensures Sum(Counts(key, s, k)) == |s|
    decreases |s|
  {
    if s == [] {
      SumZeros(Counts(key, s, k));
    } else {
      var front := s[..|s| - 1];
      CountsTotal(key, front, k);
      SumBump(Counts(key, front, k), Counts(key, s, k), key(s[|s| - 1]));
    }
  }

  /** A group of rows construction may be asked to split. */
  ghost predicate Groupable(kernel: Kernel, config: Config, s: seq<Item>) {
    ValidKernel(kernel) && config.Valid() && Canonical(s) && |s| <= U64_MAX
  }

  /** The centers, labels and boundaries of an oversized group. */
  lemma OversizedSplittable(kernel: Kernel, config: Config, s: seq<Item>, level: nat)
    requires Groupable(kernel, config, s) && |s| > config.MaxEntries(level)
    ensures var centers := Centers(kernel, config, s, level);
            var counts := Counts(LabelKey(kernel, centers), s, |centers|);
            && 2 <= |centers| < |s|
            && Sum(counts) == |s|
            && Splittable(counts, config.MinEntries(level))
  {
    var centers := Centers(kernel, config, s, level);
    FanoutFeasible(|s|, |Sample(kernel, config, s)|, config.MinEntries(level), config.MaxEntries(level));
    CountsTotal(LabelKey(kernel, centers), s, |centers|);
  }

  /** Sizes of the children of an oversized group. */
  function ChildSizes(kernel: Kernel, config: Config, s: seq<Item>, level: nat): (r: seq<nat>)
    requires Groupable(kernel, config, s) && |s| > config.MaxEntries(level)
    ensures 2 <= |r| < |s| && Sum(r) == |s|
    ensures forall i :: 0 <= i < |r| ==> config.MinEntries(level) <= r[i] <= Cap(|s|) < |s|
  {
    OversizedSplittable(kernel, config, s, level);
    CapAtLeastHalf(|s|);
    var centers := Centers(kernel, config, s, level);
    Sizes(Counts(LabelKey(kernel, centers), s, |centers|), config.MinEntries(level))
  }

  /** Where child `i` starts in the cutting order. */
  function Start(sizes: seq<nat>, i: nat): (r: nat)
    requires i <= |sizes|
    ensures r <= Sum(sizes)
    ensures i < |sizes| ==> r + sizes[i] <= Sum(sizes)
  {
    assert sizes == sizes[..i] + sizes[i..];
    SumAppend(sizes[..i], sizes[i..]);
    Sum(sizes[..i])
  }

  lemma StartNext(sizes: seq<nat>, i: nat)
    requires i < |sizes|
    ensures Start(sizes, i + 1) == Start(sizes, i) + sizes[i]
  {
    SumPrefix(sizes, i);
  }

  lemma StartEnds(sizes: seq<nat>)
    ensures Start(sizes, 0) == 0 && Start(sizes, |sizes|) == Sum(sizes)
  {
    assert sizes[..0] == [] && sizes[..|sizes|] == sizes;
  }

  lemma SuffixSplit(t: seq<Item>, lo: nat, hi: nat)
    requires lo <= hi <= |t|
    ensures multiset(t[lo..]) == multiset(t[lo..hi]) + multiset(t[hi..])
  {
    assert t[lo..] == t[lo..hi] + t[hi..];
  }

  /** The (label, ID) order of a group. */
  function CutOrder(kernel: Kernel, config: Config, s: seq<Item>, level: nat): (r: seq<Item>)
    requires config.Valid()
    ensures |r| == |s| && multiset(r) == multiset(s)
  {
    SortBy(LabelKey(kernel, Centers(kernel, config, s, level)), s)
  }

  /** Any stretch of any rearrangement of a group sorts back to a canonical run. */
  lemma StretchCanonical(s: seq<Item>, t: seq<Item>, lo: nat, hi: nat)
    requires Canonical(s) && multiset(s) == multiset(t) && lo <= hi <= |t|
    ensures Canonical(SortBy(Canon, t[lo..hi]))
  {
    CanonicalDistinctIds(s);
    SliceDistinctIds(s, t, lo, hi);
    SortBySorted(Canon, t[lo..hi]);
  }

  /** Child `i`: one stretch of the (label, ID) order, back in canonical order. */
  function Child(kernel: Kernel, config: Config, s: seq<Item>, level: nat, i: nat): (r: seq<Item>)
    requires Groupable(kernel, config, s) && |s| > config.MaxEntries(level)
    requires i < |ChildSizes(kernel, config, s, level)|
    ensures |r| == ChildSizes(kernel, config, s, level)[i]
    ensures Canonical(r)
  {
    var sizes := ChildSizes(kernel, config, s, level);
    var t := CutOrder(kernel, config, s, level);
    var lo := Start(sizes, i);
    var hi := lo + sizes[i];
    StretchCanonical(s, t, lo, hi);
    SortBy(Canon, t[lo..hi])
  }

  lemma CutOrderSorted(kernel: Kernel, config: Config, s: seq<Item>, level: nat)
    requires config.Valid() && Canonical(s)
    ensures var t := CutOrder(kernel, config, s, level);
            SortedBy(LabelKey(kernel, Centers(kernel, config, s, level)), t) && DistinctIds(t)
  {
    CanonicalDistinctIds(s);
    SortBySorted(LabelKey(kernel, Centers(kernel, config, s, level)), s);
    DistinctIdsPermute(s, CutOrder(kernel, config, s, level));
  }

  lemma SuffixSorted(key: Key, t: seq<Item>, lo: nat)
    requires lo <= |t| && SortedBy(key, t) && DistinctIds(t)
    ensures SortedBy(key, t[lo..]) && DistinctIds(t[lo..])
  {
  }

  lemma ChildMembers(kernel: Kernel, config: Config, s: seq<Item>, level: nat, i: nat)
    requires Groupable(kernel, config, s) && |s| > config.MaxEntries(level)
    requires i < |ChildSizes(kernel, config, s, level)|
    ensures var sizes := ChildSizes(kernel, config, s, level);
            var part := CutOrder(kernel, config, s, level)[Start(sizes, i)..Start(sizes, i) + sizes[i]];
            multiset(Child(kernel, config, s, level, i)) == multiset(part)
  {
    hide ChildSizes, CutOrder, Start, SortBy;
  }

  /** The final groups of a level, in emission order. */
  ghost function Leaves(kernel: Kernel, config: Config, s: seq<Item>, level: nat): (r: seq<seq<Item>>)
    requires Groupable(kernel, config, s)
    decreases |s|, 1, 0
  {
    if |s| <= config.MaxEntries(level) then [s]
    else LeavesFrom(kernel, config, s, level, 0)
  }

  /** The final groups of the children from `i` on. */
  ghost function LeavesFrom(kernel: Kernel, config: Config, s: seq<Item>, level: nat, i: nat): (r: seq<seq<Item>>)
    requires Groupable(kernel, config, s) && |s| > config.MaxEntries(level)
    requires i <= |ChildSizes(kernel, config, s, level)|
    decreases |s|, 0, |ChildSizes(kernel, config, s, level)| - i
  {
    if i == |ChildSizes(kernel, config, s, level)| then []
    else
      Leaves(kernel, config, Child(kernel, config, s, level, i), level)
      + LeavesFrom(kernel, config, s, level, i + 1)
  }

  // ---------------------------------------------------------------- what a level keeps

  /** A final group is canonical and within its occupancy bounds. */
  ghost predicate WellFilled(config: Config, level: nat, leaf: seq<Item>) {
    && Canonical(leaf)
    && config.MinEntries(level) <= |leaf| <= config.MaxEntries(level)
  }

  ghost function Flatten(leaves: seq<seq<Item>>): seq<Item> {
    if leaves == [] then [] else leaves[0] + Flatten(leaves[1..])
  }

  lemma {:induction false} FlattenAppend(a: seq<seq<Item>>, b: seq<seq<Item>>)
    ensures Flatten(a + b) == Flatten(a) + Flatten(b)
    decreases |a|
  {
    if a == [] {
      assert a + b == b;
    } else {
      assert (a + b)[1..] == a[1..] + b;
      FlattenAppend(a[1..], b);
    }
  }

  /** The groups meet their bounds and hold exactly the rows; there are at least `least`
      of them, and as many as rows only when each of those holds one row. */
  ghost predicate Covers(config: Config, level: nat, leaves: seq<seq<Item>>, rows: seq<Item>, least: nat) {
    && (forall j :: 0 <= j < |leaves| ==> WellFilled(config, level, leaves[j]))
    && multiset(Flatten(leaves)) == multiset(rows)
    && least <= |leaves| <= |rows|
    && (|leaves| == |rows| ==> |rows| == least)
  }

  lemma CoversJoin(config: Config, level: nat, a: seq<seq<Item>>, b: seq<seq<Item>>, child: seq<Item>, rest: seq<Item>, whole: seq<Item>, least: nat)
    requires Covers(config, level, a, child, 1) && Covers(config, level, b, rest, least)
    requires multiset(whole) == multiset(child) + multiset(rest) && |whole| == |child| + |rest|
    ensures Covers(config, level, a + b, whole, least + 1)
  {
    hide WellFilled, Flatten;
    FlattenJoin(a, b, child, rest);
  }

  lemma CoversNone(config: Config, level: nat)
    ensures Covers(config, level, [], [], 0)
  {
  }

  /** Every final group meets its bounds; no row is lost, added or repeated; and a
      group of two rows or more yields strictly fewer groups than it has rows. */
  lemma {:induction false} LeavesExact(kernel: Kernel, config: Config, s: seq<Item>, level: nat)
    requires Groupable(kernel, config, s) && |s| >= config.MinEntries(level)
    ensures var leaves := Leaves(kernel, config, s, level);
            && (forall i :: 0 <= i < |leaves| ==> WellFilled(config, level, leaves[i]))
            && multiset(Flatten(leaves)) == multiset(s)
            && 1 <= |leaves| <= |s|
            && (|s| >= 2 ==> |leaves| < |s|)
    decreases |s|, 1, 0
  {
    var leaves := Leaves(kernel, config, s, level);
    if |s| <= config.MaxEntries(level) {
      assert Flatten(leaves[1..]) == [];
      assert leaves[0] + [] == s;
    } else {
      LeavesFromExact(kernel, config, s, level, 0);
      StartEnds(ChildSizes(kernel, config, s, level));
      var t := CutOrder(kernel, config, s, level);
      assert t[0..] == t;
    }
  }

  lemma {:induction false} LeavesFromExact(kernel: Kernel, config: Config, s: seq<Item>, level: nat, i: nat)
    requires Groupable(kernel, config, s) && |s| > config.MaxEntries(level)
    requires i <= |ChildSizes(kernel, config, s, level)|
    ensures var sizes, t := ChildSizes(kernel, config, s, level), CutOrder(kernel, config, s, level);
            && Start(sizes, i) <= |t|
            && Covers(config, level, LeavesFrom(kernel, config, s, level, i), t[Start(sizes, i)..], |sizes| - i)
    decreases |s|, 0, |ChildSizes(kernel, config, s, level)| - i
  {
    hide ChildSizes, CutOrder, Child, Start, SortBy, Flatten, Leaves, LeavesFrom, Covers, WellFilled;
    var sizes := ChildSizes(kernel, config, s, level);
    var t := CutOrder(kernel, config, s, level);
    LeavesUnfold(kernel, config, s, level, i);
    if i < |sizes| {
      var child := Child(kernel, config, s, level, i);
      var a, b := Leaves(kernel, config, child, level), LeavesFrom(kernel, config, s, level, i + 1);
      ChildCovers(kernel, config, s, level, i);
      LeavesFromExact(kernel, config, s, level, i + 1);
      ChildSplits(kernel, config, s, level, i);
      CoversJoin(config, level, a, b, child, t[Start(sizes, i + 1)..], t[Start(sizes, i)..], |sizes| - i - 1);
    } else {
      StartEnds(sizes);
      CoversNone(config, level);
      assert t[Start(sizes, i)..] == [];
    }
  }

  /** A child takes its stretch of the cut order and leaves the rest. */
  lemma ChildSplits(kernel: Kernel, config: Config, s: seq<Item>, level: nat, i: nat)
    requires Groupable(kernel, config, s) && |s| > config.MaxEntries(level)
    requires i < |ChildSizes(kernel, config, s, level)|
    ensures var sizes, t := ChildSizes(kernel, config, s, level), CutOrder(kernel, config, s, level);
            var child := Child(kernel, config, s, level, i);
            && Start(sizes, i) <= Start(sizes, i + 1) <= |t|
            && multiset(t[Start(sizes, i)..]) == multiset(child) + multiset(t[Start(sizes, i + 1)..])
            && |t[Start(sizes, i)..]| == |child| + |t[Start(sizes, i + 1)..]|
  {
    hide ChildSizes, CutOrder, Child, Start, SortBy;
    var sizes, t := ChildSizes(kernel, config, s, level), CutOrder(kernel, config, s, level);
    ChildMembers(kernel, config, s, level, i);
    StartNext(sizes, i);
    SuffixSplit(t, Start(sizes, i), Start(sizes, i + 1));
    SameLength(Child(kernel, config, s, level, i), t[Start(sizes, i)..Start(sizes, i) + sizes[i]]);
  }

  lemma {:induction false} ChildCovers(kernel: Kernel, config: Config, s: seq<Item>, level: nat, i: nat)
    requires Groupable(kernel, config, s) && |s| > config.MaxEntries(level)
    requires i < |ChildSizes(kernel, config, s, level)|
    ensures var child := Child(kernel, config, s, level, i);
            Covers(config, level, Leaves(kernel, config, child, level), child, 1)
    decreases |s|, 0, 0
  {
    hide ChildSizes, CutOrder, Start, SortBy, Flatten, Leaves, LeavesFrom, WellFilled;
    LeavesExact(kernel, config, Child(kernel, config, s, level, i), level);
  }

  lemma LeavesUnfold(kernel: Kernel, config: Config, s: seq<Item>, level: nat, i: nat)
    requires Groupable(kernel, config, s) && |s| > config.MaxEntries(level)
    requires i <= |ChildSizes(kernel, config, s, level)|
    ensures LeavesFrom(kernel, config, s, level, i) ==
            if i == |ChildSizes(kernel, config, s, level)| then []
            else Leaves(kernel, config, Child(kernel, config, s, level, i), level) + LeavesFrom(kernel, config, s, level, i + 1)
  {
    hide ChildSizes, Leaves;
  }

  lemma FlattenJoin(a: seq<seq<Item>>, b: seq<seq<Item>>, s: seq<Item>, t: seq<Item>)
    requires multiset(Flatten(a)) == multiset(s) && multiset(Flatten(b)) == multiset(t)
    ensures multiset(Flatten(a + b)) == multiset(s) + multiset(t)
  {
    hide Flatten;
    FlattenAppend(a, b);
  }

  /** Each child keeps at most three quarters of its parent. */
  lemma ChildShrinks(kernel: Kernel, config: Config, s: seq<Item>, level: nat, i: nat)
    requires Groupable(kernel, config, s) && |s| > config.MaxEntries(level)
    requires i < |ChildSizes(kernel, config, s, level)|
    ensures config.MinEntries(level) <= |Child(kernel, config, s, level, i)|
    ensures 4 * |Child(kernel, config, s, level, i)| <= 3 * |s|
  {
  }
}
