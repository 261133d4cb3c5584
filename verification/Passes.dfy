/** The row passes of one grouping step: sampling, labelling and in-place selection.
    Resident passes work on a slice of one row buffer in whatever order earlier
    selections left it; run passes read a canonical run. Both are proved to compute
    the same order-independent result. */
module Passes {
  import opened Bytes
  import opened Ordering
  import opened GroupSizes
  import opened Grouping
  import opened Ranks

  /** A resident row with its temporary cluster label. */
  datatype Row = Row(center: nat, item: Item)

  function Items(rows: seq<Row>): (r: seq<Item>)
    ensures |r| == |rows| && forall i :: 0 <= i < |rows| ==> r[i] == rows[i].item
  {
    seq(|rows|, i requires 0 <= i < |rows| => rows[i].item)
  }

  ghost function Drop(b: seq<Row>, i: nat): (r: seq<Row>)
    requires i < |b|
    ensures multiset(r) == multiset(b) - multiset{b[i]}
    ensures multiset(Items(b)) == multiset(Items(r)) + multiset{b[i].item}
  {
    DropSplits(b, i);
    b[..i] + b[i + 1..]
  }

  lemma ItemsAppend(a: seq<Row>, b: seq<Row>)
    ensures Items(a + b) == Items(a) + Items(b)
  {
  }

  lemma DropSplits(b: seq<Row>, i: nat)
    requires i < |b|
    ensures multiset(b[..i] + b[i + 1..]) == multiset(b) - multiset{b[i]}
    ensures multiset(Items(b)) == multiset(Items(b[..i] + b[i + 1..])) + multiset{b[i].item}
  {
    var left, right := b[..i], b[i + 1..];
    assert b == left + ([b[i]] + right);
    ItemsAppend(left, right);
    ItemsAppend(left, [b[i]] + right);
    ItemsAppend([b[i]], right);
    assert Items([b[i]]) == [b[i].item];
    hide Items;
  }

  lemma {:induction false} ItemsPermute(a: seq<Row>, b: seq<Row>)
    requires multiset(a) == multiset(b)
    ensures multiset(Items(a)) == multiset(Items(b))
    decreases |a|
  {
    hide Drop;
    assert |multiset(a)| == |a| && |multiset(b)| == |b|;
    if a != [] {
      assert a[0] in multiset(b);
      var i :| 0 <= i < |b| && b[i] == a[0];
      var a', b' := Drop(a, 0), Drop(b, i);
      assert |a'| == |multiset(a')| == |a| - 1;
      ItemsPermute(a', b');
    }
  }

  // ---------------------------------------------------------------- sampling

  /** Drains the heap; callers may not rely on the order. */
  method HeapEntries(heap: seq<Item>) returns (entries: seq<Item>)
    ensures multiset(entries) == multiset(heap)
  {
    entries := heap;
  }

  /** A sample of any rearrangement, put in canonical order, is the group's sample. */
  lemma SampleOrderIndependent(kernel: Kernel, config: Config, s: seq<Item>, visited: seq<Item>, entries: seq<Item>)
    requires Canonical(s) && multiset(visited) == multiset(s)
    requires multiset(entries) == multiset(Smallest(HashKey(kernel), visited, config.sampleItems))
    ensures SortBy(Canon, entries) == Sample(kernel, config, s)
  {
    hide SortBy, Canonical;
    assert |multiset(visited)| == |visited| && |multiset(s)| == |s|;
    CanonicalDistinctIds(s);
    DistinctIdsPermute(s, visited);
    SortByUnique(HashKey(kernel), s, visited);
    var t := SortBy(HashKey(kernel), s);
    var m := Min(config.sampleItems, |s|);
    SliceDistinctIds(s, t, 0, m);
    assert t[0..m] == t[..m];
    SortByUnique(Canon, t[..m], entries);
  }

  /** Samples a canonical run. */
  method SampleRun(kernel: Kernel, config: Config, s: seq<Item>) returns (entries: seq<Item>)
    requires config.Valid() && Canonical(s)
    ensures SortBy(Canon, entries) == Sample(kernel, config, s)
  {
    hide SortBy, Insert, Before;
    CanonicalDistinctIds(s);
    var heap := [];
    for j := 0 to |s|
      invariant heap == Smallest(HashKey(kernel), s[..j], config.sampleItems)
    {
      assert s[..j + 1] == s[..j] + [s[j]];
      OfferKeepsSmallest(HashKey(kernel), s[..j], s[j], config.sampleItems);
      heap := Offer(HashKey(kernel), heap, s[j], config.sampleItems);
    }
    assert s[..|s|] == s;
    entries := HeapEntries(heap);
    SampleOrderIndependent(kernel, config, s, s, entries);
  }

  /** Samples a resident slice in the order earlier selections left it. */
  method SampleRows(kernel: Kernel, config: Config, rows: array<Row>, lo: nat, hi: nat, ghost s: seq<Item>)
    returns (entries: seq<Item>)
    requires config.Valid() && lo <= hi <= rows.Length
    requires Canonical(s) && multiset(Items(rows[lo..hi])) == multiset(s)
    ensures SortBy(Canon, entries) == Sample(kernel, config, s)
  {
    hide SortBy, Insert, Before, Canonical;
    ghost var visited := Items(rows[lo..hi]);
    CanonicalDistinctIds(s);
    DistinctIdsPermute(s, visited);
    var heap := [];
    for j := lo to hi
      invariant heap == Smallest(HashKey(kernel), visited[..j - lo], config.sampleItems)
    {
      assert visited[..j + 1 - lo] == visited[..j - lo] + [rows[j].item];
      OfferKeepsSmallest(HashKey(kernel), visited[..j - lo], rows[j].item, config.sampleItems);
      heap := Offer(HashKey(kernel), heap, rows[j].item, config.sampleItems);
    }
    assert visited[..hi - lo] == visited;
    entries := HeapEntries(heap);
    SampleOrderIndependent(kernel, config, s, visited, entries);
  }

  /** Chooses the fanout and trains on the sample in canonical order. */
  method TrainCenters(kernel: Kernel, config: Config, entries: seq<Item>, n: nat, level: nat) returns (centers: seq<Vector>)
    requires config.Valid()
    ensures centers == kernel.train(SortBy(Canon, entries), Fanout(n, |entries|, config.MaxEntries(level)))
  {
    var desired := Min(CeilDiv(n, config.MaxEntries(level)), 8);
    var k := Max(Min(|entries|, desired), 2);
    centers := kernel.train(SortBy(Canon, entries), k);
  }

  // ---------------------------------------------------------------- labelling

  lemma {:induction false} CountLabelWithout(key: Key, s: seq<Item>, i: nat, center: nat)
    requires i < |s|
    ensures CountLabel(key, s, center) == CountLabel(key, Without(s, i), center) + (if key(s[i]) == center then 1 else 0)
    decreases |s|
  {
    var r := Without(s, i);
    if i == |s| - 1 {
      assert r == s[..|s| - 1];
    } else {
      CountLabelWithout(key, s[..|s| - 1], i, center);
      assert r[..|r| - 1] == Without(s[..|s| - 1], i);
    }
  }

  lemma {:induction false} CountLabelPermute(key: Key, s: seq<Item>, t: seq<Item>, center: nat)
    requires multiset(s) == multiset(t)
    ensures CountLabel(key, s, center) == CountLabel(key, t, center)
    decreases |s|
  {
    assert |multiset(s)| == |s| && |multiset(t)| == |t|;
    if s != [] {
      assert s[0] in multiset(t);
      var i := IndexOf(t, s[0]);
      CountLabelWithout(key, s, 0, center);
      CountLabelWithout(key, t, i, center);
      CountLabelPermute(key, Without(s, 0), Without(t, i), center);
    }
  }

  lemma CountsPermute(key: Key, s: seq<Item>, t: seq<Item>, k: nat)
    requires multiset(s) == multiset(t)
    ensures Counts(key, s, k) == Counts(key, t, k)
  {
    forall center | 0 <= center < k ensures Counts(key, s, k)[center] == Counts(key, t, k)[center] {
      CountLabelPermute(key, s, t, center);
    }
  }

  lemma CountsStep(key: Key, s: seq<Item>, x: Item, k: nat)
    requires key(x) < k
    ensures var counts := Counts(key, s, k);
            Counts(key, s + [x], k) == counts[key(x) := counts[key(x)] + 1]
  {
    assert (s + [x])[..|s|] == s;
  }

  /** Counts the clusters of a run. */
  method CountRun(kernel: Kernel, s: seq<Item>, centers: seq<Vector>) returns (counts: seq<nat>)
    requires centers != []
    ensures counts == Counts(LabelKey(kernel, centers), s, |centers|)
  {
    hide CountLabel;
    counts := seq(|centers|, i => 0);
    ghost var key := LabelKey(kernel, centers);
    CountsEmpty(key, |centers|);
    assert s[..0] == [];
    for j := 0 to |s|
      invariant counts == Counts(key, s[..j], |centers|)
    {
      var center := NearestBatched(kernel, s[j].vector, centers);
      assert s[..j + 1] == s[..j] + [s[j]];
      CountsStep(key, s[..j], s[j], |centers|);
      counts := counts[center := counts[center] + 1];
    }
    assert s[..|s|] == s;
  }

  lemma CountsEmpty(key: Key, k: nat)
    ensures Counts(key, [], k) == seq(k, i => 0)
  {
  }

  ghost predicate Labelled(key: Key, rows: seq<Row>) {
    forall i :: 0 <= i < |rows| ==> rows[i].center == key(rows[i].item)
  }

  /** Labels and counts a resident slice in place. */
  method LabelRows(kernel: Kernel, rows: array<Row>, lo: nat, hi: nat, centers: seq<Vector>) returns (counts: seq<nat>)
    requires centers != [] && lo <= hi <= rows.Length
    modifies rows
    ensures Items(rows[lo..hi]) == old(Items(rows[lo..hi]))
    ensures forall i :: 0 <= i < rows.Length && !(lo <= i < hi) ==> rows[i] == old(rows[i])
    ensures Labelled(LabelKey(kernel, centers), rows[lo..hi])
    ensures counts == Counts(LabelKey(kernel, centers), Items(rows[lo..hi]), |centers|)
  {
    hide CountLabel, Counts, Nearest;
    counts := seq(|centers|, i => 0);
    ghost var key, all := LabelKey(kernel, centers), Items(rows[lo..hi]);
    CountsEmpty(key, |centers|);
    assert all[..0] == [];
    for j := lo to hi
      invariant forall i :: lo <= i < hi ==> rows[i].item == all[i - lo]
      invariant forall i :: 0 <= i < rows.Length && !(lo <= i < hi) ==> rows[i] == old(rows[i])
      invariant forall i :: lo <= i < j ==> rows[i].center == key(rows[i].item)
      invariant counts == Counts(key, all[..j - lo], |centers|)
    {
      var center := NearestBatched(kernel, rows[j].item.vector, centers);
      rows[j] := rows[j].(center := center);
      assert all[..j + 1 - lo] == all[..j - lo] + [all[j - lo]];
      CountsStep(key, all[..j - lo], all[j - lo], |centers|);
      counts := counts[center := counts[center] + 1];
    }
    assert all[..hi - lo] == all;
    assert Items(rows[lo..hi]) == all;
  }

  // ---------------------------------------------------------------- in-place selection

  /** Row comparison, by label then ID or by ID alone. */
  predicate RowBefore(byLabel: bool, a: Row, b: Row) {
    (byLabel && a.center < b.center) || ((!byLabel || a.center == b.center) && Less(a.item.id, b.item.id))
  }

  ghost predicate NotAfter(byLabel: bool, a: Row, b: Row) {
    !RowBefore(byLabel, b, a)
  }

  lemma NotAfterTransitive(byLabel: bool, a: Row, b: Row, c: Row)
    requires NotAfter(byLabel, a, b) && NotAfter(byLabel, b, c)
    ensures NotAfter(byLabel, a, c)
  {
    LessTotal(a.item.id, b.item.id);
    LessTotal(b.item.id, c.item.id);
    LessTotal(a.item.id, c.item.id);
    LessIrreflexive(a.item.id);
    if Less(a.item.id, b.item.id) && Less(b.item.id, c.item.id) { LessTransitive(a.item.id, b.item.id, c.item.id); }
    if Less(a.item.id, c.item.id) && Less(c.item.id, a.item.id) { LessTransitive(a.item.id, c.item.id, a.item.id); }
  }

  lemma BeforeNotAfter(byLabel: bool, a: Row, b: Row)
    requires RowBefore(byLabel, a, b)
    ensures NotAfter(byLabel, a, b)
  {
    if Less(a.item.id, b.item.id) && Less(b.item.id, a.item.id) {
      LessTransitive(a.item.id, b.item.id, a.item.id);
      LessIrreflexive(a.item.id);
    }
  }

  method Swap(rows: array<Row>, i: nat, j: nat, ghost lo: nat, ghost hi: nat)
    requires lo <= i <= j < hi <= rows.Length
    modifies rows
    ensures rows[i] == old(rows[j]) && rows[j] == old(rows[i])
    ensures forall k :: 0 <= k < rows.Length && k != i && k != j ==> rows[k] == old(rows[k])
    ensures multiset(rows[lo..hi]) == old(multiset(rows[lo..hi]))
  {
    rows[i], rows[j] := rows[j], rows[i];
    ghost var a, b := old(rows[lo..hi]), rows[lo..hi];
    assert b == a[i - lo := a[j - lo]][j - lo := a[i - lo]];
  }

  /** The index of a least row of a nonempty stretch. */
  method LeastIndex(rows: array<Row>, lo: nat, hi: nat, byLabel: bool) returns (m: nat)
    requires lo < hi <= rows.Length
    ensures lo <= m < hi
    ensures forall k :: lo <= k < hi ==> NotAfter(byLabel, rows[m], rows[k])
  {
    hide RowBefore;
    m := lo;
    Reflexive(byLabel, rows[lo]);
    for j := lo + 1 to hi
      invariant lo <= m < j
      invariant forall k :: lo <= k < j ==> NotAfter(byLabel, rows[m], rows[k])
    {
      Reflexive(byLabel, rows[j]);
      if RowBefore(byLabel, rows[j], rows[m]) {
        BeforeNotAfter(byLabel, rows[j], rows[m]);
        forall k | lo <= k < j ensures NotAfter(byLabel, rows[j], rows[k]) {
          NotAfterTransitive(byLabel, rows[j], rows[m], rows[k]);
        }
        m := j;
      }
    }
  }

  lemma Reflexive(byLabel: bool, a: Row)
    ensures NotAfter(byLabel, a, a)
  {
    LessIrreflexive(a.item.id);
  }

  /** Sorts a stretch in place. */
  method SortStretch(rows: array<Row>, lo: nat, hi: nat, byLabel: bool)
    requires lo <= hi <= rows.Length
    modifies rows
    ensures multiset(rows[lo..hi]) == old(multiset(rows[lo..hi]))
    ensures forall i :: 0 <= i < rows.Length && !(lo <= i < hi) ==> rows[i] == old(rows[i])
    ensures forall i, j :: lo <= i < j < hi ==> NotAfter(byLabel, rows[i], rows[j])
  {
    hide NotAfter;
    for n := lo to hi
      invariant multiset(rows[lo..hi]) == old(multiset(rows[lo..hi]))
      invariant forall i :: 0 <= i < rows.Length && !(lo <= i < hi) ==> rows[i] == old(rows[i])
      invariant forall i, j :: lo <= i < n && i < j < hi ==> NotAfter(byLabel, rows[i], rows[j])
    {
      var m := LeastIndex(rows, n, hi, byLabel);
      Swap(rows, n, m, lo, hi);
    }
  }

  /** Partial selection: everything before `nth` precedes everything from it on.
      Callers rely on nothing else about the order. */
  method SelectNth(rows: array<Row>, lo: nat, nth: nat, hi: nat)
    requires lo <= nth < hi <= rows.Length
    modifies rows
    ensures multiset(rows[lo..hi]) == old(multiset(rows[lo..hi]))
    ensures forall i :: 0 <= i < rows.Length && !(lo <= i < hi) ==> rows[i] == old(rows[i])
    ensures forall i, j :: lo <= i < nth <= j < hi ==> NotAfter(true, rows[i], rows[j])
  {
    SortStretch(rows, lo, hi, true);
  }

  /** Cutting a labelled slice where selection put the boundary takes exactly the next
      stretch of the cutting order. */
  lemma SelectionCut(key: Key, left: seq<Row>, right: seq<Row>, t: seq<Item>)
    requires SortedBy(key, t) && DistinctIds(t)
    requires Labelled(key, left + right) && multiset(Items(left + right)) == multiset(t)
    requires forall i, j :: 0 <= i < |left| && 0 <= j < |right| ==> NotAfter(true, left[i], right[j])
    ensures |left| <= |t|
    ensures multiset(Items(left)) == multiset(t[..|left|])
    ensures multiset(Items(right)) == multiset(t[|left|..])
  {
    var a, b := Items(left), Items(right);
    assert Items(left + right) == a + b;
    DistinctIdsPermute(t, a + b);
    forall x, y | x in a && y in b ensures Before(key, x, y) {
      var i := IndexOf(a, x);
      var j := IndexOf(b, y);
      assert (left + right)[i] == left[i] && (left + right)[|left| + j] == right[j];
      assert (a + b)[i] == x && (a + b)[|left| + j] == y;
      assert NotAfter(true, left[i], right[j]);
      LessTotal(x.id, y.id);
    }
    CutIsPrefix(key, a, b, t);
  }

  /** Moves the next stretch of the cutting order to the front of what is left. */
  method CutNext(rows: array<Row>, lo: nat, mid: nat, hi: nat, ghost key: Key, ghost t: seq<Item>)
    requires lo <= mid <= hi <= rows.Length
    requires SortedBy(key, t) && DistinctIds(t)
    requires Labelled(key, rows[lo..hi]) && multiset(Items(rows[lo..hi])) == multiset(t)
    modifies rows
    ensures forall i :: 0 <= i < rows.Length && !(lo <= i < hi) ==> rows[i] == old(rows[i])
    ensures Labelled(key, rows[mid..hi])
    ensures |t| == hi - lo
    ensures multiset(Items(rows[lo..mid])) == multiset(t[..mid - lo])
    ensures multiset(Items(rows[mid..hi])) == multiset(t[mid - lo..])
  {
    hide SortedBy, NotAfter, Labelled, DistinctIds;
    ghost var before := rows[lo..hi];
    if mid < hi {
      SelectNth(rows, lo, mid, hi);
    }
    ghost var left, right := rows[lo..mid], rows[mid..hi];
    assert rows[lo..hi] == left + right;
    forall i, j | 0 <= i < |left| && 0 <= j < |right| ensures NotAfter(true, left[i], right[j]) {
      assert left[i] == rows[lo + i] && right[j] == rows[mid + j];
    }
    CutParts(key, before, left, right, t);
  }

  lemma CutParts(key: Key, before: seq<Row>, left: seq<Row>, right: seq<Row>, t: seq<Item>)
    requires SortedBy(key, t) && DistinctIds(t)
    requires Labelled(key, before) && multiset(Items(before)) == multiset(t)
    requires multiset(left + right) == multiset(before)
    requires forall i, j :: 0 <= i < |left| && 0 <= j < |right| ==> NotAfter(true, left[i], right[j])
    ensures Labelled(key, right) && |t| == |before| == |left| + |right|
    ensures multiset(Items(left)) == multiset(t[..|left|]) && multiset(Items(right)) == multiset(t[|left|..])
  {
    hide SortedBy, NotAfter, DistinctIds;
    ItemsPermute(before, left + right);
    LabelledPermute(key, before, left + right);
    assert |multiset(Items(before))| == |before| && |multiset(t)| == |t|;
    assert |multiset(before)| == |before| && |multiset(left + right)| == |left + right|;
    SelectionCut(key, left, right, t);
    forall i | 0 <= i < |right| ensures right[i].center == key(right[i].item) {
      assert (left + right)[|left| + i] == right[i];
    }
  }

  lemma LabelledPermute(key: Key, a: seq<Row>, b: seq<Row>)
    requires Labelled(key, a) && multiset(a) == multiset(b)
    ensures Labelled(key, b)
  {
    forall i | 0 <= i < |b| ensures b[i].center == key(b[i].item) {
      assert b[i] in multiset(a);
    }
  }

  /** Rows sorted by ID are the canonical form of what they were. */
  lemma SortedRows(rows: seq<Row>, before: seq<Row>, s: seq<Item>)
    requires multiset(rows) == multiset(before) && multiset(Items(before)) == multiset(s) && Canonical(s)
    requires forall i, j :: 0 <= i < j < |rows| ==> NotAfter(false, rows[i], rows[j])
    ensures Items(rows) == s
  {
    ItemsPermute(rows, before);
    CanonicalDistinctIds(s);
    DistinctIdsPermute(s, Items(rows));
    forall i, j | 0 <= i < j < |rows| ensures Before(Canon, Items(rows)[i], Items(rows)[j]) {
      assert NotAfter(false, rows[i], rows[j]);
      LessTotal(rows[i].item.id, rows[j].item.id);
    }
    SortedUnique(Canon, Items(rows), s);
  }

  /** The rows still to be cut once `i` children are taken: labelled, and exactly the
      rest of the cutting order. */
  ghost predicate Pending(kernel: Kernel, config: Config, s: seq<Item>, level: nat, rows: seq<Row>, i: nat)
    requires Groupable(kernel, config, s) && |s| > config.MaxEntries(level)
    requires i <= |ChildSizes(kernel, config, s, level)|
  {
    && Labelled(LabelKey(kernel, Centers(kernel, config, s, level)), rows)
    && multiset(Items(rows)) == multiset(CutOrder(kernel, config, s, level)[Start(ChildSizes(kernel, config, s, level), i)..])
  }

  lemma AllPending(kernel: Kernel, config: Config, s: seq<Item>, level: nat, rows: seq<Row>)
    requires Groupable(kernel, config, s) && |s| > config.MaxEntries(level)
    requires Labelled(LabelKey(kernel, Centers(kernel, config, s, level)), rows)
    requires multiset(Items(rows)) == multiset(s)
    ensures Pending(kernel, config, s, level, rows, 0)
  {
    hide Labelled, SortBy, Centers, ChildSizes;
    StartEnds(ChildSizes(kernel, config, s, level));
    var t := CutOrder(kernel, config, s, level);
    assert t[0..] == t;
  }

  /** Cuts child `i` off the pending rows in place. */
  method CutChild(ghost kernel: Kernel, ghost config: Config, rows: array<Row>, lo: nat, mid: nat, hi: nat,
                  ghost s: seq<Item>, ghost level: nat, ghost i: nat)
    requires lo <= mid <= hi <= rows.Length
    requires Groupable(kernel, config, s) && |s| > config.MaxEntries(level)
    requires i < |ChildSizes(kernel, config, s, level)| && mid - lo == ChildSizes(kernel, config, s, level)[i]
    requires Pending(kernel, config, s, level, rows[lo..hi], i)
    modifies rows
    ensures forall k :: 0 <= k < rows.Length && !(lo <= k < hi) ==> rows[k] == old(rows[k])
    ensures multiset(Items(rows[lo..mid])) == multiset(Child(kernel, config, s, level, i))
    ensures Pending(kernel, config, s, level, rows[mid..hi], i + 1)
  {
    hide SortBy, ChildSizes, Child, Start, Centers, SortedBy, DistinctIds, Labelled;
    ghost var sizes, t := ChildSizes(kernel, config, s, level), CutOrder(kernel, config, s, level);
    ghost var key, at := LabelKey(kernel, Centers(kernel, config, s, level)), Start(sizes, i);
    CutOrderSorted(kernel, config, s, level);
    SuffixSorted(key, t, at);
    StartNext(sizes, i);
    ChildMembers(kernel, config, s, level, i);
    ghost var suffix, head, tail := t[at..], t[at..at + sizes[i]], t[Start(sizes, i + 1)..];
    assert suffix[..sizes[i]] == head && suffix[sizes[i]..] == tail;
    CutNext(rows, lo, mid, hi, key, suffix);
  }

  /** Samples, trains, labels and counts a resident slice, and fixes its boundaries. */
  method PlanResidentCut(kernel: Kernel, config: Config, rows: array<Row>, lo: nat, hi: nat, ghost s: seq<Item>, level: nat)
    returns (sizes: seq<nat>)
    requires lo <= hi <= rows.Length
    requires Groupable(kernel, config, s) && |s| > config.MaxEntries(level)
    requires multiset(Items(rows[lo..hi])) == multiset(s)
    modifies rows
    ensures forall i :: 0 <= i < rows.Length && !(lo <= i < hi) ==> rows[i] == old(rows[i])
    ensures sizes == ChildSizes(kernel, config, s, level) && hi - lo == |s|
    ensures Pending(kernel, config, s, level, rows[lo..hi], 0)
  {
    hide SortBy, CountLabel, Sizes, Canonical, Splittable, Pending;
    SameLength(Items(rows[lo..hi]), s);
    var entries := SampleRows(kernel, config, rows, lo, hi, s);
    assert |entries| == |SortBy(Canon, entries)|;
    var centers := TrainCenters(kernel, config, entries, hi - lo, level);
    assert centers == Centers(kernel, config, s, level);
    OversizedSplittable(kernel, config, s, level);
    ghost var items := Items(rows[lo..hi]);
    var counts := LabelRows(kernel, rows, lo, hi, centers);
    CountsPermute(LabelKey(kernel, centers), items, s, |centers|);
    sizes := ClampBoundaries(counts, config.MinEntries(level));
    AllPending(kernel, config, s, level, rows[lo..hi]);
  }

  /** Samples, trains and counts a canonical run, and fixes its boundaries. */
  method PlanRunCut(kernel: Kernel, config: Config, s: seq<Item>, level: nat)
    returns (centers: seq<Vector>, counts: seq<nat>, sizes: seq<nat>)
    requires Groupable(kernel, config, s) && |s| > config.MaxEntries(level)
    ensures centers == Centers(kernel, config, s, level) && |centers| == |sizes|
    ensures counts == Counts(LabelKey(kernel, centers), s, |centers|)
    ensures sizes == ChildSizes(kernel, config, s, level)
  {
    hide SortBy, CountLabel, Sizes, Canonical, Splittable;
    var entries := SampleRun(kernel, config, s);
    assert |entries| == |SortBy(Canon, entries)|;
    centers := TrainCenters(kernel, config, entries, |s|, level);
    assert centers == Centers(kernel, config, s, level);
    OversizedSplittable(kernel, config, s, level);
    counts := CountRun(kernel, s, centers);
    sizes := ClampBoundaries(counts, config.MinEntries(level));
  }

  // ---------------------------------------------------------------- routing a run

  /** What each child's run holds after the first `j` rows are routed. */
  ghost function RoutedSoFar(key: Key, s: seq<Item>, j: nat, sizes: seq<nat>): (r: seq<seq<Item>>)
    requires j <= |s|
    ensures |r| == |sizes|
  {
    seq(|sizes|, c requires 0 <= c < |sizes| => Routed(key, s, j, Start(sizes, c), Start(sizes, c) + sizes[c]))
  }

  lemma NothingRouted(key: Key, s: seq<Item>, sizes: seq<nat>)
    ensures RoutedSoFar(key, s, 0, sizes) == seq(|sizes|, i => [])
  {
  }

  /** Running ends rise to the total. */
  lemma EndsOrdered(sizes: seq<nat>, ends: seq<nat>)
    requires |ends| == |sizes| && forall i :: 0 <= i < |ends| ==> ends[i] == Start(sizes, i + 1)
    ensures forall i, j :: 0 <= i < j < |ends| ==> ends[i] <= ends[j]
    ensures ends != [] ==> ends[|ends| - 1] == Sum(sizes)
  {
    StartEnds(sizes);
    forall i, j | 0 <= i < j < |ends| ensures ends[i] <= ends[j] {
      StartMonotone(sizes, i + 1, j + 1);
    }
  }

  lemma {:induction false} StartMonotone(sizes: seq<nat>, i: nat, j: nat)
    requires i <= j <= |sizes|
    ensures Start(sizes, i) <= Start(sizes, j)
    decreases j
  {
    if i < j {
      StartMonotone(sizes, i, j - 1);
      StartNext(sizes, j - 1);
    }
  }

  /** The child found for a rank is the only one whose stretch contains it. */
  lemma RoutedOne(key: Key, s: seq<Item>, j: nat, sizes: seq<nat>, ends: seq<nat>, child: nat)
    requires j < |s| && child < |sizes| == |ends|
    requires forall i :: 0 <= i < |ends| ==> ends[i] == Start(sizes, i + 1)
    requires forall i :: 0 <= i < child ==> ends[i] <= Rank(key, s, j)
    requires forall i :: child <= i < |ends| ==> Rank(key, s, j) < ends[i]
    ensures var now := RoutedSoFar(key, s, j, sizes);
            RoutedSoFar(key, s, j + 1, sizes) == now[child := now[child] + [s[j]]]
  {
    hide Rank, Start;
    var now, after := RoutedSoFar(key, s, j, sizes), RoutedSoFar(key, s, j + 1, sizes);
    StartEnds(sizes);
    forall c | 0 <= c < |sizes| ensures after[c] == now[child := now[child] + [s[j]]][c] {
      RoutedStep(key, s, j, Start(sizes, c), Start(sizes, c) + sizes[c]);
      StartNext(sizes, c);
      assert ends[c] == Start(sizes, c) + sizes[c];
      if c > 0 { assert ends[c - 1] == Start(sizes, c); }
    }
  }

  /** Fully routed runs are the children. */
  lemma AllRouted(kernel: Kernel, config: Config, s: seq<Item>, level: nat)
    requires Groupable(kernel, config, s) && |s| > config.MaxEntries(level)
    ensures var key := LabelKey(kernel, Centers(kernel, config, s, level));
            RoutedSoFar(key, s, |s|, ChildSizes(kernel, config, s, level)) == Children(kernel, config, s, level)
  {
    hide Routed, SortBy, ChildSizes, Start, Canonical;
    OversizedSplittable(kernel, config, s, level);
    var sizes, key := ChildSizes(kernel, config, s, level), LabelKey(kernel, Centers(kernel, config, s, level));
    forall c | 0 <= c < |sizes|
      ensures RoutedSoFar(key, s, |s|, sizes)[c] == Children(kernel, config, s, level)[c]
    {
      RoutedIsStretch(key, s, |Centers(kernel, config, s, level)|, Start(sizes, c), Start(sizes, c) + sizes[c]);
    }
  }

  ghost function Children(kernel: Kernel, config: Config, s: seq<Item>, level: nat): (r: seq<seq<Item>>)
    requires Groupable(kernel, config, s) && |s| > config.MaxEntries(level)
    ensures |r| == |ChildSizes(kernel, config, s, level)|
  {
    seq(|ChildSizes(kernel, config, s, level)|, i requires 0 <= i < |ChildSizes(kernel, config, s, level)| =>
      Child(kernel, config, s, level, i))
  }

  lemma LabelOf(kernel: Kernel, centers: seq<Vector>, x: Item)
    requires centers != []
    ensures LabelKey(kernel, centers)(x) == Nearest(kernel, x.vector, centers) < |centers|
  {
    hide NearestUpTo;
  }

  /** Finds the child a row belongs to by its rank, and advances its cluster. */
  method RouteRow(kernel: Kernel, ghost s: seq<Item>, ghost j: nat, x: Item, centers: seq<Vector>,
                  ranks: seq<nat>, ends: seq<nat>, ghost sizes: seq<nat>)
    returns (child: nat, next: seq<nat>)
    requires Canonical(s) && j < |s| && x == s[j] && centers != []
    requires |ranks| == |centers| && RanksAt(LabelKey(kernel, centers), s, j, ranks)
    requires |ends| == |sizes| > 0 && Sum(sizes) == |s|
    requires forall i :: 0 <= i < |ends| ==> ends[i] == Start(sizes, i + 1)
    ensures |next| == |ranks| && RanksAt(LabelKey(kernel, centers), s, j + 1, next)
    ensures child < |sizes|
    ensures var now := RoutedSoFar(LabelKey(kernel, centers), s, j, sizes);
            RoutedSoFar(LabelKey(kernel, centers), s, j + 1, sizes) == now[child := now[child] + [x]]
  {
    hide Canonical, RanksAt, RoutedSoFar, Rank, Start, Nearest, LabelKey;
    ghost var key := LabelKey(kernel, centers);
    var center := NearestBatched(kernel, x.vector, centers);
    forall i | 0 <= i < |s| ensures key(s[i]) < |centers| {
      LabelOf(kernel, centers, s[i]);
    }
    LabelOf(kernel, centers, x);
    RanksStep(key, s, j, ranks);
    RankIsIndex(key, s, |centers|, j);
    EndsOrdered(sizes, ends);
    child := PartitionPoint(ends, ranks[center]);
    RoutedOne(key, s, j, sizes, ends, child);
    next := ranks[center := ranks[center] + 1];
  }
}
