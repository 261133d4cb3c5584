/** Bounded nearest-leaf lists, filled by scoring every unordered pair of leaves once. */
module Neighbors {
  import opened Checkpoints
  import opened Ordering

  /** The numeric kernel: routing distance of two vectors and the mean of several. */
  datatype Metric = Metric(distance: (Vector, Vector) -> real, mean: seq<Vector> -> Vector)

  ghost predicate Symmetric(metric: Metric) {
    forall a, b :: metric.distance(a, b) == metric.distance(b, a)
  }

  /** A partition: leaves hold members, higher partitions hold the keys of their children. */
  datatype Part = Part(key: nat, members: seq<nat>, children: seq<nat>, center: Vector)

  const BOUND := 32

  /** A list slot: a scored leaf, or the sentinel that every score precedes. */
  datatype Slot = Near(distance: real, leaf: nat) | Far

  /** Order by distance, then by leaf ordinal; the sentinel comes last. */
  predicate Before(a: Slot, b: Slot) {
    match (a, b)
    case (Far, _) => false
    case (Near(_, _), Far) => true
    case (Near(d, i), Near(e, j)) => d < e || (d == e && i < j)
  }

  // ---------------------------------------------------------------- what a list holds

  function Limit(count: nat): nat {
    if count < BOUND then count else BOUND
  }

  /** The list is the sorted run of the smallest slots offered, padded with sentinels. */
  ghost predicate Nearest(row: seq<Slot>, offered: set<Slot>) {
    var k := Limit(|offered|);
    |row| == BOUND && Listed(row, offered, k) && Increasing(row, k) && Covers(row, offered, k)
  }

  ghost predicate Listed(row: seq<Slot>, offered: set<Slot>, k: nat) {
    && (forall x :: x in offered ==> x.Near?)
    && (forall a :: 0 <= a < k <= |row| ==> row[a] in offered)
    && (forall a :: k <= a < |row| ==> row[a].Far?)
  }

  ghost predicate Increasing(row: seq<Slot>, k: nat) {
    forall a, b :: 0 <= a < b < k <= |row| ==> Before(row[a], row[b])
  }

  /** Whatever was left out comes after a full list. */
  ghost predicate Covers(row: seq<Slot>, offered: set<Slot>, k: nat)
    requires k <= |row| == BOUND
  {
    forall x :: x in offered && x !in row[..k] ==> k == BOUND && Before(row[BOUND - 1], x)
  }

  /** Only one list answers this description. */
  lemma NearestUnique(one: seq<Slot>, two: seq<Slot>, offered: set<Slot>)
    requires Nearest(one, offered) && Nearest(two, offered)
    ensures one == two
  {
    var k := Limit(|offered|);
    AgreeUpTo(one, two, offered, k, k);
    assert forall a :: 0 <= a < k ==> one[a] == one[..k][a] && two[a] == two[..k][a];
  }

  lemma {:induction false} AgreeUpTo(one: seq<Slot>, two: seq<Slot>, offered: set<Slot>, k: nat, a: nat)
    requires Nearest(one, offered) && Nearest(two, offered) && a <= k == Limit(|offered|)
    ensures one[..a] == two[..a]
  {
    hide Nearest;
    NearestSize(one, offered);
    NearestSize(two, offered);
    if a > 0 {
      AgreeUpTo(one, two, offered, k, a - 1);
      NotEarlier(one, two, offered, k, a - 1);
      NotEarlier(two, one, offered, k, a - 1);
      assert one[..a] == one[..a - 1] + [one[a - 1]];
      assert two[..a] == two[..a - 1] + [two[a - 1]];
    }
  }

  lemma NearestSize(row: seq<Slot>, offered: set<Slot>)
    requires Nearest(row, offered)
    ensures |row| == BOUND && forall a :: 0 <= a < Limit(|offered|) ==> row[a].Near?
  {
  }

  /** Where two lists agree up to `a`, the next of one cannot come before the next of the other. */
  lemma NotEarlier(one: seq<Slot>, two: seq<Slot>, offered: set<Slot>, k: nat, a: nat)
    requires Nearest(one, offered) && Nearest(two, offered) && a < k == Limit(|offered|)
    requires one[..a] == two[..a]
    ensures !Before(one[a], two[a])
  {
    assert forall i :: 0 <= i < a ==> two[i] == one[..a][i] && Before(two[i], one[a]);
    assert forall i :: a < i < k ==> Before(two[a], two[i]);
    assert one[a] in two[..k] || (k == BOUND && Before(two[BOUND - 1], one[a]));
  }

  // ---------------------------------------------------------------- retaining one candidate

  /** How many leading slots come before the candidate. */
  function Position(row: seq<Slot>, candidate: Slot): (p: nat)
    ensures p <= |row|
    ensures forall a :: 0 <= a < p ==> Before(row[a], candidate)
    ensures p < |row| ==> !Before(row[p], candidate)
  {
    if row == [] || !Before(row[0], candidate) then 0 else 1 + Position(row[1..], candidate)
  }

  lemma PositionStops(row: seq<Slot>, candidate: Slot)
    ensures var p := Position(row, candidate);
            && p <= |row| && (forall a :: 0 <= a < p ==> Before(row[a], candidate))
            && (p < |row| ==> !Before(row[p], candidate))
  {
  }

  /** The list after offering one candidate. */
  function Retained(row: seq<Slot>, candidate: Slot): (r: seq<Slot>)
    requires |row| == BOUND
    ensures |r| == BOUND
  {
    if !Before(candidate, row[BOUND - 1]) then row
    else
      var p := Position(row[..BOUND - 1], candidate);
      row[..p] + [candidate] + row[p..BOUND - 1]
  }

  lemma RetainedKeeps(row: seq<Slot>, offered: set<Slot>, candidate: Slot)
    requires Nearest(row, offered) && candidate.Near? && candidate !in offered
    ensures Nearest(Retained(row, candidate), offered + {candidate})
  {
    var k := Limit(|offered|);
    if !Before(candidate, row[BOUND - 1]) {
      assert k == BOUND;
      assert Before(row[BOUND - 1], candidate);
    } else {
      RetainedInside(row, offered, candidate, k);
    }
  }

  /** `after` is `row` with the candidate put at `p` and the last slot pushed out. */
  ghost predicate PutAt(row: seq<Slot>, after: seq<Slot>, candidate: Slot, p: nat) {
    && |row| == |after| == BOUND && p < BOUND
    && after[p] == candidate
    && (forall a :: 0 <= a < p ==> after[a] == row[a] && Before(row[a], candidate))
    && (forall a :: p < a < BOUND ==> after[a] == row[a - 1])
    && Before(candidate, row[BOUND - 1])
    && !Before(row[p], candidate)
  }

  lemma RetainedPuts(row: seq<Slot>, candidate: Slot) returns (p: nat)
    requires |row| == BOUND && Before(candidate, row[BOUND - 1])
    ensures PutAt(row, Retained(row, candidate), candidate, p)
  {
    p := Position(row[..BOUND - 1], candidate);
  }

  lemma RetainedInside(row: seq<Slot>, offered: set<Slot>, candidate: Slot, k: nat)
    requires Nearest(row, offered) && candidate.Near? && candidate !in offered
    requires k == Limit(|offered|) && Before(candidate, row[BOUND - 1])
    ensures Nearest(Retained(row, candidate), offered + {candidate})
  {
    hide Retained, Position, PutAt, Listed, Increasing, Covers;
    var after, more := Retained(row, candidate), offered + {candidate};
    var p := RetainedPuts(row, candidate);
    var m := Limit(|more|);
    assert m == if k < BOUND then k + 1 else k;
    PutListed(row, after, offered, candidate, k, p, m);
    PutSorted(row, after, offered, candidate, k, p, m);
    PutCovers(row, after, offered, candidate, k, p, m);
  }

  lemma PutListed(row: seq<Slot>, after: seq<Slot>, offered: set<Slot>, candidate: Slot, k: nat, p: nat, m: nat)
    requires Listed(row, offered, k) && candidate.Near?
    requires PutAt(row, after, candidate, p) && k <= BOUND && m == (if k < BOUND then k + 1 else k)
    ensures p <= k && Listed(after, offered + {candidate}, m)
  {
    assert k < BOUND ==> row[k].Far?;
    assert forall a :: 0 <= a < p ==> row[a].Near?;
  }

  lemma PutSorted(row: seq<Slot>, after: seq<Slot>, offered: set<Slot>, candidate: Slot, k: nat, p: nat, m: nat)
    requires Listed(row, offered, k) && Increasing(row, k) && candidate.Near? && candidate !in offered
    requires PutAt(row, after, candidate, p) && p <= k <= BOUND && m == (if k < BOUND then k + 1 else k)
    ensures Increasing(after, m)
  {
    forall a | p <= a < k ensures Before(candidate, row[a]) {
      assert Before(candidate, row[p]);
    }
  }

  lemma PutCovers(row: seq<Slot>, after: seq<Slot>, offered: set<Slot>, candidate: Slot, k: nat, p: nat, m: nat)
    requires PutAt(row, after, candidate, p) && p <= k <= BOUND && m == (if k < BOUND then k + 1 else k)
    requires Increasing(row, k) && Covers(row, offered, k)
    ensures Covers(after, offered + {candidate}, m)
  {
    assert k == BOUND ==> LastDrops(row, after) by {
      if k == BOUND && p < BOUND - 1 {
        assert Before(row[BOUND - 2], row[BOUND - 1]);
      }
    }
    forall x | x in offered + {candidate} && x !in after[..m] ensures m == BOUND && Before(after[BOUND - 1], x) {
      assert after[..m][p] == candidate;
      if x in row[..k] {
        var a :| 0 <= a < k && row[a] == x;
        if a < p || a + 1 < m {
          KeptInside(row, after, candidate, p, m, a);
        }
      }
    }
  }

  /** The new last slot comes before the one pushed out. */
  ghost predicate LastDrops(row: seq<Slot>, after: seq<Slot>) {
    |row| == |after| == BOUND && Before(after[BOUND - 1], row[BOUND - 1])
  }

  /** A slot held before the put is still held, unless it was the last of a full list. */
  lemma KeptInside(row: seq<Slot>, after: seq<Slot>, candidate: Slot, p: nat, m: nat, a: nat)
    requires PutAt(row, after, candidate, p) && p < m <= BOUND && (a < p || a + 1 < m)
    ensures row[a] in after[..m]
  {
    var b := if a < p then a else a + 1;
    assert after[..m][b] == row[a];
  }

  method FindPosition(neighbors: array<Slot>, candidate: Slot) returns (position: nat)
    requires neighbors.Length == BOUND
    ensures position == Position(neighbors[..BOUND - 1], candidate)
  {
    ghost var row := neighbors[..BOUND - 1];
    PositionStops(row, candidate);
    hide Before, Position;
    position := 0;
    while position < BOUND - 1 && Before(neighbors[position], candidate)
      invariant position <= Position(row, candidate) <= BOUND - 1
    {
      position := position + 1;
    }
  }

  /** Offers one candidate to a list, in place. */
  method RetainNeighbor(neighbors: array<Slot>, candidate: Slot)
    requires neighbors.Length == BOUND && candidate.Near?
    modifies neighbors
    ensures neighbors[..] == Retained(old(neighbors[..]), candidate)
  {
    if !Before(candidate, neighbors[BOUND - 1]) {
      return;
    }
    ghost var row := neighbors[..];
    var position := FindPosition(neighbors, candidate);
    assert Retained(row, candidate) == row[..position] + [candidate] + row[position..BOUND - 1];
    hide Retained, Before, Position;
    var i := BOUND - 1;
    while i > position
      invariant position <= i <= BOUND - 1
      invariant forall a :: 0 <= a <= i ==> neighbors[a] == row[a]
      invariant forall a :: i < a < BOUND ==> neighbors[a] == row[a - 1]
    {
      neighbors[i] := neighbors[i - 1];
      i := i - 1;
    }
    neighbors[position] := candidate;
    ShiftedRow(row, neighbors[..], candidate, position);
  }

  lemma ShiftedRow(row: seq<Slot>, after: seq<Slot>, candidate: Slot, p: nat)
    requires |row| == |after| == BOUND && p < BOUND && after[p] == candidate
    requires forall a :: 0 <= a < p ==> after[a] == row[a]
    requires forall a :: p < a < BOUND ==> after[a] == row[a - 1]
    ensures after == row[..p] + [candidate] + row[p..BOUND - 1]
  {
  }

  // ---------------------------------------------------------------- all pairs

  function Score(metric: Metric, leaves: seq<Part>, i: nat, j: nat): real
    requires i < |leaves| && j < |leaves|
  {
    metric.distance(leaves[i].center, leaves[j].center)
  }

  /** The pair has been scored once sources below `source`, and of `source` the targets
      below `target`, are done. */
  predicate Scored(i: nat, j: nat, source: nat, target: nat) {
    var low, high := if i < j then i else j, if i < j then j else i;
    low < source || (low == source && high < target)
  }

  ghost function Offered(metric: Metric, leaves: seq<Part>, i: nat, source: nat, target: nat): set<Slot>
    requires i < |leaves|
  {
    set j: nat | j < |leaves| && j != i && Scored(i, j, source, target) :: Near(Score(metric, leaves, i, j), j)
  }

  /** Every other leaf, as seen from leaf `i`. */
  ghost function Others(metric: Metric, leaves: seq<Part>, i: nat): set<Slot>
    requires i < |leaves|
  {
    set j: nat | j < |leaves| && j != i :: Near(Score(metric, leaves, i, j), j)
  }

  lemma OfferedStart(metric: Metric, leaves: seq<Part>, i: nat)
    requires i < |leaves|
    ensures Offered(metric, leaves, i, 0, 1) == {}
  {
  }

  lemma OfferedNext(metric: Metric, leaves: seq<Part>, i: nat, source: nat)
    requires i < |leaves|
    ensures Offered(metric, leaves, i, source, |leaves|) == Offered(metric, leaves, i, source + 1, source + 2)
  {
    forall j: nat | j < |leaves| && j != i
      ensures Scored(i, j, source, |leaves|) <==> Scored(i, j, source + 1, source + 2)
    {
    }
  }

  lemma OfferedAll(metric: Metric, leaves: seq<Part>, i: nat)
    requires i < |leaves|
    ensures Offered(metric, leaves, i, |leaves|, |leaves| + 1) == Others(metric, leaves, i)
  {
  }

  /** Scoring one pair offers each end to the other and nothing to anyone else. */
  lemma OfferedPair(metric: Metric, leaves: seq<Part>, i: nat, source: nat, target: nat)
    requires i < |leaves| && source < target < |leaves|
    ensures i == source ==> Offered(metric, leaves, i, source, target + 1) ==
                            Offered(metric, leaves, i, source, target) + {Near(Score(metric, leaves, source, target), target)}
    ensures i == target ==> Offered(metric, leaves, i, source, target + 1) ==
                            Offered(metric, leaves, i, source, target) + {Near(Score(metric, leaves, target, source), source)}
    ensures i != source && i != target ==>
              Offered(metric, leaves, i, source, target + 1) == Offered(metric, leaves, i, source, target)
    ensures i == source ==> Near(Score(metric, leaves, source, target), target) !in Offered(metric, leaves, i, source, target)
    ensures i == target ==> Near(Score(metric, leaves, target, source), source) !in Offered(metric, leaves, i, source, target)
  {
    forall j: nat | j < |leaves| && j != i
      ensures Scored(i, j, source, target + 1) <==>
              Scored(i, j, source, target) || (i == source && j == target) || (i == target && j == source)
    {
    }
  }

  /** There are as many others as leaves but one. */
  lemma OthersCount(metric: Metric, leaves: seq<Part>, i: nat)
    requires i < |leaves|
    ensures |Others(metric, leaves, i)| == |leaves| - 1
  {
    OthersBelow(metric, leaves, i, |leaves|);
    assert Others(metric, leaves, i) == set j: nat | j < |leaves| && j != i :: Near(Score(metric, leaves, i, j), j);
  }

  lemma {:induction false} OthersBelow(metric: Metric, leaves: seq<Part>, i: nat, m: nat)
    requires i < |leaves| && m <= |leaves|
    ensures |set j: nat | j < m && j != i :: Near(Score(metric, leaves, i, j), j)| == if i < m then m - 1 else m
  {
    var below := set j: nat | j < m && j != i :: Near(Score(metric, leaves, i, j), j);
    if m == 0 {
      assert below == {};
    } else {
      OthersBelow(metric, leaves, i, m - 1);
      var rest := set j: nat | j < m - 1 && j != i :: Near(Score(metric, leaves, i, j), j);
      if i == m - 1 {
        assert below == rest;
      } else {
        assert below == rest + {Near(Score(metric, leaves, i, m - 1), m - 1)};
        assert Near(Score(metric, leaves, i, m - 1), m - 1) !in rest;
      }
    }
  }

  /** Separate lists, one per leaf. */
  ghost predicate Separate(lists: seq<array<Slot>>) {
    && (forall i :: 0 <= i < |lists| ==> lists[i].Length == BOUND)
    && (forall i, j :: 0 <= i < j < |lists| ==> lists[i] != lists[j])
  }

  ghost predicate Progress(metric: Metric, leaves: seq<Part>, lists: seq<array<Slot>>, source: nat, target: nat)
    reads lists
  {
    && |lists| == |leaves|
    && forall i :: 0 <= i < |leaves| ==> Nearest(lists[i][..], Offered(metric, leaves, i, source, target))
  }

  /** Records one score at both ends. */
  method RecordPair(metric: Metric, leaves: seq<Part>, lists: seq<array<Slot>>, source: nat, target: nat, score: real)
    requires Symmetric(metric) && Separate(lists) && source < target < |leaves|
    requires score == Score(metric, leaves, source, target)
    requires Progress(metric, leaves, lists, source, target)
    modifies lists[source], lists[target]
    ensures Progress(metric, leaves, lists, source, target + 1)
  {
    hide Nearest, Offered, Retained;
    OfferedPair(metric, leaves, source, source, target);
    OfferedPair(metric, leaves, target, source, target);
    RetainedKeeps(lists[source][..], Offered(metric, leaves, source, source, target), Near(score, target));
    RetainedKeeps(lists[target][..], Offered(metric, leaves, target, source, target), Near(score, source));
    RetainNeighbor(lists[source], Near(score, target));
    RetainNeighbor(lists[target], Near(score, source));
    forall i | 0 <= i < |leaves| ensures Nearest(lists[i][..], Offered(metric, leaves, i, source, target + 1)) {
      if i != source && i != target {
        OfferedPair(metric, leaves, i, source, target);
        assert lists[i][..] == old(lists[i][..]);
      }
    }
  }

  /** Scores the targets above one source, four at a time and then the rest. */
  method ScoreSource(metric: Metric, leaves: seq<Part>, lists: seq<array<Slot>>, source: nat)
    requires Symmetric(metric) && Separate(lists) && source < |leaves|
    requires Progress(metric, leaves, lists, source, source + 1)
    modifies lists
    ensures Progress(metric, leaves, lists, source, |leaves|)
  {
    hide Progress, Symmetric;
    var batches := (|leaves| - source - 1) / 4;
    for batch := 0 to batches
      invariant Progress(metric, leaves, lists, source, source + 1 + batch * 4)
    {
      for lane := 0 to 4
        invariant Progress(metric, leaves, lists, source, source + 1 + batch * 4 + lane)
      {
        var target := source + 1 + batch * 4 + lane;
        var score := Score(metric, leaves, target, source);
        ScoreSymmetric(metric, leaves, source, target);
        ListCount(metric, leaves, lists, source, target);
        RecordPair(metric, leaves, lists, source, target, score);
      }
    }
    for target := source + 1 + batches * 4 to |leaves|
      invariant Progress(metric, leaves, lists, source, target)
    {
      var score := Score(metric, leaves, source, target);
      ListCount(metric, leaves, lists, source, target);
      RecordPair(metric, leaves, lists, source, target, score);
    }
  }

  lemma ScoreSymmetric(metric: Metric, leaves: seq<Part>, i: nat, j: nat)
    requires Symmetric(metric) && i < |leaves| && j < |leaves|
    ensures Score(metric, leaves, i, j) == Score(metric, leaves, j, i)
  {
  }

  lemma ListCount(metric: Metric, leaves: seq<Part>, lists: seq<array<Slot>>, source: nat, target: nat)
    requires Progress(metric, leaves, lists, source, target)
    ensures |lists| == |leaves|
  {
  }

  /** Every list ends up exactly the nearest other leaves, in order. */
  method LeafNeighbors(metric: Metric, leaves: seq<Part>, control: Control) returns (ok: bool, lists: seq<array<Slot>>)
    requires Symmetric(metric)
    modifies control
    ensures control.Answered(old(control.calls), ok)
    ensures ok ==> |lists| == |leaves| && Separate(lists)
    ensures ok ==> forall i :: 0 <= i < |lists| ==> fresh(lists[i])
    ensures ok ==> forall i :: 0 <= i < |leaves| ==> Nearest(lists[i][..], Others(metric, leaves, i))
  {
    hide Nearest, Offered, Others, Symmetric;
    lists := [];
    while |lists| < |leaves|
      invariant |lists| <= |leaves| && Separate(lists)
      invariant forall i :: 0 <= i < |lists| ==> fresh(lists[i]) && forall a :: 0 <= a < BOUND ==> lists[i][a] == Far
      modifies {}
    {
      var list := new Slot[BOUND](a => Far);
      lists := lists + [list];
    }
    forall i | 0 <= i < |leaves| ensures Nearest(lists[i][..], Offered(metric, leaves, i, 0, 1)) {
      OfferedStart(metric, leaves, i);
      NearestNone(lists[i][..]);
    }
    for source := 0 to |leaves|
      invariant control.Answered(old(control.calls), true)
      invariant Progress(metric, leaves, lists, source, source + 1)
      modifies control, lists
    {
      ok := control.Proceed();
      if !ok {
        return;
      }
      ScoreSource(metric, leaves, lists, source);
      forall i | 0 <= i < |leaves| ensures Nearest(lists[i][..], Offered(metric, leaves, i, source + 1, source + 2)) {
        OfferedNext(metric, leaves, i, source);
      }
    }
    forall i | 0 <= i < |leaves| ensures Nearest(lists[i][..], Others(metric, leaves, i)) {
      OfferedAll(metric, leaves, i);
    }
    ok := true;
  }

  lemma NearestNone(row: seq<Slot>)
    requires |row| == BOUND && forall a :: 0 <= a < BOUND ==> row[a] == Far
    ensures Nearest(row, {})
  {
  }
}
