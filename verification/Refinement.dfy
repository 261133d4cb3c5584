/** Rounds of leaf refinement: propose, rank, accept under occupancy bounds, rebuild. */
module Refinement {
  import opened Checkpoints
  import opened Moves
  import opened Neighbors
  import opened Ordering
  import opened Ordinals

  // ---------------------------------------------------------------- proposals

  /** A neighbour list cut to the leaves it can name. */
  ghost predicate RowOk(row: seq<Slot>, leaves: nat, source: nat) {
    forall a :: 0 <= a < |row| ==> row[a].Near? && row[a].leaf < leaves && row[a].leaf != source
  }

  /** The best leaf for a vector among its own and the first `k` listed; a listed leaf
      wins only by being strictly nearer. */
  function BestOf(metric: Metric, leaves: seq<Part>, vector: Vector, source: nat, row: seq<Slot>, k: nat): (real, nat)
    requires source < |leaves| && k <= |row| && forall a :: 0 <= a < |row| ==> row[a].Near? && row[a].leaf < |leaves|
  {
    if k == 0 then (metric.distance(vector, leaves[source].center), source)
    else
      var best := BestOf(metric, leaves, vector, source, row, k - 1);
      var distance := metric.distance(leaves[row[k - 1].leaf].center, vector);
      if distance < best.0 then (distance, row[k - 1].leaf) else best
  }

  lemma {:induction false} BestIsLeast(metric: Metric, leaves: seq<Part>, vector: Vector, source: nat, row: seq<Slot>, k: nat)
    requires Symmetric(metric) && source < |leaves| && k <= |row| && RowOk(row, |leaves|, source)
    ensures var best := BestOf(metric, leaves, vector, source, row, k);
            && best.1 < |leaves| && best.0 == metric.distance(vector, leaves[best.1].center)
            && best.0 <= metric.distance(vector, leaves[source].center)
            && (forall a :: 0 <= a < k ==> best.0 <= metric.distance(vector, leaves[row[a].leaf].center))
            && (best.1 != source ==> best.0 < metric.distance(vector, leaves[source].center))
  {
    if k > 0 {
      BestIsLeast(metric, leaves, vector, source, row, k - 1);
      var center := leaves[row[k - 1].leaf].center;
      assert metric.distance(vector, center) == metric.distance(center, vector);
    }
  }

  method FindBest(metric: Metric, leaves: seq<Part>, vector: Vector, source: nat, list: array<Slot>, width: nat, ghost row: seq<Slot>)
    returns (own: real, best: real, target: nat)
    requires Symmetric(metric) && source < |leaves| && width <= list.Length && row == list[..width]
    requires RowOk(row, |leaves|, source)
    ensures own == metric.distance(vector, leaves[source].center)
    ensures (best, target) == BestOf(metric, leaves, vector, source, row, width)
  {
    own := metric.distance(vector, leaves[source].center);
    best, target := own, source;
    var batches := width / 4;
    for batch := 0 to batches
      invariant (best, target) == BestOf(metric, leaves, vector, source, row, 4 * batch)
    {
      for lane := 0 to 4
        invariant (best, target) == BestOf(metric, leaves, vector, source, row, 4 * batch + lane)
      {
        var slot := list[4 * batch + lane];
        assert slot == row[4 * batch + lane];
        var distance := metric.distance(leaves[slot.leaf].center, vector);
        if distance < best {
          best, target := distance, slot.leaf;
        }
      }
    }
    for i := 4 * batches to width
      invariant (best, target) == BestOf(metric, leaves, vector, source, row, i)
    {
      var slot := list[i];
      assert slot == row[i];
      var distance := metric.distance(vector, leaves[slot.leaf].center);
      assert distance == metric.distance(leaves[slot.leaf].center, vector);
      if distance < best {
        best, target := distance, slot.leaf;
      }
    }
  }

  ghost predicate RowsOk(leaves: seq<Part>, rows: seq<seq<Slot>>) {
    |rows| == |leaves| && forall i :: 0 <= i < |rows| ==> RowOk(rows[i], |leaves|, i)
  }

  ghost predicate MembersOk(vectors: seq<Vector>, leaves: seq<Part>) {
    forall i, j :: 0 <= i < |leaves| && 0 <= j < |leaves[i].members| ==> leaves[i].members[j] < |vectors|
  }

  /** What one member proposes: at most one move, to its best leaf. */
  function Proposal(metric: Metric, vectors: seq<Vector>, leaves: seq<Part>, row: seq<Slot>, source: nat, position: nat): seq<Move>
    requires source < |leaves| && position < |vectors| && RowOk(row, |leaves|, source)
  {
    var best := BestOf(metric, leaves, vectors[position], source, row, |row|);
    if best.1 == source then []
    else [Move(metric.distance(vectors[position], leaves[source].center) - best.0, position, source, best.1)]
  }

  /** The proposals of every member of the leaves below `source` and of the first `k`
      members of `source`. */
  ghost function Proposed(metric: Metric, vectors: seq<Vector>, leaves: seq<Part>, rows: seq<seq<Slot>>, source: nat, k: nat): seq<Move>
    requires RowsOk(leaves, rows) && MembersOk(vectors, leaves)
    requires source <= |leaves| && k <= (if source < |leaves| then |leaves[source].members| else 0)
    decreases source, k
  {
    if k > 0 then
      Proposed(metric, vectors, leaves, rows, source, k - 1)
      + Proposal(metric, vectors, leaves, rows[source], source, leaves[source].members[k - 1])
    else if source > 0 then Proposed(metric, vectors, leaves, rows, source - 1, |leaves[source - 1].members|)
    else []
  }

  /** Every proposal so far comes from a member already passed. */
  ghost predicate PassedBy(leaves: seq<Part>, moves: seq<Move>, source: nat, k: nat) {
    forall m :: m in moves ==>
      || m.source < source
      || (m.source == source < |leaves| && k <= |leaves[source].members| && m.position in leaves[source].members[..k])
  }

  lemma ProposalLegal(metric: Metric, vectors: seq<Vector>, leaves: seq<Part>, row: seq<Slot>, owner: Owners, source: nat, position: nat)
    requires Symmetric(metric) && RowOk(row, |leaves|, source) && source < |leaves|
    requires Splits(leaves, owner, |vectors|) && position in owner && owner[position] == source
    ensures var moves := Proposal(metric, vectors, leaves, row, source, position);
            && Legal(moves, owner, |leaves|) && Improving(metric, vectors, Centers(leaves), moves)
            && forall m :: m in moves ==> m.position == position && m.source == source
  {
    BestIsLeast(metric, leaves, vectors[position], source, row, |row|);
  }

  function Centers(leaves: seq<Part>): (r: seq<Vector>)
    ensures |r| == |leaves| && forall i :: 0 <= i < |leaves| ==> r[i] == leaves[i].center
  {
    seq(|leaves|, i requires 0 <= i < |leaves| => leaves[i].center)
  }

  lemma LegalJoin(one: seq<Move>, two: seq<Move>, owner: Owners, leaves: nat)
    requires Legal(one, owner, leaves) && Legal(two, owner, leaves)
    requires forall a, b :: a in one && b in two ==> a.position != b.position
    ensures Legal(one + two, owner, leaves)
  {
  }

  lemma PassedBefore(leaves: seq<Part>, owner: Owners, n: nat, moves: seq<Move>, source: nat, k: nat)
    requires Splits(leaves, owner, n) && source < |leaves| && k < |leaves[source].members|
    requires Legal(moves, owner, |leaves|) && PassedBy(leaves, moves, source, k)
    ensures var position := leaves[source].members[k];
            && position in owner && owner[position] == source
            && forall m :: m in moves ==> m.position != position
  {
    var members := leaves[source].members;
    assert members[k] in members;
    forall m | m in moves ensures m.position != members[k] {
      if m.source == source {
        var j :| 0 <= j < k && members[..k][j] == m.position;
        assert members[j] < members[k];
      }
    }
  }

  lemma {:induction false} ProposedLegal(metric: Metric, vectors: seq<Vector>, leaves: seq<Part>, rows: seq<seq<Slot>>, owner: Owners, source: nat, k: nat)
    requires Symmetric(metric) && RowsOk(leaves, rows) && MembersOk(vectors, leaves) && Splits(leaves, owner, |vectors|)
    requires source <= |leaves| && k <= (if source < |leaves| then |leaves[source].members| else 0)
    ensures var moves := Proposed(metric, vectors, leaves, rows, source, k);
            && Legal(moves, owner, |leaves|) && Improving(metric, vectors, Centers(leaves), moves) && PassedBy(leaves, moves, source, k)
    decreases source, k
  {
    hide Splits, Legal, Improving, Proposal, Symmetric;
    if k > 0 {
      ProposedLegal(metric, vectors, leaves, rows, owner, source, k - 1);
      var before := Proposed(metric, vectors, leaves, rows, source, k - 1);
      var position := leaves[source].members[k - 1];
      PassedBefore(leaves, owner, |vectors|, before, source, k - 1);
      ProposalLegal(metric, vectors, leaves, rows[source], owner, source, position);
      var more := Proposal(metric, vectors, leaves, rows[source], source, position);
      LegalJoin(before, more, owner, |leaves|);
      ImprovingJoin(metric, vectors, Centers(leaves), before, more);
      PassedJoin(leaves, before, more, source, k);
    } else if source > 0 {
      ProposedLegal(metric, vectors, leaves, rows, owner, source - 1, |leaves[source - 1].members|);
    } else {
      LegalNone(metric, vectors, Centers(leaves), owner);
    }
  }

  // ---------------------------------------------------------------- what is proposed

  function To(metric: Metric, leaves: seq<Part>, vector: Vector, leaf: nat): real
    requires leaf < |leaves|
  {
    metric.distance(vector, leaves[leaf].center)
  }

  /** Slot `a` names the first listed leaf of least distance. */
  ghost predicate FirstNearest(metric: Metric, leaves: seq<Part>, vector: Vector, row: seq<Slot>, a: nat)
    requires forall b :: 0 <= b < |row| ==> row[b].Near? && row[b].leaf < |leaves|
  {
    && a < |row|
    && (forall b :: 0 <= b < |row| ==> To(metric, leaves, vector, row[a].leaf) <= To(metric, leaves, vector, row[b].leaf))
    && (forall b :: 0 <= b < a ==> To(metric, leaves, vector, row[a].leaf) < To(metric, leaves, vector, row[b].leaf))
  }

  /** Some listed leaf is strictly nearer than the vector's own. */
  ghost predicate Drawn(metric: Metric, leaves: seq<Part>, vector: Vector, source: nat, row: seq<Slot>)
    requires source < |leaves| && forall b :: 0 <= b < |row| ==> row[b].Near? && row[b].leaf < |leaves|
  {
    exists a :: 0 <= a < |row| && To(metric, leaves, vector, row[a].leaf) < To(metric, leaves, vector, source)
  }

  /** A move to the first listed leaf of least distance, gaining the difference. */
  ghost predicate ToNearest(metric: Metric, vectors: seq<Vector>, leaves: seq<Part>, row: seq<Slot>, m: Move)
    requires forall b :: 0 <= b < |row| ==> row[b].Near? && row[b].leaf < |leaves|
    requires m.source < |leaves| && m.position < |vectors|
  {
    exists a: nat :: FirstNearest(metric, leaves, vectors[m.position], row, a) && m.target == row[a].leaf
      && m.gain == To(metric, leaves, vectors[m.position], m.source) - To(metric, leaves, vectors[m.position], row[a].leaf)
  }

  /** A member has a move exactly when a listed leaf is strictly nearer than its own, and then
      one: from its leaf to the first nearest. No other position has one. */
  ghost predicate AllDrawn(metric: Metric, vectors: seq<Vector>, leaves: seq<Part>, rows: seq<seq<Slot>>, moves: seq<Move>)
    requires RowsOk(leaves, rows) && MembersOk(vectors, leaves)
  {
    && DistinctPositions(moves)
    && (forall i, k :: 0 <= i < |leaves| && 0 <= k < |leaves[i].members| ==>
          ((exists m :: m in moves && m.position == leaves[i].members[k])
           <==> Drawn(metric, leaves, vectors[leaves[i].members[k]], i, rows[i])))
    && (forall m :: m in moves ==>
          && m.source < |leaves| && m.position < |vectors| && m.position in leaves[m.source].members
          && ToNearest(metric, vectors, leaves, rows[m.source], m))
  }

  /** The own leaf unless a listed one draws, else the first nearest listed one. */
  ghost predicate BestAmong(metric: Metric, leaves: seq<Part>, vector: Vector, source: nat, row: seq<Slot>, best: (real, nat))
    requires source < |leaves| && forall b :: 0 <= b < |row| ==> row[b].Near? && row[b].leaf < |leaves|
  {
    if Drawn(metric, leaves, vector, source, row)
    then exists a: nat :: FirstNearest(metric, leaves, vector, row, a) && best == (To(metric, leaves, vector, row[a].leaf), row[a].leaf)
    else best == (To(metric, leaves, vector, source), source)
  }

  lemma {:induction false} BestIsFirst(metric: Metric, leaves: seq<Part>, vector: Vector, source: nat, row: seq<Slot>, k: nat)
    requires Symmetric(metric) && source < |leaves| && k <= |row| && RowOk(row, |leaves|, source)
    ensures BestAmong(metric, leaves, vector, source, row[..k], BestOf(metric, leaves, vector, source, row, k))
  {
    if k > 0 {
      BestIsFirst(metric, leaves, vector, source, row, k - 1);
      BestNext(metric, leaves, vector, source, row[..k - 1], row[k - 1], BestOf(metric, leaves, vector, source, row, k - 1));
      assert row[..k] == row[..k - 1] + [row[k - 1]];
      hide BestAmong;
      var center := leaves[row[k - 1].leaf].center;
      assert metric.distance(vector, center) == metric.distance(center, vector);
    }
  }

  lemma BestNext(metric: Metric, leaves: seq<Part>, vector: Vector, source: nat, row: seq<Slot>, slot: Slot, best: (real, nat))
    requires source < |leaves| && slot.Near? && slot.leaf < |leaves|
    requires forall b :: 0 <= b < |row| ==> row[b].Near? && row[b].leaf < |leaves|
    requires BestAmong(metric, leaves, vector, source, row, best)
    ensures var here := To(metric, leaves, vector, slot.leaf);
            BestAmong(metric, leaves, vector, source, row + [slot], if here < best.0 then (here, slot.leaf) else best)
  {
    hide To;
    var here, more := To(metric, leaves, vector, slot.leaf), row + [slot];
    if Drawn(metric, leaves, vector, source, row) {
      var a: nat :| FirstNearest(metric, leaves, vector, row, a) && best == (To(metric, leaves, vector, row[a].leaf), row[a].leaf);
      var b :| 0 <= b < |row| && To(metric, leaves, vector, row[b].leaf) < To(metric, leaves, vector, source);
      assert more[b] == row[b];
      assert FirstNearest(metric, leaves, vector, more, if here < best.0 then |row| else a);
    } else if here < best.0 {
      assert more[|row|] == slot;
      assert FirstNearest(metric, leaves, vector, more, |row|);
    } else {
      assert forall b :: 0 <= b < |more| ==> To(metric, leaves, vector, more[b].leaf) >= To(metric, leaves, vector, source);
    }
  }

  lemma ProposalExact(metric: Metric, vectors: seq<Vector>, leaves: seq<Part>, row: seq<Slot>, source: nat, position: nat)
    requires Symmetric(metric) && source < |leaves| && position < |vectors| && RowOk(row, |leaves|, source)
    ensures var moves := Proposal(metric, vectors, leaves, row, source, position);
            && (moves != [] <==> Drawn(metric, leaves, vectors[position], source, row))
            && (forall m :: m in moves ==> m.position == position && m.source == source && ToNearest(metric, vectors, leaves, row, m))
  {
    hide Symmetric, BestOf;
    BestIsFirst(metric, leaves, vectors[position], source, row, |row|);
    BestIsLeast(metric, leaves, vectors[position], source, row, |row|);
    assert row[..|row|] == row;
  }

  /** Every proposal is some member's. */
  lemma {:induction false} ProposedFrom(metric: Metric, vectors: seq<Vector>, leaves: seq<Part>, rows: seq<seq<Slot>>, source: nat, k: nat, m: Move)
    requires Symmetric(metric) && RowsOk(leaves, rows) && MembersOk(vectors, leaves)
    requires source <= |leaves| && k <= (if source < |leaves| then |leaves[source].members| else 0)
    requires m in Proposed(metric, vectors, leaves, rows, source, k)
    ensures m.source < |leaves| && m.position < |vectors| && m.position in leaves[m.source].members
    ensures ToNearest(metric, vectors, leaves, rows[m.source], m)
    ensures Drawn(metric, leaves, vectors[m.position], m.source, rows[m.source])
    decreases source, k
  {
    hide Symmetric, Proposal, ToNearest, Drawn;
    if k > 0 {
      if m in Proposed(metric, vectors, leaves, rows, source, k - 1) {
        ProposedFrom(metric, vectors, leaves, rows, source, k - 1, m);
      } else {
        ProposalExact(metric, vectors, leaves, rows[source], source, leaves[source].members[k - 1]);
      }
    } else if source > 0 {
      ProposedFrom(metric, vectors, leaves, rows, source - 1, |leaves[source - 1].members|, m);
    }
  }

  /** Every member already passed has made its proposals. */
  lemma {:induction false} ProposedHas(metric: Metric, vectors: seq<Vector>, leaves: seq<Part>, rows: seq<seq<Slot>>, source: nat, k: nat, i: nat, j: nat)
    requires RowsOk(leaves, rows) && MembersOk(vectors, leaves)
    requires source <= |leaves| && k <= (if source < |leaves| then |leaves[source].members| else 0)
    requires i < |leaves| && j < |leaves[i].members| && (i < source || (i == source && j < k))
    ensures forall m :: m in Proposal(metric, vectors, leaves, rows[i], i, leaves[i].members[j]) ==> m in Proposed(metric, vectors, leaves, rows, source, k)
    decreases source, k
  {
    hide Proposal;
    if k > 0 {
      if i < source || j < k - 1 { ProposedHas(metric, vectors, leaves, rows, source, k - 1, i, j); }
    } else {
      ProposedHas(metric, vectors, leaves, rows, source - 1, |leaves[source - 1].members|, i, j);
    }
  }

  /** The proposals, in whatever order, are the best moves of exactly the drawn members. */
  lemma DrawnProposed(metric: Metric, vectors: seq<Vector>, leaves: seq<Part>, rows: seq<seq<Slot>>, owner: Owners, moves: seq<Move>)
    requires Symmetric(metric) && RowsOk(leaves, rows) && MembersOk(vectors, leaves) && Splits(leaves, owner, |vectors|)
    requires DistinctPositions(moves)
    requires forall m :: m in moves <==> m in Proposed(metric, vectors, leaves, rows, |leaves|, 0)
    ensures AllDrawn(metric, vectors, leaves, rows, moves)
  {
    hide Symmetric, Proposal, Proposed, ToNearest, Drawn;
    forall m | m in moves
      ensures m.source < |leaves| && m.position < |vectors| && m.position in leaves[m.source].members
      ensures ToNearest(metric, vectors, leaves, rows[m.source], m)
      ensures Drawn(metric, leaves, vectors[m.position], m.source, rows[m.source])
    {
      ProposedFrom(metric, vectors, leaves, rows, |leaves|, 0, m);
    }
    forall i, k | 0 <= i < |leaves| && 0 <= k < |leaves[i].members|
      ensures (exists m :: m in moves && m.position == leaves[i].members[k])
              <==> Drawn(metric, leaves, vectors[leaves[i].members[k]], i, rows[i])
    {
      var p := leaves[i].members[k];
      ProposedHas(metric, vectors, leaves, rows, |leaves|, 0, i, k);
      ProposalExact(metric, vectors, leaves, rows[i], i, p);
      if Drawn(metric, leaves, vectors[p], i, rows[i]) {
        var m := Proposal(metric, vectors, leaves, rows[i], i, p)[0];
        assert m in moves && m.position == p;
      }
      forall m | m in moves && m.position == p ensures m.source == i {
        assert p in leaves[i].members && owner[p] == i;
        assert p in leaves[m.source].members && owner[p] == m.source;
      }
    }
  }

  lemma LegalNone(metric: Metric, vectors: seq<Vector>, centers: seq<Vector>, owner: Owners)
    ensures Legal([], owner, |centers|) && Improving(metric, vectors, centers, [])
  {
  }

  lemma ImprovingJoin(metric: Metric, vectors: seq<Vector>, centers: seq<Vector>, one: seq<Move>, two: seq<Move>)
    requires Improving(metric, vectors, centers, one) && Improving(metric, vectors, centers, two)
    ensures Improving(metric, vectors, centers, one + two)
  {
  }

  lemma PassedJoin(leaves: seq<Part>, before: seq<Move>, more: seq<Move>, source: nat, k: nat)
    requires source < |leaves| && 0 < k <= |leaves[source].members| && PassedBy(leaves, before, source, k - 1)
    requires forall m :: m in more ==> m.source == source && m.position == leaves[source].members[k - 1]
    ensures PassedBy(leaves, before + more, source, k)
  {
    var members := leaves[source].members;
    assert members[..k] == members[..k - 1] + [members[k - 1]];
  }

  /** Asks every member of every leaf for its best move. */
  method Propose(metric: Metric, vectors: seq<Vector>, leaves: seq<Part>, lists: seq<array<Slot>>, width: nat, control: Control,
                 ghost rows: seq<seq<Slot>>)
    returns (ok: bool, moves: seq<Move>)
    requires Symmetric(metric) && RowsOk(leaves, rows) && MembersOk(vectors, leaves)
    requires |lists| == |leaves| && forall i :: 0 <= i < |lists| ==> width <= lists[i].Length && rows[i] == lists[i][..width]
    modifies control
    ensures control.Answered(old(control.calls), ok)
    ensures ok ==> moves == Proposed(metric, vectors, leaves, rows, |leaves|, 0)
    ensures forall i :: 0 <= i < |lists| ==> lists[i][..] == old(lists[i][..])
  {
    hide Symmetric, BestOf, RowOk;
    moves := [];
    for source := 0 to |leaves|
      invariant control.Answered(old(control.calls), true)
      invariant moves == Proposed(metric, vectors, leaves, rows, source, 0)
      modifies control
    {
      ok := control.Proceed();
      if !ok {
        return;
      }
      var members := leaves[source].members;
      for k := 0 to |members|
        invariant moves == Proposed(metric, vectors, leaves, rows, source, k)
        modifies {}
      {
        var position := members[k];
        var own, best, target := FindBest(metric, leaves, vectors[position], source, lists[source], width, rows[source]);
        if target != source {
          moves := moves + [Move(own - best, position, source, target)];
        }
      }
    }
    ok := true;
  }

  // ---------------------------------------------------------------- acceptance

  function Sizes(leaves: seq<Part>): (r: seq<nat>)
    ensures |r| == |leaves| && forall i :: 0 <= i < |leaves| ==> r[i] == |leaves[i].members|
  {
    seq(|leaves|, i requires 0 <= i < |leaves| => |leaves[i].members|)
  }

  /** Takes the ranked moves that fit, reporting each as it is taken. */
  method AcceptMoves(moves: seq<Move>, leaves: seq<Part>, minimum: nat, maximum: nat, round: nat)
    returns (targets: map<nat, nat>, events: seq<Event>)
    requires forall m :: m in moves ==> m.source < |leaves| && m.target < |leaves| && m.source != m.target
    ensures forall m :: m in Accept(moves, |moves|, Sizes(leaves), minimum, maximum).0 ==> m in moves
    ensures targets == Moved(map[], Accept(moves, |moves|, Sizes(leaves), minimum, maximum).0)
    ensures events == Events(Accept(moves, |moves|, Sizes(leaves), minimum, maximum).0, round, leaves)
  {
    hide Accept, Moved, Events, Shift;
    var counts := new nat[|leaves|](i requires 0 <= i < |leaves| => |leaves[i].members|);
    assert counts[..] == Sizes(leaves);
    targets, events := map[], [];
    ghost var taken: seq<Move> := [];
    AcceptNone(moves, Sizes(leaves), minimum, maximum, round, leaves);
    for k := 0 to |moves|
      invariant (taken, counts[..]) == Accept(moves, k, Sizes(leaves), minimum, maximum)
      invariant forall m :: m in taken ==> m in moves
      invariant targets == Moved(map[], taken) && events == Events(taken, round, leaves)
    {
      var m := moves[k];
      AcceptNext(moves, k, Sizes(leaves), minimum, maximum);
      if counts[m.source] > minimum && counts[m.target] < maximum {
        events := events + [Event(round, m.position, leaves[m.source].key, leaves[m.target].key)];
        ghost var was := counts[..];
        counts[m.source] := counts[m.source] - 1;
        counts[m.target] := counts[m.target] + 1;
        assert counts[..] == Shift(was, m) by { ShiftIs(was, m); }
        targets := targets[m.position := m.target];
        MovedAppend(map[], taken, m);
        EventsAppend(taken, m, round, leaves);
        taken := taken + [m];
      }
    }
  }

  lemma AcceptNone(moves: seq<Move>, sizes: seq<nat>, minimum: nat, maximum: nat, round: nat, leaves: seq<Part>)
    requires forall m :: m in moves ==> m.source < |sizes| && m.target < |sizes|
    ensures Accept(moves, 0, sizes, minimum, maximum) == ([], sizes)
    ensures Moved(map[], []) == map[] && Events([], round, leaves) == []
  {
  }

  lemma AcceptNext(moves: seq<Move>, k: nat, sizes: seq<nat>, minimum: nat, maximum: nat)
    requires k < |moves| && forall m :: m in moves ==> m.source < |sizes| && m.target < |sizes|
    ensures var (taken, counts) := Accept(moves, k, sizes, minimum, maximum);
            var m := moves[k];
            Accept(moves, k + 1, sizes, minimum, maximum) ==
            if counts[m.source] > minimum && counts[m.target] < maximum then (taken + [m], Shift(counts, m)) else (taken, counts)
  {
  }

  lemma ShiftIs(counts: seq<nat>, m: Move)
    requires m.source < |counts| && m.target < |counts| && m.source != m.target && counts[m.source] > 0
    ensures Shift(counts, m) == counts[m.source := counts[m.source] - 1][m.target := counts[m.target] + 1]
  {
  }

  lemma EventsAppend(moves: seq<Move>, m: Move, round: nat, leaves: seq<Part>)
    requires forall x :: x in moves + [m] ==> x.source < |leaves| && x.target < |leaves|
    ensures forall x :: x in moves ==> x.source < |leaves| && x.target < |leaves|
    ensures m.source < |leaves| && m.target < |leaves|
    ensures Events(moves + [m], round, leaves) ==
            Events(moves, round, leaves) + [Event(round, m.position, leaves[m.source].key, leaves[m.target].key)]
  {
    assert forall x :: x in moves ==> x in moves + [m];
    assert m in moves + [m];
    assert (moves + [m])[..|moves|] == moves;
  }

  // ---------------------------------------------------------------- rebuilding

  function Destination(targets: map<nat, nat>, position: nat, source: nat): nat {
    if position in targets then targets[position] else source
  }

  ghost predicate Passed(leaves: seq<Part>, owner: Owners, source: nat, k: nat, p: nat)
    requires source < |leaves| ==> k <= |leaves[source].members|
  {
    p in owner && (owner[p] < source || (owner[p] == source < |leaves| && p in leaves[source].members[..k]))
  }

  ghost predicate Lands(owner: Owners, targets: map<nat, nat>, p: nat, leaf: nat) {
    p in owner && Destination(targets, p, owner[p]) == leaf
  }

  /** Passed positions lie in the bucket of their destination, once each. */
  ghost predicate Bucketed(buckets: seq<seq<nat>>, leaves: seq<Part>, owner: Owners, targets: map<nat, nat>, source: nat, k: nat)
    requires source < |leaves| ==> k <= |leaves[source].members|
  {
    && |buckets| == |leaves|
    && (forall i :: 0 <= i < |buckets| ==> Distinct(buckets[i]))
    && (forall i, p :: 0 <= i < |buckets| ==> (p in buckets[i] <==> Passed(leaves, owner, source, k, p) && Lands(owner, targets, p, i)))
  }

  lemma PassedStep(leaves: seq<Part>, owner: Owners, n: nat, source: nat, k: nat, p: nat)
    requires Splits(leaves, owner, n) && source < |leaves| && k < |leaves[source].members|
    ensures Passed(leaves, owner, source, k + 1, p) <==> Passed(leaves, owner, source, k, p) || p == leaves[source].members[k]
    ensures p == leaves[source].members[k] ==> p in owner && owner[p] == source && !Passed(leaves, owner, source, k, p)
  {
    var members := leaves[source].members;
    assert members[..k + 1] == members[..k] + [members[k]];
    assert members[k] in members;
  }

  lemma BucketStep(buckets: seq<seq<nat>>, leaves: seq<Part>, owner: Owners, n: nat, targets: map<nat, nat>, source: nat, k: nat)
    requires Splits(leaves, owner, n) && source < |leaves| && k < |leaves[source].members|
    requires Bucketed(buckets, leaves, owner, targets, source, k)
    requires Destination(targets, leaves[source].members[k], source) < |leaves|
    ensures var position := leaves[source].members[k];
            var at := Destination(targets, position, source);
            Bucketed(buckets[at := buckets[at] + [position]], leaves, owner, targets, source, k + 1)
  {
    hide Splits, Passed;
    var position := leaves[source].members[k];
    var at := Destination(targets, position, source);
    var after := buckets[at := buckets[at] + [position]];
    PassedStep(leaves, owner, n, source, k, position);
    assert position !in buckets[at];
    forall i, p | 0 <= i < |after|
      ensures p in after[i] <==> Passed(leaves, owner, source, k + 1, p) && Lands(owner, targets, p, i)
    {
      PassedStep(leaves, owner, n, source, k, p);
    }
  }

  lemma BucketNext(buckets: seq<seq<nat>>, leaves: seq<Part>, owner: Owners, n: nat, targets: map<nat, nat>, source: nat)
    requires Splits(leaves, owner, n) && source < |leaves|
    requires Bucketed(buckets, leaves, owner, targets, source, |leaves[source].members|)
    ensures Bucketed(buckets, leaves, owner, targets, source + 1, 0)
  {
    forall i, p | 0 <= i < |buckets|
      ensures p in buckets[i] <==> Passed(leaves, owner, source + 1, 0, p) && Lands(owner, targets, p, i)
    {
      PassedNext(leaves, owner, n, source, p);
    }
  }

  lemma PassedNext(leaves: seq<Part>, owner: Owners, n: nat, source: nat, p: nat)
    requires Splits(leaves, owner, n) && source < |leaves|
    ensures Passed(leaves, owner, source + 1, 0, p) <==> Passed(leaves, owner, source, |leaves[source].members|, p)
  {
    var members := leaves[source].members;
    assert members[..|members|] == members;
  }

  /** Sorting a bucket. */
  function PutIn(p: nat, sorted: seq<nat>): (r: seq<nat>)
    ensures forall x :: x in r <==> x == p || x in sorted
  {
    if sorted == [] || p <= sorted[0] then [p] + sorted
    else [sorted[0]] + PutIn(p, sorted[1..])
  }

  lemma {:induction false} PutInAscends(p: nat, sorted: seq<nat>)
    requires Ascending(sorted) && p !in sorted
    ensures Ascending(PutIn(p, sorted))
    decreases |sorted|
  {
    if sorted != [] && p > sorted[0] {
      PutInAscends(p, sorted[1..]);
      var tail := PutIn(p, sorted[1..]);
      forall j | 0 <= j < |tail| ensures tail[j] > sorted[0] {
        assert tail[j] in tail;
      }
    }
  }

  function Sorted(s: seq<nat>): (r: seq<nat>)
    ensures forall x :: x in r <==> x in s
  {
    if s == [] then [] else PutIn(s[|s| - 1], Sorted(s[..|s| - 1]))
  }

  lemma {:induction false} SortedAscends(s: seq<nat>)
    requires Distinct(s)
    ensures Ascending(Sorted(s))
    decreases |s|
  {
    if s != [] {
      SortedAscends(s[..|s| - 1]);
      PutInAscends(s[|s| - 1], Sorted(s[..|s| - 1]));
    }
  }

  function Gather(vectors: seq<Vector>, members: seq<nat>): seq<Vector>
    requires forall j :: 0 <= j < |members| ==> members[j] < |vectors|
  {
    seq(|members|, j requires 0 <= j < |members| => vectors[members[j]])
  }

  /** Every centre is the mean of its members. */
  ghost predicate Centered(metric: Metric, vectors: seq<Vector>, leaves: seq<Part>)
    requires MembersOk(vectors, leaves)
  {
    forall i :: 0 <= i < |leaves| ==> leaves[i].center == metric.mean(Gather(vectors, leaves[i].members))
  }

  ghost predicate SameKeys(one: seq<Part>, two: seq<Part>) {
    |one| == |two| && forall i :: 0 <= i < |one| ==> one[i].key == two[i].key && one[i].children == two[i].children
  }

  lemma BucketsSplit(buckets: seq<seq<nat>>, leaves: seq<Part>, after: seq<Part>, owner: Owners, n: nat, targets: map<nat, nat>)
    requires Splits(leaves, owner, n) && Bucketed(buckets, leaves, owner, targets, |leaves|, 0)
    requires targets.Keys <= owner.Keys && forall p :: p in targets ==> targets[p] < |leaves|
    requires |after| == |leaves| && forall i :: 0 <= i < |after| ==> after[i].members == Sorted(buckets[i])
    ensures Splits(after, owner + targets, n)
  {
    var moved := owner + targets;
    forall i | 0 <= i < |after| ensures Ascending(after[i].members) {
      SortedAscends(buckets[i]);
    }
    forall p | p in owner ensures Passed(leaves, owner, |leaves|, 0, p) {
    }
    forall i, p | 0 <= i < |after| ensures p in after[i].members <==> p in moved && moved[p] == i {
      assert p in after[i].members <==> p in buckets[i];
      assert p in moved && moved[p] == i <==> Lands(owner, targets, p, i);
    }
  }

  /** Fills the buckets in one pass over the leaves. */
  method Distribute(leaves: seq<Part>, targets: map<nat, nat>, ghost owner: Owners, ghost n: nat) returns (buckets: seq<seq<nat>>)
    requires Splits(leaves, owner, n) && forall p :: p in targets ==> targets[p] < |leaves|
    ensures Bucketed(buckets, leaves, owner, targets, |leaves|, 0)
  {
    hide Splits, Passed;
    var members := new seq<nat>[|leaves|](i => []);
    BucketNone(members[..], leaves, owner, targets);
    for source := 0 to |leaves|
      invariant Bucketed(members[..], leaves, owner, targets, source, 0)
    {
      for k := 0 to |leaves[source].members|
        invariant Bucketed(members[..], leaves, owner, targets, source, k)
      {
        var position := leaves[source].members[k];
        var at := Destination(targets, position, source);
        BucketStep(members[..], leaves, owner, n, targets, source, k);
        ghost var was := members[..];
        members[at] := members[at] + [position];
        assert members[..] == was[at := was[at] + [position]];
      }
      BucketNext(members[..], leaves, owner, n, targets, source);
    }
    buckets := members[..];
  }

  lemma BucketNone(buckets: seq<seq<nat>>, leaves: seq<Part>, owner: Owners, targets: map<nat, nat>)
    requires |buckets| == |leaves| && forall i :: 0 <= i < |buckets| ==> buckets[i] == []
    ensures Bucketed(buckets, leaves, owner, targets, 0, 0)
  {
  }

  lemma BucketMembers(buckets: seq<seq<nat>>, leaves: seq<Part>, owner: Owners, n: nat, targets: map<nat, nat>)
    requires Splits(leaves, owner, n) && Bucketed(buckets, leaves, owner, targets, |leaves|, 0)
    ensures forall i, j :: 0 <= i < |buckets| && 0 <= j < |Sorted(buckets[i])| ==> Sorted(buckets[i])[j] < n
  {
    forall i, j | 0 <= i < |buckets| && 0 <= j < |Sorted(buckets[i])| ensures Sorted(buckets[i])[j] < n {
      var p := Sorted(buckets[i])[j];
      assert p in Sorted(buckets[i]) && p in buckets[i];
      assert Lands(owner, targets, p, i);
    }
  }

  /** Gives every leaf its new members and recomputes its centre. */
  method Rebuild(metric: Metric, vectors: seq<Vector>, leaves: array<Part>, targets: map<nat, nat>, ghost owner: Owners)
    requires Splits(leaves[..], owner, |vectors|)
    requires targets.Keys <= owner.Keys && forall p :: p in targets ==> targets[p] < leaves.Length
    modifies leaves
    ensures Splits(leaves[..], owner + targets, |vectors|) && SameKeys(leaves[..], old(leaves[..]))
    ensures MembersOk(vectors, leaves[..]) && Centered(metric, vectors, leaves[..])
  {
    hide Splits, Bucketed, Sorted;
    ghost var before := leaves[..];
    var buckets := Distribute(leaves[..], targets, owner, |vectors|);
    BucketMembers(buckets, before, owner, |vectors|, targets);
    assert |buckets| == leaves.Length by { BucketCount(buckets, before, owner, targets); }
    for i := 0 to leaves.Length
      invariant forall j :: i <= j < leaves.Length ==> leaves[j] == before[j]
      invariant forall j :: 0 <= j < i ==>
                  leaves[j] == before[j].(members := Sorted(buckets[j]), center := metric.mean(Gather(vectors, Sorted(buckets[j]))))
    {
      var members := Sorted(buckets[i]);
      leaves[i] := leaves[i].(members := members, center := metric.mean(Gather(vectors, members)));
    }
    BucketsSplit(buckets, before, leaves[..], owner, |vectors|, targets);
  }

  lemma BucketCount(buckets: seq<seq<nat>>, leaves: seq<Part>, owner: Owners, targets: map<nat, nat>)
    requires Bucketed(buckets, leaves, owner, targets, |leaves|, 0)
    ensures |buckets| == |leaves|
  {
  }

  // ---------------------------------------------------------------- rounds

  /** Each leaf's row is the sorted run of its nearest other leaves. */
  ghost predicate RowsExact(metric: Metric, leaves: seq<Part>, rows: seq<seq<Slot>>) {
    |rows| == |leaves| && forall i :: 0 <= i < |rows| ==> RowExact(metric, leaves, rows[i], i)
  }

  ghost predicate RowExact(metric: Metric, leaves: seq<Part>, row: seq<Slot>, i: nat)
    requires i < |leaves|
  {
    exists list :: Nearest(list, Others(metric, leaves, i)) && row == list[..Limit(|leaves| - 1)]
  }

  lemma RowExactOk(metric: Metric, leaves: seq<Part>, list: seq<Slot>, i: nat)
    requires i < |leaves| && Nearest(list, Others(metric, leaves, i))
    ensures RowOk(list[..Limit(|leaves| - 1)], |leaves|, i) && RowExact(metric, leaves, list[..Limit(|leaves| - 1)], i)
  {
    OthersCount(metric, leaves, i);
    var row := list[..Limit(|leaves| - 1)];
    forall a | 0 <= a < |row| ensures row[a].Near? && row[a].leaf < |leaves| && row[a].leaf != i {
      assert list[a] in Others(metric, leaves, i);
    }
  }

  /** What refinement keeps, however many moves `log` reports: the positions, the leaf
      keys, the occupancy bounds, and a log that replays to the new membership. */
  ghost predicate Refines(before: seq<Part>, owner: Owners, after: seq<Part>, moved: Owners, n: nat,
                          minimum: nat, maximum: nat, log: seq<Event>)
  {
    && Splits(before, owner, n) && Splits(after, moved, n)
    && moved.Keys == owner.Keys && SameKeys(before, after)
    && Replay(Homes(before, owner), log) == Homes(after, moved) && Tracks(Homes(before, owner), log)
    && forall i :: 0 <= i < |before| ==>
      && (|before[i].members| >= minimum ==> |after[i].members| >= minimum)
      && (|before[i].members| <= maximum ==> |after[i].members| <= maximum)
  }

  lemma RefinesNone(leaves: seq<Part>, owner: Owners, n: nat, minimum: nat, maximum: nat)
    requires Splits(leaves, owner, n)
    ensures Refines(leaves, owner, leaves, owner, n, minimum, maximum, [])
  {
  }

  lemma RefinesTrans(a: seq<Part>, ownerA: Owners, b: seq<Part>, ownerB: Owners, c: seq<Part>, ownerC: Owners, n: nat,
                     minimum: nat, maximum: nat, log: seq<Event>, more: seq<Event>)
    requires Refines(a, ownerA, b, ownerB, n, minimum, maximum, log)
    requires Refines(b, ownerB, c, ownerC, n, minimum, maximum, more)
    ensures Refines(a, ownerA, c, ownerC, n, minimum, maximum, log + more)
  {
    hide Splits, Replay, Tracks;
    RefinesInside(a, ownerA, b, ownerB, n, minimum, maximum, log);
    RefinesInside(b, ownerB, c, ownerC, n, minimum, maximum, more);
    ReplayAppend(Homes(a, ownerA), log, more);
    TracksAppend(Homes(a, ownerA), log, more);
  }

  lemma RefinesInside(before: seq<Part>, owner: Owners, after: seq<Part>, moved: Owners, n: nat,
                      minimum: nat, maximum: nat, log: seq<Event>)
    requires Refines(before, owner, after, moved, n, minimum, maximum, log)
    ensures forall p :: p in owner ==> owner[p] < |before|
    ensures forall p :: p in moved ==> moved[p] < |after|
  {
  }

  lemma SplitsInside(leaves: seq<Part>, owner: Owners, vectors: seq<Vector>)
    requires Splits(leaves, owner, |vectors|)
    ensures MembersOk(vectors, leaves)
    ensures forall p :: p in owner ==> owner[p] < |leaves|
  {
    forall i, j | 0 <= i < |leaves| && 0 <= j < |leaves[i].members| ensures leaves[i].members[j] < |vectors| {
      var p := leaves[i].members[j];
      assert p in leaves[i].members && p in owner;
    }
  }

  lemma AcceptedBounds(before: seq<Part>, owner: Owners, after: seq<Part>, n: nat, minimum: nat, maximum: nat, moves: seq<Move>, i: nat)
    requires Splits(before, owner, n) && Legal(moves, owner, |before|) && i < |before| == |after|
    requires Splits(after, Moved(owner, Accept(moves, |moves|, Sizes(before), minimum, maximum).0), n)
    ensures |before[i].members| >= minimum ==> |after[i].members| >= minimum
    ensures |before[i].members| <= maximum ==> |after[i].members| <= maximum
  {
    hide Accept, Moved, Splits, Held;
    SplitSize(before, owner, n, i);
    SplitSize(after, Moved(owner, Accept(moves, |moves|, Sizes(before), minimum, maximum).0), n, i);
    AcceptedCounts(moves, |moves|, Sizes(before), minimum, maximum, owner, i);
  }

  lemma SameHomes(before: seq<Part>, after: seq<Part>, owner: Owners)
    requires SameKeys(before, after) && forall p :: p in owner ==> owner[p] < |before|
    ensures Homes(before, owner) == Homes(after, owner)
  {
  }

  /** Taking legal moves under the bounds refines the leaves. */
  lemma AcceptedRefines(before: seq<Part>, owner: Owners, after: seq<Part>, n: nat, minimum: nat, maximum: nat,
                        moves: seq<Move>, taken: seq<Move>, round: nat)
    requires Splits(before, owner, n) && Legal(moves, owner, |before|)
    requires taken == Accept(moves, |moves|, Sizes(before), minimum, maximum).0
    requires Splits(after, Moved(owner, taken), n) && SameKeys(before, after)
    ensures Legal(taken, owner, |before|)
    ensures Refines(before, owner, after, Moved(owner, taken), n, minimum, maximum, Events(taken, round, before))
  {
    hide Accept, Moved, Events, Replay, Tracks, Legal, Splits, Homes;
    var moved := Moved(owner, taken);
    SplitsWithin(before, owner, n);
    AcceptedLegal(moves, |moves|, Sizes(before), minimum, maximum, owner);
    LegalOwned(taken, owner, |before|);
    MovedOverrides(owner, taken, |before|);
    EventsReplay(taken, round, before, owner);
    SameHomes(before, after, moved);
    forall i | 0 <= i < |before|
      ensures (|before[i].members| >= minimum ==> |after[i].members| >= minimum)
              && (|before[i].members| <= maximum ==> |after[i].members| <= maximum)
    {
      AcceptedBounds(before, owner, after, n, minimum, maximum, moves, i);
    }
  }

  lemma SplitsWithin(leaves: seq<Part>, owner: Owners, n: nat)
    requires Splits(leaves, owner, n)
    ensures forall p :: p in owner ==> owner[p] < |leaves|
  {
  }

  lemma LegalOwned(moves: seq<Move>, owner: Owners, leaves: nat)
    requires Legal(moves, owner, leaves)
    ensures forall m :: m in moves ==> m.position in owner && m.source < leaves && m.target < leaves && m.source != m.target
  {
  }

  lemma ArrangedLegal(metric: Metric, vectors: seq<Vector>, centers: seq<Vector>, owner: Owners, moves: seq<Move>)
    requires Legal(moves, owner, |centers|) && Improving(metric, vectors, centers, moves)
    ensures Legal(Arrange(moves), owner, |centers|) && Improving(metric, vectors, centers, Arrange(moves))
    ensures Ranked(Arrange(moves))
  {
    SameMovesDistinct(moves, Arrange(moves));
    ArrangeRanks(moves);
  }

  lemma ChosenImprove(metric: Metric, vectors: seq<Vector>, centers: seq<Vector>, moves: seq<Move>, taken: seq<Move>)
    requires Improving(metric, vectors, centers, moves) && forall m :: m in taken ==> m in moves
    ensures Improving(metric, vectors, centers, taken)
  {
  }

  /** One round: the leaves and owners it starts from, its neighbour lists, its ranked
      proposals, and those of them it takes. */
  datatype Stage = Stage(leaves: seq<Part>, owner: Owners, rows: seq<seq<Slot>>, moves: seq<Move>, taken: seq<Move>)

  /** Exact neighbour lists, every member's proposal, ranked, and taken in turn. */
  ghost predicate Computed(metric: Metric, vectors: seq<Vector>, stage: Stage, minimum: nat, maximum: nat) {
    var leaves := stage.leaves;
    && Splits(leaves, stage.owner, |vectors|) && MembersOk(vectors, leaves)
    && RowsExact(metric, leaves, stage.rows) && RowsOk(leaves, stage.rows)
    && stage.moves == Arrange(Proposed(metric, vectors, leaves, stage.rows, |leaves|, 0))
    && Legal(stage.moves, stage.owner, |leaves|)
    && stage.taken == Accept(stage.moves, |stage.moves|, Sizes(leaves), minimum, maximum).0
    && Legal(stage.taken, stage.owner, |leaves|)
  }

  /** The moves are the best ones of exactly the members some listed leaf draws, ranked, and of
      these greedily all there is room for are taken. */
  ghost predicate BestTaken(metric: Metric, vectors: seq<Vector>, stage: Stage, minimum: nat, maximum: nat)
    requires RowsOk(stage.leaves, stage.rows) && MembersOk(vectors, stage.leaves)
  {
    && AllDrawn(metric, vectors, stage.leaves, stage.rows, stage.moves) && Ranked(stage.moves)
    && exists flags :: Greedy(stage.moves, flags, stage.owner, minimum, maximum) && stage.taken == Chosen(stage.moves, flags)
  }

  /** What a round must propose and take. */
  ghost predicate Proper(metric: Metric, vectors: seq<Vector>, stage: Stage, minimum: nat, maximum: nat) {
    Computed(metric, vectors, stage, minimum, maximum) && BestTaken(metric, vectors, stage, minimum, maximum)
  }

  lemma ComputedIsBest(metric: Metric, vectors: seq<Vector>, stage: Stage, minimum: nat, maximum: nat)
    requires Symmetric(metric) && Computed(metric, vectors, stage, minimum, maximum)
    ensures BestTaken(metric, vectors, stage, minimum, maximum)
  {
    hide Symmetric, Splits, Proposed, Accept, RowsExact, RowOk, AllDrawn, Ranked, Greedy, Chosen, Held;
    var proposed := Proposed(metric, vectors, stage.leaves, stage.rows, |stage.leaves|, 0);
    ArrangeRanks(proposed);
    forall m ensures m in stage.moves <==> m in proposed {
      assert m in multiset(stage.moves) <==> m in multiset(proposed);
    }
    DrawnProposed(metric, vectors, stage.leaves, stage.rows, stage.owner, stage.moves);
    forall i | 0 <= i < |stage.leaves| ensures Sizes(stage.leaves)[i] == |Held(stage.owner, i)| {
      SplitSize(stage.leaves, stage.owner, |vectors|, i);
    }
    var flags := AcceptedGreedy(stage.moves, |stage.moves|, Sizes(stage.leaves), minimum, maximum, stage.owner);
    assert stage.moves[..|stage.moves|] == stage.moves;
  }

  /** A round that takes moves rebuilds every leaf from its new members; one that takes none
      changes nothing. */
  ghost predicate Yields(metric: Metric, vectors: seq<Vector>, stage: Stage, after: seq<Part>, moved: Owners) {
    && moved == Moved(stage.owner, stage.taken)
    && Splits(after, moved, |vectors|) && SameKeys(after, stage.leaves)
    && (stage.taken == [] ==> after == stage.leaves)
    && (stage.taken != [] ==> MembersOk(vectors, after) && Centered(metric, vectors, after))
  }

  /** The round lowers the total distance to the centres it used. */
  ghost predicate Lowers(metric: Metric, vectors: seq<Vector>, stage: Stage)
    requires Splits(stage.leaves, stage.owner, |vectors|) && Legal(stage.taken, stage.owner, |stage.leaves|)
  {
    MovedInside(vectors, stage);
    Cost(metric, vectors, Centers(stage.leaves), Moved(stage.owner, stage.taken), |vectors|)
    < Cost(metric, vectors, Centers(stage.leaves), stage.owner, |vectors|)
  }

  lemma MovedInside(vectors: seq<Vector>, stage: Stage)
    requires Splits(stage.leaves, stage.owner, |vectors|) && Legal(stage.taken, stage.owner, |stage.leaves|)
    ensures forall p :: p in stage.owner ==> stage.owner[p] < |stage.leaves|
    ensures forall p :: p in Moved(stage.owner, stage.taken) ==> Moved(stage.owner, stage.taken)[p] < |stage.leaves|
  {
    MovedOverrides(stage.owner, stage.taken, |stage.leaves|);
  }

  /** One round. */
  method Round(metric: Metric, vectors: seq<Vector>, leaves: array<Part>, minimum: nat, maximum: nat, round: nat, control: Control,
               ghost owner: Owners)
    returns (ok: bool, any: bool, events: seq<Event>, ghost stage: Stage)
    requires Symmetric(metric) && leaves.Length >= 2 && Splits(leaves[..], owner, |vectors|)
    modifies leaves, control
    ensures control.Answered(old(control.calls), ok)
    ensures !ok ==> leaves[..] == old(leaves[..])
    ensures ok ==> stage.leaves == old(leaves[..]) && stage.owner == owner && Proper(metric, vectors, stage, minimum, maximum)
    ensures ok ==> Yields(metric, vectors, stage, leaves[..], Moved(owner, stage.taken)) && (any <==> stage.taken != [])
    ensures ok ==> events == StageEvents(stage, round)
    ensures ok ==> Refines(old(leaves[..]), owner, leaves[..], Moved(owner, stage.taken), |vectors|, minimum, maximum, events)
    ensures ok && any ==> Lowers(metric, vectors, stage)
  {
    hide Symmetric, Splits, Nearest, Others, RowOk, RowExact, Legal, Improving, Ranked, Proposed, Arrange, Accept, Moved, Events, Refines,
      Cost, Centered, Lowers, BestTaken;
    ghost var before := leaves[..];
    stage, events, any := Stage(before, owner, [], [], []), [], false;
    ok := control.Proceed();
    if !ok {
      return;
    }
    var lists;
    ok, lists := LeafNeighbors(metric, leaves[..], control);
    if !ok {
      return;
    }
    var width := Limit(leaves.Length - 1);
    ghost var rows := seq(|lists|, i requires 0 <= i < |lists| reads lists => lists[i][..width]);
    forall i | 0 <= i < |rows| ensures RowOk(rows[i], |before|, i) && RowExact(metric, before, rows[i], i) {
      RowExactOk(metric, before, lists[i][..], i);
      assert lists[i][..][..width] == lists[i][..width];
    }
    SplitsInside(before, owner, vectors);
    var proposed;
    ok, proposed := Propose(metric, vectors, leaves[..], lists, width, control, rows);
    if !ok {
      return;
    }
    ProposedLegal(metric, vectors, before, rows, owner, |before|, 0);
    ArrangedLegal(metric, vectors, Centers(before), owner, proposed);
    var moves := Arrange(proposed);
    LegalOwned(moves, owner, |before|);
    var targets;
    targets, events := AcceptMoves(moves, leaves[..], minimum, maximum, round);
    ghost var taken := Accept(moves, |moves|, Sizes(before), minimum, maximum).0;
    stage := Stage(before, owner, rows, moves, taken);
    AcceptedLegal(moves, |moves|, Sizes(before), minimum, maximum, owner);
    LegalOwned(taken, owner, |before|);
    ChosenImprove(metric, vectors, Centers(before), moves, taken);
    ComputedIsBest(metric, vectors, stage, minimum, maximum);
    MovedOverrides(owner, taken, |before|);
    any := targets != map[];
    MovedAny(taken);
    if any {
      Rebuild(metric, vectors, leaves, targets, owner);
      RoundLowers(metric, vectors, stage);
    } else {
      MovedNothing(owner, taken);
    }
    AcceptedRefines(before, owner, leaves[..], |vectors|, minimum, maximum, moves, taken, round);
  }

  lemma RoundLowers(metric: Metric, vectors: seq<Vector>, stage: Stage)
    requires Splits(stage.leaves, stage.owner, |vectors|) && Legal(stage.taken, stage.owner, |stage.leaves|)
    requires Improving(metric, vectors, Centers(stage.leaves), stage.taken) && stage.taken != []
    ensures Lowers(metric, vectors, stage)
  {
    hide Splits, Legal, Improving, Cost;
    RoundImproves(metric, vectors, stage.leaves, stage.owner, stage.taken);
  }

  /** What a round reports. */
  ghost function StageEvents(stage: Stage, round: nat): seq<Event> {
    if forall m :: m in stage.taken ==> m.source < |stage.leaves| && m.target < |stage.leaves|
    then Events(stage.taken, round, stage.leaves) else []
  }

  lemma MovedAny(moves: seq<Move>)
    ensures Moved(map[], moves) == map[] <==> moves == []
  {
    if moves != [] {
      assert moves[|moves| - 1].position in Moved(map[], moves);
    }
  }

  lemma MovedNothing(owner: Owners, moves: seq<Move>)
    requires moves == []
    ensures Moved(owner, moves) == owner
  {
  }

  /** A round that moves anything lowers the total distance to the centres it used, by
      the sum of the gains it accepted. */
  lemma RoundImproves(metric: Metric, vectors: seq<Vector>, leaves: seq<Part>, owner: Owners, taken: seq<Move>)
    requires Splits(leaves, owner, |vectors|) && Legal(taken, owner, |leaves|) && Improving(metric, vectors, Centers(leaves), taken)
    ensures forall p :: p in Moved(owner, taken) ==> Moved(owner, taken)[p] < |leaves|
    ensures Cost(metric, vectors, Centers(leaves), Moved(owner, taken), |vectors|) ==
            Cost(metric, vectors, Centers(leaves), owner, |vectors|) - Gains(taken)
    ensures taken != [] ==>
              Cost(metric, vectors, Centers(leaves), Moved(owner, taken), |vectors|) <
              Cost(metric, vectors, Centers(leaves), owner, |vectors|)
  {
    CostMoved(metric, vectors, Centers(leaves), owner, taken);
  }

  /** Rounds run one after another, from one membership to another: each starts where the
      one before it ended, and each does what a round must. */
  ghost predicate Chained(metric: Metric, vectors: seq<Vector>, minimum: nat, maximum: nat, stages: seq<Stage>,
                          before: seq<Part>, owner: Owners, after: seq<Part>, moved: Owners)
  {
    if stages == [] then before == after && owner == moved
    else
      var last := stages[|stages| - 1];
      && Chained(metric, vectors, minimum, maximum, stages[..|stages| - 1], before, owner, last.leaves, last.owner)
      && Proper(metric, vectors, last, minimum, maximum) && Yields(metric, vectors, last, after, moved)
  }

  /** The moves of all rounds, in order. */
  ghost function Report(stages: seq<Stage>): seq<Event> {
    if stages == [] then []
    else Report(stages[..|stages| - 1]) + StageEvents(stages[|stages| - 1], |stages| - 1)
  }

  lemma ChainedNext(metric: Metric, vectors: seq<Vector>, minimum: nat, maximum: nat, stages: seq<Stage>,
                    before: seq<Part>, owner: Owners, last: Stage, after: seq<Part>, moved: Owners)
    requires Chained(metric, vectors, minimum, maximum, stages, before, owner, last.leaves, last.owner)
    requires Proper(metric, vectors, last, minimum, maximum) && Yields(metric, vectors, last, after, moved)
    ensures Chained(metric, vectors, minimum, maximum, stages + [last], before, owner, after, moved)
    ensures Report(stages + [last]) == Report(stages) + StageEvents(last, |stages|)
  {
    hide Proper, Yields, StageEvents;
    assert (stages + [last])[..|stages|] == stages;
  }

  lemma {:induction false} AscendingUnique(s: seq<nat>, t: seq<nat>)
    requires Ascending(s) && Ascending(t) && forall p :: p in s <==> p in t
    ensures s == t
    decreases |s|
  {
    assert s == [] <==> t == [] by {
      if s != [] { assert s[0] in s; }
      if t != [] { assert t[0] in t; }
    }
    if s != [] {
      assert s[|s| - 1] in t;
      assert t[|t| - 1] in s;
      var front, other := s[..|s| - 1], t[..|t| - 1];
      assert s[|s| - 1] == t[|t| - 1];
      forall p ensures p in front <==> p in other {
        assert p in front <==> p in s && p != s[|s| - 1];
        assert p in other <==> p in t && p != t[|t| - 1];
      }
      AscendingUnique(front, other);
    }
  }

  lemma RowsUnique(metric: Metric, leaves: seq<Part>, one: seq<seq<Slot>>, two: seq<seq<Slot>>)
    requires RowsExact(metric, leaves, one) && RowsExact(metric, leaves, two)
    ensures one == two
  {
    forall i | 0 <= i < |one| ensures one[i] == two[i] {
      assert RowExact(metric, leaves, one[i], i) && RowExact(metric, leaves, two[i], i);
      var others := Others(metric, leaves, i);
      var a :| Nearest(a, others) && one[i] == a[..Limit(|leaves| - 1)];
      var b :| Nearest(b, others) && two[i] == b[..Limit(|leaves| - 1)];
      NearestUnique(a, b, others);
    }
  }

  lemma LeavesUnique(metric: Metric, vectors: seq<Vector>, one: seq<Part>, two: seq<Part>, owner: Owners)
    requires Splits(one, owner, |vectors|) && Splits(two, owner, |vectors|) && SameKeys(one, two)
    requires MembersOk(vectors, one) && MembersOk(vectors, two)
    requires Centered(metric, vectors, one) && Centered(metric, vectors, two)
    ensures one == two
  {
    forall i | 0 <= i < |one| ensures one[i] == two[i] {
      forall p ensures p in one[i].members <==> p in two[i].members {
        assert p in one[i].members <==> p in owner && owner[p] == i;
      }
      AscendingUnique(one[i].members, two[i].members);
    }
  }

  /** A round is determined by the leaves it starts from: its lists, proposals and moves, and
      the leaves it ends with. */
  lemma RoundDetermined(metric: Metric, vectors: seq<Vector>, minimum: nat, maximum: nat,
                        one: Stage, afterOne: seq<Part>, movedOne: Owners, two: Stage, afterTwo: seq<Part>, movedTwo: Owners)
    requires one.leaves == two.leaves && one.owner == two.owner
    requires Proper(metric, vectors, one, minimum, maximum) && Yields(metric, vectors, one, afterOne, movedOne)
    requires Proper(metric, vectors, two, minimum, maximum) && Yields(metric, vectors, two, afterTwo, movedTwo)
    ensures one == two && afterOne == afterTwo && movedOne == movedTwo
  {
    hide Splits, Legal, Accept, Arrange, Proposed, Centered, RowsExact, Moved;
    RowsUnique(metric, one.leaves, one.rows, two.rows);
    if one.taken != [] {
      LeavesUnique(metric, vectors, afterOne, afterTwo, movedOne);
    }
  }

  /** Every reported event is a move some round took, under that round's number and with the
      keys of its leaves. */
  lemma {:induction false} ReportTells(stages: seq<Stage>, event: Event)
    requires event in Report(stages)
    ensures event.round < |stages|
    ensures var stage := stages[event.round];
            exists m :: m in stage.taken && m.source < |stage.leaves| && m.target < |stage.leaves|
              && event == Event(event.round, m.position, stage.leaves[m.source].key, stage.leaves[m.target].key)
    decreases |stages|
  {
    hide StageEvents;
    var front, last := stages[..|stages| - 1], stages[|stages| - 1];
    if event in Report(front) {
      ReportTells(front, event);
    } else {
      StageTells(last, |front|, event);
    }
  }

  lemma StageTells(stage: Stage, round: nat, event: Event)
    requires event in StageEvents(stage, round)
    ensures exists m :: m in stage.taken && m.source < |stage.leaves| && m.target < |stage.leaves|
              && event == Event(round, m.position, stage.leaves[m.source].key, stage.leaves[m.target].key)
  {
    hide Events;
    var k :| 0 <= k < |StageEvents(stage, round)| && StageEvents(stage, round)[k] == event;
    assert stage.taken[k] in stage.taken;
  }

  /** Every round that took moves lowered the cost against its own centres. */
  ghost predicate AllLower(metric: Metric, vectors: seq<Vector>, minimum: nat, maximum: nat, stages: seq<Stage>) {
    forall i :: 0 <= i < |stages| && stages[i].taken != [] ==>
      Proper(metric, vectors, stages[i], minimum, maximum) && Lowers(metric, vectors, stages[i])
  }

  /** Up to `rounds` rounds, stopping early only after one that moves nothing. */
  method Refine(metric: Metric, vectors: seq<Vector>, leaves: array<Part>, minimum: nat, maximum: nat, rounds: nat, control: Control,
                ghost owner: Owners)
    returns (ok: bool, log: seq<Event>, ghost moved: Owners, ghost stages: seq<Stage>)
    requires Symmetric(metric) && Splits(leaves[..], owner, |vectors|)
    modifies leaves, control
    ensures control.Answered(old(control.calls), ok)
    ensures Chained(metric, vectors, minimum, maximum, stages, old(leaves[..]), owner, leaves[..], moved) && log == Report(stages)
    ensures AllLower(metric, vectors, minimum, maximum, stages)
    ensures forall i :: 0 <= i < |stages| - 1 ==> stages[i].taken != []
    ensures |stages| <= (if leaves.Length < 2 then 0 else rounds)
    ensures ok && leaves.Length >= 2 && |stages| < rounds ==> stages != [] && stages[|stages| - 1].taken == []
    ensures Refines(old(leaves[..]), owner, leaves[..], moved, |vectors|, minimum, maximum, log)
    ensures MembersOk(vectors, old(leaves[..])) && MembersOk(vectors, leaves[..])
    ensures Centered(metric, vectors, old(leaves[..])) ==> Centered(metric, vectors, leaves[..])
  {
    hide Symmetric, Splits, Legal, Moved, Refines, RowsExact, RowsOk, Chained, Report, Proper, StageEvents, Lowers;
    moved, log, stages := owner, [], [];
    SplitsInside(leaves[..], owner, vectors);
    RefinesNone(leaves[..], owner, |vectors|, minimum, maximum);
    NothingRun(metric, vectors, minimum, maximum, leaves[..], owner);
    if leaves.Length < 2 {
      return true, log, moved, stages;
    }
    for round := 0 to rounds
      invariant control.Answered(old(control.calls), true)
      invariant Refines(old(leaves[..]), owner, leaves[..], moved, |vectors|, minimum, maximum, log)
      invariant Splits(leaves[..], moved, |vectors|)
      invariant MembersOk(vectors, leaves[..])
      invariant Centered(metric, vectors, old(leaves[..])) ==> Centered(metric, vectors, leaves[..])
      invariant |stages| == round && forall i :: 0 <= i < |stages| ==> stages[i].taken != []
      invariant Chained(metric, vectors, minimum, maximum, stages, old(leaves[..]), owner, leaves[..], moved) && log == Report(stages)
      invariant AllLower(metric, vectors, minimum, maximum, stages)
    {
      ghost var before, owners := leaves[..], moved;
      var any, events;
      ghost var stage;
      ok, any, events, stage := Round(metric, vectors, leaves, minimum, maximum, round, control, moved);
      if !ok {
        return;
      }
      moved := Moved(owners, stage.taken);
      RefinesTrans(old(leaves[..]), owner, before, owners, leaves[..], moved, |vectors|, minimum, maximum, log, events);
      ChainedNext(metric, vectors, minimum, maximum, stages, old(leaves[..]), owner, stage, leaves[..], moved);
      log, stages := log + events, stages + [stage];
      if !any {
        break;
      }
    }
    ok := true;
  }

  lemma NothingRun(metric: Metric, vectors: seq<Vector>, minimum: nat, maximum: nat, leaves: seq<Part>, owner: Owners)
    ensures Chained(metric, vectors, minimum, maximum, [], leaves, owner, leaves, owner) && Report([]) == []
  {
  }

  // ---------------------------------------------------------------- higher levels

  /** Where each key's partition is. */
  ghost predicate Indexes(positions: map<nat, nat>, parts: seq<Part>) {
    && (forall key :: key in positions ==> positions[key] < |parts| && parts[positions[key]].key == key)
    && (forall i :: 0 <= i < |parts| ==> parts[i].key in positions && positions[parts[i].key] == i)
  }

  /** From `leaves` on, every child stands before its parent. */
  ghost predicate ChildrenFirst(positions: map<nat, nat>, parts: seq<Part>, leaves: nat) {
    && leaves <= |parts|
    && forall i, c :: leaves <= i < |parts| && 0 <= c < |parts[i].children| ==>
      parts[i].children[c] in positions && positions[parts[i].children[c]] < i
  }

  function ChildCenters(positions: map<nat, nat>, parts: seq<Part>, i: nat): seq<Vector>
    requires i < |parts|
    requires forall c :: 0 <= c < |parts[i].children| ==>
               parts[i].children[c] in positions && positions[parts[i].children[c]] < |parts|
  {
    seq(|parts[i].children|, c requires 0 <= c < |parts[i].children| => parts[positions[parts[i].children[c]]].center)
  }

  /** From `leaves` up to `end`, every centre is the mean of its children's centres. */
  ghost predicate Refreshed(metric: Metric, positions: map<nat, nat>, parts: seq<Part>, leaves: nat, end: nat)
    requires ChildrenFirst(positions, parts, leaves) && end <= |parts|
  {
    forall i :: leaves <= i < end ==> parts[i].center == metric.mean(ChildCenters(positions, parts, i))
  }

  /** Equal but for centres. */
  ghost predicate SameTree(one: seq<Part>, two: seq<Part>) {
    |one| == |two| && forall i :: 0 <= i < |one| ==> one[i] == two[i].(center := one[i].center)
  }

  /** The leaves' centres determine all the others. */
  lemma {:induction false} RefreshedUnique(metric: Metric, positions: map<nat, nat>, one: seq<Part>, two: seq<Part>, leaves: nat, end: nat)
    requires SameTree(one, two) && ChildrenFirst(positions, one, leaves) && ChildrenFirst(positions, two, leaves)
    requires leaves <= end <= |one| && one[..leaves] == two[..leaves]
    requires Refreshed(metric, positions, one, leaves, end) && Refreshed(metric, positions, two, leaves, end)
    ensures one[..end] == two[..end]
    decreases end
  {
    if leaves < end {
      var i := end - 1;
      RefreshedUnique(metric, positions, one, two, leaves, i);
      assert forall c :: 0 <= c < |one[i].children| ==>
          one[positions[one[i].children[c]]] == one[..i][positions[one[i].children[c]]] == two[positions[one[i].children[c]]];
      assert ChildCenters(positions, one, i) == ChildCenters(positions, two, i);
      assert one[..end] == one[..i] + [one[i]] && two[..end] == two[..i] + [two[i]];
    }
  }

  method RefreshInternalCenters(metric: Metric, parts: array<Part>, leaves: nat, control: Control, ghost index: map<nat, nat>)
    returns (ok: bool, positions: map<nat, nat>)
    requires Indexes(index, parts[..]) && ChildrenFirst(index, parts[..], leaves)
    modifies parts, control
    ensures control.Answered(old(control.calls), ok)
    ensures SameTree(parts[..], old(parts[..])) && parts[..leaves] == old(parts[..leaves])
    ensures positions == index && ChildrenFirst(positions, parts[..], leaves)
    ensures ok ==> Refreshed(metric, positions, parts[..], leaves, parts.Length)
  {
    positions := map[];
    for i := 0 to parts.Length
      invariant control.Answered(old(control.calls), true)
      invariant forall key :: key in positions <==> key in index && index[key] < i
      invariant forall key :: key in positions ==> positions[key] == index[key]
      invariant parts[..] == old(parts[..])
    {
      positions := positions[parts[i].key := i];
    }
    assert positions == index;
    for i := leaves to parts.Length
      invariant control.Answered(old(control.calls), true)
      invariant SameTree(parts[..], old(parts[..])) && parts[..leaves] == old(parts[..leaves])
      invariant ChildrenFirst(positions, parts[..], leaves)
      invariant Refreshed(metric, positions, parts[..], leaves, i)
    {
      ok := control.Proceed();
      if !ok {
        return;
      }
      ghost var before := parts[..];
      var center := metric.mean(ChildCenters(positions, parts[..], i));
      parts[i] := parts[i].(center := center);
      RefreshStep(metric, positions, before, parts[..], leaves, i);
    }
    ok := true;
  }

  /** Setting one centre leaves the earlier equations intact and adds its own. */
  lemma RefreshStep(metric: Metric, positions: map<nat, nat>, before: seq<Part>, after: seq<Part>, leaves: nat, i: nat)
    requires ChildrenFirst(positions, before, leaves) && leaves <= i < |before|
    requires Refreshed(metric, positions, before, leaves, i)
    requires after == before[i := before[i].(center := metric.mean(ChildCenters(positions, before, i)))]
    ensures SameTree(after, before) && ChildrenFirst(positions, after, leaves)
    ensures Refreshed(metric, positions, after, leaves, i + 1)
  {
    forall j | leaves <= j <= i ensures ChildCenters(positions, after, j) == ChildCenters(positions, before, j) {
    }
  }
}
