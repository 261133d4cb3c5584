/** Greedy moves between leaves: what a list of moves does to membership, occupancy and cost. */
module Moves {
  import opened Neighbors
  import opened Ordering

  /** Which leaf holds each position. */
  type Owners = map<nat, nat>

  datatype Move = Move(gain: real, position: nat, source: nat, target: nat)

  /** A move reported to the observer, in leaf keys. */
  datatype Event = Event(round: nat, position: nat, from: nat, to: nat)

  // ---------------------------------------------------------------- membership

  ghost predicate Ascending(s: seq<nat>) {
    forall i, j :: 0 <= i < j < |s| ==> s[i] < s[j]
  }

  /** The leaves' ascending member lists split exactly the owned positions. */
  ghost predicate Splits(leaves: seq<Part>, owner: Owners, n: nat) {
    && (forall p :: p in owner ==> p < n && owner[p] < |leaves|)
    && (forall i :: 0 <= i < |leaves| ==> Ascending(leaves[i].members))
    && (forall i, p :: 0 <= i < |leaves| ==> (p in leaves[i].members <==> p in owner && owner[p] == i))
  }

  ghost function Held(owner: Owners, leaf: nat): set<nat> {
    set p | p in owner && owner[p] == leaf
  }

  lemma {:induction false} AscendingSize(s: seq<nat>, held: set<nat>)
    requires Ascending(s) && forall p :: p in held <==> p in s
    ensures |s| == |held|
    decreases |s|
  {
    if s == [] {
      assert held == {};
    } else {
      var last := s[|s| - 1];
      var rest := s[..|s| - 1];
      assert s == rest + [last];
      AscendingSize(rest, held - {last});
    }
  }

  lemma SplitSize(leaves: seq<Part>, owner: Owners, n: nat, i: nat)
    requires Splits(leaves, owner, n) && i < |leaves|
    ensures |leaves[i].members| == |Held(owner, i)|
  {
    AscendingSize(leaves[i].members, Held(owner, i));
  }

  // ---------------------------------------------------------------- effect of moves

  function Moved(owner: Owners, moves: seq<Move>): Owners {
    if moves == [] then owner
    else
      var last := moves[|moves| - 1];
      Moved(owner, moves[..|moves| - 1])[last.position := last.target]
  }

  ghost predicate DistinctPositions(moves: seq<Move>) {
    forall i, j :: 0 <= i < j < |moves| ==> moves[i].position != moves[j].position
  }

  /** Moves that leave where they say they leave, for somewhere else. */
  ghost predicate Legal(moves: seq<Move>, owner: Owners, leaves: nat) {
    && DistinctPositions(moves)
    && forall m :: m in moves ==> m.position in owner && owner[m.position] == m.source && m.source < leaves && m.target < leaves && m.source != m.target
  }

  lemma {:induction false} MovedElsewhere(owner: Owners, moves: seq<Move>, p: nat)
    requires forall m :: m in moves ==> m.position != p
    ensures p in Moved(owner, moves) <==> p in owner
    ensures p in owner ==> Moved(owner, moves)[p] == owner[p]
    decreases |moves|
  {
    if moves != [] {
      assert moves[|moves| - 1] in moves;
      assert forall m :: m in moves[..|moves| - 1] ==> m in moves;
      MovedElsewhere(owner, moves[..|moves| - 1], p);
    }
  }

  /** When its turn comes, the last of several legal moves still finds its position. */
  lemma LegalLast(moves: seq<Move>, owner: Owners, leaves: nat)
    requires moves != [] && Legal(moves, owner, leaves)
    ensures var rest, last := moves[..|moves| - 1], moves[|moves| - 1];
            && Legal(rest, owner, leaves) && last.source < leaves && last.target < leaves
            && last.position in Moved(owner, rest) && Moved(owner, rest)[last.position] == last.source
  {
    hide Moved;
    var rest, last := moves[..|moves| - 1], moves[|moves| - 1];
    assert last in moves && forall m :: m in rest ==> m in moves;
    forall m | m in rest ensures m.position != last.position {
      var i :| 0 <= i < |rest| && rest[i] == m;
      assert moves[i] == m;
    }
    MovedElsewhere(owner, rest, last.position);
  }

  lemma MovedAppend(owner: Owners, moves: seq<Move>, m: Move)
    ensures Moved(owner, moves + [m]) == Moved(owner, moves)[m.position := m.target]
  {
    assert (moves + [m])[..|moves|] == moves;
  }

  /** Moves only reassign positions already owned, as an override of the owners. */
  lemma {:induction false} MovedOverrides(owner: Owners, moves: seq<Move>, leaves: nat)
    requires forall m :: m in moves ==> m.position in owner && m.target < leaves
    ensures Moved(owner, moves) == owner + Moved(map[], moves)
    ensures Moved(map[], moves).Keys <= owner.Keys && Moved(owner, moves).Keys == owner.Keys
    ensures forall p :: p in Moved(map[], moves) ==> Moved(map[], moves)[p] < leaves
    decreases |moves|
  {
    if moves != [] {
      var rest, last := moves[..|moves| - 1], moves[|moves| - 1];
      assert last in moves && forall m :: m in rest ==> m in moves;
      MovedOverrides(owner, rest, leaves);
    }
  }

  lemma HeldMove(owner: Owners, p: nat, target: nat, leaf: nat)
    requires p in owner && owner[p] != target
    ensures Held(owner[p := target], leaf) ==
            if leaf == target then Held(owner, leaf) + {p} else if leaf == owner[p] then Held(owner, leaf) - {p} else Held(owner, leaf)
    ensures leaf == target ==> p !in Held(owner, leaf)
    ensures leaf == owner[p] ==> p in Held(owner, leaf)
  {
  }

  // ---------------------------------------------------------------- capacity

  /** Offering moves in order, each taken exactly when its source can spare and its
      target can take a member. */
  function Accept(moves: seq<Move>, k: nat, sizes: seq<nat>, minimum: nat, maximum: nat): (r: (seq<Move>, seq<nat>))
    requires k <= |moves| && forall m :: m in moves ==> m.source < |sizes| && m.target < |sizes|
    ensures |r.1| == |sizes|
  {
    if k == 0 then ([], sizes)
    else
      var (taken, counts) := Accept(moves, k - 1, sizes, minimum, maximum);
      var m := moves[k - 1];
      if counts[m.source] > minimum && counts[m.target] < maximum
      then (taken + [m], Shift(counts, m))
      else (taken, counts)
  }

  function Shift(counts: seq<nat>, m: Move): (r: seq<nat>)
    requires m.source < |counts| && m.target < |counts|
    ensures |r| == |counts|
  {
    var less := counts[m.source := if counts[m.source] > 0 then counts[m.source] - 1 else 0];
    less[m.target := less[m.target] + 1]
  }

  /** Accepted moves are a choice from the offered ones, in order. */
  lemma {:induction false} AcceptedLegal(moves: seq<Move>, k: nat, sizes: seq<nat>, minimum: nat, maximum: nat, owner: Owners)
    requires k <= |moves| && Legal(moves, owner, |sizes|)
    ensures var taken := Accept(moves, k, sizes, minimum, maximum).0;
            && Legal(taken, owner, |sizes|)
            && (forall m :: m in taken ==> m in moves[..k])
  {
    if k > 0 {
      AcceptedLegal(moves, k - 1, sizes, minimum, maximum, owner);
      var before := Accept(moves, k - 1, sizes, minimum, maximum).0;
      assert moves[..k] == moves[..k - 1] + [moves[k - 1]];
      forall m | m in before ensures m.position != moves[k - 1].position {
        assert m in moves[..k - 1];
      }
    }
  }

  /** A move not yet offered still finds its position where it expects it. */
  lemma StillThere(moves: seq<Move>, k: nat, sizes: seq<nat>, minimum: nat, maximum: nat, owner: Owners)
    requires k < |moves| && Legal(moves, owner, |sizes|)
    ensures var taken, m := Accept(moves, k, sizes, minimum, maximum).0, moves[k];
            && m.source < |sizes| && m.target < |sizes| && m.source != m.target
            && m.position in Moved(owner, taken) && Moved(owner, taken)[m.position] == m.source
  {
    AcceptedLegal(moves, k, sizes, minimum, maximum, owner);
    hide Accept, Moved;
    var taken := Accept(moves, k, sizes, minimum, maximum).0;
    forall x | x in taken ensures x.position != moves[k].position {
      assert x in moves[..k];
    }
    MovedElsewhere(owner, taken, moves[k].position);
  }

  lemma ShiftCounts(counts: seq<nat>, m: Move, owner: Owners, minimum: nat, maximum: nat, leaf: nat)
    requires m.source < |counts| && m.target < |counts| && m.source != m.target && leaf < |counts|
    requires m.position in owner && owner[m.position] == m.source
    requires counts[leaf] == |Held(owner, leaf)|
    requires counts[m.source] > minimum && counts[m.target] < maximum
    ensures Shift(counts, m)[leaf] == |Held(owner[m.position := m.target], leaf)|
    ensures counts[leaf] >= minimum ==> Shift(counts, m)[leaf] >= minimum
    ensures counts[leaf] <= maximum ==> Shift(counts, m)[leaf] <= maximum
  {
    HeldMove(owner, m.position, m.target, leaf);
  }

  /** Counts follow the membership, and no count leaves the bounds it started within. */
  lemma {:induction false} AcceptedCounts(moves: seq<Move>, k: nat, sizes: seq<nat>, minimum: nat, maximum: nat, owner: Owners, leaf: nat)
    requires k <= |moves| && Legal(moves, owner, |sizes|) && leaf < |sizes|
    requires sizes[leaf] == |Held(owner, leaf)|
    ensures var (taken, counts) := Accept(moves, k, sizes, minimum, maximum);
            && counts[leaf] == |Held(Moved(owner, taken), leaf)|
            && (sizes[leaf] >= minimum ==> counts[leaf] >= minimum)
            && (sizes[leaf] <= maximum ==> counts[leaf] <= maximum)
  {
    hide Held, Shift;
    if k > 0 {
      AcceptedCounts(moves, k - 1, sizes, minimum, maximum, owner, leaf);
      StillThere(moves, k - 1, sizes, minimum, maximum, owner);
      var (taken, counts) := Accept(moves, k - 1, sizes, minimum, maximum);
      var m := moves[k - 1];
      if counts[m.source] > minimum && counts[m.target] < maximum {
        ShiftCounts(counts, m, Moved(owner, taken), minimum, maximum, leaf);
        MovedAppend(owner, taken, m);
      }
    }
  }

  /** A round that takes nothing is one in which no offered move had room. */
  lemma {:induction false} NoneAccepted(moves: seq<Move>, k: nat, sizes: seq<nat>, minimum: nat, maximum: nat)
    requires k <= |moves| && forall m :: m in moves ==> m.source < |sizes| && m.target < |sizes|
    ensures Accept(moves, k, sizes, minimum, maximum).0 == [] <==>
            forall i :: 0 <= i < k ==> sizes[moves[i].source] <= minimum || sizes[moves[i].target] >= maximum
    ensures Accept(moves, k, sizes, minimum, maximum).0 == [] ==> Accept(moves, k, sizes, minimum, maximum).1 == sizes
  {
    if k > 0 {
      NoneAccepted(moves, k - 1, sizes, minimum, maximum);
    }
  }

  /** The moves whose flag is set, in order. */
  ghost function Chosen(moves: seq<Move>, flags: seq<bool>): seq<Move>
    requires |moves| == |flags|
  {
    if moves == [] then []
    else
      var k := |moves| - 1;
      Chosen(moves[..k], flags[..k]) + if flags[k] then [moves[k]] else []
  }

  /** The source can spare a member and the target can take one. */
  ghost predicate HasRoom(owner: Owners, m: Move, minimum: nat, maximum: nat) {
    |Held(owner, m.source)| > minimum && |Held(owner, m.target)| < maximum
  }

  /** Each move is chosen exactly when there is room for it once the moves chosen before it are made. */
  ghost predicate Greedy(moves: seq<Move>, flags: seq<bool>, owner: Owners, minimum: nat, maximum: nat) {
    && |flags| == |moves|
    && forall k :: 0 <= k < |moves| ==> (flags[k] <==> HasRoom(Moved(owner, Chosen(moves[..k], flags[..k])), moves[k], minimum, maximum))
  }

  /** Moves are taken greedily in the order they are offered. */
  lemma {:induction false} AcceptedGreedy(moves: seq<Move>, k: nat, sizes: seq<nat>, minimum: nat, maximum: nat, owner: Owners)
    returns (flags: seq<bool>)
    requires k <= |moves| && Legal(moves, owner, |sizes|)
    requires forall leaf :: 0 <= leaf < |sizes| ==> sizes[leaf] == |Held(owner, leaf)|
    ensures Greedy(moves[..k], flags, owner, minimum, maximum)
    ensures Accept(moves, k, sizes, minimum, maximum).0 == Chosen(moves[..k], flags)
  {
    hide Held, Shift, Moved, Legal;
    LegalInside(moves, owner, |sizes|);
    if k == 0 {
      flags := [];
    } else {
      flags := AcceptedGreedy(moves, k - 1, sizes, minimum, maximum, owner);
      var (taken, counts) := Accept(moves, k - 1, sizes, minimum, maximum);
      var m := moves[k - 1];
      AcceptedCounts(moves, k - 1, sizes, minimum, maximum, owner, m.source);
      AcceptedCounts(moves, k - 1, sizes, minimum, maximum, owner, m.target);
      var picked := HasRoom(Moved(owner, taken), m, minimum, maximum);
      GreedyNext(moves[..k - 1], flags, m, picked, owner, minimum, maximum);
      assert moves[..k] == moves[..k - 1] + [m];
      flags := flags + [picked];
    }
  }

  lemma ChosenNext(moves: seq<Move>, flags: seq<bool>, m: Move, picked: bool)
    requires |moves| == |flags|
    ensures Chosen(moves + [m], flags + [picked]) == Chosen(moves, flags) + if picked then [m] else []
  {
    assert (moves + [m])[..|moves|] == moves && (flags + [picked])[..|moves|] == flags;
  }

  lemma GreedyNext(moves: seq<Move>, flags: seq<bool>, m: Move, picked: bool, owner: Owners, minimum: nat, maximum: nat)
    requires Greedy(moves, flags, owner, minimum, maximum)
    requires picked <==> HasRoom(Moved(owner, Chosen(moves, flags)), m, minimum, maximum)
    ensures Greedy(moves + [m], flags + [picked], owner, minimum, maximum)
    ensures Chosen(moves + [m], flags + [picked]) == Chosen(moves, flags) + if picked then [m] else []
  {
    hide HasRoom, Moved, Chosen;
    var more, next := moves + [m], flags + [picked];
    assert more[..|moves|] == moves && next[..|moves|] == flags;
    ChosenNext(moves, flags, m, picked);
    forall k | 0 <= k < |more| ensures next[k] <==> HasRoom(Moved(owner, Chosen(more[..k], next[..k])), more[k], minimum, maximum) {
      if k < |moves| { assert more[..k] == moves[..k] && next[..k] == flags[..k]; }
    }
  }

  // ---------------------------------------------------------------- cost

  /** Total distance of the owned positions below `n` to the centres of their leaves. */
  ghost function Cost(metric: Metric, vectors: seq<Vector>, centers: seq<Vector>, owner: Owners, n: nat): real
    requires n <= |vectors| && forall p :: p in owner ==> owner[p] < |centers|
  {
    if n == 0 then 0.0
    else Cost(metric, vectors, centers, owner, n - 1)
         + if n - 1 in owner then metric.distance(vectors[n - 1], centers[owner[n - 1]]) else 0.0
  }

  lemma {:induction false} CostMove(metric: Metric, vectors: seq<Vector>, centers: seq<Vector>, owner: Owners, n: nat, p: nat, target: nat)
    requires n <= |vectors| && p < |vectors| && (forall q :: q in owner ==> owner[q] < |centers|)
    requires p in owner && target < |centers|
    ensures Cost(metric, vectors, centers, owner[p := target], n) ==
            Cost(metric, vectors, centers, owner, n)
            - if p < n then metric.distance(vectors[p], centers[owner[p]]) - metric.distance(vectors[p], centers[target]) else 0.0
  {
    if n > 0 {
      CostMove(metric, vectors, centers, owner, n - 1, p, target);
    }
  }

  function Gains(moves: seq<Move>): real {
    if moves == [] then 0.0 else Gains(moves[..|moves| - 1]) + moves[|moves| - 1].gain
  }

  /** Every move's gain is the distance it saves against these centres, and it saves some. */
  ghost predicate Improving(metric: Metric, vectors: seq<Vector>, centers: seq<Vector>, moves: seq<Move>) {
    forall m :: m in moves ==>
      && m.position < |vectors| && m.source < |centers| && m.target < |centers|
      && m.gain == metric.distance(vectors[m.position], centers[m.source]) - metric.distance(vectors[m.position], centers[m.target])
      && m.gain > 0.0
  }

  /** Accepted moves lower the total distance by exactly their gains. */
  lemma {:induction false} CostMoved(metric: Metric, vectors: seq<Vector>, centers: seq<Vector>, owner: Owners, moves: seq<Move>)
    requires Legal(moves, owner, |centers|) && Improving(metric, vectors, centers, moves)
    requires forall p :: p in owner ==> owner[p] < |centers|
    ensures forall p :: p in Moved(owner, moves) ==> Moved(owner, moves)[p] < |centers|
    ensures Cost(metric, vectors, centers, Moved(owner, moves), |vectors|) ==
            Cost(metric, vectors, centers, owner, |vectors|) - Gains(moves)
    ensures moves != [] ==> Gains(moves) > 0.0
    ensures moves == [] ==> Gains(moves) == 0.0
    decreases |moves|
  {
    if moves != [] {
      var rest, last := moves[..|moves| - 1], moves[|moves| - 1];
      assert last in moves && forall m :: m in rest ==> m in moves;
      LegalLast(moves, owner, |centers|);
      CostMoved(metric, vectors, centers, owner, rest);
      CostMove(metric, vectors, centers, Moved(owner, rest), |vectors|, last.position, last.target);
    }
  }

  // ---------------------------------------------------------------- observed log

  function Events(moves: seq<Move>, round: nat, leaves: seq<Part>): (r: seq<Event>)
    requires forall m :: m in moves ==> m.source < |leaves| && m.target < |leaves|
    ensures |r| == |moves|
    ensures forall i :: 0 <= i < |moves| ==> r[i] == Event(round, moves[i].position, leaves[moves[i].source].key, leaves[moves[i].target].key)
  {
    if moves == [] then []
    else
      var last := moves[|moves| - 1];
      assert forall m :: m in moves[..|moves| - 1] ==> m in moves;
      Events(moves[..|moves| - 1], round, leaves)
      + [Event(round, last.position, leaves[last.source].key, leaves[last.target].key)]
  }

  /** Membership in leaf keys. */
  function Homes(leaves: seq<Part>, owner: Owners): map<nat, nat>
    requires forall p :: p in owner ==> owner[p] < |leaves|
  {
    map p | p in owner :: leaves[owner[p]].key
  }

  function Replay(homes: map<nat, nat>, log: seq<Event>): map<nat, nat> {
    if log == [] then homes
    else
      var last := log[|log| - 1];
      Replay(homes, log[..|log| - 1])[last.position := last.to]
  }

  /** Each event takes its position from where the earlier events left it. */
  ghost predicate Tracks(homes: map<nat, nat>, log: seq<Event>) {
    forall i :: 0 <= i < |log| ==>
      log[i].position in Replay(homes, log[..i]) && Replay(homes, log[..i])[log[i].position] == log[i].from
  }

  lemma {:induction false} ReplayAppend(homes: map<nat, nat>, log: seq<Event>, more: seq<Event>)
    ensures Replay(homes, log + more) == Replay(Replay(homes, log), more)
    decreases |more|
  {
    if more == [] {
      assert log + more == log;
    } else {
      var rest := more[..|more| - 1];
      assert (log + more)[..|log + more| - 1] == log + rest;
      ReplayAppend(homes, log, rest);
    }
  }

  lemma TracksAppend(homes: map<nat, nat>, log: seq<Event>, more: seq<Event>)
    requires Tracks(homes, log) && Tracks(Replay(homes, log), more)
    ensures Tracks(homes, log + more)
  {
    var all := log + more;
    forall i | 0 <= i < |all|
      ensures all[i].position in Replay(homes, all[..i]) && Replay(homes, all[..i])[all[i].position] == all[i].from
    {
      if i < |log| {
        assert all[..i] == log[..i];
      } else {
        assert all[..i] == log + more[..i - |log|];
        ReplayAppend(homes, log, more[..i - |log|]);
      }
    }
  }

  lemma HomesMove(leaves: seq<Part>, owner: Owners, p: nat, target: nat)
    requires (forall q :: q in owner ==> owner[q] < |leaves|) && target < |leaves|
    ensures Homes(leaves, owner[p := target]) == Homes(leaves, owner)[p := leaves[target].key]
  {
  }

  lemma ReplayLast(homes: map<nat, nat>, log: seq<Event>, event: Event)
    ensures Replay(homes, log + [event]) == Replay(homes, log)[event.position := event.to]
  {
    assert (log + [event])[..|log|] == log;
  }

  lemma ReplayOne(homes: map<nat, nat>, log: seq<Event>, event: Event)
    requires Tracks(homes, log) && event.position in Replay(homes, log) && Replay(homes, log)[event.position] == event.from
    ensures Tracks(homes, log + [event])
    ensures Replay(homes, log + [event]) == Replay(homes, log)[event.position := event.to]
  {
    hide Replay;
    ReplayLast(homes, log, event);
    var all := log + [event];
    forall i | 0 <= i < |all|
      ensures all[i].position in Replay(homes, all[..i]) && Replay(homes, all[..i])[all[i].position] == all[i].from
    {
      assert all[..i] == if i < |log| then log[..i] else log;
    }
  }

  lemma MovedInside(owner: Owners, moves: seq<Move>, leaves: nat)
    requires Legal(moves, owner, leaves) && forall p :: p in owner ==> owner[p] < leaves
    ensures forall p :: p in Moved(owner, moves) ==> Moved(owner, moves)[p] < leaves
  {
    MovedOverrides(owner, moves, leaves);
  }

  /** Replaying the reported moves gives the membership they produce. */
  lemma {:induction false} EventsReplay(moves: seq<Move>, round: nat, leaves: seq<Part>, owner: Owners)
    requires Legal(moves, owner, |leaves|) && forall p :: p in owner ==> owner[p] < |leaves|
    ensures forall p :: p in Moved(owner, moves) ==> Moved(owner, moves)[p] < |leaves|
    ensures Replay(Homes(leaves, owner), Events(moves, round, leaves)) == Homes(leaves, Moved(owner, moves))
    ensures Tracks(Homes(leaves, owner), Events(moves, round, leaves))
    decreases |moves|
  {
    hide Tracks, Replay, Legal;
    MovedInside(owner, moves, |leaves|);
    var homes := Homes(leaves, owner);
    if moves == [] {
      ReplayNone(homes);
    } else {
      var rest, last := moves[..|moves| - 1], moves[|moves| - 1];
      LegalLast(moves, owner, |leaves|);
      LegalInside(moves, owner, |leaves|);
      LegalInside(rest, owner, |leaves|);
      EventsReplay(rest, round, leaves, owner);
      HomesMove(leaves, Moved(owner, rest), last.position, last.target);
      var event := Event(round, last.position, leaves[last.source].key, leaves[last.target].key);
      assert Events(moves, round, leaves) == Events(rest, round, leaves) + [event];
      ReplayOne(homes, Events(rest, round, leaves), event);
    }
  }

  lemma ReplayNone(homes: map<nat, nat>)
    ensures Replay(homes, []) == homes && Tracks(homes, [])
  {
  }

  lemma LegalInside(moves: seq<Move>, owner: Owners, leaves: nat)
    requires Legal(moves, owner, leaves)
    ensures forall m :: m in moves ==> m.source < leaves && m.target < leaves
  {
  }

  // ---------------------------------------------------------------- order of moves

  /** Larger gain first, then the smaller position. */
  predicate Leads(a: Move, b: Move) {
    a.gain > b.gain || (a.gain == b.gain && a.position <= b.position)
  }

  ghost predicate Ranked(moves: seq<Move>) {
    forall i, j :: 0 <= i < j < |moves| ==> Leads(moves[i], moves[j])
  }

  function Place(m: Move, moves: seq<Move>): (r: seq<Move>)
    ensures multiset(r) == multiset(moves) + multiset{m}
  {
    if moves == [] || Leads(m, moves[0]) then
      assert [m] + moves == [m] + moves[..]; [m] + moves
    else
      assert moves == [moves[0]] + moves[1..];
      [moves[0]] + Place(m, moves[1..])
  }

  lemma {:induction false} PlaceRanks(m: Move, moves: seq<Move>)
    requires Ranked(moves)
    ensures Ranked(Place(m, moves))
    decreases |moves|
  {
    if moves != [] && !Leads(m, moves[0]) {
      PlaceRanks(m, moves[1..]);
      var tail := Place(m, moves[1..]);
      forall x | x in tail ensures Leads(moves[0], x) {
        assert x in multiset(tail);
        assert x == m || x in moves[1..];
      }
    } else if moves != [] {
      assert forall j :: 0 < j < |moves| ==> Leads(moves[0], moves[j]);
    }
  }

  /** The moves in the order they are offered. */
  function Arrange(moves: seq<Move>): (r: seq<Move>)
    ensures multiset(r) == multiset(moves)
  {
    if moves == [] then []
    else
      assert moves == moves[..|moves| - 1] + [moves[|moves| - 1]];
      Place(moves[|moves| - 1], Arrange(moves[..|moves| - 1]))
  }

  lemma {:induction false} ArrangeRanks(moves: seq<Move>)
    ensures Ranked(Arrange(moves))
    decreases |moves|
  {
    if moves != [] {
      ArrangeRanks(moves[..|moves| - 1]);
      PlaceRanks(moves[|moves| - 1], Arrange(moves[..|moves| - 1]));
    }
  }

  /** Distinct positions stay distinct in another order. */
  lemma SameMovesDistinct(moves: seq<Move>, other: seq<Move>)
    requires DistinctPositions(moves) && multiset(moves) == multiset(other)
    ensures DistinctPositions(other) && forall m :: m in other <==> m in moves
  {
    forall m ensures m in other <==> m in moves {
      assert m in other <==> m in multiset(other);
      assert m in moves <==> m in multiset(moves);
    }
    forall i, j | 0 <= i < j < |other| ensures other[i].position != other[j].position {
      if other[i] == other[j] {
        TwiceCounted(other, i, j);
        OnceCounted(moves, other[i]);
      } else {
        assert other[i] in moves && other[j] in moves;
      }
    }
  }

  lemma TwiceCounted(moves: seq<Move>, i: nat, j: nat)
    requires i < j < |moves| && moves[i] == moves[j]
    ensures multiset(moves)[moves[i]] >= 2
  {
    assert moves == moves[..j] + [moves[j]] + moves[j + 1..];
    assert moves[..j][i] in moves[..j];
    assert multiset(moves) == multiset(moves[..j]) + multiset{moves[j]} + multiset(moves[j + 1..]);
  }

  lemma {:induction false} OnceCounted(moves: seq<Move>, m: Move)
    requires DistinctPositions(moves)
    ensures multiset(moves)[m] <= 1
    decreases |moves|
  {
    if moves != [] {
      var rest, last := moves[..|moves| - 1], moves[|moves| - 1];
      assert moves == rest + [last];
      OnceCounted(rest, m);
      if last == m {
        assert m !in rest;
      }
    }
  }
}
