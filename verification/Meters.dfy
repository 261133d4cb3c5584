/** The fixed-width counters of one construction, and how far its work can drive them.

    Every split makes at least two children of at most three quarters of their parent, so that
    the runs a level creates are bounded by the partitions it emits, and every row of a level
    is rewritten at most once per round of shrinking. */
module Meters {
  import opened Wrappers
  import opened Bytes
  import opened Ordering
  import opened GroupSizes
  import opened Grouping
  import opened Tree
  import opened Scratch

  /** Scratch runs named, scratch bytes written, the last key in use and partitions emitted. */
  datatype Meter = Meter(files: nat, written: nat, key: nat, partitions: nat)

  /** What a piece of work adds to the counters at most; a group takes one key and counts as
      one partition. */
  datatype Demand = Demand(files: nat, bytes: nat, groups: nat)

  function Plus(a: Demand, b: Demand): Demand {
    Demand(a.files + b.files, a.bytes + b.bytes, a.groups + b.groups)
  }

  predicate Within(a: Demand, b: Demand) {
    a.files <= b.files && a.bytes <= b.bytes && a.groups <= b.groups
  }

  /** No 64-bit counter overflows. */
  predicate Fits(at: Meter, d: Demand) {
    && at.files + d.files <= U64_MAX && at.written + d.bytes <= U64_MAX
    && at.key + d.groups <= U64_MAX && at.partitions + d.groups <= U64_MAX
  }

  predicate Spent(was: Meter, now: Meter, d: Demand) {
    && now.files <= was.files + d.files && now.written <= was.written + d.bytes
    && now.key <= was.key + d.groups && now.partitions <= was.partitions + d.groups
  }

  /** Work that does not fit once `d` is spent did not fit in the total to begin with. */
  lemma FailsInTotal(a: Meter, b: Meter, d: Demand, e: Demand, total: Demand)
    requires Spent(a, b, d) && Within(Plus(d, e), total) && !Fits(b, e)
    ensures !Fits(a, total)
  {
  }

  // ---------------------------------------------------------------- rounds of shrinking

  /** How often `n` rows can shrink to at most three quarters before one is left. */
  ghost function Rounds(n: nat): nat {
    if n <= 1 then 0 else
      CapAtLeastHalf(n);
      1 + Rounds(Cap(n))
  }

  lemma {:induction false} RoundsMonotone(m: nat, n: nat)
    requires m <= n
    ensures Rounds(m) <= Rounds(n)
    decreases n
  {
    if m > 1 {
      CapAtLeastHalf(n);
      RoundsMonotone(Cap(m), Cap(n));
    }
  }

  function Power2(k: nat): nat {
    if k == 0 then 1 else 2 * Power2(k - 1)
  }

  lemma Power2Ten(k: nat)
    ensures Power2(k + 10) == 1024 * Power2(k)
  {
    assert Power2(k + 5) == 2 * Power2(k + 4) == 4 * Power2(k + 3) == 8 * Power2(k + 2) == 16 * Power2(k + 1) == 32 * Power2(k);
    assert Power2(k + 10) == 2 * Power2(k + 9) == 4 * Power2(k + 8) == 8 * Power2(k + 7) == 16 * Power2(k + 6) == 32 * Power2(k + 5);
  }

  lemma Power2Values()
    ensures Power2(20) == 1_048_576 && Power2(40) == 1_099_511_627_776
  {
    Power2Ten(0);
    Power2Ten(10);
    Power2Ten(20);
    Power2Ten(30);
  }

  /** Three rounds more than halve. */
  lemma {:induction false} RoundsLogarithmic(n: nat, k: nat)
    requires n <= Power2(k)
    ensures Rounds(n) <= 3 * k
    decreases k
  {
    if k == 0 {
      assert Rounds(n) == 0;
    } else if n > 1 {
      var third := Cap(Cap(Cap(n)));
      assert Rounds(n) <= 3 + Rounds(third) by {
        RoundsStep(n);
        RoundsStep(Cap(n));
        RoundsStep(Cap(Cap(n)));
      }
      RoundsLogarithmic(third, k - 1);
    }
  }

  lemma RoundsUnfold(n: nat)
    requires n > 1
    ensures Rounds(n) == Rounds(Cap(n)) + 1
  {
  }

  lemma RoundsStep(n: nat)
    ensures Rounds(n) <= 1 + Rounds(Cap(n))
  {
  }

  // ---------------------------------------------------------------- one level

  /** Emitting groups: their parent rows are written. */
  ghost function EmitDemand(kernel: Kernel, leaves: seq<seq<Item>>, base: nat): Demand {
    Demand(0, ParentBytes(kernel, leaves, base), |leaves|)
  }

  lemma EmitDemandSplit(kernel: Kernel, a: seq<seq<Item>>, b: seq<seq<Item>>, base: nat)
    ensures EmitDemand(kernel, a + b, base) == Plus(EmitDemand(kernel, a, base), EmitDemand(kernel, b, base + |a|))
  {
    hide ParentBytes;
    ParentBytesSplit(kernel, a, b, base);
  }

  /** After some groups, the next ones still fit in the level's demand. */
  lemma EmitFits(kernel: Kernel, level: nat, was: Ledger, at: Ledger, all: seq<seq<Item>>, done: seq<seq<Item>>,
                 leaves: seq<seq<Item>>, rest: seq<seq<Item>>, parents: Run, next: Run, gone: set<nat>, freed: nat)
    requires Emitted(kernel, level, was, at, done, parents, next, gone, freed)
    requires all == done + (leaves + rest)
    ensures Within(Plus(EmitDemand(kernel, done, Base(was)), EmitDemand(kernel, leaves, Base(at))),
                   EmitDemand(kernel, done + leaves, Base(was)))
    ensures Within(EmitDemand(kernel, done + leaves, Base(was)), EmitDemand(kernel, all, Base(was)))
  {
    EmittedCharges(kernel, level, was, at, done, parents, next, gone, freed);
    hide Emitted, EmitDemand;
    assert all == (done + leaves) + rest;
    EmitDemandSplit(kernel, done, leaves, Base(was));
    EmitDemandSplit(kernel, done + leaves, rest, Base(was));
  }

  lemma LeavesSome(kernel: Kernel, config: Config, s: seq<Item>, level: nat)
    requires Groupable(kernel, config, s)
    ensures |Leaves(kernel, config, s, level)| >= 1
  {
    if |s| > config.MaxEntries(level) { LeavesExact(kernel, config, s, level); }
  }

  /** Bytes of a group's rows over all rounds. */
  ghost function Copies(amount: nat, rounds: nat): nat {
    amount * rounds
  }

  /** Grouping one run: two runs fewer than twice the groups, and a copy per round. */
  ghost function GroupDemand(kernel: Kernel, config: Config, s: seq<Item>, level: nat, base: nat): Demand
    requires Groupable(kernel, config, s)
  {
    LeavesSome(kernel, config, s, level);
    var leaves := Leaves(kernel, config, s, level);
    Demand(2 * (|leaves| - 1), ParentBytes(kernel, leaves, base) + Copies(RunBytes(s), Rounds(|s|)), |leaves|)
  }

  /** Writing an oversized group to one run per child. */
  ghost function ScatterDemand(kernel: Kernel, config: Config, s: seq<Item>, level: nat): Demand
    requires Groupable(kernel, config, s) && |s| > config.MaxEntries(level)
  {
    Demand(|ChildSizes(kernel, config, s, level)|, RunBytes(s), 0)
  }

  /** The first `i` children grouped into `done`. */
  ghost function ChildrenDemand(kernel: Kernel, config: Config, s: seq<Item>, level: nat, i: nat, done: seq<seq<Item>>, base: nat): Demand
    requires Groupable(kernel, config, s) && |s| > config.MaxEntries(level)
    requires i <= |ChildSizes(kernel, config, s, level)| && i <= |done|
  {
    Demand(2 * (|done| - i),
           ParentBytes(kernel, done, base) + Copies(Consumed(kernel, config, s, level, i), Rounds(Cap(|s|))),
           |done|)
  }

  lemma CopiesAdd(a: nat, b: nat, rounds: nat)
    ensures Copies(a + b, rounds) == Copies(a, rounds) + Copies(b, rounds)
  {
  }

  lemma CopiesMonotone(a: nat, b: nat, m: nat, n: nat)
    requires a <= b && m <= n
    ensures Copies(a, m) <= Copies(b, n)
  {
    assert b * n == a * n + (b - a) * n;
    assert a * n == a * m + a * (n - m);
  }

  lemma CopiesRound(a: nat, rounds: nat)
    ensures Copies(a, rounds + 1) == a + Copies(a, rounds)
  {
  }

  lemma ChildSize(kernel: Kernel, config: Config, s: seq<Item>, level: nat, i: nat)
    requires Groupable(kernel, config, s) && |s| > config.MaxEntries(level)
    requires i < |ChildSizes(kernel, config, s, level)|
    ensures Rounds(|Child(kernel, config, s, level, i)|) <= Rounds(Cap(|s|))
  {
    RoundsMonotone(|Child(kernel, config, s, level, i)|, Cap(|s|));
  }

  /** A child is copied less often than its parent. */
  lemma ChildCopies(kernel: Kernel, config: Config, s: seq<Item>, level: nat, i: nat)
    requires Groupable(kernel, config, s) && |s| > config.MaxEntries(level)
    requires i < |ChildSizes(kernel, config, s, level)|
    ensures var child, rounds := Child(kernel, config, s, level, i), Rounds(Cap(|s|));
            Copies(Consumed(kernel, config, s, level, i), rounds) + Copies(RunBytes(child), Rounds(|child|))
            <= Copies(Consumed(kernel, config, s, level, i + 1), rounds)
  {
    hide Child, ChildSizes, RunBytes, Rounds, Consumed, Copies, Canonical, ValidKernel;
    var child, rounds := Child(kernel, config, s, level, i), Rounds(Cap(|s|));
    ChildBytes(kernel, config, s, level, i);
    ChildSize(kernel, config, s, level, i);
    CopiesAdd(Consumed(kernel, config, s, level, i), RunBytes(child), rounds);
    CopiesMonotone(RunBytes(child), RunBytes(child), Rounds(|child|), rounds);
  }

  /** Grouping the next child stays within the demand of the children so far. */
  lemma ChildrenStep(kernel: Kernel, config: Config, s: seq<Item>, level: nat, i: nat, done: seq<seq<Item>>, base: nat,
                     child: seq<Item>, leaves: seq<seq<Item>>)
    requires Groupable(kernel, config, s) && |s| > config.MaxEntries(level)
    requires i < |ChildSizes(kernel, config, s, level)| && i <= |done|
    requires child == Child(kernel, config, s, level, i) && leaves == Leaves(kernel, config, child, level)
    ensures i + 1 <= |done + leaves|
    ensures Within(Plus(ChildrenDemand(kernel, config, s, level, i, done, base), GroupDemand(kernel, config, child, level, base + |done|)),
                   ChildrenDemand(kernel, config, s, level, i + 1, done + leaves, base))
  {
    hide Leaves, Child, ChildSizes, RunBytes, Rounds, Consumed, ParentBytes, Copies, Canonical, ValidKernel, Within, Plus;
    LeavesSome(kernel, config, child, level);
    ParentBytesSplit(kernel, done, leaves, base);
    ChildCopies(kernel, config, s, level, i);
    assert |done + leaves| == |done| + |leaves|;
    var rounds := Rounds(Cap(|s|));
    StepFits(|done|, |leaves|, i, ParentBytes(kernel, done, base), ParentBytes(kernel, leaves, base + |done|),
             Copies(Consumed(kernel, config, s, level, i), rounds), Copies(RunBytes(child), Rounds(|child|)),
             Copies(Consumed(kernel, config, s, level, i + 1), rounds));
  }

  lemma StepFits(done: nat, leaves: nat, i: nat, before: nat, here: nat, copied: nat, copying: nat, copies: nat)
    requires i <= done && leaves >= 1 && copied + copying <= copies
    ensures Within(Plus(Demand(2 * (done - i), before + copied, done), Demand(2 * (leaves - 1), here + copying, leaves)),
                   Demand(2 * (done + leaves - (i + 1)), before + here + copies, done + leaves))
  {
  }

  /** Fewer children, and the groups they yield, demand less. */
  lemma ChildrenFewer(kernel: Kernel, config: Config, s: seq<Item>, level: nat, i: nat, done: seq<seq<Item>>, base: nat)
    requires Groupable(kernel, config, s) && |s| > config.MaxEntries(level)
    requires i <= |ChildSizes(kernel, config, s, level)| && i <= |done|
    requires done + LeavesFrom(kernel, config, s, level, i) == Leaves(kernel, config, s, level)
    ensures var k := |ChildSizes(kernel, config, s, level)|;
            && k <= |Leaves(kernel, config, s, level)|
            && Within(ChildrenDemand(kernel, config, s, level, i, done, base),
                      ChildrenDemand(kernel, config, s, level, k, Leaves(kernel, config, s, level), base))
  {
    hide Leaves, LeavesFrom, Child, ChildSizes, RunBytes, Rounds, Consumed, ParentBytes, Copies, WellFilled, Flatten,
      Start, CutOrder, Canonical, ValidKernel;
    LeavesFromExact(kernel, config, s, level, i);
    ConsumedFits(kernel, config, s, level, i);
    ConsumedEnds(kernel, config, s, level);
    var rest, k := LeavesFrom(kernel, config, s, level, i), |ChildSizes(kernel, config, s, level)|;
    ParentBytesSplit(kernel, done, rest, base);
    CopiesMonotone(Consumed(kernel, config, s, level, i), Consumed(kernel, config, s, level, k), Rounds(Cap(|s|)), Rounds(Cap(|s|)));
  }

  lemma ConsumedFits(kernel: Kernel, config: Config, s: seq<Item>, level: nat, i: nat)
    requires Groupable(kernel, config, s) && |s| > config.MaxEntries(level)
    requires i <= |ChildSizes(kernel, config, s, level)|
    ensures Consumed(kernel, config, s, level, i) <= RunBytes(s)
  {
    hide RunBytes, ChildSizes, Consumed;
    if i == 0 {
      ConsumedEnds(kernel, config, s, level);
    } else {
      ChildBytes(kernel, config, s, level, i - 1);
    }
  }

  lemma WholeFromFirst(kernel: Kernel, config: Config, s: seq<Item>, level: nat)
    requires Groupable(kernel, config, s) && |s| > config.MaxEntries(level)
    ensures [] + LeavesFrom(kernel, config, s, level, 0) == Leaves(kernel, config, s, level)
  {
  }

  /** Grouping every child. */
  ghost function AllChildrenDemand(kernel: Kernel, config: Config, s: seq<Item>, level: nat, base: nat): Demand
    requires Groupable(kernel, config, s) && |s| > config.MaxEntries(level)
  {
    WholeFromFirst(kernel, config, s, level);
    ChildrenFewer(kernel, config, s, level, 0, [], base);
    ChildrenDemand(kernel, config, s, level, |ChildSizes(kernel, config, s, level)|, Leaves(kernel, config, s, level), base)
  }

  /** The next child, after those grouped into `done`. */
  lemma ChildFits(kernel: Kernel, config: Config, s: seq<Item>, level: nat, i: nat, done: seq<seq<Item>>, base: nat)
    requires Groupable(kernel, config, s) && |s| > config.MaxEntries(level)
    requires i < |ChildSizes(kernel, config, s, level)| && i <= |done|
    requires done + LeavesFrom(kernel, config, s, level, i) == Leaves(kernel, config, s, level)
    ensures var child := Child(kernel, config, s, level, i);
            var grown := done + Leaves(kernel, config, child, level);
            && i + 1 <= |grown|
            && Within(Plus(ChildrenDemand(kernel, config, s, level, i, done, base), GroupDemand(kernel, config, child, level, base + |done|)),
                      ChildrenDemand(kernel, config, s, level, i + 1, grown, base))
            && Within(ChildrenDemand(kernel, config, s, level, i + 1, grown, base), AllChildrenDemand(kernel, config, s, level, base))
  {
    hide Leaves, ChildSizes, Child, LeavesFrom, ChildrenDemand, GroupDemand;
    var child := Child(kernel, config, s, level, i);
    var leaves := Leaves(kernel, config, child, level);
    ChildrenStep(kernel, config, s, level, i, done, base, child, leaves);
    LeavesUnfold(kernel, config, s, level, i);
    assert done + (leaves + LeavesFrom(kernel, config, s, level, i + 1)) == (done + leaves) + LeavesFrom(kernel, config, s, level, i + 1);
    ChildrenFewer(kernel, config, s, level, i + 1, done + leaves, base);
  }

  /** Scattering a group and grouping its children is grouping it. */
  lemma ChildrenTotal(kernel: Kernel, config: Config, s: seq<Item>, level: nat, base: nat)
    requires Groupable(kernel, config, s) && |s| > config.MaxEntries(level)
    ensures Within(Plus(ScatterDemand(kernel, config, s, level), AllChildrenDemand(kernel, config, s, level, base)),
                   GroupDemand(kernel, config, s, level, base))
  {
    hide Leaves, ChildSizes, RunBytes, Rounds, Consumed, ParentBytes, Copies, Canonical, ValidKernel;
    RoundsUnfold(|s|);
    ConsumedEnds(kernel, config, s, level);
    CopiesRound(RunBytes(s), Rounds(Cap(|s|)));
  }

  lemma ScatterWithin(kernel: Kernel, config: Config, s: seq<Item>, level: nat, base: nat)
    requires Groupable(kernel, config, s) && |s| > config.MaxEntries(level)
    ensures Within(ScatterDemand(kernel, config, s, level), GroupDemand(kernel, config, s, level, base))
  {
    hide ScatterDemand, GroupDemand, AllChildrenDemand;
    ChildrenTotal(kernel, config, s, level, base);
  }

  // ---------------------------------------------------------------- the whole tree

  /** One more run for the parents of a level. */
  ghost function LevelDemand(kernel: Kernel, config: Config, s: seq<Item>, level: nat, base: nat): Demand
    requires Groupable(kernel, config, s)
  {
    Plus(Demand(1, 0, 0), GroupDemand(kernel, config, s, level, base))
  }

  /** All levels from this one up to the root. */
  ghost function TreeDemand(kernel: Kernel, config: Config, s: seq<Item>, level: nat, highWater: nat): Demand
    requires Groupable(kernel, config, s)
    decreases |s|
  {
    if |s| <= config.MaxEntries(level) then Demand(0, 0, 0)
    else
      var leaves := Leaves(kernel, config, s, level);
      var base := Max(highWater, 1);
      LeavesExact(kernel, config, s, level);
      var here := LevelDemand(kernel, config, s, level, base);
      if base + |leaves| > U64_MAX then here
      else
        ParentRowsCanonical(kernel, leaves, base);
        Plus(here, TreeDemand(kernel, config, ParentRows(kernel, leaves, base), level + 1, base + |leaves|))
  }

  /** Everything from the first record on. */
  ghost function TotalDemand(kernel: Kernel, config: Config, input: seq<Item>): Demand
    requires Groupable(kernel, config, input)
  {
    Plus(Demand(1, RunBytes(input), 0), TreeDemand(kernel, config, input, 1, 0))
  }

  /** The counters of a fresh workspace; key 1 is reserved for the root. */
  const UNUSED := Meter(0, 0, 1, 0)

  /** Keys, levels and counters of a construction stay within their widths. */
  ghost predicate Affordable(kernel: Kernel, config: Config, input: seq<Item>)
    requires Groupable(kernel, config, input)
  {
    TreePlans(kernel, config, input, 1, 0).Some? && Fits(UNUSED, TotalDemand(kernel, config, input))
  }

  lemma DemandStart(kernel: Kernel, config: Config, input: seq<Item>)
    requires Groupable(kernel, config, input)
    ensures Plus(Demand(1, RunBytes(input), 0), TreeDemand(kernel, config, input, 1, 0)) == TotalDemand(kernel, config, input)
  {
    hide TreeDemand;
  }

  /** One level up the recursion. */
  lemma DemandNext(kernel: Kernel, config: Config, s: seq<Item>, level: nat, highWater: nat, base: nat)
    requires Groupable(kernel, config, s) && |s| > config.MaxEntries(level) && base == Max(highWater, 1)
    ensures Within(LevelDemand(kernel, config, s, level, base), TreeDemand(kernel, config, s, level, highWater))
    ensures var leaves := Leaves(kernel, config, s, level);
            base + |leaves| <= U64_MAX && Groupable(kernel, config, ParentRows(kernel, leaves, base)) ==>
              TreeDemand(kernel, config, s, level, highWater)
              == Plus(LevelDemand(kernel, config, s, level, base),
                      TreeDemand(kernel, config, ParentRows(kernel, leaves, base), level + 1, base + |leaves|))
  {
    hide Leaves, ParentRows, GroupDemand;
    LeavesExact(kernel, config, s, level);
  }

  // ---------------------------------------------------------------- closed bounds

  /** No row is wider than `width` bytes in a run: neither those of the level nor any parent's. */
  ghost predicate RowsWithin(kernel: Kernel, s: seq<Item>, width: nat) {
    && (forall i :: 0 <= i < |s| ==> RowBytes(s[i]) <= width)
    && (forall group: seq<Item> :: 12 + 4 * |kernel.mean(group)| <= width)
  }

  lemma {:induction false} RunWithin(s: seq<Item>, width: nat)
    requires forall i :: 0 <= i < |s| ==> RowBytes(s[i]) <= width
    ensures RunBytes(s) <= Copies(width, |s|)
    decreases |s|
  {
    hide RowBytes;
    if s != [] {
      RunWithin(s[..|s| - 1], width);
      CopiesRound(width, |s| - 1);
    }
  }

  lemma ParentsWithin(kernel: Kernel, s: seq<Item>, leaves: seq<seq<Item>>, base: nat, width: nat)
    requires RowsWithin(kernel, s, width)
    ensures RowsWithin(kernel, ParentRows(kernel, leaves, base), width)
    ensures ParentBytes(kernel, leaves, base) <= Copies(width, |leaves|)
  {
    hide BigEndian, RunBytes;
    RunWithin(ParentRows(kernel, leaves, base), width);
  }

  /** One level written at most `rounds` times, and its parents once, cost at most
      `rounds + 1` times the level's rows. */
  lemma LevelCost(amount: nat, parents: nat, leaves: nat, rows: nat, width: nat, rounds: nat, above: nat)
    requires amount <= Copies(width, rows) && parents <= Copies(width, leaves) && leaves <= rows
    ensures parents + Copies(amount, rounds) + Copies(Copies(width, rounds + 1), leaves + above)
         <= Copies(Copies(width, rounds + 1), rows + leaves + above)
  {
    CopiesMonotone(amount, Copies(width, rows), rounds, rounds);
    CopiesMonotone(width, width, leaves, rows);
    calc {
      Copies(Copies(width, rounds + 1), rows);
      (width * (rounds + 1)) * rows;
      (width * rows) * rounds + width * rows;
      Copies(Copies(width, rows), rounds) + Copies(width, rows);
    }
    assert Copies(Copies(width, rounds + 1), rows + leaves + above)
        == Copies(Copies(width, rounds + 1), rows) + Copies(Copies(width, rounds + 1), leaves + above);
  }

  /** A level's rows and parents are within the width, and its parents form a smaller level. */
  lemma LevelWithin(kernel: Kernel, config: Config, s: seq<Item>, level: nat, base: nat, width: nat, rounds: nat)
    requires Groupable(kernel, config, s) && RowsWithin(kernel, s, width) && Rounds(|s|) <= rounds
    requires |s| > config.MaxEntries(level)
    ensures var leaves := Leaves(kernel, config, s, level);
            var parents := ParentRows(kernel, leaves, base);
            && 0 < |leaves| == |parents| < |s| && Rounds(|parents|) <= rounds && RowsWithin(kernel, parents, width)
            && (base + |leaves| <= U64_MAX ==> Groupable(kernel, config, parents))
            && RunBytes(s) <= Copies(width, |s|) && ParentBytes(kernel, leaves, base) <= Copies(width, |leaves|)
    ensures Copies(RunBytes(s), Rounds(|s|)) <= Copies(RunBytes(s), rounds)
  {
    hide Leaves, ParentBytes, RunBytes, Rounds, Copies, Flatten, WellFilled;
    var leaves := Leaves(kernel, config, s, level);
    LeavesExact(kernel, config, s, level);
    assert |ParentRows(kernel, leaves, base)| == |leaves|;
    if base + |leaves| <= U64_MAX {
      ParentRowsCanonical(kernel, leaves, base);
    }
    ParentsWithin(kernel, s, leaves, base, width);
    RoundsMonotone(|leaves|, |s|);
    RunWithin(s, width);
    CopiesMonotone(RunBytes(s), RunBytes(s), Rounds(|s|), rounds);
  }

  /** The runs of a whole construction are bounded by twice its partitions, and its writes by
      the rows of all levels, each written once and once more per round. */
  lemma {:induction false} DemandBound(kernel: Kernel, config: Config, s: seq<Item>, level: nat, highWater: nat, width: nat, rounds: nat)
    requires Groupable(kernel, config, s) && RowsWithin(kernel, s, width) && Rounds(|s|) <= rounds
    requires TreePlans(kernel, config, s, level, highWater).Some?
    ensures var d, plans := TreeDemand(kernel, config, s, level, highWater), TreePlans(kernel, config, s, level, highWater).value;
            && |plans| > 0 && d.files <= 2 * |plans| && d.groups == |plans| - 1
            && d.bytes <= Copies(Copies(width, rounds + 1), |s| + |plans| - 1)
    decreases |s|
  {
    hide Leaves, ParentRows, LevelPlans, ParentBytes, RunBytes, Rounds, Copies, Groupable, RowsWithin;
    if |s| > config.MaxEntries(level) {
      var leaves, base := Leaves(kernel, config, s, level), Max(highWater, 1);
      LevelWithin(kernel, config, s, level, base, width, rounds);
      var parents := ParentRows(kernel, leaves, base);
      DemandBound(kernel, config, parents, level + 1, base + |leaves|, width, rounds);
      var rest := TreePlans(kernel, config, parents, level + 1, base + |leaves|).value;
      LevelCost(RunBytes(s), ParentBytes(kernel, leaves, base), |leaves|, |s|, width, rounds, |rest| - 1);
    }
  }

  /** A tree has at most as many partitions below the root as the square of its records. */
  lemma {:induction false} PartitionsQuadratic(kernel: Kernel, config: Config, s: seq<Item>, level: nat, highWater: nat)
    requires Groupable(kernel, config, s) && TreePlans(kernel, config, s, level, highWater).Some?
    ensures |TreePlans(kernel, config, s, level, highWater).value| <= 1 + |s| * |s|
    decreases |s|
  {
    hide Leaves, ParentRows, LevelPlans, Flatten, WellFilled;
    if |s| > config.MaxEntries(level) {
      var leaves, base := Leaves(kernel, config, s, level), Max(highWater, 1);
      LeavesExact(kernel, config, s, level);
      ParentRowsCanonical(kernel, leaves, base);
      PartitionsQuadratic(kernel, config, ParentRows(kernel, leaves, base), level + 1, base + |leaves|);
      Squares(|leaves|, |s|);
    }
  }

  lemma {:induction false} PairsFill(leaves: seq<seq<Item>>)
    requires forall i :: 0 <= i < |leaves| ==> |leaves[i]| >= 2
    ensures 2 * |leaves| <= |Flatten(leaves)|
    decreases |leaves|
  {
    if leaves != [] { PairsFill(leaves[1..]); }
  }

  lemma LeavesHalve(kernel: Kernel, config: Config, s: seq<Item>, level: nat)
    requires Groupable(kernel, config, s) && |s| > config.MaxEntries(level) && config.MinEntries(level) >= 2
    ensures 2 * |Leaves(kernel, config, s, level)| <= |s|
  {
    hide Leaves;
    LeavesExact(kernel, config, s, level);
    PairsFill(Leaves(kernel, config, s, level));
    SameLength(Flatten(Leaves(kernel, config, s, level)), s);
  }

  /** With at least two entries a partition, levels halve: the root is reached within a
      logarithmic number of levels, and there are no more partitions below it than records. */
  lemma {:induction false} HalvingReachesRoot(kernel: Kernel, config: Config, s: seq<Item>, level: nat, highWater: nat, k: nat)
    requires Groupable(kernel, config, s) && config.minLeaf >= 2 && config.minInternal >= 2
    requires |s| <= Power2(k) && level + k <= U32_MAX && Max(highWater, 1) + |s| <= U64_MAX
    ensures TreePlans(kernel, config, s, level, highWater).Some?
    ensures |TreePlans(kernel, config, s, level, highWater).value| <= 1 + |s|
    decreases |s|
  {
    hide Leaves, ParentRows, LevelPlans, Flatten, WellFilled;
    if |s| > config.MaxEntries(level) {
      var leaves, base := Leaves(kernel, config, s, level), Max(highWater, 1);
      LeavesExact(kernel, config, s, level);
      LeavesHalve(kernel, config, s, level);
      ParentRowsCanonical(kernel, leaves, base);
      HalvingReachesRoot(kernel, config, ParentRows(kernel, leaves, base), level + 1, base + |leaves|, k - 1);
    }
  }

  /** Whatever the occupancy bounds, a million records with rows of up to 64 KiB are affordable. */
  lemma MillionAffordable(kernel: Kernel, config: Config, input: seq<Item>)
    requires Groupable(kernel, config, input) && |input| <= 1_048_576 && RowsWithin(kernel, input, 65_536)
    ensures Affordable(kernel, config, input)
  {
    hide RowsWithin, TreePlans, TreeDemand, Rounds, RunBytes;
    Power2Values();
    var n, m := |input|, 1_048_576;
    assert n * n <= m * m by { TimesMonotone(n, m, n); TimesMonotone(n, m, m); }
    ReachesRoot(kernel, config, input, 1, 0);
    PartitionsQuadratic(kernel, config, input, 1, 0);
    CountersFit(kernel, config, input, 65_536, 20, 1 + m + m * m);
  }

  /** With at least two entries a partition, so are 2^40 records with rows of up to 32 KiB. */
  lemma HalvingAffordable(kernel: Kernel, config: Config, input: seq<Item>)
    requires Groupable(kernel, config, input) && config.minLeaf >= 2 && config.minInternal >= 2
    requires |input| <= 1_099_511_627_776 && RowsWithin(kernel, input, 32_768)
    ensures Affordable(kernel, config, input)
  {
    hide RowsWithin, TreePlans, TreeDemand, Rounds, RunBytes;
    Power2Values();
    HalvingReachesRoot(kernel, config, input, 1, 0, 40);
    CountersFit(kernel, config, input, 32_768, 40, 1 + 2 * 1_099_511_627_776);
  }

  lemma CountersFit(kernel: Kernel, config: Config, input: seq<Item>, width: nat, k: nat, rows: nat)
    requires Groupable(kernel, config, input) && RowsWithin(kernel, input, width) && |input| <= Power2(k)
    requires TreePlans(kernel, config, input, 1, 0).Some?
    requires |input| + |TreePlans(kernel, config, input, 1, 0).value| <= rows
    requires width * rows + width * (3 * k + 1) * rows <= U64_MAX && 2 * rows + 1 <= U64_MAX
    ensures Affordable(kernel, config, input)
  {
    hide TreePlans, TreeDemand, Rounds, RunBytes, RowBytes;
    RoundsLogarithmic(|input|, k);
    DemandBound(kernel, config, input, 1, 0, width, 3 * k);
    RunWithin(input, width);
    var c, plans := width * (3 * k + 1), TreePlans(kernel, config, input, 1, 0).value;
    TimesMonotone(|input|, rows, width);
    TimesMonotone(|input| + |plans| - 1, rows, c);
  }
}
