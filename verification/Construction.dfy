/** Construction of one tree in an exclusive scratch directory.

    The workspace owns scratch runs and charges them against one byte ceiling.
    A group is split in memory when it fits the resident allowance and through
    scratch runs otherwise; both are proved to emit the plans of the reference
    grouping, so the allowance cannot influence the tree. */
module Construction {
  import opened Wrappers
  import opened Bytes
  import opened Ordering
  import opened GroupSizes
  import opened Grouping
  import opened Ranks
  import opened Tree
  import opened Scratch
  import opened Meters
  import opened Passes

  /** The first two failures are both the source's `LimitExceeded`: the scratch ceiling,
      or a fixed-width counter that would overflow. */
  datatype Verdict = Done | ScratchExceeded | CounterExceeded | InvalidId

  type Outcome = v: Verdict | !v.InvalidId? witness Done

  predicate ValidId(id: Bytes) {
    0 < |id| <= MAX_RECORD_ID_BYTES
  }

  predicate ValidIds(input: seq<Item>) {
    forall i :: 0 <= i < |input| ==> ValidId(input[i].id)
  }

  /** Work that succeeds adds no more than its demand to the counters, and a counter overflows
      only if the demand would not fit. */
  ghost predicate Metered(was: Meter, now: Meter, d: Demand, r: Outcome) {
    (r.Done? ==> Spent(was, now, d)) && (r.CounterExceeded? ==> !Fits(was, d))
  }

  /** The next piece of work, after what is spent. */
  lemma MeteredNext(a: Meter, b: Meter, c: Meter, spent: Demand, next: Demand, sum: Demand, total: Demand, r: Outcome)
    requires Spent(a, b, spent) && Metered(b, c, next, r)
    requires Within(Plus(spent, next), sum) && Within(sum, total)
    ensures r.Done? ==> Spent(a, c, sum)
    ensures Metered(a, c, total, r)
  {
    if r.CounterExceeded? { FailsInTotal(a, b, spent, next, total); }
  }

  lemma OneLeaf(kernel: Kernel, config: Config, s: seq<Item>, level: nat)
    requires Groupable(kernel, config, s) && |s| <= config.MaxEntries(level)
    ensures Leaves(kernel, config, s, level) == [s]
  {
  }

  lemma NothingSpent(kernel: Kernel, at: Meter, base: nat)
    ensures Spent(at, at, EmitDemand(kernel, [], base)) && Spent(at, at, Demand(0, 0, 0))
  {
  }

  lemma NoChildrenSpent(kernel: Kernel, config: Config, s: seq<Item>, level: nat, at: Meter, base: nat)
    requires Groupable(kernel, config, s) && |s| > config.MaxEntries(level)
    ensures Spent(at, at, ChildrenDemand(kernel, config, s, level, 0, [], base))
  {
  }

  lemma AllChildren(kernel: Kernel, config: Config, s: seq<Item>, level: nat, base: nat)
    requires Groupable(kernel, config, s) && |s| > config.MaxEntries(level)
    requires |ChildSizes(kernel, config, s, level)| <= |Leaves(kernel, config, s, level)|
    ensures AllChildrenDemand(kernel, config, s, level, base)
         == ChildrenDemand(kernel, config, s, level, |ChildSizes(kernel, config, s, level)|, Leaves(kernel, config, s, level), base)
  {
    hide ChildrenDemand, Leaves, ChildSizes;
  }

  lemma Unaffordable(kernel: Kernel, config: Config, input: seq<Item>, now: Meter, r: Outcome)
    requires Groupable(kernel, config, input) && Metered(UNUSED, now, TotalDemand(kernel, config, input), r)
    ensures r.CounterExceeded? ==> !Affordable(kernel, config, input)
  {
    hide TotalDemand, TreePlans;
  }

  /** An oversized level at the last level number leaves no tree. */
  lemma NoHigherLevel(kernel: Kernel, config: Config, input: seq<Item>, done: seq<Plan>, s: seq<Item>, level: nat, highWater: nat)
    requires Groupable(kernel, config, input) && Groupable(kernel, config, s)
    requires Resumes(TreePlans(kernel, config, input, 1, 0), done, TreePlans(kernel, config, s, level, highWater))
    requires |s| > config.MaxEntries(level) && level >= U32_MAX
    ensures !Affordable(kernel, config, input)
  {
    hide Leaves, ParentRows, LevelPlans, TotalDemand;
    assert TreePlans(kernel, config, s, level, highWater).None?;
  }

  lemma AllSpent(was: Meter, now: Meter, d: Demand, r: Outcome)
    requires r.Done? && Spent(was, now, d)
    ensures Metered(was, now, d, r)
  {
  }

  /** One more child of a resident group: what it emitted, charged and counted joins what the
      children before it did. */
  lemma ChildEmitted(kernel: Kernel, level: nat, was: Ledger, at: Ledger, now: Ledger, all: seq<seq<Item>>, done: seq<seq<Item>>,
                     leaves: seq<seq<Item>>, rest: seq<seq<Item>>, parents: Run, next: Run, grown: Run,
                     start: Meter, tally: Meter, after: Meter, limit: nat, r: Outcome)
    requires all == done + (leaves + rest)
    requires Emitted(kernel, level, was, at, done, parents, next, {}, 0)
    requires Spent(start, tally, EmitDemand(kernel, done, Base(was)))
    requires at.peak <= Max(was.peak, was.bytes + ParentBytes(kernel, all, Base(was)))
    requires r.Done? ==> Emitted(kernel, level, at, now, leaves, next, grown, {}, 0)
    requires var cost := at.bytes + ParentBytes(kernel, leaves, Base(at));
             now.peak <= Max(at.peak, cost) && (r.ScratchExceeded? ==> cost > limit)
    requires Metered(tally, after, EmitDemand(kernel, leaves, Base(at)), r)
    ensures all == (done + leaves) + rest
    ensures r.Done? ==> Emitted(kernel, level, was, now, done + leaves, parents, grown, {}, 0)
    ensures var need := was.bytes + ParentBytes(kernel, all, Base(was));
            now.peak <= Max(was.peak, need) && (r.ScratchExceeded? ==> need > limit)
    ensures r.Done? ==> Spent(start, after, EmitDemand(kernel, done + leaves, Base(was)))
    ensures Metered(start, after, EmitDemand(kernel, all, Base(was)), r)
  {
    hide Emitted, ParentBytes, EmitDemand, Base, Spent, Metered, Within, Plus, Max;
    assert all == (done + leaves) + rest;
    ChargesFit(kernel, level, was, at, all, done, leaves, rest, parents, next, {});
    EmitFits(kernel, level, was, at, all, done, leaves, rest, parents, next, {}, 0);
    PeakFits(was.peak, was.bytes + ParentBytes(kernel, all, Base(was)), at.peak, at.bytes + ParentBytes(kernel, leaves, Base(at)), now.peak);
    MeteredNext(start, tally, after, EmitDemand(kernel, done, Base(was)), EmitDemand(kernel, leaves, Base(at)),
                EmitDemand(kernel, done + leaves, Base(was)), EmitDemand(kernel, all, Base(was)), r);
    if r.Done? {
      var none: set<nat> := {};
      assert none + none == none;
      EmittedTrans(kernel, level, was, at, now, done, leaves, parents, next, grown, none, none, 0, 0);
    }
  }

  lemma RowsWeigh(s: seq<Item>)
    ensures |s| <= RunBytes(s)
  {
  }

  /** Appending a row to a run adds its bytes to the run and to the total. */
  lemma AppendedBytes(files: map<nat, seq<Item>>, file: nat, x: Item)
    requires file in files
    ensures var longer := files[file] + [x];
      && RunBytes(longer) == RunBytes(files[file]) + RowBytes(x)
      && |longer| <= RunBytes(longer) <= TotalBytes(files) + RowBytes(x)
      && TotalBytes(files[file := longer]) == TotalBytes(files) + RowBytes(x)
  {
    hide RowBytes, TotalBytes;
    var content := files[file];
    assert (content + [x])[..|content|] == content;
    TotalBytesAt(files, file);
    TotalBytesSet(files, file, content + [x]);
    RowsWeigh(content + [x]);
  }

  lemma Maxima(a: nat, b: nat)
    ensures a <= Max(a, b) && b <= Max(a, b) && (Max(a, b) == a || Max(a, b) == b)
  {
  }

  class Workspace {
    const kernel: Kernel
    const config: Config
    const scratchLimit: nat
    const residentRows: nat
    var files: map<nat, seq<Item>>
    var nextFile: nat
    var bytes: nat
    var records: nat
    var partitions: nat
    var highWater: nat
    var peak: nat
    var written: nat
    var plans: seq<Plan>
    ghost var held: nat    // the most rows a resident buffer has held

    /** The byte counter is the total of the existing runs and stays under the ceiling, and no
        resident buffer was larger than the allowance. */
    ghost predicate Valid()
      reads this
    {
      && ValidKernel(kernel) && config.Valid() && scratchLimit <= U64_MAX
      && (forall f :: f in files ==> f < nextFile)
      && bytes == TotalBytes(files)
      && bytes <= peak <= scratchLimit
      && highWater <= U64_MAX && held <= residentRows
    }

    ghost function Books(): Ledger
      reads this
    {
      Ledger(files, bytes, peak, highWater, partitions, plans)
    }

    ghost function Tally(): Meter
      reads this
    {
      Meter(nextFile, written, Max(highWater, 1), partitions)
    }

    ghost predicate Holds(run: Run, s: seq<Item>)
      reads this
    {
      run.file in files && files[run.file] == s && run.count == |s| && run.bytes == RunBytes(s)
    }

    /** The descriptor of an existing run is accurate. */
    ghost predicate Open(run: Run)
      reads this
    {
      run.file in files && Holds(run, files[run.file])
    }

    constructor (kernel: Kernel, config: Config, scratchLimit: nat, residentRows: nat)
      requires ValidKernel(kernel) && config.Valid() && scratchLimit <= U64_MAX
      ensures this.kernel == kernel && this.config == config
      ensures this.scratchLimit == scratchLimit && this.residentRows == residentRows
      ensures Valid() && files == map[] && nextFile == 0 && plans == []
      ensures records == partitions == highWater == peak == written == 0
    {
      this.kernel, this.config := kernel, config;
      this.scratchLimit, this.residentRows := scratchLimit, residentRows;
      files, nextFile, bytes, plans := map[], 0, 0, [];
      records, partitions, highWater, peak, written, held := 0, 0, 0, 0, 0, 0;
    }

    /** Opens a new empty run. */
    method NewRun() returns (run: Run, r: Outcome)
      requires Valid()
      modifies `files, `nextFile
      ensures Valid()
      ensures r.Done? ==>
        && run.file == old(nextFile) && nextFile == old(nextFile) + 1
        && files == old(files)[run.file := []] && Holds(run, [])
      ensures !r.Done? ==> r.CounterExceeded? && old(nextFile) == U64_MAX && files == old(files) && nextFile == old(nextFile)
    {
      run := Run(nextFile, 0, 0);
      if nextFile == U64_MAX {
        return run, CounterExceeded;
      }
      TotalBytesSet(files, nextFile, []);
      assert files - {nextFile} == files;
      files := files[nextFile := []];
      nextFile := nextFile + 1;
      r := Done;
    }

    /** Charges the ceiling, then appends one row to a growing run. Nothing changes when the
        ceiling would be passed. */
    method Append(run: Run, x: Item) returns (next: Run, r: Outcome)
      requires Valid() && Open(run)
      modifies `files, `bytes, `peak, `written
      ensures Valid()
      ensures r.Done? ==>
        && files == old(files)[run.file := old(files[run.file]) + [x]]
        && next == Run(run.file, run.count + 1, run.bytes + RowBytes(x))
        && Holds(next, old(files[run.file]) + [x])
        && bytes == old(bytes) + RowBytes(x) && written == old(written) + RowBytes(x)
        && peak == Max(old(peak), bytes)
      ensures peak <= Max(old(peak), old(bytes) + RowBytes(x))
      ensures r.ScratchExceeded? <==> old(bytes) + RowBytes(x) > scratchLimit
      ensures r.ScratchExceeded? ==> next == run && unchanged(this)
      ensures r.CounterExceeded? ==> old(written) + RowBytes(x) > U64_MAX
    {
      hide TotalBytes, RunBytes, RowBytes, ValidKernel, Max;
      AppendedBytes(files, run.file, x);
      Maxima(peak, bytes + RowBytes(x));
      next := run;
      var size := RowBytes(x);
      var total := bytes + size;
      if total > scratchLimit {
        return next, ScratchExceeded;
      }
      files := files[run.file := files[run.file] + [x]];
      next := Run(run.file, run.count + 1, run.bytes + size);
      // The run's own counters need no test: the admitted total bounds both.
      assert next.count <= next.bytes <= total <= U64_MAX;
      bytes := total;
      peak := Max(peak, total);
      if written + size > U64_MAX {
        return next, CounterExceeded;
      }
      written := written + size;
      r := Done;
    }

    /** Deletes a run and releases its bytes. */
    method Remove(run: Run)
      requires Valid() && Open(run)
      modifies `files, `bytes
      ensures Valid()
      ensures files == old(files) - {run.file} && bytes == old(bytes) - run.bytes
    {
      TotalBytesAt(files, run.file);
      files := files - {run.file};
      bytes := bytes - run.bytes;
    }

    /** Emits one final group under the next free key, or under key 1 for the root. */
    method EmitPartition(s: seq<Item>, level: nat, parents: Option<Run>) returns (next: Option<Run>, r: Outcome)
      requires Valid()
      requires parents.Some? ==> Open(parents.value)
      modifies `files, `bytes, `peak, `written, `highWater, `plans, `partitions
      ensures Valid()
      ensures r.Done? && parents.Some? ==>
        && next.Some? && Open(next.value)
        && Emitted(kernel, level, old(Books()), Books(), [s], parents.value, next.value, {}, 0)
      ensures r.Done? && parents.None? ==>
        && files == old(files) && bytes == old(bytes) && peak == old(peak)
        && highWater == Max(old(highWater), 1) && partitions == old(partitions) + 1
        && plans == old(plans) + [Plan(1, level, kernel.mean(s), Ids(s))]
      ensures var row := ParentRow(kernel, s, Base(old(Books())) + 1);
              && peak <= Max(old(peak), old(bytes) + RowBytes(row))
              && (r.ScratchExceeded? ==> old(bytes) + RowBytes(row) > scratchLimit)
      ensures parents.None? ==> peak == old(peak) && !r.ScratchExceeded? && (r.CounterExceeded? ==> old(partitions) == U64_MAX)
      ensures var d := Demand(0, RowBytes(ParentRow(kernel, s, Base(old(Books())) + 1)), 1);
              && (r.Done? && parents.Some? ==> Spent(old(Tally()), Tally(), d))
              && (r.CounterExceeded? && parents.Some? ==> !Fits(old(Tally()), d))
    {
      hide RunBytes, TotalBytes, BigEndian, RowBytes, Emitted, ValidKernel;
      ghost var was := Books();
      next := parents;
      var key := 1;
      if parents.Some? {
        if Max(highWater, 1) >= U64_MAX {
          return next, CounterExceeded;
        }
        key := Max(highWater, 1) + 1;
      }
      highWater := Max(highWater, key);
      var entries := Ids(s);
      var centroid := kernel.mean(s);
      if parents.Some? {
        var grown, appended := Append(parents.value, Item(BigEndian(key, 8), centroid));
        next := Some(grown);
        if !appended.Done? {
          return next, appended;
        }
      }
      plans := plans + [Plan(key, level, centroid, entries)];
      if partitions == U64_MAX {
        return next, CounterExceeded;
      }
      partitions := partitions + 1;
      r := Done;
      if parents.Some? {
        EmittedOne(kernel, level, was, Books(), s, parents.value, next.value);
      }
    }

    /** Emits one non-root group. */
    method EmitLeaf(s: seq<Item>, level: nat, parents: Run) returns (next: Run, r: Outcome)
      requires Valid() && Open(parents)
      modifies `files, `bytes, `peak, `written, `highWater, `plans, `partitions
      ensures Valid()
      ensures r.Done? ==> Open(next) && Emitted(kernel, level, old(Books()), Books(), [s], parents, next, {}, 0)
      ensures var need := old(bytes) + ParentBytes(kernel, [s], Base(old(Books())));
              peak <= Max(old(peak), need) && (r.ScratchExceeded? ==> need > scratchLimit)
      ensures Metered(old(Tally()), Tally(), EmitDemand(kernel, [s], Base(old(Books()))), r)
    {
      hide TotalBytes, RunBytes, Emitted, RowBytes, ParentBytes, Max, Base, ValidKernel;
      ParentBytesOne(kernel, s, Base(Books()));
      var emitted;
      emitted, r := EmitPartition(s, level, Some(parents));
      next := if emitted.Some? then emitted.value else parents;
    }

    /** Splits and emits a group held in a slice of the resident buffer. */
    method ResidentGroup(rows: array<Row>, lo: nat, hi: nat, ghost s: seq<Item>, level: nat, parents: Run)
      returns (next: Run, r: Outcome)
      requires Valid() && Open(parents)
      requires lo <= hi <= rows.Length
      requires Groupable(kernel, config, s) && multiset(Items(rows[lo..hi])) == multiset(s)
      modifies rows, `files, `bytes, `peak, `written, `highWater, `plans, `partitions
      ensures Valid()
      ensures forall i :: 0 <= i < rows.Length && !(lo <= i < hi) ==> rows[i] == old(rows[i])
      ensures r.Done? ==>
        && Open(next)
        && Emitted(kernel, level, old(Books()), Books(), Leaves(kernel, config, s, level), parents, next, {}, 0)
      ensures var need := old(bytes) + ParentBytes(kernel, Leaves(kernel, config, s, level), Base(old(Books())));
              peak <= Max(old(peak), need) && (r.ScratchExceeded? ==> need > scratchLimit)
      ensures Metered(old(Tally()), Tally(), EmitDemand(kernel, Leaves(kernel, config, s, level), Base(old(Books()))), r)
      decreases |s|, 1
    {
      hide TotalBytes, RunBytes, Emitted, ParentBytes, RowBytes, Pending, ChildSizes, Canonical, Max, Base, ValidKernel,
        Metered, EmitDemand, Leaves;
      SameLength(Items(rows[lo..hi]), s);
      if hi - lo <= config.MaxEntries(level) {
        SortStretch(rows, lo, hi, false);
        SortedRows(rows[lo..hi], old(rows[lo..hi]), s);
        OneLeaf(kernel, config, s, level);
        next, r := EmitLeaf(Items(rows[lo..hi]), level, parents);
      } else {
        var sizes := PlanResidentCut(kernel, config, rows, lo, hi, s, level);
        next, r := ResidentChildren(rows, lo, hi, s, level, parents, sizes);
      }
    }

    /** Cuts the labelled slice child by child and descends into each. */
    method ResidentChildren(rows: array<Row>, lo: nat, hi: nat, ghost s: seq<Item>, level: nat, parents: Run, sizes: seq<nat>)
      returns (next: Run, r: Outcome)
      requires Valid() && Open(parents)
      requires lo <= hi <= rows.Length
      requires Groupable(kernel, config, s) && |s| > config.MaxEntries(level)
      requires sizes == ChildSizes(kernel, config, s, level) && hi - lo == |s|
      requires Pending(kernel, config, s, level, rows[lo..hi], 0)
      modifies rows, `files, `bytes, `peak, `written, `highWater, `plans, `partitions
      ensures Valid()
      ensures forall i :: 0 <= i < rows.Length && !(lo <= i < hi) ==> rows[i] == old(rows[i])
      ensures r.Done? ==>
        && Open(next)
        && Emitted(kernel, level, old(Books()), Books(), Leaves(kernel, config, s, level), parents, next, {}, 0)
      ensures var need := old(bytes) + ParentBytes(kernel, Leaves(kernel, config, s, level), Base(old(Books())));
              peak <= Max(old(peak), need) && (r.ScratchExceeded? ==> need > scratchLimit)
      ensures Metered(old(Tally()), Tally(), EmitDemand(kernel, Leaves(kernel, config, s, level), Base(old(Books()))), r)
      decreases |s|, 0
    {
      hide TotalBytes, RunBytes, Emitted, ParentBytes, RowBytes, BigEndian, SortBy, CountLabel, ChildSizes, Child, Start,
        Centers, Canonical, Base, ValidKernel, Max, Pending, EmitDemand, Spent, Metered, Within, Plus, Leaves, LeavesFrom;
      ghost var was, all, start := Books(), Leaves(kernel, config, s, level), Tally();
      ghost var need := was.bytes + ParentBytes(kernel, all, Base(was));
      StartEnds(sizes);
      ghost var done: seq<seq<Item>> := [];
      var from := lo;
      next, r := parents, Done;
      EmittedNothing(kernel, level, was, parents);
      PeakStart(was.peak, need);
      NothingSpent(kernel, start, Base(was));
      WholeFromFirst(kernel, config, s, level);
      for i := 0 to |sizes|
        invariant Valid() && Open(next) && r.Done?
        invariant from == lo + Start(sizes, i) <= hi
        invariant forall i :: 0 <= i < rows.Length && !(lo <= i < hi) ==> rows[i] == old(rows[i])
        invariant Pending(kernel, config, s, level, rows[from..hi], i)
        invariant done + LeavesFrom(kernel, config, s, level, i) == all
        invariant Emitted(kernel, level, was, Books(), done, parents, next, {}, 0)
        invariant Spent(start, Tally(), EmitDemand(kernel, done, Base(was)))
        invariant peak <= Max(was.peak, need)
      {
        StartNext(sizes, i);
        var to := from + sizes[i];
        CutChild(kernel, config, rows, from, to, hi, s, level, i);
        ghost var leaves, at := Leaves(kernel, config, Child(kernel, config, s, level, i), level), Books();
        ghost var rest := LeavesFrom(kernel, config, s, level, i + 1);
        LeavesUnfold(kernel, config, s, level, i);
        ghost var tail, tally := rows[to..hi], Tally();
        var grown;
        grown, r := ResidentGroup(rows, from, to, Child(kernel, config, s, level, i), level, next);
        ChildEmitted(kernel, level, was, at, Books(), all, done, leaves, rest, parents, next, grown, start, tally, Tally(), scratchLimit, r);
        if !r.Done? {
          return grown, r;
        }
        assert rows[to..hi] == tail;
        done, next, from := done + leaves, grown, to;
      }
      LeavesUnfold(kernel, config, s, level, |sizes|);
      assert done + [] == done;
      AllSpent(start, Tally(), EmitDemand(kernel, all, Base(was)), r);
    }

    /** Opens one output run per child. */
    method OpenRuns(k: nat) returns (runs: seq<Run>, r: Outcome)
      requires Valid()
      modifies `files, `nextFile
      ensures Valid()
      ensures r.Done? ==>
        && nextFile == old(nextFile) + k
        && |runs| == k && (forall c :: 0 <= c < k ==> runs[c] == Run(old(nextFile) + c, 0, 0))
        && files == WithRuns(old(files), old(nextFile), seq(k, i => []))
      ensures r != ScratchExceeded
      ensures Metered(old(Tally()), Tally(), Demand(k, 0, 0), r)
    {
      hide TotalBytes, ValidKernel, WithRuns;
      runs, r := [], Done;
      ghost var contents: seq<seq<Item>> := [];
      ghost var base := nextFile;
      WithNoRuns(files, base);
      for i := 0 to k
        invariant Valid() && nextFile == base + i
        invariant r.Done? && |runs| == i && forall c :: 0 <= c < i ==> runs[c] == Run(base + c, 0, 0)
        invariant contents == seq(i, i => [])
        invariant files == WithRuns(old(files), base, contents)
      {
        WithRunsPush(old(files), base, contents, []);
        var run;
        run, r := NewRun();
        if !r.Done? {
          return;
        }
        runs := runs + [run];
        contents := contents + [[]];
      }
    }

    /** Appends a row to one of the output runs. */
    method AppendTo(runs: seq<Run>, child: nat, x: Item,
                    ghost was: map<nat, seq<Item>>, ghost base: nat, ghost contents: seq<seq<Item>>)
      returns (grown: seq<Run>, r: Outcome)
      requires Valid() && files == WithRuns(was, base, contents)
      requires RunsOf(runs, base, contents) && child < |runs|
      modifies `files, `bytes, `peak, `written
      ensures Valid() && |grown| == |runs| == |contents|
      ensures r.Done? ==>
        && files == WithRuns(was, base, contents[child := contents[child] + [x]])
        && RunsOf(grown, base, contents[child := contents[child] + [x]])
        && bytes == old(bytes) + RowBytes(x)
      ensures peak <= Max(old(peak), old(bytes) + RowBytes(x))
      ensures r.ScratchExceeded? ==> old(bytes) + RowBytes(x) > scratchLimit
      ensures Metered(old(Tally()), Tally(), Demand(0, RowBytes(x), 0), r)
    {
      hide TotalBytes, RunBytes, RowBytes, ValidKernel, WithRuns, Max, RunsOf;
      RunAppended(was, base, contents, runs, child, x);
      var run;
      run, r := Append(runs[child], x);
      grown := runs[child := run];
    }

    /** Routes every row of a run to its child's run by rank. */
    method Scatter(input: Run, ghost s: seq<Item>, level: nat, centers: seq<Vector>, counts: seq<nat>, sizes: seq<nat>)
      returns (runs: seq<Run>, r: Outcome)
      requires Valid() && Holds(input, s)
      requires Groupable(kernel, config, s) && |s| > config.MaxEntries(level)
      requires centers == Centers(kernel, config, s, level) && |centers| == |sizes|
      requires counts == Counts(LabelKey(kernel, centers), s, |centers|)
      requires sizes == ChildSizes(kernel, config, s, level)
      modifies `files, `nextFile, `bytes, `peak, `written
      ensures Valid()
      ensures r.Done? ==>
        && files == WithRuns(old(files), old(nextFile), Children(kernel, config, s, level))
        && nextFile == old(nextFile) + |sizes|
        && RunsOf(runs, old(nextFile), Children(kernel, config, s, level))
        && bytes == old(bytes) + RunBytes(s)
      ensures peak <= Max(old(peak), old(bytes) + RunBytes(s))
      ensures r.ScratchExceeded? ==> old(bytes) + RunBytes(s) > scratchLimit
      ensures Metered(old(Tally()), Tally(), ScatterDemand(kernel, config, s, level), r)
    {
      hide TotalBytes, RunBytes, RowBytes, ValidKernel, Canonical, Centers, ChildSizes, Rank, Start, Routed, CountLabel, Counts,
        WithRuns, Max, Nearest, RanksAt, RoutedSoFar, Children, RunsOf, Spent, Metered, Fits;
      ghost var key, base, was, start := LabelKey(kernel, centers), nextFile, files, Tally();
      ghost var k, total := |sizes|, ScatterDemand(kernel, config, s, level);
      NothingSpent(kernel, start, 1);
      var rows := files[input.file];
      var ends := RunningEnds(sizes);
      var ranks := RunningStarts(counts);
      RanksStart(key, s, ranks);
      runs, r := OpenRuns(|centers|);
      MeteredNext(start, start, Tally(), Demand(0, 0, 0), Demand(k, 0, 0), Demand(k, 0, 0), total, r);
      if !r.Done? {
        PeakStart(old(peak), old(bytes) + RunBytes(s));
        return;
      }
      NothingRouted(key, s, sizes);
      NoBytesYet(s, runs, base, |sizes|);
      PeakStart(old(peak), old(bytes) + RunBytes(s));
      ghost var contents := RoutedSoFar(key, s, 0, sizes);
      for j := 0 to |rows|
        invariant Valid() && r.Done? && nextFile == base + |sizes| && |runs| == |sizes|
        invariant contents == RoutedSoFar(key, s, j, sizes)
        invariant files == WithRuns(was, base, contents) && RunsOf(runs, base, contents)
        invariant |ranks| == |centers| && RanksAt(key, s, j, ranks)
        invariant Spent(start, Tally(), Demand(k, RunBytes(s[..j]), 0))
        invariant bytes == old(bytes) + RunBytes(s[..j])
        invariant peak <= Max(old(peak), old(bytes) + RunBytes(s))
      {
        var child;
        child, ranks := RouteRow(kernel, s, j, rows[j], centers, ranks, ends, sizes);
        PrefixBytes(s, j);
        ghost var at, tally := peak, Tally();
        runs, r := AppendTo(runs, child, rows[j], was, base, contents);
        MeteredNext(start, tally, Tally(), Demand(k, RunBytes(s[..j]), 0), Demand(0, RowBytes(rows[j]), 0),
                    Demand(k, RunBytes(s[..j + 1]), 0), total, r);
        PeakFits(old(peak), old(bytes) + RunBytes(s), at, old(bytes) + RunBytes(s[..j + 1]), peak);
        if !r.Done? {
          return;
        }
        contents := contents[child := contents[child] + [s[j]]];
      }
      assert s[..|s|] == s;
      AllSpent(start, Tally(), total, r);
      AllRouted(kernel, config, s, level);
    }

    /** Splits and emits one run: in memory when it fits, through scratch runs otherwise. */
    method Group(input: Run, ghost s: seq<Item>, level: nat, parents: Run) returns (next: Run, r: Outcome)
      requires Valid() && Holds(input, s) && Open(parents) && input.file != parents.file
      requires Groupable(kernel, config, s)
      modifies `files, `nextFile, `bytes, `peak, `written, `highWater, `plans, `partitions, `held
      ensures Valid()
      ensures r.Done? ==> Open(next) && Emitted(kernel, level, old(Books()), Books(),
          Leaves(kernel, config, s, level), parents, next, {input.file}, RunBytes(s))
      ensures var need := GroupNeed(kernel, config, s, level, old(Books()));
              peak <= Max(old(peak), need) && (r.ScratchExceeded? ==> need > scratchLimit)
      ensures Metered(old(Tally()), Tally(), GroupDemand(kernel, config, s, level, Base(old(Books()))), r)
      ensures input.count <= residentRows ==> nextFile == old(nextFile)
      decreases |s|, 3
    {
      hide TotalBytes, RunBytes, Emitted, ParentBytes, RowBytes, Max, ValidKernel, Canonical;
      if input.count <= residentRows {
        next, r := GroupInMemory(input, s, level, parents);
      } else if input.count <= config.MaxEntries(level) {
        ghost var was := Books();
        TotalBytesAt(files, input.file);
        next, r := EmitLeaf(files[input.file], level, parents);
        ghost var mid := Books();
        PeakStart(was.peak, GroupNeed(kernel, config, s, level, was));
        PeakFits(was.peak, GroupNeed(kernel, config, s, level, was), was.peak,
                 was.bytes + ParentBytes(kernel, [s], Base(was)), peak);
        if r.Done? {
          InputRemains(kernel, level, was, mid, [s], parents, next, input.file);
          TotalBytesAt(files, input.file);
          Remove(input);
          RemovedAfter(kernel, level, was, mid, [s], parents, next, input.file, RunBytes(s));
        }
      } else {
        next, r := GroupOnDisk(input, s, level, parents);
      }
    }

    /** Reads a whole run into one buffer, frees it, and splits the buffer in place. */
    method GroupInMemory(input: Run, ghost s: seq<Item>, level: nat, parents: Run) returns (next: Run, r: Outcome)
      requires Valid() && Holds(input, s) && Open(parents) && input.file != parents.file && input.count <= residentRows
      requires Groupable(kernel, config, s)
      modifies `files, `nextFile, `bytes, `peak, `written, `highWater, `plans, `partitions, `held
      ensures Valid()
      ensures r.Done? ==> Open(next) && Emitted(kernel, level, old(Books()), Books(),
          Leaves(kernel, config, s, level), parents, next, {input.file}, RunBytes(s))
      ensures var need := GroupNeed(kernel, config, s, level, old(Books()));
              peak <= Max(old(peak), need) && (r.ScratchExceeded? ==> need > scratchLimit)
      ensures Metered(old(Tally()), Tally(), GroupDemand(kernel, config, s, level, Base(old(Books()))), r)
      ensures nextFile == old(nextFile)
      decreases |s|, 2
    {
      hide TotalBytes, RunBytes, Emitted, ParentBytes, RowBytes, Max, ValidKernel, Canonical, Leaves;
      ghost var was, all := Books(), Leaves(kernel, config, s, level);
      TotalBytesAt(files, input.file);
      var content := files[input.file];
      var rows := new Row[|content|](i requires 0 <= i < |content| => Row(0, content[i]));
      assert Items(rows[0..rows.Length]) == s;
      held := if held < rows.Length then rows.Length else held;
      Remove(input);
      ghost var mid := Books();
      assert mid == Removed(was, input.file, RunBytes(s));
      next, r := ResidentGroup(rows, 0, rows.Length, s, level, parents);
      PeakStart(was.peak, GroupNeed(kernel, config, s, level, was));
      PeakFits(was.peak, GroupNeed(kernel, config, s, level, was), was.peak,
               mid.bytes + ParentBytes(kernel, all, Base(mid)), peak);
      if r.Done? {
        RemovedBefore(kernel, level, was, Books(), all, parents, next, input.file, RunBytes(s));
      }
    }

    method GroupOnDisk(input: Run, ghost s: seq<Item>, level: nat, parents: Run) returns (next: Run, r: Outcome)
      requires Valid() && Holds(input, s) && Open(parents) && input.file != parents.file
      requires Groupable(kernel, config, s) && |s| > config.MaxEntries(level)
      modifies `files, `nextFile, `bytes, `peak, `written, `highWater, `plans, `partitions, `held
      ensures Valid()
      ensures r.Done? ==> Open(next) && Emitted(kernel, level, old(Books()), Books(),
          Leaves(kernel, config, s, level), parents, next, {input.file}, RunBytes(s))
      ensures var need := GroupNeed(kernel, config, s, level, old(Books()));
              peak <= Max(old(peak), need) && (r.ScratchExceeded? ==> need > scratchLimit)
      ensures Metered(old(Tally()), Tally(), GroupDemand(kernel, config, s, level, Base(old(Books()))), r)
      decreases |s|, 2
    {
      hide TotalBytes, RunBytes, Emitted, ParentBytes, RowBytes, Max, ValidKernel, Canonical, Leaves, WithRuns, RunsOf,
        GroupNeed, Children, ChildSizes, Centers, Counts, HasRuns, Spent, Metered, Fits, ScatterDemand, GroupDemand, AllChildrenDemand;
      ghost var was, base, start := Books(), nextFile, Tally();
      ghost var scatter, rest := ScatterDemand(kernel, config, s, level), AllChildrenDemand(kernel, config, s, level, Base(was));
      ghost var total := GroupDemand(kernel, config, s, level, Base(was));
      NothingSpent(kernel, start, 1);
      ScatterWithin(kernel, config, s, level, Base(was));
      ChildrenTotal(kernel, config, s, level, Base(was));
      ghost var need, contents := GroupNeed(kernel, config, s, level, was), Children(kernel, config, s, level);
      var centers, counts, sizes := PlanRunCut(kernel, config, files[input.file], level);
      var runs;
      runs, r := Scatter(input, s, level, centers, counts, sizes);
      ghost var scattered := Tally();
      MeteredNext(start, start, scattered, Demand(0, 0, 0), scatter, scatter, total, r);
      CopyFits(kernel, config, s, level, was);
      PeakStart(was.peak, need);
      PeakFits(was.peak, need, was.peak, was.bytes + RunBytes(s), peak);
      if !r.Done? {
        return parents, r;
      }
      OldRuns(was.files, base, contents, input.file);
      OldRuns(was.files, base, contents, parents.file);
      NewRuns(was.files, base, contents, input.file);
      RunsLength(runs, base, contents);
      Remove(input);
      ghost var mid := Books();
      next, r := GroupChildren(runs, base, s, level, parents, was);
      MeteredNext(start, scattered, Tally(), scatter, rest, Plus(scatter, rest), total, r);
      if r.Done? {
        EmittedRebase(kernel, level, was, mid, Books(), Leaves(kernel, config, s, level), parents, next,
                      base, contents, input.file, RunBytes(s));
      }
    }

    /** Groups the children's runs in order. */
    method GroupChildren(runs: seq<Run>, ghost base: nat, ghost s: seq<Item>, level: nat, parents: Run, ghost was: Ledger)
      returns (next: Run, r: Outcome)
      requires Valid() && Open(parents) && parents.file < base
      requires Groupable(kernel, config, s) && |s| > config.MaxEntries(level)
      requires RunsOf(runs, base, Children(kernel, config, s, level))
      requires HasRuns(files, base, Children(kernel, config, s, level))
      requires bytes == was.bytes && Base(Books()) == Base(was)
      requires peak <= Max(was.peak, GroupNeed(kernel, config, s, level, was))
      modifies `files, `nextFile, `bytes, `peak, `written, `highWater, `plans, `partitions, `held
      ensures Valid()
      ensures r.Done? ==> Open(next) && Emitted(kernel, level, old(Books()), Books(),
          Leaves(kernel, config, s, level), parents, next, NewFiles(base, |Children(kernel, config, s, level)|), RunBytes(s))
      ensures var need := GroupNeed(kernel, config, s, level, was);
              peak <= Max(was.peak, need) && (r.ScratchExceeded? ==> need > scratchLimit)
      ensures Metered(old(Tally()), Tally(), AllChildrenDemand(kernel, config, s, level, Base(was)), r)
      decreases |s|, 1
    {
      hide TotalBytes, RunBytes, Emitted, ParentBytes, RowBytes, Max, ValidKernel, Canonical, RunsOf,
        GroupNeed, Child, ChildSizes, Base, NewFiles, Consumed, Spent, Metered, Fits, Within, Plus, GroupDemand, ChildrenDemand,
        AllChildrenDemand, Leaves, LeavesFrom;
      ghost var start, lastKey, total := Tally(), Base(was), AllChildrenDemand(kernel, config, s, level, Base(was));
      ghost var mid, all, contents := Books(), Leaves(kernel, config, s, level), Children(kernel, config, s, level);
      ghost var need := GroupNeed(kernel, config, s, level, was);
      ghost var done: seq<seq<Item>>, gone: set<nat> := [], NewFiles(base, 0);
      NoNewFiles(base);
      RunsLength(runs, base, contents);
      ConsumedEnds(kernel, config, s, level);
      next, r := parents, Done;
      EmittedNothing(kernel, level, mid, parents);
      WholeFromFirst(kernel, config, s, level);
      NoChildrenSpent(kernel, config, s, level, start, lastKey);
      for i := 0 to |runs|
        invariant Valid() && Open(next) && r.Done? && |runs| == |contents|
        invariant gone == NewFiles(base, i)
        invariant done + LeavesFrom(kernel, config, s, level, i) == all
        invariant Emitted(kernel, level, mid, Books(), done, parents, next, gone, Consumed(kernel, config, s, level, i))
        invariant peak <= Max(was.peak, need)
        invariant i <= |done| && Spent(start, Tally(), ChildrenDemand(kernel, config, s, level, i, done, lastKey))
      {
        ghost var at, child, tally := Books(), Child(kernel, config, s, level, i), Tally();
        ghost var leaves, rest := Leaves(kernel, config, child, level), LeavesFrom(kernel, config, s, level, i + 1);
        assert contents[i] == child;
        LeavesUnfold(kernel, config, s, level, i);
        RunDescribes(runs, base, contents, i);
        RunRemains(kernel, level, mid, at, done, parents, next, gone, Consumed(kernel, config, s, level, i), base, i);
        ChildNeed(kernel, config, s, level, was, mid, at, all, done, leaves, rest, parents, next, gone, i);
        var grown;
        grown, r := Group(runs[i], child, level, next);
        PeakFits(was.peak, need, at.peak, GroupNeed(kernel, config, child, level, at), peak);
        ChildFits(kernel, config, s, level, i, done, lastKey);
        EmittedCharges(kernel, level, mid, at, done, parents, next, gone, Consumed(kernel, config, s, level, i));
        MeteredNext(start, tally, Tally(), ChildrenDemand(kernel, config, s, level, i, done, lastKey),
                    GroupDemand(kernel, config, child, level, Base(at)),
                    ChildrenDemand(kernel, config, s, level, i + 1, done + leaves, lastKey), total, r);
        if !r.Done? {
          return grown, r;
        }
        ChildBytes(kernel, config, s, level, i);
        EmittedTrans(kernel, level, mid, at, Books(), done, leaves, parents, next, grown,
                     gone, {runs[i].file}, Consumed(kernel, config, s, level, i), RunBytes(child));
        OneMoreFile(base, i);
        assert done + (leaves + rest) == (done + leaves) + rest;
        done, next, gone := done + leaves, grown, NewFiles(base, i + 1);
      }
      LeavesUnfold(kernel, config, s, level, |runs|);
      assert done + [] == done;
      AllSpent(start, Tally(), ChildrenDemand(kernel, config, s, level, |runs|, done, lastKey), r);
      AllChildren(kernel, config, s, level, lastKey);
    }

    /** Builds the tree of one record stream, strictly ordered by ID, in a fresh workspace.
        It succeeds whenever every ID is valid, the ceiling admits what the tree needs at
        once, and no counter overflows. */
    method ConstructTree(input: seq<Item>) returns (r: Verdict)
      requires Valid() && files == map[] && plans == [] && bytes == peak == 0
      requires records == partitions == highWater == nextFile == written == 0
      requires Groupable(kernel, config, input)
      modifies this
      ensures Valid()
      ensures r.Done? ==> files == map[] && bytes == 0 && records == |input|
      ensures r.Done? ==> partitions == highWater == |plans|
      ensures r.Done? && input == [] ==> plans == []
      ensures r.Done? && input != [] ==> TreePlans(kernel, config, input, 1, 0) == Some(plans)
      ensures r.Done? ==> ValidIds(input)
      ensures r.InvalidId? ==> !ValidIds(input)
      ensures peak <= TreeNeed(kernel, config, input, 1, 0)
      ensures r.ScratchExceeded? ==> TreeNeed(kernel, config, input, 1, 0) > scratchLimit
      ensures r.CounterExceeded? ==> !Affordable(kernel, config, input)
      ensures ValidIds(input) && TreeNeed(kernel, config, input, 1, 0) <= scratchLimit && Affordable(kernel, config, input) ==> r.Done?
    {
      hide TotalBytes, RunBytes, RowBytes, ValidKernel, Canonical, Leaves, TreeNeed, TreePlans, TreeDemand, ValidId;
      InputFits(kernel, config, input, 1, 0);
      var run;
      run, r := LoadInput(input);
      if !r.Done? {
        return;
      }
      records := run.count;
      if run.count == 0 {
        Remove(run);
        return;
      }
      r := BuildLevels(run, input);
    }

    /** Writes the records to the first run. */
    method LoadInput(input: seq<Item>) returns (run: Run, r: Verdict)
      requires Valid() && files == map[] && bytes == peak == 0 && Tally() == UNUSED
      modifies `files, `nextFile, `bytes, `peak, `written
      ensures Valid()
      ensures r.Done? ==> files == map[run.file := input] && Holds(run, input) && bytes == RunBytes(input)
      ensures r.Done? ==> ValidIds(input)
      ensures !r.InvalidId? ==> Metered(UNUSED, Tally(), Demand(1, RunBytes(input), 0), r)
      ensures r.InvalidId? ==> !ValidIds(input)
      ensures peak <= RunBytes(input) && (r.ScratchExceeded? ==> RunBytes(input) > scratchLimit)
    {
      hide TotalBytes, RunBytes, RowBytes, ValidKernel, ValidId;
      run, r := NewRun();
      if !r.Done? {
        return;
      }
      NothingWritten(input);
      for i := 0 to |input|
        invariant Valid() && r.Done?
        invariant files == map[run.file := input[..i]] && Holds(run, input[..i])
        invariant bytes == RunBytes(input[..i]) && peak <= RunBytes(input[..i])
        invariant Spent(UNUSED, Tally(), Demand(1, RunBytes(input[..i]), 0))
        invariant forall j :: 0 <= j < i ==> ValidId(input[j].id)
      {
        PrefixBytes(input, i);
        if !ValidId(input[i].id) {
          return run, InvalidId;
        }
        run, r := Append(run, input[i]);
        if !r.Done? {
          return;
        }
        assert input[..i + 1] == input[..i] + [input[i]];
      }
      assert input[..|input|] == input;
    }

    /** Groups level after level until one fits in the root. */
    method BuildLevels(first: Run, ghost input: seq<Item>) returns (r: Outcome)
      requires Valid() && files == map[first.file := input] && Holds(first, input) && bytes == RunBytes(input)
      requires Groupable(kernel, config, input) && plans == [] && partitions == highWater == 0
      requires peak <= TreeNeed(kernel, config, input, 1, 0)
      requires Spent(UNUSED, Tally(), Demand(1, RunBytes(input), 0))
      modifies `files, `nextFile, `bytes, `peak, `written, `highWater, `plans, `partitions, `held
      ensures Valid()
      ensures r.Done? ==> files == map[] && bytes == 0
      ensures r.Done? ==> partitions == highWater == |plans|
      ensures r.Done? ==> TreePlans(kernel, config, input, 1, 0) == Some(plans)
      ensures peak <= TreeNeed(kernel, config, input, 1, 0)
      ensures r.ScratchExceeded? ==> TreeNeed(kernel, config, input, 1, 0) > scratchLimit
      ensures r.CounterExceeded? ==> !Affordable(kernel, config, input)
    {
      hide TotalBytes, RunBytes, RowBytes, ValidKernel, Canonical, Leaves, TreeNeed, TreePlans, LevelPlans, ParentRows,
        TreeDemand, LevelDemand, Spent, Metered, Fits, Groupable, Affordable, TotalDemand, Resumes;
      var run, level := first, 1;
      ghost var s, spent, total := input, Demand(1, RunBytes(input), 0), TotalDemand(kernel, config, input);
      ResumesStart(TreePlans(kernel, config, input, 1, 0));
      DemandStart(kernel, config, input);
      while true
        invariant Valid() && Groupable(kernel, config, s) && 1 <= level <= U32_MAX
        invariant files == map[run.file := s] && Holds(run, s) && bytes == RunBytes(s)
        invariant Resumes(TreePlans(kernel, config, input, 1, 0), plans, TreePlans(kernel, config, s, level, highWater))
        invariant partitions == |plans| == Max(highWater, 1) - 1
        invariant TreeNeed(kernel, config, s, level, highWater) <= TreeNeed(kernel, config, input, 1, 0)
        invariant peak <= TreeNeed(kernel, config, input, 1, 0)
        invariant Spent(UNUSED, Tally(), spent) && Plus(spent, TreeDemand(kernel, config, s, level, highWater)) == total
        decreases |s|
      {
        if run.count <= config.MaxEntries(level) {
          RootPlan(kernel, config, s, level, highWater);
          ResumesEnd(TreePlans(kernel, config, input, 1, 0), plans, TreePlans(kernel, config, s, level, highWater));
          r := EmitRoot(run, s, level);
          return;
        }
        NeedHere(kernel, config, s, level, highWater);
        ghost var leaves, base, before, mark := Leaves(kernel, config, s, level), Max(highWater, 1), plans, highWater;
        ghost var tally, here := Tally(), LevelDemand(kernel, config, s, level, base);
        DemandNext(kernel, config, s, level, mark, base);
        run, r := BuildLevel(run, s, level);
        MeteredNext(UNUSED, tally, Tally(), spent, here, Plus(spent, here), total, r);
        if !r.Done? {
          Unaffordable(kernel, config, input, Tally(), r);
          return;
        }
        if level == U32_MAX {
          NoHigherLevel(kernel, config, input, before, s, level, mark);
          return CounterExceeded;
        }
        spent := Plus(spent, here);
        NextLevel(kernel, config, s, level, mark, base);
        ghost var rest := TreePlans(kernel, config, ParentRows(kernel, leaves, base), level + 1, base + |leaves|);
        ResumesNext(TreePlans(kernel, config, input, 1, 0), before, LevelPlans(kernel, level, leaves, base), rest);
        s := ParentRows(kernel, leaves, base);
        level := level + 1;
      }
    }

    /** The complete level fits in the root: emits it and frees its run. */
    method EmitRoot(run: Run, ghost s: seq<Item>, level: nat) returns (r: Outcome)
      requires Valid() && files == map[run.file := s] && Holds(run, s)
      modifies `files, `bytes, `peak, `written, `highWater, `plans, `partitions
      ensures Valid() && peak == old(peak)
      ensures r.Done? ==>
        && files == map[] && bytes == 0
        && plans == old(plans) + [Plan(1, level, kernel.mean(s), Ids(s))]
        && highWater == Max(old(highWater), 1) && partitions == old(partitions) + 1
      ensures !r.ScratchExceeded? && (r.CounterExceeded? ==> old(partitions) == U64_MAX)
    {
      hide RunBytes, RowBytes, ValidKernel, Max;
      var next;
      next, r := EmitPartition(files[run.file], level, None);
      if r.Done? {
        Remove(run);
        assert files == map[];
      }
    }

    /** Groups one oversized level into the run of its parents. */
    method BuildLevel(run: Run, ghost s: seq<Item>, level: nat) returns (parents: Run, r: Outcome)
      requires Valid() && files == map[run.file := s] && Holds(run, s)
      requires Groupable(kernel, config, s) && |s| > config.MaxEntries(level)
      modifies `files, `nextFile, `bytes, `peak, `written, `highWater, `plans, `partitions, `held
      ensures Valid()
      ensures var leaves, base := Leaves(kernel, config, s, level), Max(old(highWater), 1);
              var rows := ParentRows(kernel, leaves, base);
              && (r.Done? ==>
                  && files == map[parents.file := rows] && Holds(parents, rows) && bytes == RunBytes(rows)
                  && plans == old(plans) + LevelPlans(kernel, level, leaves, base)
                  && partitions == old(partitions) + |leaves| && highWater == base + |leaves|)
              && peak <= Max(old(peak), 2 * RunBytes(s) + RunBytes(rows))
              && (r.ScratchExceeded? ==> 2 * RunBytes(s) + RunBytes(rows) > scratchLimit)
      ensures Metered(old(Tally()), Tally(), LevelDemand(kernel, config, s, level, Max(old(highWater), 1)), r)
    {
      hide TotalBytes, RunBytes, RowBytes, ValidKernel, Canonical, Leaves, LevelPlans, ParentRows, GroupDemand;
      ghost var leaves, base := Leaves(kernel, config, s, level), Max(highWater, 1);
      ghost var rows := ParentRows(kernel, leaves, base);
      LeavesExact(kernel, config, s, level);
      OnlyRun(files, run.file);
      parents, r := NewRun();
      if !r.Done? {
        return;
      }
      parents, r := Group(run, s, level, parents);
      if r.Done? {
        assert [] + rows == rows;
        assert files == map[parents.file := rows];
        OnlyRun(files, parents.file);
      }
    }
  }

  /** Two constructions of the same input under different memory and scratch budgets
      emit the same plans, and those plans are an exact tree over the records; both
      succeed when their ceilings admit what the tree needs. */
  method ConstructTwice(kernel: Kernel, config: Config, input: seq<Item>, scratch1: nat, resident1: nat, scratch2: nat, resident2: nat)
    returns (first: Verdict, second: Verdict, plans1: seq<Plan>, plans2: seq<Plan>)
    requires Groupable(kernel, config, input) && input != []
    requires scratch1 <= U64_MAX && scratch2 <= U64_MAX
    ensures first.Done? && second.Done? ==> plans1 == plans2
    ensures first.Done? ==> Exact(config, plans1, Ids(input), 1, 1) && Centred(kernel, plans1, input, 1)
    ensures ValidIds(input) && Affordable(kernel, config, input) && TreeNeed(kernel, config, input, 1, 0) <= Min(scratch1, scratch2)
            ==> first.Done? && second.Done?
  {
    hide TreePlans, TreeNeed, Exact, Centred, ValidKernel, Canonical, TotalBytes, Affordable, ValidIds;
    var a := new Workspace(kernel, config, scratch1, resident1);
    NoRuns();
    first := a.ConstructTree(input);
    plans1 := a.plans;
    if first.Done? {
      TreeExact(kernel, config, input, 1, 0);
      TreeCentred(kernel, config, input, 1, 0);
    }
    var b := new Workspace(kernel, config, scratch2, resident2);
    second := b.ConstructTree(input);
    plans2 := b.plans;
  }

  lemma NoRuns()
    ensures TotalBytes(map[]) == 0
  {
  }
}
