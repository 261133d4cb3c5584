/** Accounting for the scratch files of one construction: bytes of runs, what an emission
    does to the books, and how much scratch grouping may need at once. */
module Scratch {
  import opened Wrappers
  import opened Bytes
  import opened Ordering
  import opened GroupSizes
  import opened Grouping
  import opened Tree

  /** A finished or growing scratch run. */
  datatype Run = Run(file: nat, count: nat, bytes: nat)

  // ---------------------------------------------------------------- byte accounting

  function RowBytes(x: Item): nat {
    4 + |x.id| + 4 * |x.vector|
  }

  ghost function RunBytes(s: seq<Item>): nat {
    if s == [] then 0 else RunBytes(s[..|s| - 1]) + RowBytes(s[|s| - 1])
  }

  lemma {:induction false} RunBytesAppend(s: seq<Item>, t: seq<Item>)
    ensures RunBytes(s + t) == RunBytes(s) + RunBytes(t)
    decreases |t|
  {
    if t == [] {
      assert s + t == s;
    } else {
      assert (s + t)[..|s + t| - 1] == s + t[..|t| - 1];
      RunBytesAppend(s, t[..|t| - 1]);
    }
  }

  lemma RunBytesOne(x: Item)
    ensures RunBytes([x]) == RowBytes(x)
  {
    assert [x][..0] == [];
  }

  lemma {:induction false} RunBytesWithout(s: seq<Item>, i: nat)
    requires i < |s|
    ensures RunBytes(s) == RunBytes(Without(s, i)) + RowBytes(s[i])
    decreases |s|
  {
    hide RowBytes;
    var r := Without(s, i);
    if i == |s| - 1 {
      assert r == s[..|s| - 1];
    } else {
      var front := s[..|s| - 1];
      RunBytesWithout(front, i);
      assert r[..|r| - 1] == Without(front, i) && r[|r| - 1] == s[|s| - 1];
      assert RunBytes(r) == RunBytes(Without(front, i)) + RowBytes(s[|s| - 1]);
    }
  }

  lemma {:induction false} RunBytesPermute(s: seq<Item>, t: seq<Item>)
    requires multiset(s) == multiset(t)
    ensures RunBytes(s) == RunBytes(t)
    decreases |s|
  {
    assert |multiset(s)| == |s| && |multiset(t)| == |t|;
    if s != [] {
      assert s[0] in multiset(t);
      var i := IndexOf(t, s[0]);
      RunBytesWithout(s, 0);
      RunBytesWithout(t, i);
      RunBytesPermute(Without(s, 0), Without(t, i));
    }
  }

  /** Bytes of all existing runs. */
  ghost function TotalBytes(files: map<nat, seq<Item>>): nat {
    if files.Keys == {} then 0 else
      var f :| f in files.Keys;
      RunBytes(files[f]) + TotalBytes(files - {f})
  }

  lemma {:induction false} TotalBytesAt(files: map<nat, seq<Item>>, f: nat)
    requires f in files
    ensures TotalBytes(files) == RunBytes(files[f]) + TotalBytes(files - {f})
    decreases |files.Keys|
  {
    hide RunBytes;
    var g :| g in files.Keys && TotalBytes(files) == RunBytes(files[g]) + TotalBytes(files - {g});
    if g != f {
      assert (files - {g}).Keys == files.Keys - {g} && (files - {f}).Keys == files.Keys - {f};
      TotalBytesAt(files - {g}, f);
      TotalBytesAt(files - {f}, g);
      assert files - {g} - {f} == files - {f} - {g};
    }
  }

  lemma TotalBytesSet(files: map<nat, seq<Item>>, f: nat, s: seq<Item>)
    ensures TotalBytes(files[f := s]) == TotalBytes(files - {f}) + RunBytes(s)
  {
    TotalBytesAt(files[f := s], f);
    assert files[f := s] - {f} == files - {f};
  }

  lemma WithNoRuns(files: map<nat, seq<Item>>, base: nat)
    ensures WithRuns(files, base, []) == files
  {
  }

  /** The directory with consecutive new runs added. */
  ghost function WithRuns(files: map<nat, seq<Item>>, base: nat, contents: seq<seq<Item>>): map<nat, seq<Item>> {
    map f | f in files.Keys + NewFiles(base, |contents|) ::
      if base <= f < base + |contents| then contents[f - base] else files[f]
  }

  ghost function NewFiles(base: nat, n: nat): (r: set<nat>)
    ensures forall f :: f in r <==> base <= f < base + n
  {
    if n == 0 then {} else NewFiles(base, n - 1) + {base + n - 1}
  }

  lemma WithRunsUpdate(files: map<nat, seq<Item>>, base: nat, contents: seq<seq<Item>>, c: nat, run: seq<Item>)
    requires c < |contents|
    ensures WithRuns(files, base, contents)[base + c := run] == WithRuns(files, base, contents[c := run])
  {
  }

  lemma WithRunsPush(files: map<nat, seq<Item>>, base: nat, contents: seq<seq<Item>>, run: seq<Item>)
    ensures WithRuns(files, base, contents)[base + |contents| := run] == WithRuns(files, base, contents + [run])
  {
  }

  // ---------------------------------------------------------------- emission bookkeeping

  /** What one level's emission may change. */
  datatype Ledger = Ledger(
    files: map<nat, seq<Item>>, bytes: nat, peak: nat, highWater: nat, partitions: nat, plans: seq<Plan>)

  /** The key below the next non-root partition's key. */
  ghost function Base(at: Ledger): nat {
    Max(at.highWater, 1)
  }

  /** Between two ledgers the partitions `leaves` were emitted: their plans, their
      parent rows, and their keys, with the runs `gone` (of `freed` bytes) removed. */
  ghost predicate Emitted(kernel: Kernel, level: nat, was: Ledger, now: Ledger, leaves: seq<seq<Item>>,
                          parents: Run, next: Run, gone: set<nat>, freed: nat)
  {
    var rows := ParentRows(kernel, leaves, Base(was));
    && parents.file in was.files && parents.file !in gone
    && next == Run(parents.file, parents.count + |leaves|, parents.bytes + RunBytes(rows))
    && now.plans == was.plans + LevelPlans(kernel, level, leaves, Base(was))
    && now.partitions == was.partitions + |leaves|
    && Base(now) == Base(was) + |leaves|
    && now.files == (was.files - gone)[parents.file := was.files[parents.file] + rows]
    && now.bytes + freed == was.bytes + RunBytes(rows)
  }

  /** Emissions compose. */
  lemma EmittedTrans(kernel: Kernel, level: nat, a: Ledger, b: Ledger, c: Ledger,
                     first: seq<seq<Item>>, second: seq<seq<Item>>, r0: Run, r1: Run, r2: Run,
                     gone1: set<nat>, gone2: set<nat>, freed1: nat, freed2: nat)
    requires Emitted(kernel, level, a, b, first, r0, r1, gone1, freed1)
    requires Emitted(kernel, level, b, c, second, r1, r2, gone2, freed2)
    ensures Emitted(kernel, level, a, c, first + second, r0, r2, gone1 + gone2, freed1 + freed2)
  {
    hide RunBytes;
    LevelAppend(kernel, level, first, second, Base(a));
    RunBytesAppend(ParentRows(kernel, first, Base(a)), ParentRows(kernel, second, Base(b)));
    var f, rows1, rows2 := r0.file, ParentRows(kernel, first, Base(a)), ParentRows(kernel, second, Base(b));
    assert a.files[f] + (rows1 + rows2) == (a.files[f] + rows1) + rows2;
    assert a.plans + (LevelPlans(kernel, level, first, Base(a)) + LevelPlans(kernel, level, second, Base(b)))
        == (a.plans + LevelPlans(kernel, level, first, Base(a))) + LevelPlans(kernel, level, second, Base(b));
    assert c.files == (a.files - (gone1 + gone2))[f := a.files[f] + (rows1 + rows2)];
  }

  lemma EmittedNothing(kernel: Kernel, level: nat, at: Ledger, run: Run)
    requires run.file in at.files
    ensures Emitted(kernel, level, at, at, [], run, run, {}, 0)
  {
    assert at.files[run.file] + [] == at.files[run.file];
    assert (at.files - {})[run.file := at.files[run.file]] == at.files;
    assert LevelPlans(kernel, level, [], Base(at)) == [] && ParentRows(kernel, [], Base(at)) == [];
  }

  /** The row that stands for a group one level up. */
  function ParentRow(kernel: Kernel, s: seq<Item>, key: nat): Item {
    Item(BigEndian(key, 8), kernel.mean(s))
  }

  lemma EmittedOne(kernel: Kernel, level: nat, was: Ledger, now: Ledger, s: seq<Item>, parents: Run, next: Run)
    requires parents.file in was.files
    requires var key := Base(was) + 1; var row := ParentRow(kernel, s, key);
      && now.highWater == key && now.partitions == was.partitions + 1
      && now.plans == was.plans + [Plan(key, level, kernel.mean(s), Ids(s))]
      && now.files == was.files[parents.file := was.files[parents.file] + [row]]
      && now.bytes == was.bytes + RowBytes(row)
      && next == Run(parents.file, parents.count + 1, parents.bytes + RowBytes(row))
    ensures Emitted(kernel, level, was, now, [s], parents, next, {}, 0)
  {
    var key := Base(was) + 1;
    var rows := ParentRows(kernel, [s], Base(was));
    assert rows == [ParentRow(kernel, s, key)];
    RunBytesOne(rows[0]);
    assert LevelPlans(kernel, level, [s], Base(was)) == [Plan(key, level, kernel.mean(s), Ids(s))];
    assert was.files - {} == was.files;
  }

  /** Bytes the parent rows of some partitions take. */
  ghost function ParentBytes(kernel: Kernel, leaves: seq<seq<Item>>, base: nat): nat {
    RunBytes(ParentRows(kernel, leaves, base))
  }

  lemma ParentBytesSplit(kernel: Kernel, a: seq<seq<Item>>, b: seq<seq<Item>>, base: nat)
    ensures ParentBytes(kernel, a + b, base) == ParentBytes(kernel, a, base) + ParentBytes(kernel, b, base + |a|)
  {
    hide RunBytes;
    LevelAppend(kernel, 1, a, b, base);
    RunBytesAppend(ParentRows(kernel, a, base), ParentRows(kernel, b, base + |a|));
  }

  lemma ParentBytesOne(kernel: Kernel, s: seq<Item>, base: nat)
    ensures ParentBytes(kernel, [s], base) == RowBytes(ParentRow(kernel, s, base + 1))
  {
    assert ParentRows(kernel, [s], base) == [ParentRow(kernel, s, base + 1)];
    RunBytesOne(ParentRow(kernel, s, base + 1));
  }

  /** The byte and key consequences of an emission. */
  lemma EmittedCharges(kernel: Kernel, level: nat, was: Ledger, now: Ledger, leaves: seq<seq<Item>>,
                       parents: Run, next: Run, gone: set<nat>, freed: nat)
    requires Emitted(kernel, level, was, now, leaves, parents, next, gone, freed)
    ensures now.bytes + freed == was.bytes + ParentBytes(kernel, leaves, Base(was))
    ensures Base(now) == Base(was) + |leaves|
  {
  }

  /** Emitting after one run was replaced by copies of its rows, all of them used up,
      is emitting with that run removed. */
  lemma EmittedRebase(kernel: Kernel, level: nat, was: Ledger, mid: Ledger, now: Ledger, leaves: seq<seq<Item>>,
                      parents: Run, next: Run, base: nat, contents: seq<seq<Item>>, input: nat, freed: nat)
    requires Emitted(kernel, level, mid, now, leaves, parents, next, NewFiles(base, |contents|), freed)
    requires forall f :: f in was.files ==> f < base
    requires input in was.files && parents.file in was.files && input != parents.file
    requires mid.files == WithRuns(was.files, base, contents) - {input}
    requires mid.bytes == was.bytes && mid.plans == was.plans && mid.partitions == was.partitions
    requires mid.highWater == was.highWater
    ensures Emitted(kernel, level, was, now, leaves, parents, next, {input}, freed)
  {
    hide RunBytes;
    assert mid.files[parents.file] == was.files[parents.file];
    assert mid.files - NewFiles(base, |contents|) == was.files - {input};
  }

  /** The books once a run is removed. */
  ghost function Removed(at: Ledger, input: nat, freed: nat): Ledger
    requires freed <= at.bytes
  {
    at.(files := at.files - {input}, bytes := at.bytes - freed)
  }

  /** Removing a run and then emitting amounts to emitting with it gone. */
  lemma RemovedBefore(kernel: Kernel, level: nat, was: Ledger, now: Ledger, leaves: seq<seq<Item>>,
                      parents: Run, next: Run, input: nat, freed: nat)
    requires freed <= was.bytes && input != parents.file && parents.file in was.files
    requires Emitted(kernel, level, Removed(was, input, freed), now, leaves, parents, next, {}, 0)
    ensures Emitted(kernel, level, was, now, leaves, parents, next, {input}, freed)
  {
    hide RunBytes;
    assert Removed(was, input, freed).files - {} == was.files - {input};
  }

  /** So does emitting and then removing it. */
  lemma RemovedAfter(kernel: Kernel, level: nat, was: Ledger, mid: Ledger, leaves: seq<seq<Item>>,
                     parents: Run, next: Run, input: nat, freed: nat)
    requires freed <= mid.bytes && input != parents.file && parents.file in was.files
    requires Emitted(kernel, level, was, mid, leaves, parents, next, {}, 0)
    ensures Emitted(kernel, level, was, Removed(mid, input, freed), leaves, parents, next, {input}, freed)
  {
    hide RunBytes;
    var full := was.files[parents.file] + ParentRows(kernel, leaves, Base(was));
    assert was.files - {} == was.files;
    assert (was.files - {input})[parents.file := full] == was.files[parents.file := full] - {input};
  }

  /** Bytes of the children already consumed, of the next one, and of the whole group. */
  lemma ChildBytes(kernel: Kernel, config: Config, s: seq<Item>, level: nat, i: nat)
    requires Groupable(kernel, config, s) && |s| > config.MaxEntries(level)
    requires i < |ChildSizes(kernel, config, s, level)|
    ensures Consumed(kernel, config, s, level, i + 1)
         == Consumed(kernel, config, s, level, i) + RunBytes(Child(kernel, config, s, level, i))
    ensures Consumed(kernel, config, s, level, i + 1) <= RunBytes(s)
  {
    hide RunBytes, ChildSizes, Child, SortBy, Start, CutOrder;
    var sizes, t := ChildSizes(kernel, config, s, level), CutOrder(kernel, config, s, level);
    var lo, hi := Start(sizes, i), Start(sizes, i) + sizes[i];
    StartNext(sizes, i);
    ChildMembers(kernel, config, s, level, i);
    RunBytesPermute(Child(kernel, config, s, level, i), t[lo..hi]);
    RunBytesPermute(t, s);
    assert t[..hi] == t[..lo] + t[lo..hi];
    RunBytesAppend(t[..lo], t[lo..hi]);
    assert t == t[..hi] + t[hi..];
    RunBytesAppend(t[..hi], t[hi..]);
  }

  ghost function Consumed(kernel: Kernel, config: Config, s: seq<Item>, level: nat, i: nat): nat
    requires Groupable(kernel, config, s) && |s| > config.MaxEntries(level)
    requires i <= |ChildSizes(kernel, config, s, level)|
  {
    RunBytes(CutOrder(kernel, config, s, level)[..Start(ChildSizes(kernel, config, s, level), i)])
  }

  lemma ConsumedEnds(kernel: Kernel, config: Config, s: seq<Item>, level: nat)
    requires Groupable(kernel, config, s) && |s| > config.MaxEntries(level)
    ensures Consumed(kernel, config, s, level, 0) == 0
    ensures Consumed(kernel, config, s, level, |ChildSizes(kernel, config, s, level)|) == RunBytes(s)
  {
    hide ChildSizes, SortBy, Start;
    var sizes, t := ChildSizes(kernel, config, s, level), CutOrder(kernel, config, s, level);
    StartEnds(sizes);
    assert t[..0] == [] && t[..|t|] == t;
    RunBytesPermute(t, s);
  }

  /** Scratch one run's grouping may need at once: what is there, one more copy of the
      run, and the parent rows it produces. */
  ghost function GroupNeed(kernel: Kernel, config: Config, s: seq<Item>, level: nat, at: Ledger): nat
    requires Groupable(kernel, config, s)
  {
    at.bytes + RunBytes(s) + ParentBytes(kernel, Leaves(kernel, config, s, level), Base(at))
  }

  /** Emission leaves other runs alone. */
  lemma InputRemains(kernel: Kernel, level: nat, was: Ledger, now: Ledger, leaves: seq<seq<Item>>,
                     parents: Run, next: Run, input: nat)
    requires Emitted(kernel, level, was, now, leaves, parents, next, {}, 0)
    requires input in was.files && input != parents.file
    ensures input in now.files && now.files[input] == was.files[input]
    ensures next.file == parents.file
  {
  }

  lemma CopyFits(kernel: Kernel, config: Config, s: seq<Item>, level: nat, at: Ledger)
    requires Groupable(kernel, config, s)
    ensures at.bytes + RunBytes(s) <= GroupNeed(kernel, config, s, level, at)
  {
  }

  /** Adding runs leaves the existing ones alone. */
  lemma OldRuns(files: map<nat, seq<Item>>, base: nat, contents: seq<seq<Item>>, f: nat)
    requires f in files && f < base
    ensures f in WithRuns(files, base, contents) && WithRuns(files, base, contents)[f] == files[f]
  {
  }

  /** The consecutive runs are in the directory. */
  ghost predicate HasRuns(files: map<nat, seq<Item>>, base: nat, contents: seq<seq<Item>>) {
    forall i {:trigger contents[i]} :: 0 <= i < |contents| ==> base + i in files && files[base + i] == contents[i]
  }

  lemma NewRuns(files: map<nat, seq<Item>>, base: nat, contents: seq<seq<Item>>, input: nat)
    requires input < base
    ensures HasRuns(WithRuns(files, base, contents) - {input}, base, contents)
  {
  }

  lemma PeakStart(peak: nat, need: nat)
    ensures peak <= Max(peak, need)
  {
  }

  lemma PeakFits(before: nat, need: nat, at: nat, cost: nat, peak: nat)
    requires at <= Max(before, need) && cost <= need && peak <= Max(at, cost)
    ensures peak <= Max(before, need)
  {
  }

  /** After some partitions, the next ones' parent rows still fit in the level's total. */
  lemma ChargesFit(kernel: Kernel, level: nat, was: Ledger, at: Ledger, all: seq<seq<Item>>, done: seq<seq<Item>>,
                   leaves: seq<seq<Item>>, rest: seq<seq<Item>>, parents: Run, next: Run, gone: set<nat>)
    requires Emitted(kernel, level, was, at, done, parents, next, gone, 0)
    requires all == done + (leaves + rest)
    ensures at.bytes + ParentBytes(kernel, leaves, Base(at)) <= was.bytes + ParentBytes(kernel, all, Base(was))
  {
    EmittedCharges(kernel, level, was, at, done, parents, next, gone, 0);
    hide Emitted, ParentBytes;
    ParentBytesSplit(kernel, done, leaves + rest, Base(was));
    ParentBytesSplit(kernel, leaves, rest, Base(was) + |done|);
  }

  /** The descriptors of consecutive runs with the given contents. */
  ghost predicate RunsOf(runs: seq<Run>, base: nat, contents: seq<seq<Item>>) {
    && |runs| == |contents|
    && forall c :: 0 <= c < |runs| ==> runs[c] == Run(base + c, |contents[c]|, RunBytes(contents[c]))
  }

  lemma NoBytesYet(s: seq<Item>, runs: seq<Run>, base: nat, k: nat)
    requires |runs| == k && forall c :: 0 <= c < k ==> runs[c] == Run(base + c, 0, 0)
    ensures RunBytes(s[..0]) == 0
    ensures RunsOf(runs, base, seq(k, i => []))
  {
  }

  lemma PrefixBytes(s: seq<Item>, j: nat)
    requires j < |s|
    ensures RunBytes(s[..j + 1]) == RunBytes(s[..j]) + RowBytes(s[j])
    ensures RunBytes(s[..j + 1]) <= RunBytes(s)
  {
    hide RunBytes, RowBytes;
    assert s[..j + 1] == s[..j] + [s[j]];
    RunBytesAppend(s[..j], [s[j]]);
    RunBytesOne(s[j]);
    assert s == s[..j + 1] + s[j + 1..];
    RunBytesAppend(s[..j + 1], s[j + 1..]);
  }

  /** Appending to one of the consecutive runs. */
  lemma RunAppended(files: map<nat, seq<Item>>, base: nat, contents: seq<seq<Item>>, runs: seq<Run>, c: nat, x: Item)
    requires RunsOf(runs, base, contents) && c < |runs|
    ensures base + c in WithRuns(files, base, contents) && WithRuns(files, base, contents)[base + c] == contents[c]
    ensures runs[c] == Run(base + c, |contents[c]|, RunBytes(contents[c]))
    ensures |runs| == |contents|
    ensures var next := contents[c := contents[c] + [x]];
      && WithRuns(files, base, contents)[base + c := contents[c] + [x]] == WithRuns(files, base, next)
      && RunsOf(runs[c := Run(base + c, |contents[c]| + 1, RunBytes(contents[c]) + RowBytes(x))], base, next)
  {
    WithRunsUpdate(files, base, contents, c, contents[c] + [x]);
    assert (contents[c] + [x])[..|contents[c]|] == contents[c];
  }

  lemma NoNewFiles(base: nat)
    ensures NewFiles(base, 0) == {}
  {
  }

  lemma OneMoreFile(base: nat, i: nat)
    ensures NewFiles(base, i + 1) == NewFiles(base, i) + {base + i}
  {
  }

  lemma RunsLength(runs: seq<Run>, base: nat, contents: seq<seq<Item>>)
    requires RunsOf(runs, base, contents)
    ensures |runs| == |contents|
  {
  }

  lemma RunDescribes(runs: seq<Run>, base: nat, contents: seq<seq<Item>>, i: nat)
    requires RunsOf(runs, base, contents) && i < |runs|
    ensures |runs| == |contents| && runs[i] == Run(base + i, |contents[i]|, RunBytes(contents[i]))
  {
  }

  /** A child's run is still there when its turn comes. */
  lemma RunRemains(kernel: Kernel, level: nat, was: Ledger, now: Ledger, leaves: seq<seq<Item>>,
                   parents: Run, next: Run, gone: set<nat>, freed: nat, base: nat, i: nat)
    requires Emitted(kernel, level, was, now, leaves, parents, next, gone, freed)
    requires gone == NewFiles(base, i) && base + i in was.files && parents.file < base
    ensures base + i in now.files && now.files[base + i] == was.files[base + i]
    ensures next.file == parents.file
  {
  }

  /** When a child's turn comes, what it needs fits in what the whole group may need. */
  lemma ChildNeed(kernel: Kernel, config: Config, s: seq<Item>, level: nat, was: Ledger, mid: Ledger, at: Ledger,
                  all: seq<seq<Item>>, done: seq<seq<Item>>, leaves: seq<seq<Item>>, rest: seq<seq<Item>>,
                  parents: Run, next: Run, gone: set<nat>, i: nat)
    requires Groupable(kernel, config, s) && |s| > config.MaxEntries(level)
    requires i < |ChildSizes(kernel, config, s, level)|
    requires Emitted(kernel, level, mid, at, done, parents, next, gone, Consumed(kernel, config, s, level, i))
    requires mid.bytes == was.bytes && Base(mid) == Base(was)
    requires all == Leaves(kernel, config, s, level) == done + (leaves + rest)
    requires leaves == Leaves(kernel, config, Child(kernel, config, s, level, i), level)
    ensures GroupNeed(kernel, config, Child(kernel, config, s, level, i), level, at) <= GroupNeed(kernel, config, s, level, was)
  {
    hide Emitted, ParentBytes, RunBytes, Child, ChildSizes, Leaves, Consumed, Base, Canonical, ValidKernel;
    var freed, child := Consumed(kernel, config, s, level, i), Child(kernel, config, s, level, i);
    EmittedCharges(kernel, level, mid, at, done, parents, next, gone, freed);
    ChildBytes(kernel, config, s, level, i);
    ParentBytesSplit(kernel, done, leaves + rest, Base(was));
    ParentBytesSplit(kernel, leaves, rest, Base(was) + |done|);
    assert GroupNeed(kernel, config, child, level, at) == at.bytes + RunBytes(child) + ParentBytes(kernel, leaves, Base(at));
  }

  /** Finishing the rest after what is done finishes the whole. */
  ghost predicate Resumes(whole: Option<seq<Plan>>, done: seq<Plan>, rest: Option<seq<Plan>>) {
    match rest
    case None => whole == None
    case Some(r) => whole == Some(done + r)
  }

  lemma ResumesStart(whole: Option<seq<Plan>>)
    ensures Resumes(whole, [], whole)
  {
    if whole.Some? { assert [] + whole.value == whole.value; }
  }

  lemma ResumesEnd(whole: Option<seq<Plan>>, done: seq<Plan>, rest: Option<seq<Plan>>)
    requires Resumes(whole, done, rest) && rest.Some?
    ensures whole == Some(done + rest.value)
  {
  }

  lemma ResumesNext(whole: Option<seq<Plan>>, done: seq<Plan>, level: seq<Plan>, rest: Option<seq<Plan>>)
    requires Resumes(whole, done, if rest.Some? then Some(level + rest.value) else None)
    ensures Resumes(whole, done + level, rest)
  {
    if rest.Some? { assert done + (level + rest.value) == done + level + rest.value; }
  }

  lemma OnlyRun(files: map<nat, seq<Item>>, f: nat)
    requires f in files && files.Keys == {f}
    ensures TotalBytes(files) == RunBytes(files[f])
  {
    TotalBytesAt(files, f);
    assert (files - {f}).Keys == {};
  }

  lemma NothingWritten(input: seq<Item>)
    ensures input[..0] == [] && RunBytes(input[..0]) == 0
  {
  }

  /** Scratch the whole construction may need at once: at every level, two copies of
      the level's rows and one of the level above. */
  ghost function TreeNeed(kernel: Kernel, config: Config, s: seq<Item>, level: nat, highWater: nat): nat
    requires Groupable(kernel, config, s)
    decreases |s|
  {
    if |s| <= config.MaxEntries(level) then RunBytes(s)
    else
      var leaves := Leaves(kernel, config, s, level);
      var base := Max(highWater, 1);
      LeavesExact(kernel, config, s, level);
      var here := 2 * RunBytes(s) + ParentBytes(kernel, leaves, base);
      if base + |leaves| > U64_MAX then here
      else
        ParentRowsCanonical(kernel, leaves, base);
        Max(here, TreeNeed(kernel, config, ParentRows(kernel, leaves, base), level + 1, base + |leaves|))
  }

  lemma InputFits(kernel: Kernel, config: Config, s: seq<Item>, level: nat, highWater: nat)
    requires Groupable(kernel, config, s)
    ensures RunBytes(s) <= TreeNeed(kernel, config, s, level, highWater)
  {
    hide RunBytes, Leaves, ParentBytes, ParentRows;
  }

  lemma RootPlan(kernel: Kernel, config: Config, s: seq<Item>, level: nat, highWater: nat)
    requires Groupable(kernel, config, s) && |s| <= config.MaxEntries(level)
    ensures TreePlans(kernel, config, s, level, highWater) == Some([Plan(1, level, kernel.mean(s), Ids(s))])
  {
  }

  lemma NeedHere(kernel: Kernel, config: Config, s: seq<Item>, level: nat, highWater: nat)
    requires Groupable(kernel, config, s) && |s| > config.MaxEntries(level)
    ensures 2 * RunBytes(s) + RunBytes(ParentRows(kernel, Leaves(kernel, config, s, level), Max(highWater, 1)))
         <= TreeNeed(kernel, config, s, level, highWater)
  {
    hide RunBytes, Leaves, ParentRows;
  }

  /** One level down the recursion of the reference tree. */
  lemma NextLevel(kernel: Kernel, config: Config, s: seq<Item>, level: nat, highWater: nat, base: nat)
    requires Groupable(kernel, config, s) && |s| > config.MaxEntries(level) && base == Max(highWater, 1)
    requires base + |Leaves(kernel, config, s, level)| <= U64_MAX && level < U32_MAX
    ensures var leaves := Leaves(kernel, config, s, level); var parents := ParentRows(kernel, leaves, base);
      && 1 <= |leaves| < |s| && Groupable(kernel, config, parents)
      && var rest := TreePlans(kernel, config, parents, level + 1, base + |leaves|);
      && TreePlans(kernel, config, s, level, highWater)
         == (if rest.Some? then Some(LevelPlans(kernel, level, leaves, base) + rest.value) else None)
      && TreeNeed(kernel, config, parents, level + 1, base + |leaves|) <= TreeNeed(kernel, config, s, level, highWater)
  {
    hide RunBytes, Leaves, ParentRows, LevelPlans, Flatten, WellFilled;
    LeavesExact(kernel, config, s, level);
    ParentRowsCanonical(kernel, Leaves(kernel, config, s, level), base);
  }
}
