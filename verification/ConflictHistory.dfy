/** The full log of commits, the part of it the engine retains as conflict evidence,
    and why deciding conflicts on the retained part is safe. */
module ConflictHistory {
  import opened Wrappers
  import opened Bytes
  import opened Transactions
  import opened Replies

  const MAX_HISTORY_KEYS := 100_000
  const MAX_HISTORY_BYTES := 8_388_608

  /** One committed transaction: its snapshot revision, its requests and replies, and
      the private state it committed. */
  datatype Commit = Commit(snapshot: nat, trace: seq<Request>, replies: seq<Reply>, local: Local)

  type Log = seq<Commit>

  /** Committed data after the first `revision` commits. */
  ghost function StateAt(log: Log, revision: nat): Data
    requires revision <= |log|
  {
    if revision == 0 then map[] else Overlay(StateAt(log, revision - 1), log[revision - 1].local.writes)
  }

  /** Keys the commit that produced `revision` wrote. */
  ghost function WrittenBy(log: Log, revision: nat): set<Key>
    requires 0 < revision <= |log|
  {
    log[revision - 1].local.writes.Keys
  }

  /** Some commit after `since` wrote one of the keys. */
  ghost predicate Overwritten(log: Log, since: nat, keys: set<Key>) {
    exists r, k :: since < r <= |log| && k in keys && k in WrittenBy(log, r)
  }

  lemma {:induction false} StateAtPrefix(log: Log, longer: Log, revision: nat)
    requires revision <= |log| && log <= longer
    ensures StateAt(log, revision) == StateAt(longer, revision)
    decreases revision
  {
    if revision > 0 { StateAtPrefix(log, longer, revision - 1); }
  }

  /** Keys nobody wrote since a snapshot still read as they did then. */
  lemma {:induction false} UnwrittenKeep(log: Log, since: nat, revision: nat, keys: set<Key>)
    requires since <= revision <= |log|
    requires !Overwritten(log, since, keys)
    ensures Agree(StateAt(log, since), StateAt(log, revision), keys)
    decreases revision
  {
    if since < revision {
      UnwrittenKeep(log, since, revision - 1, keys);
      forall k | k in keys ensures Lookup(StateAt(log, since), k) == Lookup(StateAt(log, revision), k) {
        assert k !in WrittenBy(log, revision);
      }
    }
  }

  // ---------------------------------------------------------------- retained evidence

  datatype Revision = Revision(number: nat, keys: set<Key>)

  /** The retained revisions are exactly those after the floor, in order. */
  ghost predicate Retained(log: Log, floor: nat, history: seq<Revision>) {
    && floor <= |log|
    && |history| == |log| - floor
    && forall i :: 0 <= i < |history| ==> history[i] == Revision(floor + 1 + i, WrittenBy(log, floor + 1 + i))
  }

  /** `modified` maps every key written after the floor to its latest revision, and
      holds no other key. */
  ghost predicate Latest(log: Log, floor: nat, modified: map<Key, nat>) {
    && (forall k :: k in modified ==> floor < modified[k] <= |log| && k in WrittenBy(log, modified[k]))
    && (forall r, k :: floor < r <= |log| && k in WrittenBy(log, r) ==> k in modified && r <= modified[k])
  }

  /** The engine's commit-time test, on retained evidence only. */
  ghost predicate Conflicts(floor: nat, modified: map<Key, nat>, snapshot: nat, protected: set<Key>) {
    protected != {} && (snapshot < floor || exists k :: k in protected && k in modified && modified[k] > snapshot)
  }

  /** The retained test refuses exactly the transactions that were overwritten or
      whose snapshot the floor has passed. */
  lemma ConflictsExact(log: Log, floor: nat, modified: map<Key, nat>, snapshot: nat, protected: set<Key>)
    requires Latest(log, floor, modified) && floor <= |log| && snapshot <= |log| && protected != {}
    ensures Conflicts(floor, modified, snapshot, protected)
       <==> Overwritten(log, snapshot, protected) || snapshot < floor
  {
    if snapshot >= floor && Overwritten(log, snapshot, protected) {
      var r, k :| snapshot < r <= |log| && k in protected && k in WrittenBy(log, r);
      assert k in modified && modified[k] > snapshot;
    }
  }

  /** The retained test never lets an overwritten transaction through. */
  lemma ConflictsSound(log: Log, floor: nat, modified: map<Key, nat>, snapshot: nat, protected: set<Key>)
    requires Latest(log, floor, modified) && floor <= |log| && snapshot <= |log|
    requires !Conflicts(floor, modified, snapshot, protected)
    ensures !Overwritten(log, snapshot, protected)
  {
    if protected != {} { ConflictsExact(log, floor, modified, snapshot, protected); }
  }

  ghost function HistoryKeys(history: seq<Revision>): nat {
    if history == [] then 0 else |history[0].keys| + HistoryKeys(history[1..])
  }

  ghost function HistoryBytes(history: seq<Revision>): nat {
    if history == [] then 0 else KeyBytes(history[0].keys) + HistoryBytes(history[1..])
  }

  ghost function KeyBytes(keys: set<Key>): nat {
    if keys == {} then 0 else
      var k :| k in keys;
      |k| + KeyBytes(keys - {k})
  }

  lemma {:induction false} KeyBytesRemove(keys: set<Key>, key: Key)
    requires key in keys
    ensures KeyBytes(keys) == |key| + KeyBytes(keys - {key})
    decreases |keys|
  {
    var k :| k in keys && KeyBytes(keys) == |k| + KeyBytes(keys - {k});
    if k != key {
      KeyBytesRemove(keys - {k}, key);
      KeyBytesRemove(keys - {key}, k);
      assert keys - {k} - {key} == keys - {key} - {k};
    }
  }

  lemma {:induction false} TotalsAppend(history: seq<Revision>, last: Revision)
    ensures HistoryKeys(history + [last]) == HistoryKeys(history) + |last.keys|
    ensures HistoryBytes(history + [last]) == HistoryBytes(history) + KeyBytes(last.keys)
    decreases |history|
  {
    if history == [] {
      assert history + [last] == [last] && [last][1..] == [];
    } else {
      assert (history + [last])[1..] == history[1..] + [last];
      TotalsAppend(history[1..], last);
    }
  }

  // ---------------------------------------------------------------- capacity

  /** Keys the commits after `lo` up to `hi` wrote, each commit counted on its own. */
  ghost function KeysWritten(log: Log, lo: nat, hi: nat): nat
    requires lo <= hi <= |log|
  {
    if lo == hi then 0 else KeysWritten(log, lo, hi - 1) + |WrittenBy(log, hi)|
  }

  ghost function BytesWritten(log: Log, lo: nat, hi: nat): nat
    requires lo <= hi <= |log|
  {
    if lo == hi then 0 else BytesWritten(log, lo, hi - 1) + KeyBytes(WrittenBy(log, hi))
  }

  /** The evidence of these commits together is more than the engine retains. */
  ghost predicate OverBudget(log: Log, lo: nat, hi: nat)
    requires lo <= hi <= |log|
  {
    KeysWritten(log, lo, hi) > MAX_HISTORY_KEYS || BytesWritten(log, lo, hi) > MAX_HISTORY_BYTES || hi - lo > MAX_HISTORY_KEYS
  }

  /** At some moment the commits since a snapshot had outgrown the history budget. */
  ghost predicate Outgrown(log: Log, since: nat) {
    exists hi :: since < hi <= |log| && OverBudget(log, since, hi)
  }

  /** The floor has passed every snapshot that the first `upTo` commits outgrew. */
  ghost predicate FloorPassed(log: Log, upTo: nat, floor: nat)
    requires upTo <= |log|
  {
    forall since: nat, hi: nat :: since < hi <= upTo && OverBudget(log, since, hi) ==> since < floor
  }

  lemma {:induction false} WrittenFront(log: Log, lo: nat, hi: nat)
    requires lo < hi <= |log|
    ensures KeysWritten(log, lo, hi) == |WrittenBy(log, lo + 1)| + KeysWritten(log, lo + 1, hi)
    ensures BytesWritten(log, lo, hi) == KeyBytes(WrittenBy(log, lo + 1)) + BytesWritten(log, lo + 1, hi)
    decreases hi
  {
    if lo + 1 < hi { WrittenFront(log, lo, hi - 1); }
  }

  lemma {:induction false} EarlierOverBudget(log: Log, lo: nat, mid: nat, hi: nat)
    requires lo <= mid <= hi <= |log| && OverBudget(log, mid, hi)
    ensures OverBudget(log, lo, hi)
    decreases mid
  {
    hide KeysWritten, BytesWritten;
    if lo < mid {
      WrittenFront(log, mid - 1, hi);
      EarlierOverBudget(log, lo, mid - 1, hi);
    }
  }

  lemma {:induction false} WrittenPrefix(log: Log, longer: Log, lo: nat, hi: nat)
    requires lo <= hi <= |log| && log <= longer
    ensures KeysWritten(log, lo, hi) == KeysWritten(longer, lo, hi)
    ensures BytesWritten(log, lo, hi) == BytesWritten(longer, lo, hi)
    decreases hi
  {
    if lo < hi { WrittenPrefix(log, longer, lo, hi - 1); }
  }

  lemma {:induction false} RetainedTotals(log: Log, floor: nat, history: seq<Revision>)
    requires Retained(log, floor, history)
    ensures HistoryKeys(history) == KeysWritten(log, floor, |log|)
    ensures HistoryBytes(history) == BytesWritten(log, floor, |log|)
    decreases |history|
  {
    if history != [] {
      assert history[0] == Revision(floor + 1, WrittenBy(log, floor + 1));
      WrittenFront(log, floor, |log|);
      RetainedTotals(log, floor + 1, history[1..]);
    }
  }

  /** A snapshot once outgrown stays so. */
  lemma OutgrownKept(log: Log, longer: Log, since: nat)
    requires log <= longer && Outgrown(log, since)
    ensures Outgrown(longer, since)
  {
    var hi :| since < hi <= |log| && OverBudget(log, since, hi);
    WrittenPrefix(log, longer, since, hi);
    assert OverBudget(longer, since, hi);
  }

  lemma FloorPassedKept(log: Log, longer: Log, floor: nat)
    requires log <= longer && FloorPassed(log, |log|, floor)
    ensures FloorPassed(longer, |log|, floor)
  {
    hide KeysWritten, BytesWritten;
    forall since: nat, hi: nat | since < hi <= |log| && OverBudget(longer, since, hi) ensures since < floor {
      WrittenPrefix(log, longer, since, hi);
      assert OverBudget(log, since, hi);
    }
  }

  lemma FloorRaised(log: Log, upTo: nat, floor: nat, higher: nat)
    requires upTo <= |log| && floor <= higher
    ensures FloorPassed(log, upTo, floor) ==> FloorPassed(log, upTo, higher)
  {
    hide OverBudget;
  }

  /** Once the retained evidence fits, the floor has passed every snapshot ever outgrown. */
  lemma FittingFloor(log: Log, floor: nat)
    requires floor <= |log| && !OverBudget(log, floor, |log|)
    requires log != [] ==> FloorPassed(log, |log| - 1, floor)
    ensures FloorPassed(log, |log|, floor)
  {
    hide OverBudget;
    forall since: nat, hi: nat | since < hi <= |log| && OverBudget(log, since, hi) ensures since < floor {
      if hi == |log| && floor <= since { EarlierOverBudget(log, floor, since, hi); }
    }
  }

  /** Dropping evidence above the floor while it does not fit passes only outgrown snapshots. */
  lemma OutgrownByDrop(log: Log, floor: nat, since: nat)
    requires since <= floor < |log| && OverBudget(log, floor, |log|)
    ensures Outgrown(log, since)
  {
    EarlierOverBudget(log, since, floor, |log|);
  }

  /** `modified` without the entries a dropped revision was the last to write. */
  ghost function Forget(modified: map<Key, nat>, dropped: Revision): map<Key, nat> {
    map k | k in modified && !(k in dropped.keys && modified[k] == dropped.number) :: modified[k]
  }

  lemma ForgetNone(modified: map<Key, nat>, number: nat)
    ensures Forget(modified, Revision(number, {})) == modified
  {
  }

  lemma ForgetOne(modified: map<Key, nat>, number: nat, keys: set<Key>, key: Key)
    ensures var soFar := Forget(modified, Revision(number, keys));
            Forget(modified, Revision(number, keys + {key}))
            == if key in soFar && soFar[key] == number then soFar - {key} else soFar
  {
  }

  /** Dropping the oldest retained revision keeps the evidence exact above it. */
  lemma DropOldest(log: Log, floor: nat, history: seq<Revision>, modified: map<Key, nat>)
    requires Retained(log, floor, history) && Latest(log, floor, modified) && history != []
    ensures history[0].number == floor + 1
    ensures Retained(log, floor + 1, history[1..])
    ensures Latest(log, floor + 1, Forget(modified, history[0]))
  {
    assert history[0] == Revision(floor + 1, WrittenBy(log, floor + 1));
  }

  /** The evidence once a commit is published. */
  ghost function Noted(modified: map<Key, nat>, keys: set<Key>, revision: nat): map<Key, nat> {
    map k | k in modified.Keys + keys :: if k in keys then revision else modified[k]
  }

  lemma NotedNone(modified: map<Key, nat>, number: nat)
    ensures Noted(modified, {}, number) == modified
    ensures KeyBytes({}) == 0
  {
  }

  lemma NotedOne(modified: map<Key, nat>, keys: set<Key>, key: Key, number: nat)
    ensures Noted(modified, keys, number)[key := number] == Noted(modified, keys + {key}, number)
  {
  }

  lemma PublishState(log: Log, commit: Commit)
    ensures StateAt(log + [commit], |log| + 1) == Overlay(StateAt(log, |log|), commit.local.writes)
  {
    hide Overlay;
    StateAtPrefix(log, log + [commit], |log|);
  }

  lemma PublishRetained(log: Log, floor: nat, history: seq<Revision>, commit: Commit)
    requires Retained(log, floor, history)
    ensures Retained(log + [commit], floor, history + [Revision(|log| + 1, commit.local.writes.Keys)])
  {
    var longer, next := log + [commit], history + [Revision(|log| + 1, commit.local.writes.Keys)];
    forall i | 0 <= i < |next| ensures next[i] == Revision(floor + 1 + i, WrittenBy(longer, floor + 1 + i)) {
      if i < |history| { assert longer[floor + i] == log[floor + i]; }
    }
  }

  lemma PublishLatest(log: Log, floor: nat, modified: map<Key, nat>, commit: Commit)
    requires Latest(log, floor, modified) && floor <= |log|
    ensures Latest(log + [commit], floor, Noted(modified, commit.local.writes.Keys, |log| + 1))
  {
    var longer, noted := log + [commit], Noted(modified, commit.local.writes.Keys, |log| + 1);
    forall k | k in noted ensures floor < noted[k] <= |longer| && k in WrittenBy(longer, noted[k]) {
      if k !in commit.local.writes { assert longer[noted[k] - 1] == log[noted[k] - 1]; }
    }
    forall r, k | floor < r <= |longer| && k in WrittenBy(longer, r) ensures k in noted && r <= noted[k] {
      if r <= |log| { assert k in WrittenBy(log, r); }
    }
  }

  // ---------------------------------------------------------------- serializability

  /** Commit `i` replied and wrote as if it had run alone on the state just before it. */
  ghost predicate Serial(log: Log, i: nat)
    requires i < |log|
  {
    var (local, replies) := Run(StateAt(log, i), log[i].trace);
    && SameEffect(local, log[i].local)
    && |replies| == |log[i].replies| == |log[i].trace|
    && forall j :: 0 <= j < |replies| && Protected(log[i].trace[j]) ==> replies[j] == log[i].replies[j]
  }

  /** Every commit in the log is equivalent to a serial one, in log order. */
  ghost predicate Serializable(log: Log) {
    forall i :: 0 <= i < |log| ==> Serial(log, i)
  }

  lemma SerialPrefix(log: Log, longer: Log, i: nat)
    requires i < |log| && log <= longer && Serial(log, i)
    ensures Serial(longer, i)
  {
    hide Run, StateAt, SameEffect;
    StateAtPrefix(log, longer, i);
    assert log[i] == longer[i];
  }

  /** A transaction none of whose protected keys was overwritten since its snapshot
      could have run on the latest state. */
  lemma SerialLast(log: Log, commit: Commit)
    requires commit.snapshot <= |log|
    requires Run(StateAt(log, commit.snapshot), commit.trace) == (commit.local, commit.replies)
    requires !Overwritten(log, commit.snapshot, commit.local.protected)
    ensures Serial(log + [commit], |log|)
  {
    hide Run, StateAt, Overwritten, Agree;
    StateAtPrefix(log, log + [commit], |log|);
    UnwrittenKeep(log, commit.snapshot, |log|, commit.local.protected);
    RunAgree(StateAt(log, commit.snapshot), StateAt(log, |log|), commit.trace);
  }

  /** Committing such a transaction keeps the log serializable. */
  lemma CommitSerial(log: Log, commit: Commit)
    requires Serializable(log) && commit.snapshot <= |log|
    requires Run(StateAt(log, commit.snapshot), commit.trace) == (commit.local, commit.replies)
    requires !Overwritten(log, commit.snapshot, commit.local.protected)
    ensures Serializable(log + [commit])
  {
    hide Serial, Run, StateAt, Overwritten;
    SerialLast(log, commit);
    forall i | 0 <= i < |log| ensures Serial(log + [commit], i) {
      SerialPrefix(log, log + [commit], i);
    }
  }

  /** Replies that agree on protected requests tell of the same staged mutations. */
  lemma {:induction false} SameStaged(trace: seq<Request>, one: seq<Reply>, two: seq<Reply>)
    requires |trace| == |one| == |two|
    requires forall j :: 0 <= j < |trace| && Protected(trace[j]) ==> one[j] == two[j]
    ensures Staged(trace, one) == Staged(trace, two)
    decreases |trace|
  {
    if trace != [] {
      SameStaged(trace[..|trace| - 1], one[..|trace| - 1], two[..|trace| - 1]);
    }
  }

  /** Every protected reply of every commit was the right one on the state just before it, and
      it committed exactly the last mutation it staged of each key. */
  lemma SerialRight(log: Log, i: nat)
    requires i < |log| && Serial(log, i)
    ensures |log[i].replies| == |log[i].trace|
    ensures var (trace, replies) := (log[i].trace, log[i].replies);
      && (forall j :: 0 <= j < |trace| && Protected(trace[j]) ==>
            Right(StateAt(log, i), Staged(trace[..j], replies[..j]), trace[j], replies[j]))
      && (forall key :: key in log[i].local.writes <==> Touched(Staged(trace, replies), key))
      && (forall key :: Seen(StateAt(log, i), log[i].local.writes, key) == Reads(StateAt(log, i), Staged(trace, replies), key))
  {
    hide Run, StateAt, Right;
    var trace, replies, state := log[i].trace, log[i].replies, StateAt(log, i);
    var (local, again) := Run(state, trace);
    RunHolds(state, trace);
    SameStaged(trace, again, replies);
    forall j | 0 <= j < |trace| && Protected(trace[j]) ensures Right(state, Staged(trace[..j], replies[..j]), trace[j], replies[j]) {
      RepliesRight(state, trace, j);
      SameStaged(trace[..j], again[..j], replies[..j]);
    }
  }

  /** `last` is the newest commit up to `revision` that wrote the key. */
  ghost predicate LastWrite(log: Log, revision: nat, key: Key, last: nat) {
    && 0 < last <= revision <= |log| && key in WrittenBy(log, last)
    && forall r :: last < r <= revision ==> key !in WrittenBy(log, r)
  }

  /** At every revision a key reads as its last write up to there, and as absent if nobody
      wrote it: no commit loses the work of an unrelated one. */
  lemma {:induction false} ReadsLastWrite(log: Log, revision: nat, key: Key)
    requires revision <= |log|
    ensures forall last: nat :: LastWrite(log, revision, key, last) ==>
              Lookup(StateAt(log, revision), key) == log[last - 1].local.writes[key]
    ensures (forall r :: 0 < r <= revision ==> key !in WrittenBy(log, r)) ==> Lookup(StateAt(log, revision), key).None?
  {
    if revision > 0 {
      ReadsLastWrite(log, revision - 1, key);
      forall last: nat | LastWrite(log, revision, key, last)
        ensures Lookup(StateAt(log, revision), key) == log[last - 1].local.writes[key]
      {
        if last < revision {
          assert key !in WrittenBy(log, revision);
          assert LastWrite(log, revision - 1, key, last);
        }
      }
      if key !in WrittenBy(log, revision) {
        assert Lookup(StateAt(log, revision), key) == Lookup(StateAt(log, revision - 1), key);
      }
    }
  }
}
