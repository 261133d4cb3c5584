/** The in-memory transactional keyspace: committed data, conflict evidence retained
    for live writers, and optimistic write transactions over it. The full commit log and
    the live writers are ghost state that the invariant ties to the real fields. */
module MemoryEngine {
  import opened Wrappers
  import opened Bytes
  import opened Transactions
  import opened Replies
  import opened ConflictHistory

  datatype Outcome = Committed | Cancelled | RetryableAbort | RevisionsExhausted

  /** Live writers of each snapshot revision. */
  ghost function Readers(live: set<WriteTxn>, revision: nat): set<WriteTxn> {
    set t | t in live && t.revision == revision
  }

  ghost predicate Registered(writers: map<nat, nat>, live: set<WriteTxn>) {
    && (forall r :: r in writers ==> writers[r] == |Readers(live, r)| && writers[r] > 0)
    && (forall t :: t in live ==> t.revision in writers)
  }

  lemma RegisterOne(writers: map<nat, nat>, live: set<WriteTxn>, t: WriteTxn)
    requires Registered(writers, live) && t !in live
    ensures var count := if t.revision in writers then writers[t.revision] else 0;
            Registered(writers[t.revision := count + 1], live + {t})
  {
    var at := t.revision;
    var count := if at in writers then writers[at] else 0;
    var next, after := writers[at := count + 1], live + {t};
    assert Readers(after, at) == Readers(live, at) + {t};
    if at !in writers { assert Readers(live, at) == {}; }
    forall r | r in next ensures next[r] == |Readers(after, r)| && next[r] > 0 {
      if r != at { assert Readers(after, r) == Readers(live, r); }
    }
  }

  lemma ReleaseOne(writers: map<nat, nat>, live: set<WriteTxn>, t: WriteTxn)
    requires Registered(writers, live) && t in live
    ensures var count := writers[t.revision] - 1;
            Registered(if count == 0 then writers - {t.revision} else writers[t.revision := count], live - {t})
  {
    var count := writers[t.revision] - 1;
    var next := if count == 0 then writers - {t.revision} else writers[t.revision := count];
    var after := live - {t};
    assert Readers(after, t.revision) == Readers(live, t.revision) - {t};
    forall r | r in next ensures next[r] == |Readers(after, r)| && next[r] > 0 {
      if r != t.revision { assert Readers(after, r) == Readers(live, r); }
    }
    forall u | u in after ensures u.revision in next {
      if u.revision == t.revision { assert u in Readers(after, t.revision); }
    }
  }

  lemma FrontIs(log: Log, floor: nat, history: seq<Revision>)
    requires Retained(log, floor, history)
    ensures floor + |history| == |log|
    ensures history != [] ==> history[0].number == floor + 1
  {
  }

  lemma NoTotals(history: seq<Revision>)
    ensures history == [] ==> HistoryKeys(history) == 0 && HistoryBytes(history) == 0
  {
  }

  lemma NoKeysNoConflict(log: Log, floor: nat, modified: map<Key, nat>, snapshot: nat, protected: set<Key>)
    ensures protected == {} ==> !Conflicts(floor, modified, snapshot, protected) && !Overwritten(log, snapshot, protected)
  {
  }

  lemma WriterRegistered(writers: map<nat, nat>, live: set<WriteTxn>, t: WriteTxn)
    requires Registered(writers, live) && t in live
    ensures t.revision in writers && writers[t.revision] > 0
  {
  }

  lemma WritersOutgrown(live: set<WriteTxn>, log: Log, longer: Log, floor: nat)
    requires log <= longer && forall t :: t in live && t.revision < floor ==> Outgrown(log, t.revision)
    ensures forall t :: t in live && t.revision < floor ==> Outgrown(longer, t.revision)
  {
    hide Outgrown;
    forall t | t in live && t.revision < floor ensures Outgrown(longer, t.revision) {
      OutgrownKept(log, longer, t.revision);
    }
  }

  /** The log and its evidence with one more commit. */
  lemma Appended(log: Log, commit: Commit, longer: Log, floor: nat, history: seq<Revision>, latest: Revision, modified: map<Key, nat>)
    requires longer == log + [commit] && latest == Revision(|log| + 1, commit.local.writes.Keys) && commit.snapshot <= |log|
    requires Retained(log, floor, history) && Latest(log, floor, modified) && Serializable(log) && FloorPassed(log, |log|, floor)
    requires Run(StateAt(log, commit.snapshot), commit.trace) == (commit.local, commit.replies)
    requires !Overwritten(log, commit.snapshot, commit.local.protected)
    ensures StateAt(longer, |longer|) == Overlay(StateAt(log, |log|), commit.local.writes)
    ensures Retained(longer, floor, history + [latest]) && Latest(longer, floor, Noted(modified, latest.keys, |longer|))
    ensures HistoryKeys(history + [latest]) == HistoryKeys(history) + |latest.keys|
    ensures HistoryBytes(history + [latest]) == HistoryBytes(history) + KeyBytes(latest.keys)
    ensures Serializable(longer) && FloorPassed(longer, |longer| - 1, floor)
  {
    hide StateAt, Serializable, Retained, Latest, HistoryBytes, HistoryKeys, Run, Overlay, Overwritten, KeyBytes, Noted, FloorPassed;
    PublishState(log, commit);
    PublishRetained(log, floor, history, commit);
    FrontIs(log, floor, history);
    PublishLatest(log, floor, modified, commit);
    CommitSerial(log, commit);
    TotalsAppend(history, latest);
    FloorPassedKept(log, longer, floor);
  }

  /** Looks up every key, or none if one is too long. */
  method LookupBatch(view: Data, keys: seq<Key>) returns (values: Option<seq<Option<Value>>>)
    ensures values == if KeysFit(keys) then Some(LookupAll(view, keys)) else None
  {
    hide KeysFit, LookupAll;
    var found: seq<Option<Value>> := [];
    LookupNone(view, keys);
    for i := 0 to |keys|
      invariant KeysFit(keys[..i]) && found == LookupAll(view, keys[..i])
    {
      LookupStep(view, keys, i);
      if |keys[i]| > MAX_KEY_BYTES {
        return None;
      }
      found := found + [Lookup(view, keys[i])];
    }
    assert keys[..|keys|] == keys;
    values := Some(found);
  }

  /** Validates a batch against the bytes already charged. */
  method AdmitBatch(charged: nat, mutations: seq<Mutation>) returns (admitted: bool, bytes: nat)
    requires charged <= MAX_MUTATION_BYTES
    ensures admitted <==> BatchAdmissible(charged, mutations)
    ensures admitted ==> bytes == charged + BatchBytes(mutations)
  {
    bytes, admitted := charged, true;
    for i := 0 to |mutations|
      invariant admitted ==> bytes <= MAX_MUTATION_BYTES && bytes + BatchBytes(mutations[i..]) == charged + BatchBytes(mutations)
      invariant admitted ==> (BatchAdmissible(charged, mutations) <==> BatchAdmissible(bytes, mutations[i..]))
      invariant !admitted ==> !BatchAdmissible(charged, mutations)
    {
      var m := mutations[i];
      assert mutations[i..][1..] == mutations[i + 1..];
      if |m.key| > MAX_KEY_BYTES || m.ValueBytes() > MAX_VALUE_BYTES
         || |m.key| + m.ValueBytes() > MAX_MUTATION_BYTES - bytes {
        admitted := false;
      } else if admitted {
        bytes := bytes + |m.key| + m.ValueBytes();
      }
    }
  }

  class MemoryBackend {
    var data: Data
    var revision: nat
    var writers: map<nat, nat>
    var modified: map<Key, nat>
    var history: seq<Revision>
    var historyKeys: nat
    var historyBytes: nat
    var conflictFloor: nat
    ghost var log: Log
    ghost var live: set<WriteTxn>

    /** Data and evidence match the log. */
    ghost predicate Recorded()
      reads this
    {
      && revision == |log| <= U64_MAX
      && data == StateAt(log, revision)
      && Retained(log, conflictFloor, history) && Latest(log, conflictFloor, modified)
      && historyKeys == HistoryKeys(history) && historyBytes == HistoryBytes(history)
      && Serializable(log)
    }

    /** A live writer is behind the floor only if the commits since its snapshot had at some
        moment outgrown the history budget. */
    ghost predicate Known()
      reads this
    {
      && Registered(writers, live)
      && (forall t :: t in live ==> t.backend == this && t.revision <= revision)
      && (forall t :: t in live && t.revision < conflictFloor ==> Outgrown(log, t.revision))
    }

    /** Holds within a critical section, before the evidence is pruned. */
    ghost predicate Core()
      reads this
    {
      Recorded() && Known() && (log != [] ==> FloorPassed(log, |log| - 1, conflictFloor))
    }

    predicate Full()
      reads this
    {
      historyKeys > MAX_HISTORY_KEYS || historyBytes > MAX_HISTORY_BYTES || |history| > MAX_HISTORY_KEYS
    }

    /** Evidence is bounded, the floor has passed every outgrown snapshot, and no evidence is
        kept that every live writer's snapshot includes. */
    ghost predicate Pruned()
      reads this
    {
      && !Full() && FloorPassed(log, |log|, conflictFloor)
      && (writers != map[] ==> exists w :: w in writers && w <= conflictFloor)
      && (writers == map[] ==> conflictFloor == revision)
    }

    ghost predicate Valid()
      reads this
    {
      Core() && Pruned()
    }

    constructor ()
      ensures Valid() && data == map[] && log == [] && live == {}
    {
      data, revision, writers, modified := map[], 0, map[], map[];
      history, historyKeys, historyBytes, conflictFloor := [], 0, 0, 0;
      log, live := [], {};
    }

    /** The oldest live snapshot, or the current revision without writers. */
    method OldestSnapshot() returns (oldest: nat)
      ensures writers == map[] ==> oldest == revision
      ensures writers != map[] ==> oldest in writers
      ensures forall r :: r in writers ==> oldest <= r
    {
      oldest := revision;
      var rest := writers.Keys;
      if rest != {} {
        oldest :| oldest in rest;
        while rest != {}
          invariant rest <= writers.Keys && oldest in writers
          invariant forall r :: r in writers && r !in rest ==> oldest <= r
          decreases |rest|
        {
          var r :| r in rest;
          if r < oldest {
            oldest := r;
          }
          rest := rest - {r};
        }
      }
      assert writers == map[] <==> writers.Keys == {};
    }

    /** Drops the oldest retained revision. */
    method DropFront()
      requires Retained(log, conflictFloor, history) && Latest(log, conflictFloor, modified) && history != []
      requires historyKeys == HistoryKeys(history) && historyBytes == HistoryBytes(history)
      modifies `history, `modified, `historyKeys, `historyBytes, `conflictFloor
      ensures Retained(log, conflictFloor, history) && Latest(log, conflictFloor, modified)
      ensures historyKeys == HistoryKeys(history) && historyBytes == HistoryBytes(history)
      ensures conflictFloor == old(conflictFloor) + 1 == old(history[0].number) && history == old(history)[1..]
    {
      hide Retained, Latest, Forget;
      ForgetNone(modified, history[0].number);
      assert history[0].keys - history[0].keys == {};
      DropOldest(log, conflictFloor, history, modified);
      var dropped := history[0];
      ghost var before := modified;
      history := history[1..];
      conflictFloor := dropped.number;
      historyKeys := historyKeys - |dropped.keys|;
      var rest := dropped.keys;
      while rest != {}
        invariant rest <= dropped.keys
        invariant historyBytes == KeyBytes(rest) + HistoryBytes(history)
        invariant modified == Forget(before, Revision(dropped.number, dropped.keys - rest))
        modifies `historyBytes, `modified
        decreases |rest|
      {
        var key :| key in rest;
        KeyBytesRemove(rest, key);
        historyBytes := historyBytes - |key|;
        ForgetOne(before, dropped.number, dropped.keys - rest, key);
        assert dropped.keys - (rest - {key}) == (dropped.keys - rest) + {key};
        if key in modified && modified[key] == dropped.number {
          modified := modified - {key};
        }
        rest := rest - {key};
      }
      assert dropped.keys - {} == dropped.keys;
    }

    /** Drops expired evidence, then over-budget evidence. */
    method PruneHistory()
      requires Core()
      modifies `history, `modified, `historyKeys, `historyBytes, `conflictFloor
      ensures Valid() && conflictFloor >= old(conflictFloor)
    {
      hide StateAt, Serializable, Retained, Latest, HistoryBytes, HistoryKeys, KeysWritten, BytesWritten, Outgrown, FloorPassed;
      var oldest := OldestSnapshot();
      while true
        invariant Core() && conflictFloor >= old(conflictFloor)
        decreases |history|
      {
        FrontIs(log, conflictFloor, history);
        RetainedTotals(log, conflictFloor, history);
        var expired := history != [] && history[0].number <= oldest;
        if !expired && !Full() {
          break;
        }
        NoTotals(history);
        ghost var floor := conflictFloor;
        forall t | t in live && t.revision < floor + 1 && !expired ensures Outgrown(log, t.revision) {
          if t.revision == floor { OutgrownByDrop(log, floor, t.revision); }
        }
        DropFront();
        FloorRaised(log, |log| - 1, floor, conflictFloor);
      }
      FrontIs(log, conflictFloor, history);
      FittingFloor(log, conflictFloor);
    }

    /** A consistent immutable snapshot of everything committed so far. */
    method BeginRead() returns (snapshot: Data)
      requires Valid()
      ensures snapshot == StateAt(log, |log|)
    {
      snapshot := data;
    }

    /** Registers a writer on the current revision. Transactions already open are
        not disturbed. */
    method BeginWrite() returns (t: WriteTxn)
      requires Valid()
      modifies `writers, `live
      ensures Valid() && fresh(t) && live == old(live) + {t}
      ensures t.backend == this && t.revision == revision && !t.spent
      ensures t.Valid() && t.trace == []
      ensures forall u :: u in old(live) && old(u.Valid()) ==> u.Valid()
    {
      hide StateAt, Serializable, Retained, Latest, HistoryBytes, HistoryKeys, Registered;
      t := new WriteTxn(this, data);
      RegisterOne(writers, live, t);
      FrontIs(log, conflictFloor, history);
      ghost var oldest := if writers == map[] then revision else var w :| w in writers && w <= conflictFloor; w;
      var count := if revision in writers then writers[revision] else 0;
      writers := writers[revision := count + 1];
      live := live + {t};
      assert oldest in writers;
    }

    /** Applies a write set to the latest data, preserving unrelated commits. */
    method ApplyWrites(writes: Writes) returns (next: Data)
      ensures next == Overlay(data, writes)
    {
      hide Overlay;
      next := data;
      var rest := writes.Keys;
      ghost var done: Writes := map[];
      OverlayNone(data);
      while rest != {}
        invariant rest <= writes.Keys
        invariant done.Keys == writes.Keys - rest && forall k :: k in done ==> done[k] == writes[k]
        invariant next == Overlay(data, done)
        decreases |rest|
      {
        var key :| key in rest;
        OverlayAssign(data, done, key, writes[key]);
        if writes[key].Some? {
          next := next[key := writes[key].value];
        } else {
          next := next - {key};
        }
        done := done[key := writes[key]];
        rest := rest - {key};
      }
      assert done == writes;
    }

    /** Notes which keys a commit wrote; returns their total length. */
    method NoteKeys(keys: set<Key>, number: nat) returns (bytes: nat)
      modifies `modified
      ensures modified == Noted(old(modified), keys, number)
      ensures bytes == KeyBytes(keys)
    {
      hide Noted, KeyBytes;
      bytes := 0;
      var rest := keys;
      NotedNone(modified, number);
      assert keys - keys == {};
      while rest != {}
        invariant rest <= keys
        invariant modified == Noted(old(modified), keys - rest, number)
        invariant bytes + KeyBytes(rest) == KeyBytes(keys)
        decreases |rest|
      {
        var key :| key in rest;
        KeyBytesRemove(rest, key);
        NotedOne(old(modified), keys - rest, key, number);
        assert keys - (rest - {key}) == (keys - rest) + {key};
        modified := modified[key := number];
        bytes := bytes + |key|;
        rest := rest - {key};
      }
      NotedNone(modified, number);
      assert keys - {} == keys;
    }

    /** Publishes a transaction that passed the conflict test. */
    method Publish(writes: Writes, ghost commit: Commit)
      requires Valid() && revision < U64_MAX
      requires commit.local.writes == writes && commit.snapshot <= |log|
      requires Run(StateAt(log, commit.snapshot), commit.trace) == (commit.local, commit.replies)
      requires !Overwritten(log, commit.snapshot, commit.local.protected)
      modifies `data, `revision, `log, `history, `modified, `historyKeys, `historyBytes, `conflictFloor
      ensures Valid() && log == old(log) + [commit] && data == Overlay(old(data), writes)
    {
      hide StateAt, Serializable, Run, Overlay, Overwritten, Outgrown, FloorPassed, Recorded, Known;
      Record(writes, commit);
      PruneHistory();
    }

    /** Appends a commit to data and evidence, not yet pruned. */
    method Record(writes: Writes, ghost commit: Commit)
      requires Valid() && revision < U64_MAX
      requires commit.local.writes == writes && commit.snapshot <= |log|
      requires Run(StateAt(log, commit.snapshot), commit.trace) == (commit.local, commit.replies)
      requires !Overwritten(log, commit.snapshot, commit.local.protected)
      modifies `data, `revision, `log, `history, `modified, `historyKeys, `historyBytes
      ensures Core() && log == old(log) + [commit] && data == Overlay(old(data), writes)
    {
      hide StateAt, Serializable, Retained, Latest, HistoryBytes, HistoryKeys, Registered, Run, Overlay, Overwritten, KeyBytes, Noted,
        Outgrown, FloorPassed, Pruned;
      assert FloorPassed(log, |log|, conflictFloor) by { PrunedPassed(); }
      var number := revision + 1;
      ghost var longer, latest := log + [commit], Revision(number, writes.Keys);
      Appended(log, commit, longer, conflictFloor, history, latest, modified);
      WritersOutgrown(live, log, longer, conflictFloor);
      var next := ApplyWrites(writes);
      var bytes := NoteKeys(writes.Keys, number);
      historyKeys, historyBytes := historyKeys + |writes.Keys|, historyBytes + bytes;
      history, data, revision, log := history + [Revision(number, writes.Keys)], next, number, longer;
    }

    lemma PrunedPassed()
      requires Pruned()
      ensures FloorPassed(log, |log|, conflictFloor)
    {
    }

    /** Unregisters a finished writer and drops the evidence only it needed. */
    method ReleaseWriter(t: WriteTxn)
      requires Valid() && t in live
      modifies `writers, `live, `history, `modified, `historyKeys, `historyBytes, `conflictFloor
      ensures Valid() && live == old(live) - {t}
      ensures forall u :: u in live && old(u.Valid()) ==> u.Valid()
    {
      hide StateAt, Serializable, Retained, Latest, HistoryBytes, HistoryKeys, Registered, Run;
      ReleaseOne(writers, live, t);
      WriterRegistered(writers, live, t);
      var count := writers[t.revision] - 1;
      writers := if count == 0 then writers - {t.revision} else writers[t.revision := count];
      live := live - {t};
      PruneHistory();
    }
  }

  class WriteTxn {
    const backend: MemoryBackend
    const revision: nat
    var view: Data
    var writes: Writes
    var protected: set<Key>
    var mutationCount: nat
    var mutationBytes: nat
    ghost const snapshot: Data
    ghost var trace: seq<Request>
    ghost var replies: seq<Reply>
    ghost var spent: bool

    ghost function Here(): Local
      reads this
    {
      Local(view, writes, protected, mutationCount, mutationBytes)
    }

    /** The transaction's state and replies are those of its trace on its snapshot. */
    ghost predicate Valid()
      reads this, backend
    {
      && this in backend.live
      && revision <= |backend.log|
      && snapshot == StateAt(backend.log, revision)
      && Run(snapshot, trace) == (Here(), replies)
    }

    constructor (backend: MemoryBackend, data: Data)
      ensures this.backend == backend && revision == backend.revision && snapshot == data
      ensures Here() == Fresh(data) && trace == [] && replies == [] && !spent
    {
      this.backend, revision := backend, backend.revision;
      view, writes, protected, mutationCount, mutationBytes := data, map[], {}, 0, 0;
      snapshot, trace, replies, spent := data, [], [], false;
    }

    /** Records that a request was served as specified. */
    ghost method Serve(request: Request, reply: Reply)
      requires this in backend.live && revision <= |backend.log| && snapshot == StateAt(backend.log, revision)
      requires var (local, done) := Run(snapshot, trace);
               replies == done && (Here(), reply) == Step(local, request)
      modifies `trace, `replies
      ensures Valid() && trace == old(trace) + [request] && replies == old(replies) + [reply]
    {
      hide StateAt, Step;
      RunSnoc(snapshot, trace, request);
      trace, replies := trace + [request], replies + [reply];
    }

    method Get(key: Key) returns (reply: Reply)
      requires Valid()
      modifies `trace, `replies
      ensures Valid() && (Here(), reply) == Step(old(Here()), Request.Get(key))
      ensures trace == old(trace) + [Request.Get(key)] && replies == old(replies) + [reply]
      ensures reply == if |key| <= MAX_KEY_BYTES then Found(Seen(snapshot, old(writes), key)) else LimitExceeded
    {
      hide StateAt, Run, Overlay;
      RunCoherent(snapshot, trace);
      ViewSeen(snapshot, writes, key);
      reply := LimitExceeded;
      if |key| <= MAX_KEY_BYTES {
        reply := Found(Lookup(view, key));
      }
      Serve(Request.Get(key), reply);
    }

    method GetForUpdate(key: Key) returns (reply: Reply)
      requires Valid()
      modifies `protected, `trace, `replies
      ensures Valid() && (Here(), reply) == Step(old(Here()), Request.GetForUpdate(key))
      ensures trace == old(trace) + [Request.GetForUpdate(key)] && replies == old(replies) + [reply]
      ensures reply == if |key| <= MAX_KEY_BYTES then Found(Seen(snapshot, old(writes), key)) else LimitExceeded
      ensures protected == old(protected) + if |key| <= MAX_KEY_BYTES then {key} else {}
    {
      hide StateAt, Run, Overlay;
      RunCoherent(snapshot, trace);
      ViewSeen(snapshot, writes, key);
      reply := LimitExceeded;
      if |key| <= MAX_KEY_BYTES {
        reply := Found(Lookup(view, key));
        protected := protected + {key};
      }
      Serve(Request.GetForUpdate(key), reply);
    }

    /** Validates every key before protecting any. */
    method BatchGetForUpdate(keys: seq<Key>) returns (reply: Reply)
      requires Valid()
      modifies `protected, `trace, `replies
      ensures Valid() && (Here(), reply) == Step(old(Here()), Request.BatchGetForUpdate(keys))
      ensures trace == old(trace) + [Request.BatchGetForUpdate(keys)] && replies == old(replies) + [reply]
      ensures reply.LimitExceeded? <==> exists i :: 0 <= i < |keys| && |keys[i]| > MAX_KEY_BYTES
      ensures !reply.LimitExceeded? ==>
        && reply.FoundAll? && |reply.values| == |keys|
        && (forall i :: 0 <= i < |keys| ==> reply.values[i] == Seen(snapshot, old(writes), keys[i]))
      ensures protected == old(protected) + if reply.LimitExceeded? then {} else set k | k in keys
    {
      hide StateAt, Run, Overlay;
      RunCoherent(snapshot, trace);
      forall i | 0 <= i < |keys| ensures Lookup(view, keys[i]) == Seen(snapshot, writes, keys[i]) {
        ViewSeen(snapshot, writes, keys[i]);
      }
      var values := LookupBatch(view, keys);
      reply := LimitExceeded;
      if values.Some? {
        reply := FoundAll(values.value);
        protected := protected + set k | k in keys;
      }
      Serve(Request.BatchGetForUpdate(keys), reply);
    }

    /** Stages one mutation without recording it as a request. */
    method StagePoint(mutation: Mutation) returns (reply: Reply)
      requires mutationBytes <= MAX_MUTATION_BYTES
      modifies `view, `writes, `mutationCount, `mutationBytes
      ensures (Here(), reply) == Stage(old(Here()), mutation)
    {
      if |mutation.key| > MAX_KEY_BYTES {
        return LimitExceeded;
      }
      var valueBytes := mutation.ValueBytes();
      if valueBytes > MAX_VALUE_BYTES || mutationCount == MAX_MUTATIONS
         || |mutation.key| + valueBytes > MAX_MUTATION_BYTES - mutationBytes {
        return LimitExceeded;
      }
      mutationCount := mutationCount + 1;
      mutationBytes := mutationBytes + |mutation.key| + valueBytes;
      ApplyMutation(mutation);
      reply := Done;
    }

    /** Keeps the private view and the commit delta in step. */
    method ApplyMutation(mutation: Mutation)
      modifies `view, `writes
      ensures Here() == ApplyPoint(old(Here()), mutation.key, mutation.Written())
    {
      if mutation.Put? {
        view := view[mutation.key := mutation.value];
      } else {
        view := view - {mutation.key};
      }
      writes := writes[mutation.key := mutation.Written()];
    }

    method Mutate(mutation: Mutation) returns (reply: Reply)
      requires Valid()
      modifies `view, `writes, `mutationCount, `mutationBytes, `trace, `replies
      ensures Valid() && (Here(), reply) == Step(old(Here()), Request.Mutate(mutation))
      ensures trace == old(trace) + [Request.Mutate(mutation)] && replies == old(replies) + [reply]
      ensures reply.Done? || reply.LimitExceeded?
      ensures writes == if reply.Done? then old(writes)[mutation.key := Left(mutation)] else old(writes)
    {
      hide StateAt, Run, Overlay;
      RunCoherent(snapshot, trace);
      reply := StagePoint(mutation);
      Serve(Request.Mutate(mutation), reply);
    }

    /** Protects the key whether or not the insert succeeds. */
    method Insert(key: Key, value: Value) returns (reply: Reply)
      requires Valid()
      modifies `view, `writes, `protected, `mutationCount, `mutationBytes, `trace, `replies
      ensures Valid() && (Here(), reply) == Step(old(Here()), Request.Insert(key, value))
      ensures trace == old(trace) + [Request.Insert(key, value)] && replies == old(replies) + [reply]
      ensures |key| <= MAX_KEY_BYTES && |value| <= MAX_VALUE_BYTES ==>
        && protected == old(protected) + {key}
        && (reply.AlreadyExists? <==> Seen(snapshot, old(writes), key).Some?)
      ensures reply.AlreadyExists? || reply.Inserted? || reply.LimitExceeded?
      ensures writes == if reply.Inserted? then old(writes)[key := Some(value)] else old(writes)
    {
      hide StateAt, Run, Overlay;
      RunCoherent(snapshot, trace);
      ViewSeen(snapshot, writes, key);
      reply := LimitExceeded;
      if |value| <= MAX_VALUE_BYTES && |key| <= MAX_KEY_BYTES {
        var exists_ := key in view;
        protected := protected + {key};
        if exists_ {
          reply := AlreadyExists;
        } else {
          reply := StagePoint(Put(key, value));
          if reply.Done? {
            reply := Inserted;
          }
        }
      }
      Serve(Request.Insert(key, value), reply);
    }

    /** Applies an admitted batch in order. */
    method ApplyBatch(mutations: seq<Mutation>)
      modifies `view, `writes
      ensures Here() == ApplyAll(old(Here()), mutations) && LastWins(old(writes), mutations, writes)
    {
      hide LastWins;
      ghost var before := Here();
      for i := 0 to |mutations|
        invariant ApplyAll(Here(), mutations[i..]) == ApplyAll(before, mutations)
      {
        assert mutations[i..][1..] == mutations[i + 1..];
        ApplyMutation(mutations[i]);
      }
      AllLastWins(before, mutations);
    }

    /** Validates and counts the whole batch before changing the private view. */
    method BatchMutate(mutations: seq<Mutation>) returns (reply: Reply)
      requires Valid()
      modifies `view, `writes, `mutationCount, `mutationBytes, `trace, `replies
      ensures Valid() && (Here(), reply) == Step(old(Here()), Request.BatchMutate(mutations))
      ensures trace == old(trace) + [Request.BatchMutate(mutations)] && replies == old(replies) + [reply]
      ensures reply.Done? || reply.LimitExceeded?
      ensures if reply.Done? then LastWins(old(writes), mutations, writes) else writes == old(writes)
    {
      hide StateAt, Run, Overlay, LastWins, BatchAdmissible, BatchBytes, ApplyAll;
      RunCoherent(snapshot, trace);
      reply := LimitExceeded;
      if |mutations| <= MAX_MUTATIONS - mutationCount {
        var admitted, bytes := AdmitBatch(mutationBytes, mutations);
        if admitted {
          mutationCount := mutationCount + |mutations|;
          mutationBytes := bytes;
          ApplyBatch(mutations);
          reply := Done;
        }
      }
      Serve(Request.BatchMutate(mutations), reply);
    }

    /** The engine's conflict test on the protected keys. */
    method HasConflict() returns (conflict: bool)
      ensures conflict == Conflicts(backend.conflictFloor, backend.modified, revision, protected)
    {
      conflict := protected != {} && revision < backend.conflictFloor;
      var rest := protected;
      while rest != {}
        invariant rest <= protected
        invariant conflict <==>
            (protected != {} && (revision < backend.conflictFloor
             || exists k :: k in protected - rest && k in backend.modified && backend.modified[k] > revision))
        decreases |rest|
      {
        var key :| key in rest;
        if key in backend.modified && backend.modified[key] > revision {
          conflict := true;
        }
        rest := rest - {key};
      }
      assert protected - {} == protected;
    }

    /** Checks conflicts and publishes the buffered writes as one step. `claimed` says
        whether the caller's commit right was still available. */
    method CommitWith(claimed: bool) returns (outcome: Outcome)
      requires Valid() && backend.Valid() && !spent
      modifies backend, `spent
      ensures backend.Valid() && spent && backend.live == old(backend.live)
      ensures forall u :: u in backend.live && old(u.Valid()) ==> u.Valid()
      ensures outcome.Committed? ==>
        && backend.log == old(backend.log) + [Commit(revision, trace, replies, Here())]
        && backend.data == Overlay(old(backend.data), writes)
        && !Overwritten(old(backend.log), revision, protected)
      ensures !outcome.Committed? ==> backend.log == old(backend.log) && backend.data == old(backend.data)
      ensures outcome.Cancelled? <==> !claimed
      ensures outcome.RetryableAbort? <==>
        claimed && protected != {} && (Overwritten(old(backend.log), revision, protected) || Outgrown(old(backend.log), revision))
      ensures outcome.RevisionsExhausted? ==> old(backend.revision) == U64_MAX
    {
      hide StateAt, Serializable, Retained, Latest, HistoryBytes, HistoryKeys, Registered, Run, Overlay, Overwritten, Conflicts;
      spent := true;
      if !claimed {
        return Cancelled;
      }
      FrontIs(backend.log, backend.conflictFloor, backend.history);
      if protected != {} {
        ConflictsExact(backend.log, backend.conflictFloor, backend.modified, revision, protected);
      }
      NoKeysNoConflict(backend.log, backend.conflictFloor, backend.modified, revision, protected);
      var conflict := HasConflict();
      if conflict {
        return RetryableAbort;
      }
      if backend.revision == U64_MAX {
        return RevisionsExhausted;
      }
      ghost var before := backend.log;
      backend.Publish(writes, Commit(revision, trace, replies, Here()));
      forall u | u in backend.live && old(u.Valid()) ensures u.Valid() {
        StateAtPrefix(before, backend.log, u.revision);
      }
      outcome := Committed;
    }

    /** Dropping the transaction, committed or not, releases its writer. */
    method Drop()
      requires Valid() && backend.Valid()
      modifies backend
      ensures backend.Valid() && backend.live == old(backend.live) - {this}
      ensures backend.log == old(backend.log) && backend.data == old(backend.data)
      ensures forall u :: u in backend.live && old(u.Valid()) ==> u.Valid()
    {
      hide StateAt, Serializable, Retained, Latest, HistoryBytes, HistoryKeys, Registered, Run;
      backend.ReleaseWriter(this);
    }
  }
}
