/** What a transaction answers, told from its requests and replies alone: which mutations it
    has staged, what it sees of a key, when a request is refused, and what it protects. */
module Replies {
  import opened Wrappers
  import opened Bytes
  import opened Transactions

  // ---------------------------------------------------------------- staged mutations

  /** The value a mutation leaves behind. */
  function Left(m: Mutation): Option<Value> {
    match m
    case Put(_, value) => Some(value)
    case Delete(_) => None
  }

  function Weight(m: Mutation): nat {
    match m
    case Put(key, value) => |key| + |value|
    case Delete(key) => |key|
  }

  ghost function Charge(staged: seq<Mutation>): nat {
    if staged == [] then 0 else Charge(staged[..|staged| - 1]) + Weight(staged[|staged| - 1])
  }

  /** What an answered request adds to the staged mutations. */
  ghost function Adds(request: Request, reply: Reply): seq<Mutation> {
    match request
    case Mutate(m) => if reply.Done? then [m] else []
    case Insert(key, value) => if reply.Inserted? then [Put(key, value)] else []
    case BatchMutate(ms) => if reply.Done? then ms else []
    case _ => []
  }

  /** The mutations staged so far, in order. */
  ghost function Staged(trace: seq<Request>, replies: seq<Reply>): seq<Mutation>
    requires |trace| == |replies|
  {
    if trace == [] then []
    else Staged(trace[..|trace| - 1], replies[..|trace| - 1]) + Adds(trace[|trace| - 1], replies[|trace| - 1])
  }

  ghost predicate Touched(staged: seq<Mutation>, key: Key) {
    exists i :: 0 <= i < |staged| && staged[i].key == key
  }

  /** A key reads as its last staged mutation left it, or else as in the snapshot. */
  ghost function Reads(snapshot: Data, staged: seq<Mutation>, key: Key): Option<Value> {
    if staged == [] then Lookup(snapshot, key)
    else
      var last := staged[|staged| - 1];
      if last.key == key then Left(last) else Reads(snapshot, staged[..|staged| - 1], key)
  }

  /** The mutations are short enough one by one, and so are all staged ones together. */
  ghost predicate Admits(staged: seq<Mutation>, more: seq<Mutation>) {
    && (forall i :: 0 <= i < |more| ==> |more[i].key| <= MAX_KEY_BYTES && Weight(more[i]) <= |more[i].key| + MAX_VALUE_BYTES)
    && |staged| + |more| <= MAX_MUTATIONS
    && Charge(staged) + Charge(more) <= MAX_MUTATION_BYTES
  }

  /** Of each key a batch mutates the last mutation stays; no other key changes. */
  ghost predicate LastWins(before: Writes, ms: seq<Mutation>, after: Writes) {
    && (forall i :: 0 <= i < |ms| && (forall j :: i < j < |ms| ==> ms[j].key != ms[i].key) ==>
          ms[i].key in after && after[ms[i].key] == Left(ms[i]))
    && (forall key :: !Touched(ms, key) ==> (key in after <==> key in before) && (key in before ==> after[key] == before[key]))
  }

  lemma {:induction false} UntouchedKept(local: Local, ms: seq<Mutation>, key: Key)
    requires forall i :: 0 <= i < |ms| ==> ms[i].key != key
    ensures var after := ApplyAll(local, ms).writes;
            (key in after <==> key in local.writes) && (key in local.writes ==> after[key] == local.writes[key])
    decreases |ms|
  {
    if ms != [] {
      UntouchedKept(ApplyPoint(local, ms[0].key, ms[0].Written()), ms[1..], key);
    }
  }

  lemma {:induction false} LastStays(local: Local, ms: seq<Mutation>, i: nat)
    requires i < |ms| && forall j :: i < j < |ms| ==> ms[j].key != ms[i].key
    ensures var after := ApplyAll(local, ms).writes; ms[i].key in after && after[ms[i].key] == Left(ms[i])
    decreases |ms|
  {
    var once := ApplyPoint(local, ms[0].key, ms[0].Written());
    if i == 0 {
      UntouchedKept(once, ms[1..], ms[0].key);
    } else {
      LastStays(once, ms[1..], i - 1);
    }
  }

  lemma AllLastWins(local: Local, ms: seq<Mutation>)
    ensures LastWins(local.writes, ms, ApplyAll(local, ms).writes)
  {
    hide ApplyAll, Touched, Left;
    var after := ApplyAll(local, ms).writes;
    forall i | 0 <= i < |ms| && (forall j :: i < j < |ms| ==> ms[j].key != ms[i].key)
      ensures ms[i].key in after && after[ms[i].key] == Left(ms[i])
    {
      LastStays(local, ms, i);
    }
    forall key | !Touched(ms, key)
      ensures (key in after <==> key in local.writes) && (key in local.writes ==> after[key] == local.writes[key])
    {
      NotTouched(ms, key);
      UntouchedKept(local, ms, key);
    }
  }

  lemma NotTouched(ms: seq<Mutation>, key: Key)
    requires !Touched(ms, key)
    ensures forall i :: 0 <= i < |ms| ==> ms[i].key != key
  {
  }

  // ---------------------------------------------------------------- right answers

  /** The answer a request must get, after the given mutations. */
  ghost predicate Right(snapshot: Data, staged: seq<Mutation>, request: Request, reply: Reply) {
    match request
    case Get(key) => reply == if |key| <= MAX_KEY_BYTES then Found(Reads(snapshot, staged, key)) else LimitExceeded
    case GetForUpdate(key) => reply == if |key| <= MAX_KEY_BYTES then Found(Reads(snapshot, staged, key)) else LimitExceeded
    case BatchGetForUpdate(keys) =>
      if exists i :: 0 <= i < |keys| && |keys[i]| > MAX_KEY_BYTES then reply == LimitExceeded
      else reply.FoundAll? && |reply.values| == |keys| && forall i :: 0 <= i < |keys| ==> reply.values[i] == Reads(snapshot, staged, keys[i])
    case Mutate(m) => reply == if Admits(staged, [m]) then Done else LimitExceeded
    case Insert(key, value) =>
      if |key| > MAX_KEY_BYTES || |value| > MAX_VALUE_BYTES then reply == LimitExceeded
      else if Reads(snapshot, staged, key).Some? then reply == AlreadyExists
      else reply == if Admits(staged, [Put(key, value)]) then Inserted else LimitExceeded
    case BatchMutate(ms) => reply == if Admits(staged, ms) then Done else LimitExceeded
  }

  /** A request protects its keys unless one of them, or an insert's value, is too long; an
      insert does so whatever it then answers. */
  ghost predicate Guards(request: Request, key: Key) {
    match request
    case GetForUpdate(k) => k == key && |key| <= MAX_KEY_BYTES
    case BatchGetForUpdate(keys) => key in keys && forall i :: 0 <= i < |keys| ==> |keys[i]| <= MAX_KEY_BYTES
    case Insert(k, value) => k == key && |key| <= MAX_KEY_BYTES && |value| <= MAX_VALUE_BYTES
    case _ => false
  }

  /** The private state holds exactly the staged mutations: each key's last one, how many they
      are and what they weigh. */
  ghost predicate Holds(snapshot: Data, staged: seq<Mutation>, local: Local) {
    && (forall key :: key in local.writes <==> Touched(staged, key))
    && (forall key :: Seen(snapshot, local.writes, key) == Reads(snapshot, staged, key))
    && local.count == |staged| && local.bytes == Charge(staged)
  }

  // ---------------------------------------------------------------- proof

  lemma {:induction false} ChargeAppend(one: seq<Mutation>, two: seq<Mutation>)
    ensures Charge(one + two) == Charge(one) + Charge(two)
    decreases |two|
  {
    if two == [] {
      assert one + two == one;
    } else {
      assert (one + two)[..|one + two| - 1] == one + two[..|two| - 1];
      ChargeAppend(one, two[..|two| - 1]);
    }
  }

  lemma ChargeOne(m: Mutation)
    ensures Charge([m]) == Weight(m) == |m.key| + m.ValueBytes() && Left(m) == m.Written()
  {
    assert [m][..0] == [];
  }

  lemma {:induction false} BatchCharge(ms: seq<Mutation>)
    ensures BatchBytes(ms) == Charge(ms)
    decreases |ms|
  {
    if ms != [] {
      BatchCharge(ms[1..]);
      ChargeOne(ms[0]);
      assert ms == [ms[0]] + ms[1..];
      ChargeAppend([ms[0]], ms[1..]);
    }
  }

  /** The running test of a batch decides by the total. */
  lemma {:induction false} BatchAdmits(bytes: nat, ms: seq<Mutation>)
    requires bytes <= MAX_MUTATION_BYTES
    ensures BatchAdmissible(bytes, ms) <==>
      && (forall i :: 0 <= i < |ms| ==> |ms[i].key| <= MAX_KEY_BYTES && Weight(ms[i]) <= |ms[i].key| + MAX_VALUE_BYTES)
      && bytes + BatchBytes(ms) <= MAX_MUTATION_BYTES
    decreases |ms|
  {
    if ms != [] {
      ChargeOne(ms[0]);
      var cost := |ms[0].key| + ms[0].ValueBytes();
      if bytes + cost <= MAX_MUTATION_BYTES {
        BatchAdmits(bytes + cost, ms[1..]);
      }
      assert forall i :: 1 <= i < |ms| ==> ms[i] == ms[1..][i - 1];
      assert forall i :: 0 <= i < |ms| - 1 ==> ms[1..][i] == ms[i + 1];
    }
  }

  /** One more staged mutation. */
  lemma HoldsOne(snapshot: Data, staged: seq<Mutation>, local: Local, m: Mutation, next: Local)
    requires Holds(snapshot, staged, local)
    requires next.writes == local.writes[m.key := m.Written()]
    requires next.count == local.count + 1 && next.bytes == local.bytes + |m.key| + m.ValueBytes()
    ensures Holds(snapshot, staged + [m], next)
  {
    var more := staged + [m];
    assert more[..|staged|] == staged;
    ChargeOne(m);
    ChargeAppend(staged, [m]);
    forall key ensures key in next.writes <==> Touched(more, key) {
      if Touched(staged, key) {
        var i :| 0 <= i < |staged| && staged[i].key == key;
        assert more[i].key == key;
      }
      assert more[|staged|].key == m.key;
      if Touched(more, key) && key != m.key {
        var i :| 0 <= i < |more| && more[i].key == key;
        assert staged[i].key == key;
      }
    }
  }

  lemma {:induction false} HoldsAll(snapshot: Data, staged: seq<Mutation>, local: Local, ms: seq<Mutation>)
    requires Holds(snapshot, staged, local)
    ensures Holds(snapshot, staged + ms,
                  ApplyAll(local, ms).(count := local.count + |ms|, bytes := local.bytes + BatchBytes(ms)))
    decreases |ms|
  {
    hide Holds;
    if ms == [] {
      assert staged + ms == staged;
    } else {
      var m := ms[0];
      var once := ApplyPoint(local, m.key, m.Written());
      var charged := once.(count := local.count + 1, bytes := local.bytes + |m.key| + m.ValueBytes());
      HoldsOne(snapshot, staged, local, m, charged);
      HoldsAll(snapshot, staged + [m], charged, ms[1..]);
      ApplyAllCounts(once, charged, ms[1..]);
      assert staged + [m] + ms[1..] == staged + ms;
    }
  }

  /** Counters play no part in applying mutations. */
  lemma {:induction false} ApplyAllCounts(a: Local, b: Local, ms: seq<Mutation>)
    requires b == a.(count := b.count, bytes := b.bytes)
    ensures ApplyAll(b, ms) == ApplyAll(a, ms).(count := b.count, bytes := b.bytes)
    decreases |ms|
  {
    if ms != [] {
      ApplyAllCounts(ApplyPoint(a, ms[0].key, ms[0].Written()), ApplyPoint(b, ms[0].key, ms[0].Written()), ms[1..]);
    }
  }

  lemma ReadsView(snapshot: Data, staged: seq<Mutation>, local: Local, key: Key)
    requires Coherent(snapshot, local) && Holds(snapshot, staged, local)
    ensures Lookup(local.view, key) == Reads(snapshot, staged, key)
  {
    hide Overlay, Reads;
    ViewSeen(snapshot, local.writes, key);
  }

  lemma OneAdmitted(snapshot: Data, staged: seq<Mutation>, local: Local, m: Mutation)
    requires Coherent(snapshot, local) && Holds(snapshot, staged, local)
    ensures Admissible(local, m) <==> Admits(staged, [m])
  {
    hide Charge, Reads, Overlay, Touched;
    ChargeOne(m);
    assert [m][0] == m;
  }

  /** A point mutation is answered rightly and staged. */
  lemma StageRight(snapshot: Data, staged: seq<Mutation>, local: Local, m: Mutation)
    requires Coherent(snapshot, local) && Holds(snapshot, staged, local)
    ensures Stage(local, m).1 == if Admits(staged, [m]) then Done else LimitExceeded
    ensures Holds(snapshot, staged + (if Admits(staged, [m]) then [m] else []), Stage(local, m).0)
    ensures Stage(local, m).0.protected == local.protected
  {
    hide Coherent, Holds, Admits;
    OneAdmitted(snapshot, staged, local, m);
    if Admissible(local, m) {
      HoldsOne(snapshot, staged, local, m, Stage(local, m).0);
    } else {
      assert staged + [] == staged;
    }
  }

  lemma InsertRight(snapshot: Data, staged: seq<Mutation>, local: Local, key: Key, value: Value)
    requires Coherent(snapshot, local) && Holds(snapshot, staged, local)
    ensures var (next, reply) := Step(local, Insert(key, value));
            Right(snapshot, staged, Insert(key, value), reply) && Holds(snapshot, staged + Adds(Insert(key, value), reply), next)
  {
    hide Coherent, Holds, Admits, Reads, Stage;
    ReadsView(snapshot, staged, local, key);
    var guarded := local.(protected := local.protected + {key});
    SameHolds(snapshot, staged, local, guarded);
    SameCoherent(snapshot, local, guarded);
    StageRight(snapshot, staged, guarded, Put(key, value));
    assert staged + [] == staged;
  }

  lemma SameCoherent(snapshot: Data, a: Local, b: Local)
    requires Coherent(snapshot, a) && b == a.(protected := b.protected)
    ensures Coherent(snapshot, b)
  {
  }

  lemma SameHolds(snapshot: Data, staged: seq<Mutation>, a: Local, b: Local)
    requires Holds(snapshot, staged, a) && b == a.(protected := b.protected)
    ensures Holds(snapshot, staged, b)
  {
  }

  lemma BatchAdmitted(snapshot: Data, staged: seq<Mutation>, local: Local, ms: seq<Mutation>)
    requires Coherent(snapshot, local) && Holds(snapshot, staged, local)
    ensures local.count + |ms| <= MAX_MUTATIONS && BatchAdmissible(local.bytes, ms) <==> Admits(staged, ms)
  {
    hide Overlay, Reads, Touched, BatchAdmissible, BatchBytes, Charge, Weight;
    BatchAdmits(local.bytes, ms);
    BatchCharge(ms);
  }

  /** A batch, once admitted, leaves the state all its mutations make. */
  lemma BatchStep(local: Local, ms: seq<Mutation>)
    ensures Step(local, BatchMutate(ms)) ==
            if local.count + |ms| <= MAX_MUTATIONS && BatchAdmissible(local.bytes, ms)
            then (ApplyAll(local, ms).(count := local.count + |ms|, bytes := local.bytes + BatchBytes(ms)), Done)
            else (local, LimitExceeded)
  {
    hide BatchAdmissible, ApplyAll, BatchBytes;
    ApplyAllCounts(local, local.(count := local.count + |ms|, bytes := local.bytes + BatchBytes(ms)), ms);
  }

  lemma BatchRight(snapshot: Data, staged: seq<Mutation>, local: Local, ms: seq<Mutation>)
    requires Coherent(snapshot, local) && Holds(snapshot, staged, local)
    ensures var (next, reply) := Step(local, BatchMutate(ms));
            Right(snapshot, staged, BatchMutate(ms), reply) && Holds(snapshot, staged + Adds(BatchMutate(ms), reply), next)
  {
    hide Coherent, Holds, Admits, Reads, BatchAdmissible, ApplyAll, BatchBytes, Charge, Step;
    BatchAdmitted(snapshot, staged, local, ms);
    BatchStep(local, ms);
    HoldsAll(snapshot, staged, local, ms);
    assert staged + [] == staged;
  }

  lemma BatchReadRight(snapshot: Data, staged: seq<Mutation>, local: Local, keys: seq<Key>)
    requires Coherent(snapshot, local) && Holds(snapshot, staged, local)
    ensures Right(snapshot, staged, BatchGetForUpdate(keys), Step(local, BatchGetForUpdate(keys)).1)
  {
    hide Coherent, Holds, Reads;
    forall i | 0 <= i < |keys| ensures Lookup(local.view, keys[i]) == Reads(snapshot, staged, keys[i]) {
      ReadsView(snapshot, staged, local, keys[i]);
    }
  }

  /** One request is answered rightly, and adds to the staged mutations what it should. */
  lemma StepRight(snapshot: Data, staged: seq<Mutation>, local: Local, request: Request)
    requires Coherent(snapshot, local) && Holds(snapshot, staged, local)
    ensures var (next, reply) := Step(local, request);
            Right(snapshot, staged, request, reply) && Holds(snapshot, staged + Adds(request, reply), next)
    ensures forall key :: key in Step(local, request).0.protected <==> key in local.protected || Guards(request, key)
  {
    hide Coherent, Holds, Admits, Reads, Stage, ApplyAll, BatchAdmissible, KeysFit;
    StepGuards(local, request);
    assert staged + [] == staged;
    match request {
      case Get(key) => ReadsView(snapshot, staged, local, key);
      case GetForUpdate(key) =>
        ReadsView(snapshot, staged, local, key);
        SameHolds(snapshot, staged, local, Step(local, request).0);
      case BatchGetForUpdate(keys) =>
        BatchReadRight(snapshot, staged, local, keys);
        SameHolds(snapshot, staged, local, Step(local, request).0);
      case Mutate(m) => StageRight(snapshot, staged, local, m);
      case Insert(key, value) => InsertRight(snapshot, staged, local, key, value);
      case BatchMutate(ms) => BatchRight(snapshot, staged, local, ms);
    }
  }

  lemma StepGuards(local: Local, request: Request)
    ensures forall key :: key in Step(local, request).0.protected <==> key in local.protected || Guards(request, key)
  {
    hide BatchAdmissible, ApplyAll, BatchBytes;
    if request.BatchMutate? {
      var charged := local.(count := local.count + |request.mutations|, bytes := local.bytes + BatchBytes(request.mutations));
      ApplyAllProtects(charged, request.mutations);
    }
  }

  lemma {:induction false} ApplyAllProtects(local: Local, ms: seq<Mutation>)
    ensures ApplyAll(local, ms).protected == local.protected
    decreases |ms|
  {
    if ms != [] { ApplyAllProtects(ApplyPoint(local, ms[0].key, ms[0].Written()), ms[1..]); }
  }

  /** The private state after any requests, told from requests and replies alone. */
  lemma {:induction false} RunHolds(snapshot: Data, trace: seq<Request>)
    ensures var (local, replies) := Run(snapshot, trace);
            |replies| == |trace| && Holds(snapshot, Staged(trace, replies), local)
    decreases |trace|
  {
    hide Holds, Step, Guards, Right, Adds;
    if trace == [] {
      NothingHeld(snapshot);
    } else {
      var front, last := trace[..|trace| - 1], trace[|trace| - 1];
      var (local, replies) := Run(snapshot, front);
      RunHolds(snapshot, front);
      RunCoherent(snapshot, front);
      StepRight(snapshot, Staged(front, replies), local, last);
      StagedNext(trace, replies, Step(local, last).1);
    }
  }

  lemma NothingHeld(snapshot: Data)
    ensures Holds(snapshot, Staged([], []), Fresh(snapshot))
  {
    assert Staged([], []) == [];
  }

  lemma StagedNext(trace: seq<Request>, replies: seq<Reply>, reply: Reply)
    requires |trace| == |replies| + 1
    ensures Staged(trace, replies + [reply]) == Staged(trace[..|trace| - 1], replies) + Adds(trace[|trace| - 1], reply)
  {
    hide Adds;
    assert (replies + [reply])[..|trace| - 1] == replies;
  }

  /** What is protected are the keys some request guards. */
  lemma {:induction false} RunGuards(snapshot: Data, trace: seq<Request>, key: Key)
    ensures key in Run(snapshot, trace).0.protected <==> exists i :: 0 <= i < |trace| && Guards(trace[i], key)
    decreases |trace|
  {
    hide Step, Guards;
    if trace != [] {
      var front, last := trace[..|trace| - 1], trace[|trace| - 1];
      RunGuards(snapshot, front, key);
      StepGuards(Run(snapshot, front).0, last);
      if i :| 0 <= i < |front| && Guards(front[i], key) { assert Guards(trace[i], key); }
      if i :| 0 <= i < |trace| && Guards(trace[i], key) && i != |front| { assert Guards(front[i], key); }
    }
  }

  /** Every reply of every transaction is right. */
  lemma {:induction false} RepliesRight(snapshot: Data, trace: seq<Request>, i: nat)
    requires i < |trace|
    ensures var replies := Run(snapshot, trace).1;
            |replies| == |trace| && Right(snapshot, Staged(trace[..i], replies[..i]), trace[i], replies[i])
    decreases |trace|
  {
    hide Holds, Step, Right;
    var front, last := trace[..|trace| - 1], trace[|trace| - 1];
    var (local, replies) := Run(snapshot, front);
    RunHolds(snapshot, front);
    var (next, reply) := Step(local, last);
    assert (replies + [reply])[..|front|] == replies;
    if i == |front| {
      RunCoherent(snapshot, front);
      StepRight(snapshot, Staged(front, replies), local, last);
      assert trace[..i] == front;
    } else {
      RepliesRight(snapshot, front, i);
      assert front[..i] == trace[..i] && (replies + [reply])[..i] == replies[..i];
    }
  }
}
