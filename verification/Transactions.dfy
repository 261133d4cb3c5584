/** One optimistic write transaction as a value: a private view over a snapshot, the
    staged writes, the protected keys and the admission budget. Requests and replies
    are kept as a trace so that a whole transaction can be run again on another
    snapshot and compared. */
module Transactions {
  import opened Wrappers
  import opened Bytes

  type Key = Bytes
  type Value = Bytes
  type Data = map<Key, Value>
  type Writes = map<Key, Option<Value>>

  const MAX_KEY_BYTES := 10_000
  const MAX_VALUE_BYTES := 100_000
  const MAX_MUTATIONS := 10_000
  const MAX_MUTATION_BYTES := 1_048_576

  datatype Mutation = Put(key: Key, value: Value) | Delete(key: Key) {
    function Written(): Option<Value> {
      if Put? then Some(value) else None
    }

    function ValueBytes(): nat {
      if Put? then |value| else 0
    }
  }

  datatype Request =
    | Get(key: Key)
    | GetForUpdate(key: Key)
    | BatchGetForUpdate(keys: seq<Key>)
    | Mutate(mutation: Mutation)
    | Insert(key: Key, value: Value)
    | BatchMutate(mutations: seq<Mutation>)

  datatype Reply =
    | Found(value: Option<Value>)
    | FoundAll(values: seq<Option<Value>>)
    | Done
    | Inserted
    | AlreadyExists
    | LimitExceeded

  /** The transaction's private state. */
  datatype Local = Local(view: Data, writes: Writes, protected: set<Key>, count: nat, bytes: nat)

  function Lookup(data: Data, key: Key): Option<Value> {
    if key in data then Some(data[key]) else None
  }

  function Assign(data: Data, key: Key, value: Option<Value>): Data {
    if value.Some? then data[key := value.value] else data - {key}
  }

  /** A snapshot overlaid with staged writes. */
  function Overlay(data: Data, writes: Writes): Data {
    map k | k in data.Keys + writes.Keys && (k in writes ==> writes[k].Some?) ::
      if k in writes then writes[k].value else data[k]
  }

  /** Applies one admitted point mutation to the view and the commit delta alike. */
  function ApplyPoint(local: Local, key: Key, value: Option<Value>): Local {
    local.(view := Assign(local.view, key, value), writes := local.writes[key := value])
  }

  predicate Admissible(local: Local, mutation: Mutation) {
    && |mutation.key| <= MAX_KEY_BYTES
    && mutation.ValueBytes() <= MAX_VALUE_BYTES
    && local.count != MAX_MUTATIONS
    && |mutation.key| + mutation.ValueBytes() <= MAX_MUTATION_BYTES - local.bytes
  }

  /** Validates admission before staging, so a rejected mutation changes nothing. */
  function Stage(local: Local, mutation: Mutation): (Local, Reply) {
    if Admissible(local, mutation) then
      var charged := local.(count := local.count + 1, bytes := local.bytes + |mutation.key| + mutation.ValueBytes());
      (ApplyPoint(charged, mutation.key, mutation.Written()), Done)
    else (local, LimitExceeded)
  }

  predicate BatchAdmissible(bytes: nat, mutations: seq<Mutation>)
    decreases |mutations|
  {
    mutations == [] ||
    var m := mutations[0];
    && |m.key| <= MAX_KEY_BYTES && m.ValueBytes() <= MAX_VALUE_BYTES
    && |m.key| + m.ValueBytes() <= MAX_MUTATION_BYTES - bytes
    && BatchAdmissible(bytes + |m.key| + m.ValueBytes(), mutations[1..])
  }

  function BatchBytes(mutations: seq<Mutation>): nat {
    if mutations == [] then 0 else |mutations[0].key| + mutations[0].ValueBytes() + BatchBytes(mutations[1..])
  }

  function ApplyAll(local: Local, mutations: seq<Mutation>): Local
    decreases |mutations|
  {
    if mutations == [] then local
    else ApplyAll(ApplyPoint(local, mutations[0].key, mutations[0].Written()), mutations[1..])
  }

  function LookupAll(data: Data, keys: seq<Key>): seq<Option<Value>> {
    seq(|keys|, i requires 0 <= i < |keys| => Lookup(data, keys[i]))
  }

  predicate KeysFit(keys: seq<Key>) {
    forall i :: 0 <= i < |keys| ==> |keys[i]| <= MAX_KEY_BYTES
  }

  lemma LookupNone(data: Data, keys: seq<Key>)
    ensures KeysFit(keys[..0]) && LookupAll(data, keys[..0]) == []
  {
  }

  lemma LookupStep(data: Data, keys: seq<Key>, i: nat)
    requires i < |keys|
    ensures LookupAll(data, keys[..i + 1]) == LookupAll(data, keys[..i]) + [Lookup(data, keys[i])]
    ensures KeysFit(keys[..i + 1]) <==> KeysFit(keys[..i]) && |keys[i]| <= MAX_KEY_BYTES
    ensures KeysFit(keys) ==> |keys[i]| <= MAX_KEY_BYTES
  {
    assert keys[..i + 1] == keys[..i] + [keys[i]];
    if KeysFit(keys[..i + 1]) {
      assert keys[..i + 1][i] == keys[i];
      forall j | 0 <= j < i ensures |keys[..i][j]| <= MAX_KEY_BYTES { assert keys[..i + 1][j] == keys[..i][j]; }
    }
  }

  /** What one request does to the transaction and what it answers. */
  function Step(local: Local, request: Request): (Local, Reply) {
    match request
    case Get(key) =>
      (local, if |key| <= MAX_KEY_BYTES then Found(Lookup(local.view, key)) else LimitExceeded)
    case GetForUpdate(key) =>
      if |key| <= MAX_KEY_BYTES
      then (local.(protected := local.protected + {key}), Found(Lookup(local.view, key)))
      else (local, LimitExceeded)
    case BatchGetForUpdate(keys) =>
      if KeysFit(keys)
      then (local.(protected := local.protected + set k | k in keys), FoundAll(LookupAll(local.view, keys)))
      else (local, LimitExceeded)
    case Mutate(mutation) => Stage(local, mutation)
    case Insert(key, value) =>
      if |value| > MAX_VALUE_BYTES || |key| > MAX_KEY_BYTES then (local, LimitExceeded)
      else
        var guarded := local.(protected := local.protected + {key});
        if key in local.view then (guarded, AlreadyExists)
        else
          var (staged, reply) := Stage(guarded, Put(key, value));
          (staged, if reply.Done? then Inserted else reply)
    case BatchMutate(mutations) =>
      if local.count + |mutations| <= MAX_MUTATIONS && BatchAdmissible(local.bytes, mutations)
      then
        var charged := local.(count := local.count + |mutations|, bytes := local.bytes + BatchBytes(mutations));
        (ApplyAll(charged, mutations), Done)
      else (local, LimitExceeded)
  }

  function Fresh(snapshot: Data): Local {
    Local(snapshot, map[], {}, 0, 0)
  }

  /** A whole transaction on a snapshot: its final state and every reply. */
  function Run(snapshot: Data, trace: seq<Request>): (Local, seq<Reply>)
    decreases |trace|
  {
    if trace == [] then (Fresh(snapshot), [])
    else
      var (local, replies) := Run(snapshot, trace[..|trace| - 1]);
      var (next, reply) := Step(local, trace[|trace| - 1]);
      (next, replies + [reply])
  }

  lemma RunSnoc(snapshot: Data, trace: seq<Request>, request: Request)
    ensures var (local, replies) := Run(snapshot, trace);
            var (next, reply) := Step(local, request);
            Run(snapshot, trace + [request]) == (next, replies + [reply])
  {
    assert (trace + [request])[..|trace|] == trace;
  }

  // ---------------------------------------------------------------- read your writes

  lemma OverlayNone(data: Data)
    ensures Overlay(data, map[]) == data
  {
  }

  lemma OverlayAssign(data: Data, writes: Writes, key: Key, value: Option<Value>)
    ensures Assign(Overlay(data, writes), key, value) == Overlay(data, writes[key := value])
  {
  }

  /** What a transaction sees of a key: its own staged write, or else its snapshot. */
  function Seen(snapshot: Data, writes: Writes, key: Key): Option<Value> {
    if key in writes then writes[key] else Lookup(snapshot, key)
  }

  lemma ViewSeen(snapshot: Data, writes: Writes, key: Key)
    ensures Lookup(Overlay(snapshot, writes), key) == Seen(snapshot, writes, key)
  {
  }

  lemma {:induction false} ApplyAllOverlay(snapshot: Data, local: Local, mutations: seq<Mutation>)
    requires local.view == Overlay(snapshot, local.writes)
    ensures var after := ApplyAll(local, mutations);
            && after.view == Overlay(snapshot, after.writes)
            && after.protected == local.protected && after.count == local.count && after.bytes == local.bytes
    decreases |mutations|
  {
    if mutations != [] {
      OverlayAssign(snapshot, local.writes, mutations[0].key, mutations[0].Written());
      ApplyAllOverlay(snapshot, ApplyPoint(local, mutations[0].key, mutations[0].Written()), mutations[1..]);
    }
  }

  lemma {:induction false} BatchBytesFit(bytes: nat, mutations: seq<Mutation>)
    requires bytes <= MAX_MUTATION_BYTES && BatchAdmissible(bytes, mutations)
    ensures bytes + BatchBytes(mutations) <= MAX_MUTATION_BYTES
    decreases |mutations|
  {
    if mutations != [] {
      BatchBytesFit(bytes + |mutations[0].key| + mutations[0].ValueBytes(), mutations[1..]);
    }
  }

  /** Budgets hold and the view is the snapshot overlaid with the staged writes. */
  ghost predicate Coherent(snapshot: Data, local: Local) {
    && local.view == Overlay(snapshot, local.writes)
    && local.count <= MAX_MUTATIONS && local.bytes <= MAX_MUTATION_BYTES
  }

  lemma StepCoherent(snapshot: Data, local: Local, request: Request)
    requires Coherent(snapshot, local)
    ensures Coherent(snapshot, Step(local, request).0)
    ensures local.protected <= Step(local, request).0.protected
  {
    match request
    case Mutate(m) =>
      OverlayAssign(snapshot, local.writes, m.key, m.Written());
    case Insert(key, value) =>
      OverlayAssign(snapshot, local.writes, key, Some(value));
    case BatchMutate(mutations) =>
      if local.count + |mutations| <= MAX_MUTATIONS && BatchAdmissible(local.bytes, mutations) {
        var charged := local.(count := local.count + |mutations|, bytes := local.bytes + BatchBytes(mutations));
        BatchBytesFit(local.bytes, mutations);
        ApplyAllOverlay(snapshot, charged, mutations);
      }
    case _ =>
  }

  /** Throughout any transaction, reads see the snapshot with its own writes on top. */
  lemma {:induction false} RunCoherent(snapshot: Data, trace: seq<Request>)
    ensures Coherent(snapshot, Run(snapshot, trace).0)
    ensures |Run(snapshot, trace).1| == |trace|
    decreases |trace|
  {
    if trace == [] {
      assert Overlay(snapshot, map[]) == snapshot;
    } else {
      RunCoherent(snapshot, trace[..|trace| - 1]);
      StepCoherent(snapshot, Run(snapshot, trace[..|trace| - 1]).0, trace[|trace| - 1]);
    }
  }

  // ---------------------------------------------------------------- running again elsewhere

  /** The snapshots agree on the given keys. */
  ghost predicate Agree(a: Data, b: Data, keys: set<Key>) {
    forall k :: k in keys ==> Lookup(a, k) == Lookup(b, k)
  }

  /** Two transactions differ at most in what they could see of unprotected keys. */
  ghost predicate SameEffect(a: Local, b: Local) {
    a.writes == b.writes && a.protected == b.protected && a.count == b.count && a.bytes == b.bytes
  }

  /** Unprotected reads are the only replies that may depend on unprotected keys. */
  predicate Protected(request: Request) {
    !request.Get?
  }

  lemma OverlayLookup(a: Data, b: Data, writes: Writes, key: Key)
    requires Lookup(a, key) == Lookup(b, key)
    ensures Lookup(Overlay(a, writes), key) == Lookup(Overlay(b, writes), key)
  {
  }

  lemma {:induction false} ApplyAllSame(a: Local, b: Local, mutations: seq<Mutation>)
    requires SameEffect(a, b)
    ensures SameEffect(ApplyAll(a, mutations), ApplyAll(b, mutations))
    decreases |mutations|
  {
    if mutations != [] {
      var m := mutations[0];
      ApplyAllSame(ApplyPoint(a, m.key, m.Written()), ApplyPoint(b, m.key, m.Written()), mutations[1..]);
    }
  }

  /** One request behaves alike on snapshots that agree on what it protects. */
  lemma StepAgree(a: Data, b: Data, la: Local, lb: Local, request: Request)
    requires Coherent(a, la) && Coherent(b, lb) && SameEffect(la, lb)
    requires Agree(a, b, Step(la, request).0.protected)
    ensures SameEffect(Step(la, request).0, Step(lb, request).0)
    ensures Protected(request) ==> Step(la, request).1 == Step(lb, request).1
  {
    hide Overlay, ApplyAll, BatchAdmissible, BatchBytes;
    match request
    case Get(key) =>
    case GetForUpdate(key) =>
      if |key| <= MAX_KEY_BYTES { OverlayLookup(a, b, la.writes, key); }
    case BatchGetForUpdate(keys) =>
      if KeysFit(keys) {
        forall i | 0 <= i < |keys| ensures Lookup(la.view, keys[i]) == Lookup(lb.view, keys[i]) {
          OverlayLookup(a, b, la.writes, keys[i]);
        }
      }
    case Mutate(m) =>
    case Insert(key, value) =>
      if |value| <= MAX_VALUE_BYTES && |key| <= MAX_KEY_BYTES {
        assert key in Step(la, request).0.protected;
        OverlayLookup(a, b, la.writes, key);
      }
    case BatchMutate(mutations) =>
      if la.count + |mutations| <= MAX_MUTATIONS && BatchAdmissible(la.bytes, mutations) {
        var ca := la.(count := la.count + |mutations|, bytes := la.bytes + BatchBytes(mutations));
        var cb := lb.(count := lb.count + |mutations|, bytes := lb.bytes + BatchBytes(mutations));
        ApplyAllSame(ca, cb, mutations);
      }
  }

  /** A transaction run again on a snapshot that agrees on everything it protected
      stages the same writes and gets the same protected replies. */
  lemma {:induction false} RunAgree(a: Data, b: Data, trace: seq<Request>)
    requires Agree(a, b, Run(a, trace).0.protected)
    ensures SameEffect(Run(a, trace).0, Run(b, trace).0)
    ensures |Run(a, trace).1| == |Run(b, trace).1| == |trace|
    ensures forall i :: 0 <= i < |trace| && Protected(trace[i]) ==> Run(a, trace).1[i] == Run(b, trace).1[i]
    decreases |trace|
  {
    if trace != [] {
      var front, last := trace[..|trace| - 1], trace[|trace| - 1];
      var la, lb := Run(a, front).0, Run(b, front).0;
      RunCoherent(a, front);
      RunCoherent(b, front);
      StepCoherent(a, la, last);
      RunAgree(a, b, front);
      StepAgree(a, b, la, lb, last);
    }
  }
}
