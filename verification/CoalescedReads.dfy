/** Snapshot batch reads that join neighbouring keys into one range request. */
module CoalescedReads {
  import opened Bytes
  import opened Wrappers

  const MAX_KEY_BYTES := 10_000
  const MAX_CONCURRENT_READS := 1_024

  /** What a plain point read returns. */
  function Lookup(store: map<Bytes, Bytes>, key: Bytes): Option<Bytes> {
    if key in store then Some(store[key]) else None
  }

  // ---------------------------------------------------------------- range requests

  datatype Row = Row(key: Bytes, value: Bytes)

  datatype Reply = Reply(rows: seq<Row>, more: bool)

  predicate InSpan(key: Bytes, low: Bytes, high: Bytes) {
    !Less(key, low) && Less(key, high)
  }

  /** A range reply: at most `limit` stored rows of the range in order, none skipped
      before the last one given, and all of them unless `more` says otherwise. */
  ghost predicate Honest(store: map<Bytes, Bytes>, low: Bytes, high: Bytes, limit: nat, reply: Reply) {
    && |reply.rows| <= limit
    && (forall i :: 0 <= i < |reply.rows| ==>
          && reply.rows[i].key in store && store[reply.rows[i].key] == reply.rows[i].value
          && InSpan(reply.rows[i].key, low, high))
    && (forall i, j :: 0 <= i < j < |reply.rows| ==> Less(reply.rows[i].key, reply.rows[j].key))
    && (forall key :: key in store && InSpan(key, low, high) && !Listed(reply.rows, key) ==>
          reply.more && forall i :: 0 <= i < |reply.rows| ==> Less(reply.rows[i].key, key))
  }

  ghost predicate Listed(rows: seq<Row>, key: Bytes) {
    exists i :: 0 <= i < |rows| && rows[i].key == key
  }

  /** One native transaction at its snapshot. Range requests are answered honestly but
      otherwise freely, and not necessarily the same way twice. */
  class Transaction {
    const store: map<Bytes, Bytes>
    const answer: (nat, Bytes, Bytes) -> Reply
    var requests: nat
    var points: nat

    ghost predicate Valid() {
      forall n, low, high :: Honest(store, low, high, 2, answer(n, low, high))
    }

    constructor (store: map<Bytes, Bytes>, answer: (nat, Bytes, Bytes) -> Reply)
      requires forall n, low, high :: Honest(store, low, high, 2, answer(n, low, high))
      ensures Valid() && this.store == store && requests == points == 0
    {
      this.store, this.answer, requests, points := store, answer, 0, 0;
    }

    method Get(key: Bytes) returns (value: Option<Bytes>)
      requires |key| <= MAX_KEY_BYTES
      modifies `points
      ensures value == Lookup(store, key) && points == old(points) + 1
    {
      value := if key in store then Some(store[key]) else None;
      points := points + 1;
    }

    method GetRange(low: Bytes, high: Bytes) returns (reply: Reply)
      requires Valid() && |low| <= MAX_KEY_BYTES && |high| <= MAX_KEY_BYTES
      modifies `requests
      ensures Honest(store, low, high, 2, reply) && requests == old(requests) + 1
    {
      reply := answer(requests, low, high);
      requests := requests + 1;
    }
  }

  // ---------------------------------------------------------------- neighbouring keys

  /** Equal but for the last byte, which is one more in the second key. */
  predicate Consecutive(first: Bytes, second: Bytes) {
    && first != [] && second != []
    && |second| < MAX_KEY_BYTES
    && first[|first| - 1] < 255 && first[|first| - 1] + 1 == second[|second| - 1]
    && first[..|first| - 1] == second[..|second| - 1]
  }

  lemma {:induction false} LessThanExtended(key: Bytes)
    ensures Less(key, key + [0])
    decreases |key|
  {
    if key != [] {
      assert (key + [0])[1..] == key[1..] + [0];
      LessThanExtended(key[1..]);
    }
  }

  /** The range from the first key to just past the second holds both. */
  lemma PairInSpan(first: Bytes, second: Bytes)
    requires Consecutive(first, second)
    ensures first != second
    ensures InSpan(first, first, second + [0]) && InSpan(second, first, second + [0])
    ensures |second + [0]| <= MAX_KEY_BYTES
  {
    var prefix := first[..|first| - 1];
    var left, right := [first[|first| - 1]], [second[|second| - 1]];
    assert first == prefix + left && second == prefix + right;
    LessCommonPrefix(prefix, left, right);
    LessIrreflexive(first);
    LessThanExtended(second);
    LessTransitive(first, second, second + [0]);
    if Less(second, first) {
      LessTransitive(first, second, first);
    }
  }

  /** Nothing else lies in the pair's range but keys that extend the first one. */
  lemma {:induction false} PairSpanTight(first: Bytes, second: Bytes, key: Bytes)
    requires Consecutive(first, second) && InSpan(key, first, second + [0])
    ensures key == second || first <= key
    decreases |first|
  {
    assert key != [];
    if |first| == 1 {
      assert first[..0] == second[..0] == [];
      assert key == [key[0]] + key[1..] && second == [second[0]] && first == [first[0]];
      assert (second + [0])[1..] == [0];
      if key[0] == second[0] {
        BelowZero(key[1..]);
      }
    } else {
      assert first[..|first| - 1] == second[..|second| - 1];
      assert first[0] == first[..|first| - 1][0] && second[0] == second[..|second| - 1][0];
      assert first[0] == second[0] == key[0];
      PairTails(first, second);
      assert (second + [0])[1..] == second[1..] + [0];
      PairSpanTight(first[1..], second[1..], key[1..]);
      assert key == [key[0]] + key[1..] && second == [second[0]] + second[1..] && first == [first[0]] + first[1..];
    }
  }

  lemma BelowZero(key: Bytes)
    requires Less(key, [0])
    ensures key == []
  {
    var zero: Bytes := [0];
    assert zero[1..] == [];
  }

  lemma PairTails(first: Bytes, second: Bytes)
    requires Consecutive(first, second) && |first| > 1
    ensures Consecutive(first[1..], second[1..])
  {
    assert |first| == |second|;
    assert first[1..][..|first| - 2] == first[..|first| - 1][1..];
    assert second[1..][..|first| - 2] == second[..|first| - 1][1..];
  }

  // ---------------------------------------------------------------- pair reads

  /** A target found in a reply is right, and one not found in a complete reply is absent. */
  lemma PairRow(store: map<Bytes, Bytes>, low: Bytes, high: Bytes, reply: Reply, key: Bytes)
    requires Honest(store, low, high, 2, reply) && InSpan(key, low, high)
    ensures forall i :: 0 <= i < |reply.rows| && reply.rows[i].key == key ==> Lookup(store, key) == Some(reply.rows[i].value)
    ensures !Listed(reply.rows, key) && !reply.more ==> Lookup(store, key) == None
  {
  }

  /** No stored key extends this one. */
  ghost predicate Alone(store: map<Bytes, Bytes>, key: Bytes) {
    forall k :: k in store && key <= k ==> k == key
  }

  /** Of a range none of whose first key's extensions are stored, two rows are the pair. */
  lemma AlonePair(store: map<Bytes, Bytes>, first: Bytes, second: Bytes, reply: Reply)
    requires Consecutive(first, second) && Alone(store, first)
    requires Honest(store, first, second + [0], 2, reply) && |reply.rows| == 2
    ensures Listed(reply.rows, first) && Listed(reply.rows, second)
  {
    PairSpanTight(first, second, reply.rows[0].key);
    PairSpanTight(first, second, reply.rows[1].key);
    LessIrreflexive(reply.rows[0].key);
    assert reply.rows[0].key != reply.rows[1].key;
  }

  /** Reads two neighbouring keys, normally with one request. */
  method ReadSnapshotPair(txn: Transaction, first: Bytes, second: Bytes)
    returns (one: Option<Bytes>, two: Option<Bytes>, ghost reply: Reply)
    requires txn.Valid() && Consecutive(first, second) && |first| <= MAX_KEY_BYTES
    modifies txn
    ensures one == Lookup(txn.store, first) && two == Lookup(txn.store, second)
    ensures txn.requests == old(txn.requests) + 1
    ensures txn.points <= old(txn.points) + 2
    ensures !reply.more || (|reply.rows| == 2 && Alone(txn.store, first)) ==> txn.points == old(txn.points)
  {
    hide Less, Consecutive;
    PairInSpan(first, second);
    var end := second + [0];
    var page := txn.GetRange(first, end);
    reply := page;
    one, two := None, None;
    for i := 0 to |page.rows|
      invariant one.Some? <==> Listed(reply.rows[..i], first)
      invariant two.Some? <==> Listed(reply.rows[..i], second)
      invariant one.Some? ==> one == Lookup(txn.store, first)
      invariant two.Some? ==> two == Lookup(txn.store, second)
      invariant txn.requests == old(txn.requests) + 1 && txn.points == old(txn.points)
      modifies {}
    {
      var row := page.rows[i];
      ListedNext(reply.rows, i, first);
      ListedNext(reply.rows, i, second);
      if row.key == first {
        one := Some(row.value);
      } else if row.key == second {
        two := Some(row.value);
      }
    }
    assert reply.rows[..|reply.rows|] == reply.rows;
    PairRow(txn.store, first, end, reply, first);
    PairRow(txn.store, first, end, reply, second);
    if |reply.rows| == 2 && Alone(txn.store, first) { AlonePair(txn.store, first, second, reply); }
    if page.more {
      if one.None? {
        one := txn.Get(first);
      }
      if two.None? {
        two := txn.Get(second);
      }
    }
  }

  lemma ListedNext(rows: seq<Row>, i: nat, key: Bytes)
    requires i < |rows|
    ensures Listed(rows[..i + 1], key) <==> Listed(rows[..i], key) || rows[i].key == key
  {
    var before, after := rows[..i], rows[..i + 1];
    if Listed(before, key) {
      var j :| 0 <= j < |before| && before[j].key == key;
      assert after[j].key == key;
    }
    if rows[i].key == key {
      assert after[i].key == key;
    }
    if Listed(after, key) {
      var j :| 0 <= j < |after| && after[j].key == key;
      assert j < i ==> before[j].key == key;
    }
  }

  // ---------------------------------------------------------------- batches

  /** The plain reads a batch stands for. */
  function Lookups(store: map<Bytes, Bytes>, prefix: Bytes, keys: seq<Bytes>): (r: seq<Option<Bytes>>)
    ensures |r| == |keys|
    ensures forall i :: 0 <= i < |keys| ==> r[i] == Lookup(store, prefix + keys[i])
  {
    if keys == [] then []
    else Lookups(store, prefix, keys[..|keys| - 1]) + [Lookup(store, prefix + keys[|keys| - 1])]
  }

  /** The same, of keys that already carry the prefix. */
  ghost predicate Answers(store: map<Bytes, Bytes>, keys: seq<Bytes>, values: seq<Option<Bytes>>) {
    |values| == |keys| && forall i :: 0 <= i < |keys| ==> values[i] == Lookup(store, keys[i])
  }

  predicate Fits(prefix: Bytes, key: Bytes) {
    |prefix| + |key| <= MAX_KEY_BYTES
  }

  function Prefixed(prefix: Bytes, keys: seq<Bytes>): (r: seq<Bytes>)
    ensures |r| == |keys| && forall i :: 0 <= i < |keys| ==> r[i] == prefix + keys[i]
  {
    seq(|keys|, i requires 0 <= i < |keys| => prefix + keys[i])
  }

  method EncodeKey(prefix: Bytes, key: Bytes) returns (physical: Option<Bytes>)
    requires |prefix| <= MAX_KEY_BYTES
    ensures physical == if Fits(prefix, key) then Some(prefix + key) else None
  {
    if |key| > MAX_KEY_BYTES - |prefix| {
      return None;
    }
    return Some(prefix + key);
  }

  /** Prefixes one chunk of keys, refusing it at the first key too long. */
  method EncodeChunk(prefix: Bytes, keys: seq<Bytes>) returns (physical: Option<seq<Bytes>>)
    requires |prefix| <= MAX_KEY_BYTES
    ensures physical.Some? <==> forall i :: 0 <= i < |keys| ==> Fits(prefix, keys[i])
    ensures physical.Some? ==> physical.value == Prefixed(prefix, keys) && forall i :: 0 <= i < |keys| ==> |physical.value[i]| <= MAX_KEY_BYTES
  {
    var out: seq<Bytes> := [];
    for i := 0 to |keys|
      invariant |out| == i && forall j :: 0 <= j < i ==> Fits(prefix, keys[j]) && out[j] == prefix + keys[j]
    {
      var key := EncodeKey(prefix, keys[i]);
      if key.None? {
        return None;
      }
      out := out + [key.value];
    }
    return Some(out);
  }

  method AnyConsecutive(keys: seq<Bytes>) returns (any: bool)
    ensures any <==> exists i :: 0 <= i < |keys| - 1 && Consecutive(keys[i], keys[i + 1])
  {
    var i := 0;
    while i + 1 < |keys|
      invariant i <= |keys| && forall j :: 0 <= j < i && j + 1 < |keys| ==> !Consecutive(keys[j], keys[j + 1])
    {
      if Consecutive(keys[i], keys[i + 1]) {
        return true;
      }
      i := i + 1;
    }
    return false;
  }

  /** Neighbouring pairs from the front on, each key in at most one. */
  function Pairs(keys: seq<Bytes>): nat {
    if |keys| < 2 then 0
    else if Consecutive(keys[0], keys[1]) then 1 + Pairs(keys[2..])
    else Pairs(keys[1..])
  }

  /** There is a pair to read exactly when some key neighbours the next. */
  lemma {:induction false} PairsExact(keys: seq<Bytes>)
    ensures Pairs(keys) > 0 <==> exists i :: 0 <= i < |keys| - 1 && Consecutive(keys[i], keys[i + 1])
    ensures 2 * Pairs(keys) <= |keys|
    decreases |keys|
  {
    hide Consecutive;
    if |keys| >= 2 {
      if Consecutive(keys[0], keys[1]) {
        PairsExact(keys[2..]);
      } else {
        PairsExact(keys[1..]);
        if i :| 0 <= i < |keys| - 1 && Consecutive(keys[i], keys[i + 1]) {
          assert Consecutive(keys[1..][i - 1], keys[1..][i]);
        }
        if i :| 0 <= i < |keys[1..]| - 1 && Consecutive(keys[1..][i], keys[1..][i + 1]) {
          assert Consecutive(keys[i + 1], keys[i + 2]);
        }
      }
    }
  }

  method ReadPoints(txn: Transaction, keys: seq<Bytes>) returns (values: seq<Option<Bytes>>)
    requires forall i :: 0 <= i < |keys| ==> |keys[i]| <= MAX_KEY_BYTES
    modifies txn`points
    ensures Answers(txn.store, keys, values) && txn.points == old(txn.points) + |keys|
  {
    values := [];
    for i := 0 to |keys|
      invariant txn.points == old(txn.points) + i
      invariant |values| == i && forall j :: 0 <= j < i ==> values[j] == Lookup(txn.store, keys[j])
    {
      var value := txn.Get(keys[i]);
      values := values + [value];
    }
  }

  /** Cuts the keys into neighbouring pairs and single keys, and reads each part. */
  method ReadParts(txn: Transaction, keys: seq<Bytes>) returns (values: seq<Option<Bytes>>)
    requires txn.Valid() && forall i :: 0 <= i < |keys| ==> |keys[i]| <= MAX_KEY_BYTES
    modifies txn
    ensures Answers(txn.store, keys, values) && txn.requests == old(txn.requests) + Pairs(keys)
  {
    hide Honest, Consecutive;
    values := [];
    var remaining := keys;
    while remaining != []
      invariant |values| + |remaining| == |keys| && remaining == keys[|values|..]
      invariant forall j :: 0 <= j < |values| ==> values[j] == Lookup(txn.store, keys[j])
      invariant txn.requests + Pairs(remaining) == old(txn.requests) + Pairs(keys)
      decreases |remaining|
    {
      if |remaining| > 1 && Consecutive(remaining[0], remaining[1]) {
        var one, two, _ := ReadSnapshotPair(txn, remaining[0], remaining[1]);
        values := values + [one, two];
        remaining := remaining[2..];
      } else {
        var value := txn.Get(remaining[0]);
        values := values + [value];
        remaining := remaining[1..];
      }
    }
  }

  /** Reads one chunk, by pairs only when that helps. */
  method ReadChunk(txn: Transaction, keys: seq<Bytes>, snapshot: bool) returns (values: seq<Option<Bytes>>)
    requires txn.Valid() && forall i :: 0 <= i < |keys| ==> |keys[i]| <= MAX_KEY_BYTES
    modifies txn
    ensures Answers(txn.store, keys, values)
    ensures txn.requests == old(txn.requests) + if snapshot then Pairs(keys) else 0
  {
    hide Honest, Pairs, Consecutive, Answers;
    PairsExact(keys);
    var any := AnyConsecutive(keys);
    if !snapshot || !any {
      values := ReadPoints(txn, keys);
    } else {
      values := ReadParts(txn, keys);
    }
  }

  /** The pairs of a batch, chunk by chunk. */
  function ChunkPairs(prefix: Bytes, keys: seq<Bytes>): nat {
    if keys == [] then 0
    else
      var n := if MAX_CONCURRENT_READS < |keys| then MAX_CONCURRENT_READS else |keys|;
      Pairs(Prefixed(prefix, keys[..n])) + ChunkPairs(prefix, keys[n..])
  }

  lemma NextChunk(prefix: Bytes, keys: seq<Bytes>, at: nat, end: nat)
    requires at < |keys| && end == if at + MAX_CONCURRENT_READS < |keys| then at + MAX_CONCURRENT_READS else |keys|
    ensures ChunkPairs(prefix, keys[at..]) == Pairs(Prefixed(prefix, keys[at..end])) + ChunkPairs(prefix, keys[end..])
  {
    hide Pairs;
    assert keys[at..][..end - at] == keys[at..end] && keys[at..][end - at..] == keys[end..];
  }

  lemma ChunkAnswered(store: map<Bytes, Bytes>, prefix: Bytes, keys: seq<Bytes>, at: nat, end: nat,
                      values: seq<Option<Bytes>>, part: seq<Option<Bytes>>)
    requires at <= end <= |keys| && Answers(store, Prefixed(prefix, keys[..at]), values)
    requires Answers(store, Prefixed(prefix, keys[at..end]), part)
    ensures Answers(store, Prefixed(prefix, keys[..end]), values + part)
  {
    hide Lookup, Answers;
    assert keys[..end] == keys[..at] + keys[at..end];
    PrefixedJoin(prefix, keys[..at], keys[at..end]);
    AnswersJoin(store, Prefixed(prefix, keys[..at]), values, Prefixed(prefix, keys[at..end]), part);
  }

  lemma PrefixedJoin(prefix: Bytes, one: seq<Bytes>, two: seq<Bytes>)
    ensures Prefixed(prefix, one + two) == Prefixed(prefix, one) + Prefixed(prefix, two)
  {
  }

  lemma AnswersJoin(store: map<Bytes, Bytes>, one: seq<Bytes>, first: seq<Option<Bytes>>, two: seq<Bytes>, second: seq<Option<Bytes>>)
    requires Answers(store, one, first) && Answers(store, two, second)
    ensures Answers(store, one + two, first + second)
  {
    hide Lookup;
  }

  lemma NoChunk(prefix: Bytes, keys: seq<Bytes>)
    ensures ChunkPairs(prefix, keys[|keys|..]) == 0 && keys[0..] == keys
  {
  }

  /** Reads a batch: exactly the per-key reads, in order, or nothing if some key is too
      long. A snapshot read makes one range request for each neighbouring pair of a chunk;
      reads for update make none. */
  method BatchGet(txn: Transaction, prefix: Bytes, keys: seq<Bytes>, snapshot: bool) returns (r: Option<seq<Option<Bytes>>>)
    requires txn.Valid() && |prefix| <= MAX_KEY_BYTES
    modifies txn
    ensures r.Some? <==> forall i :: 0 <= i < |keys| ==> Fits(prefix, keys[i])
    ensures r.Some? ==> r.value == Lookups(txn.store, prefix, keys)
    ensures !snapshot ==> txn.requests == old(txn.requests)
    ensures snapshot && r.Some? ==> txn.requests == old(txn.requests) + ChunkPairs(prefix, keys)
  {
    hide Honest, Pairs, Consecutive, ChunkPairs, Fits, Lookup;
    var values: seq<Option<Bytes>> := [];
    var at := 0;
    NoChunk(prefix, keys);
    while at < |keys|
      invariant at <= |keys| && |values| == at
      invariant (forall i :: 0 <= i < at ==> Fits(prefix, keys[i])) && Answers(txn.store, Prefixed(prefix, keys[..at]), values)
      invariant !snapshot ==> txn.requests == old(txn.requests)
      invariant snapshot ==> txn.requests + ChunkPairs(prefix, keys[at..]) == old(txn.requests) + ChunkPairs(prefix, keys)
    {
      var end := if at + MAX_CONCURRENT_READS < |keys| then at + MAX_CONCURRENT_READS else |keys|;
      var chunk := EncodeChunk(prefix, keys[at..end]);
      if chunk.None? {
        ghost var bad :| 0 <= bad < end - at && !Fits(prefix, keys[at..end][bad]);
        assert keys[at + bad] == keys[at..end][bad];
        return None;
      }
      assert forall i :: at <= i < end ==> keys[i] == keys[at..end][i - at];
      NextChunk(prefix, keys, at, end);
      var part := ReadChunk(txn, chunk.value, snapshot);
      ChunkAnswered(txn.store, prefix, keys, at, end, values, part);
      values := values + part;
      at := end;
    }
    NoChunk(prefix, keys);
    assert keys[..|keys|] == keys;
    assert values == Lookups(txn.store, prefix, keys);
    return Some(values);
  }
}
