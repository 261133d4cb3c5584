/** The canonical byte form of a partition plan. */
module PlanCodec {
  import opened Bytes
  import opened Wrappers

  /** A single-precision float as its bit pattern. */
  type Bits = b: nat | b <= U32_MAX

  const NEGATIVE_ZERO: Bits := 0x8000_0000

  /** Neither infinite nor not-a-number: the exponent bits are not all ones. */
  predicate Finite(bits: Bits) {
    bits / 0x80_0000 % 0x100 != 0xFF
  }

  /** Comparing equal to zero. */
  predicate IsZero(bits: Bits) {
    bits == 0 || bits == NEGATIVE_ZERO
  }

  function Normal(bits: Bits): Bits {
    if IsZero(bits) then 0 else bits
  }

  datatype Plan = Plan(key: nat, level: nat, centroid: seq<Bits>, entries: seq<Bytes>)

  /** What decoding takes from the index configuration. */
  datatype Shape = Shape(dimension: nat, leafEntries: nat, internalEntries: nat)

  function MaxEntries(shape: Shape, level: nat): nat {
    if level == 1 then shape.leafEntries else shape.internalEntries
  }

  // ---------------------------------------------------------------- well-formed plans

  predicate EntryOk(entry: Bytes, level: nat) {
    && 0 < |entry| <= MAX_RECORD_ID_BYTES
    && (level > 1 ==> |entry| == 8 && entry != [0, 0, 0, 0, 0, 0, 0, 0])
  }

  /** Entries of the level's kind, strictly increasing and all after `last`. */
  ghost predicate EntriesOk(entries: seq<Bytes>, level: nat, last: Option<Bytes>) {
    && (forall i :: 0 <= i < |entries| ==> EntryOk(entries[i], level))
    && (forall i, j :: 0 <= i < j < |entries| ==> Less(entries[i], entries[j]))
    && (last.Some? ==> forall i :: 0 <= i < |entries| ==> Less(last.value, entries[i]))
  }

  ghost predicate WellFormed(plan: Plan, shape: Shape) {
    && 0 < plan.key <= U64_MAX
    && 0 < plan.level <= U32_MAX
    && 0 < |plan.entries| <= MaxEntries(shape, plan.level)
    && |plan.entries| <= U32_MAX
    && |plan.centroid| == shape.dimension
    && (forall i :: 0 <= i < |plan.centroid| ==> Finite(plan.centroid[i]))
    && EntriesOk(plan.entries, plan.level, None)
  }

  /** Well formed, with no negative zero. */
  ghost predicate Canonical(plan: Plan, shape: Shape) {
    WellFormed(plan, shape) && forall i :: 0 <= i < |plan.centroid| ==> plan.centroid[i] != NEGATIVE_ZERO
  }

  function Normalized(plan: Plan): Plan {
    plan.(centroid := seq(|plan.centroid|, i requires 0 <= i < |plan.centroid| => Normal(plan.centroid[i])))
  }

  lemma NormalizedCanonical(plan: Plan, shape: Shape)
    requires WellFormed(plan, shape)
    ensures Canonical(Normalized(plan), shape)
    ensures Canonical(plan, shape) ==> Normalized(plan) == plan
  {
    assert forall i :: 0 <= i < |plan.centroid| ==> Finite(Normal(plan.centroid[i]));
  }

  // ---------------------------------------------------------------- encoding

  function EncodedCentroid(centroid: seq<Bits>): (r: Bytes)
    ensures |r| == 4 * |centroid|
  {
    if centroid == [] then []
    else EncodedCentroid(centroid[..|centroid| - 1]) + BigEndian(Normal(centroid[|centroid| - 1]), 4)
  }

  function EncodedEntry(entry: Bytes): Bytes {
    BigEndian(|entry|, 2) + entry
  }

  function EncodedEntries(entries: seq<Bytes>): Bytes {
    if entries == [] then [] else EncodedEntry(entries[0]) + EncodedEntries(entries[1..])
  }

  function Encoded(plan: Plan): Bytes {
    BigEndian(plan.key, 8) + BigEndian(plan.level, 4) + BigEndian(|plan.entries|, 4)
    + EncodedCentroid(plan.centroid) + EncodedEntries(plan.entries)
  }

  lemma {:induction false} EncodedEntriesAppend(entries: seq<Bytes>, entry: Bytes)
    ensures EncodedEntries(entries + [entry]) == EncodedEntries(entries) + EncodedEntry(entry)
    decreases |entries|
  {
    if entries == [] {
      assert entries + [entry] == [entry];
      assert EncodedEntries([entry]) == EncodedEntry(entry) + EncodedEntries([]);
    } else {
      assert (entries + [entry])[1..] == entries[1..] + [entry];
      EncodedEntriesAppend(entries[1..], entry);
    }
  }

  lemma NothingEncoded()
    ensures EncodedCentroid([]) == [] && EncodedEntries([]) == []
  {
  }

  /** Appends a plan's canonical form. */
  method Encode(plan: Plan, start: Bytes) returns (bytes: Bytes)
    ensures bytes == start + Encoded(plan)
  {
    hide BigEndian, EncodedCentroid, EncodedEntries;
    assert EncodedCentroid([]) == [] && EncodedEntries([]) == [] by { NothingEncoded(); }
    bytes := start + BigEndian(plan.key, 8);
    bytes := bytes + BigEndian(plan.level, 4);
    bytes := bytes + BigEndian(|plan.entries|, 4);
    ghost var header := bytes;
    for i := 0 to |plan.centroid|
      invariant bytes == header + EncodedCentroid(plan.centroid[..i])
    {
      var component := plan.centroid[i];
      bytes := bytes + BigEndian(if IsZero(component) then 0 else component, 4);
      EncodedNext(plan.centroid[..i], component);
      assert plan.centroid[..i + 1] == plan.centroid[..i] + [component];
    }
    assert plan.centroid[..|plan.centroid|] == plan.centroid;
    ghost var body := bytes;
    for i := 0 to |plan.entries|
      invariant bytes == body + EncodedEntries(plan.entries[..i])
    {
      EncodedEntriesAppend(plan.entries[..i], plan.entries[i]);
      assert plan.entries[..i + 1] == plan.entries[..i] + [plan.entries[i]];
      bytes := bytes + BigEndian(|plan.entries[i]|, 2);
      bytes := bytes + plan.entries[i];
    }
    assert plan.entries[..|plan.entries|] == plan.entries;
  }

  // ---------------------------------------------------------------- decoding

  /** The entry at the front of a body, if it is acceptable after `last`. */
  function FirstEntry(bytes: Bytes, level: nat, last: Option<Bytes>): (r: Option<Bytes>)
    ensures r.Some? ==> 2 + |r.value| <= |bytes| && 0 < |r.value|
  {
    if |bytes| < 2 then None
    else
      var length := FromBigEndian(bytes[..2]);
      if length == 0 || length > MAX_RECORD_ID_BYTES || length > |bytes| - 2 || (level > 1 && length != 8) then None
      else
        var entry := bytes[2..2 + length];
        if (last.Some? && !Less(last.value, entry)) || (level > 1 && entry == [0, 0, 0, 0, 0, 0, 0, 0]) then None
        else Some(entry)
  }

  function DecodedEntries(bytes: Bytes, count: nat, level: nat, last: Option<Bytes>): Option<seq<Bytes>> {
    if count == 0 then if bytes == [] then Some([]) else None
    else
      var entry := FirstEntry(bytes, level, last);
      if entry.None? then None
      else
        var rest := DecodedEntries(bytes[2 + |entry.value|..], count - 1, level, entry);
        if rest.None? then None else Some([entry.value] + rest.value)
  }

  /** Exactly the bodies of acceptable entries decode, and to those entries. */
  lemma {:induction false} EntriesRoundTrip(entries: seq<Bytes>, level: nat, last: Option<Bytes>)
    requires EntriesOk(entries, level, last)
    ensures DecodedEntries(EncodedEntries(entries), |entries|, level, last) == Some(entries)
    decreases |entries|
  {
    if entries != [] {
      var first, others := entries[0], entries[1..];
      var bytes, rest := EncodedEntries(entries), EncodedEntries(others);
      assert bytes == EncodedEntry(first) + rest;
      FirstRoundTrip(first, rest, level, last);
      assert EntriesOk(others, level, Some(first));
      EntriesRoundTrip(others, level, Some(first));
      assert bytes[2 + |first|..] == rest;
      hide FirstEntry, EncodedEntry, EncodedEntries, EntriesOk;
      assert [first] + others == entries;
    }
  }

  lemma FirstRoundTrip(entry: Bytes, rest: Bytes, level: nat, last: Option<Bytes>)
    requires EntryOk(entry, level) && (last.Some? ==> Less(last.value, entry))
    ensures FirstEntry(EncodedEntry(entry) + rest, level, last) == Some(entry)
  {
    Spans();
    BigEndianRoundTrip(|entry|, 2);
    var bytes := EncodedEntry(entry) + rest;
    assert bytes[..2] == BigEndian(|entry|, 2);
    assert bytes[2..2 + |entry|] == entry;
  }

  lemma {:induction false} EntriesReencode(bytes: Bytes, count: nat, level: nat, last: Option<Bytes>)
    requires DecodedEntries(bytes, count, level, last).Some?
    ensures var entries := DecodedEntries(bytes, count, level, last).value;
            && |entries| == count && EncodedEntries(entries) == bytes && EntriesOk(entries, level, last)
            && 3 * count <= |bytes|
    decreases count
  {
    if count > 0 {
      hide FirstEntry, EncodedEntry, EncodedEntries, EntriesOk, EntryOk, Less, DecodedEntries;
      var entry, tail, rest := DecodedFirst(bytes, count, level, last);
      EntriesReencode(tail, count - 1, level, Some(entry));
      FirstReencode(bytes, level, last);
      IncreasingFrom(entry, rest, level, last);
      EncodedFirst(entry, rest);
      assert bytes == bytes[..2 + |entry|] + tail;
    } else {
      NothingEncoded();
    }
  }

  lemma DecodedFirst(bytes: Bytes, count: nat, level: nat, last: Option<Bytes>) returns (entry: Bytes, tail: Bytes, rest: seq<Bytes>)
    requires count > 0 && DecodedEntries(bytes, count, level, last).Some?
    ensures FirstEntry(bytes, level, last) == Some(entry) && 2 + |entry| <= |bytes| && tail == bytes[2 + |entry|..]
    ensures DecodedEntries(tail, count - 1, level, Some(entry)) == Some(rest)
    ensures DecodedEntries(bytes, count, level, last) == Some([entry] + rest)
  {
    entry := FirstEntry(bytes, level, last).value;
    tail := bytes[2 + |entry|..];
    rest := DecodedEntries(tail, count - 1, level, Some(entry)).value;
  }

  lemma EncodedFirst(entry: Bytes, rest: seq<Bytes>)
    ensures EncodedEntries([entry] + rest) == EncodedEntry(entry) + EncodedEntries(rest)
  {
    assert ([entry] + rest)[1..] == rest;
  }

  lemma IncreasingFrom(entry: Bytes, rest: seq<Bytes>, level: nat, last: Option<Bytes>)
    requires EntryOk(entry, level) && EntriesOk(rest, level, Some(entry)) && (last.Some? ==> Less(last.value, entry))
    ensures EntriesOk([entry] + rest, level, last)
  {
    if last.Some? {
      forall i | 0 <= i < |rest| ensures Less(last.value, rest[i]) {
        LessTransitive(last.value, entry, rest[i]);
      }
    }
  }

  lemma FirstReencode(bytes: Bytes, level: nat, last: Option<Bytes>)
    requires FirstEntry(bytes, level, last).Some?
    ensures var entry := FirstEntry(bytes, level, last).value;
            && EntryOk(entry, level) && (last.Some? ==> Less(last.value, entry))
            && bytes[..2 + |entry|] == EncodedEntry(entry)
  {
    FromBigEndianRoundTrip(bytes[..2]);
    var entry := FirstEntry(bytes, level, last).value;
    assert bytes[..2 + |entry|] == bytes[..2] + entry;
  }

  // ---------------------------------------------------------------- centroid

  function Component(bytes: Bytes, i: nat): (r: Bits)
    requires 4 * i + 4 <= |bytes|
  {
    Spans();
    FromBigEndian(bytes[4 * i..4 * i + 4])
  }

  function Components(bytes: Bytes, n: nat): (r: seq<Bits>)
    requires 4 * n <= |bytes|
    ensures |r| == n
  {
    if n == 0 then [] else Components(bytes, n - 1) + [Component(bytes, n - 1)]
  }

  lemma {:induction false} ComponentsAt(bytes: Bytes, n: nat, i: nat)
    requires 4 * n <= |bytes| && i < n
    ensures Components(bytes, n)[i] == Component(bytes, i)
  {
    hide Component;
    if i < n - 1 {
      ComponentsAt(bytes, n - 1, i);
    }
  }

  predicate ComponentOk(bits: Bits) {
    Finite(bits) && bits != NEGATIVE_ZERO
  }

  lemma ComponentAt(front: Bytes, bits: Bits, rest: Bytes, i: nat)
    requires |front| == 4 * i
    ensures Component(front + BigEndian(bits, 4) + rest, i) == bits
  {
    hide FromBigEndian, BigEndian;
    Spans();
    BigEndianRoundTrip(bits, 4);
    assert (front + BigEndian(bits, 4) + rest)[4 * i..4 * i + 4] == BigEndian(bits, 4);
  }

  lemma ComponentsNext(bytes: Bytes, n: nat)
    requires 4 * n + 4 <= |bytes|
    ensures Components(bytes, n + 1) == Components(bytes, n) + [Component(bytes, n)]
  {
  }

  lemma EncodedNext(front: seq<Bits>, last: Bits)
    ensures EncodedCentroid(front + [last]) == EncodedCentroid(front) + BigEndian(Normal(last), 4)
  {
    assert (front + [last])[..|front|] == front;
  }

  lemma {:induction false} CentroidRoundTrip(centroid: seq<Bits>, rest: Bytes)
    requires forall i :: 0 <= i < |centroid| ==> centroid[i] != NEGATIVE_ZERO
    ensures Components(EncodedCentroid(centroid) + rest, |centroid|) == centroid
    decreases |centroid|
  {
    if centroid != [] {
      var front, last := centroid[..|centroid| - 1], centroid[|centroid| - 1];
      assert Normal(last) == last && centroid == front + [last];
      hide *;
      var encoded, final := EncodedCentroid(front), BigEndian(last, 4);
      CentroidRoundTrip(front, final + rest);
      EncodedNext(front, last);
      Regroup(encoded, final, rest);
      ComponentAt(encoded, last, rest, |front|);
      ComponentsNext(encoded + final + rest, |front|);
    }
  }

  lemma Regroup(a: Bytes, b: Bytes, c: Bytes)
    ensures a + b + c == a + (b + c)
  {
  }

  lemma {:induction false} CentroidReencode(bytes: Bytes, n: nat)
    requires 4 * n <= |bytes| && forall i :: 0 <= i < n ==> Component(bytes, i) != NEGATIVE_ZERO
    ensures EncodedCentroid(Components(bytes, n)) == bytes[..4 * n]
  {
    if n > 0 {
      var m := n - 1;
      CentroidReencode(bytes, m);
      ComponentBytes(bytes, m);
      ComponentsNext(bytes, m);
      var last := Component(bytes, m);
      assert Normal(last) == last;
      EncodedNext(Components(bytes, m), last);
      SliceNext(bytes, m);
      hide *;
    }
  }

  lemma SliceNext(bytes: Bytes, m: nat)
    requires 4 * m + 4 <= |bytes|
    ensures bytes[..4 * (m + 1)] == bytes[..4 * m] + bytes[4 * m..4 * m + 4]
  {
  }

  lemma ComponentBytes(bytes: Bytes, i: nat)
    requires 4 * i + 4 <= |bytes|
    ensures BigEndian(Component(bytes, i), 4) == bytes[4 * i..4 * i + 4]
  {
    FromBigEndianRoundTrip(bytes[4 * i..4 * i + 4]);
  }

  // ---------------------------------------------------------------- whole bodies

  function HeaderOk(bytes: Bytes, shape: Shape): bool
    requires |bytes| >= 16
  {
    var level, count := FromBigEndian(bytes[8..12]), FromBigEndian(bytes[12..16]);
    FromBigEndian(bytes[..8]) != 0 && level != 0 && count != 0 && count <= MaxEntries(shape, level)
  }

  /** What a body decodes to, stated without the early size test. */
  function Decoded(bytes: Bytes, shape: Shape): Option<Plan> {
    var from := 16 + 4 * shape.dimension;
    if |bytes| < from || !HeaderOk(bytes, shape) then None
    else
      var level, count := FromBigEndian(bytes[8..12]), FromBigEndian(bytes[12..16]);
      var centroid := Components(bytes[16..], shape.dimension);
      if exists i :: 0 <= i < |centroid| && !ComponentOk(centroid[i]) then None
      else
        var entries := DecodedEntries(bytes[from..], count, level, None);
        if entries.None? then None else Some(Plan(FromBigEndian(bytes[..8]), level, centroid, entries.value))
  }

  /** Decoding an encoded plan gives it back, with negative zeros normalised. */
  lemma RoundTrip(plan: Plan, shape: Shape)
    requires WellFormed(plan, shape)
    ensures Decoded(Encoded(plan), shape) == Some(Normalized(plan))
  {
    NormalizedCanonical(plan, shape);
    EncodedNormalized(plan);
    CanonicalRoundTrip(Normalized(plan), shape);
  }

  lemma EncodedNormalized(plan: Plan)
    ensures Encoded(Normalized(plan)) == Encoded(plan)
  {
    NormalizedCentroid(plan.centroid, Normalized(plan).centroid);
  }

  lemma {:induction false} NormalizedCentroid(centroid: seq<Bits>, normal: seq<Bits>)
    requires |centroid| == |normal| && forall i :: 0 <= i < |centroid| ==> normal[i] == Normal(centroid[i])
    ensures EncodedCentroid(normal) == EncodedCentroid(centroid)
    decreases |centroid|
  {
    if centroid != [] {
      NormalizedCentroid(centroid[..|centroid| - 1], normal[..|centroid| - 1]);
    }
  }

  lemma HeaderFields(plan: Plan)
    requires plan.key <= U64_MAX && plan.level <= U32_MAX && |plan.entries| <= U32_MAX
    ensures var bytes := Encoded(plan);
            && |bytes| >= 16 + 4 * |plan.centroid|
            && FromBigEndian(bytes[..8]) == plan.key && FromBigEndian(bytes[8..12]) == plan.level
            && FromBigEndian(bytes[12..16]) == |plan.entries|
            && bytes[16..] == EncodedCentroid(plan.centroid) + EncodedEntries(plan.entries)
            && bytes[16 + 4 * |plan.centroid|..] == EncodedEntries(plan.entries)
  {
    hide EncodedCentroid, EncodedEntries, BigEndian, FromBigEndian;
    var bytes := Encoded(plan);
    Spans();
    BigEndianRoundTrip(plan.key, 8);
    BigEndianRoundTrip(plan.level, 4);
    BigEndianRoundTrip(|plan.entries|, 4);
    assert bytes[..8] == BigEndian(plan.key, 8);
    assert bytes[8..12] == BigEndian(plan.level, 4);
    assert bytes[12..16] == BigEndian(|plan.entries|, 4);
  }

  lemma CanonicalRoundTrip(plan: Plan, shape: Shape)
    requires Canonical(plan, shape)
    ensures Decoded(Encoded(plan), shape) == Some(plan)
  {
    hide EncodedCentroid, EncodedEntries, Encoded, DecodedEntries, Components, FromBigEndian, EntriesOk;
    HeaderFields(plan);
    CentroidRoundTrip(plan.centroid, EncodedEntries(plan.entries));
    EntriesRoundTrip(plan.entries, plan.level, None);
  }

  /** Whatever decodes is canonical and is the encoding of what it decodes to. */
  lemma Reencode(bytes: Bytes, shape: Shape)
    requires Decoded(bytes, shape).Some?
    ensures Canonical(Decoded(bytes, shape).value, shape)
    ensures Encoded(Decoded(bytes, shape).value) == bytes
  {
    hide EncodedCentroid, EncodedEntries, DecodedEntries, Components, FromBigEndian, BigEndian, EntriesOk, Component;
    var plan := Decoded(bytes, shape).value;
    var from := 16 + 4 * shape.dimension;
    Spans();
    FromBigEndianRoundTrip(bytes[..8]);
    FromBigEndianRoundTrip(bytes[8..12]);
    FromBigEndianRoundTrip(bytes[12..16]);
    forall i | 0 <= i < shape.dimension ensures Component(bytes[16..], i) != NEGATIVE_ZERO {
      ComponentsAt(bytes[16..], shape.dimension, i);
    }
    CentroidReencode(bytes[16..], shape.dimension);
    EntriesReencode(bytes[from..], FromBigEndian(bytes[12..16]), plan.level, None);
    assert bytes[16..][..4 * shape.dimension] == bytes[16..from];
    assert bytes == bytes[..8] + bytes[8..12] + bytes[12..16] + bytes[16..from] + bytes[from..];
  }

  /** Two canonical plans with the same bytes are the same plan. */
  lemma EncodedInjective(one: Plan, two: Plan, shape: Shape)
    requires Canonical(one, shape) && Canonical(two, shape) && Encoded(one) == Encoded(two)
    ensures one == two
  {
    CanonicalRoundTrip(one, shape);
    CanonicalRoundTrip(two, shape);
  }

  /** Decodes a body, refusing early when it cannot hold the announced entries. */
  method Decode(bytes: Bytes, shape: Shape) returns (r: Option<Plan>)
    ensures r == Decoded(bytes, shape)
    ensures r.Some? <==> exists plan :: Canonical(plan, shape) && Encoded(plan) == bytes
    ensures r.Some? ==> Canonical(r.value, shape) && Encoded(r.value) == bytes
  {
    hide Encoded, Canonical;
    r := DecodeBody(bytes, shape);
    if r.Some? {
      Reencode(bytes, shape);
    }
    if plan :| Canonical(plan, shape) && Encoded(plan) == bytes {
      CanonicalRoundTrip(plan, shape);
    }
  }

  method DecodeBody(bytes: Bytes, shape: Shape) returns (r: Option<Plan>)
    ensures r == Decoded(bytes, shape)
  {
    hide DecodedEntries, FromBigEndian, Component;
    if |bytes| < 16 + shape.dimension * 4 {
      return None;
    }
    var key := FromBigEndian(bytes[..8]);
    if key == 0 {
      return None;
    }
    var level := FromBigEndian(bytes[8..12]);
    var count := FromBigEndian(bytes[12..16]);
    if level == 0 || count == 0 || count > MaxEntries(shape, level) {
      return None;
    }
    var centroid: seq<Bits> := [];
    ghost var all := Components(bytes[16..], shape.dimension);
    for i := 0 to shape.dimension
      invariant centroid == all[..i] && forall j :: 0 <= j < i ==> ComponentOk(all[j])
    {
      var bits := Component(bytes[16..], i);
      ComponentsAt(bytes[16..], shape.dimension, i);
      if !Finite(bits) || bits == NEGATIVE_ZERO {
        assert !ComponentOk(all[i]);
        return None;
      }
      centroid := centroid + [bits];
    }
    assert centroid == all;
    var body := bytes[16 + 4 * shape.dimension..];
    if count > |body| / 3 {
      EarlyTestHarmless(body, count, level);
      return None;
    }
    var entries := DecodeEntries(body, count, level);
    if entries.None? {
      return None;
    }
    return Some(Plan(key, level, centroid, entries.value));
  }

  /** The early size test refuses only bodies whose entries cannot decode. */
  lemma EarlyTestHarmless(body: Bytes, count: nat, level: nat)
    requires count > |body| / 3
    ensures DecodedEntries(body, count, level, None).None?
  {
    if DecodedEntries(body, count, level, None).Some? {
      EntriesReencode(body, count, level, None);
    }
  }

  /** What the whole body decodes to, given the entries read so far and what the rest
      decodes to. */
  ghost predicate Joined(whole: Option<seq<Bytes>>, entries: seq<Bytes>, rest: Option<seq<Bytes>>) {
    whole == if rest.None? then None else Some(entries + rest.value)
  }

  lemma JoinedStart(whole: Option<seq<Bytes>>)
    ensures Joined(whole, [], whole)
  {
    assert whole.Some? ==> [] + whole.value == whole.value;
  }

  lemma JoinedNext(whole: Option<seq<Bytes>>, entries: seq<Bytes>, bytes: Bytes, count: nat, level: nat, last: Option<Bytes>)
    requires count > 0 && Joined(whole, entries, DecodedEntries(bytes, count, level, last))
    ensures var entry := FirstEntry(bytes, level, last);
            if entry.None? then whole.None?
            else Joined(whole, entries + [entry.value], DecodedEntries(bytes[2 + |entry.value|..], count - 1, level, entry))
  {
    hide FirstEntry;
    var entry := FirstEntry(bytes, level, last);
    if entry.Some? {
      var rest := DecodedEntries(bytes[2 + |entry.value|..], count - 1, level, entry);
      assert rest.Some? ==> entries + ([entry.value] + rest.value) == entries + [entry.value] + rest.value;
    }
  }

  lemma JoinedEnd(whole: Option<seq<Bytes>>, entries: seq<Bytes>, bytes: Bytes, level: nat, last: Option<Bytes>)
    requires Joined(whole, entries, DecodedEntries(bytes, 0, level, last))
    ensures whole == if bytes == [] then Some(entries) else None
  {
    assert entries + [] == entries;
  }

  method DecodeEntries(body: Bytes, count: nat, level: nat) returns (r: Option<seq<Bytes>>)
    ensures r == DecodedEntries(body, count, level, None)
  {
    hide DecodedEntries, FromBigEndian, Less, Joined;
    var bytes := body;
    var entries: seq<Bytes> := [];
    var last: Option<Bytes> := None;
    ghost var whole := DecodedEntries(body, count, level, None);
    JoinedStart(whole);
    for i := 0 to count
      invariant Joined(whole, entries, DecodedEntries(bytes, count - i, level, last))
      invariant last == if entries == [] then None else Some(entries[|entries| - 1])
    {
      JoinedNext(whole, entries, bytes, count - i, level, last);
      if |bytes| < 2 {
        return None;
      }
      var length := FromBigEndian(bytes[..2]);
      if length == 0 || length > MAX_RECORD_ID_BYTES || length > |bytes| - 2 || (level > 1 && length != 8) {
        return None;
      }
      var entry := bytes[2..2 + length];
      if (last.Some? && !Less(last.value, entry)) || (level > 1 && entry == [0, 0, 0, 0, 0, 0, 0, 0]) {
        return None;
      }
      bytes := bytes[2 + length..];
      entries := entries + [entry];
      last := Some(entry);
    }
    JoinedEnd(whole, entries, bytes, level, last);
    if bytes != [] {
      return None;
    }
    return Some(entries);
  }
}
