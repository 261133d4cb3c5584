/** The byte layout of partition plans, the floats in them, and that construction's plans are
    plans the codec takes. */
module PlanLayout {
  import opened Bytes
  import opened Wrappers
  import Ordering
  import Grouping
  import GroupSizes
  import Tree
  import opened PlanCodec

  // ---------------------------------------------------------------- floats

  /** The bits of a single-precision float: sign, exponent and mantissa. */
  function FromParts(sign: nat, exponent: nat, mantissa: nat): (bits: Bits)
    requires sign < 2 && exponent < 256 && mantissa < 0x80_0000
  {
    sign * 0x8000_0000 + exponent * 0x80_0000 + mantissa
  }

  /** A float is infinite or not a number exactly when its exponent is the highest one, and
      equal to zero exactly when exponent and mantissa are zero. */
  lemma FloatKinds(sign: nat, exponent: nat, mantissa: nat)
    requires sign < 2 && exponent < 256 && mantissa < 0x80_0000
    ensures Finite(FromParts(sign, exponent, mantissa)) <==> exponent != 255
    ensures IsZero(FromParts(sign, exponent, mantissa)) <==> exponent == 0 && mantissa == 0
  {
    var bits := FromParts(sign, exponent, mantissa);
    assert bits / 0x80_0000 == sign * 256 + exponent;
  }

  /** Every bit pattern has such parts. */
  lemma PartsOf(bits: Bits) returns (sign: nat, exponent: nat, mantissa: nat)
    ensures sign < 2 && exponent < 256 && mantissa < 0x80_0000 && bits == FromParts(sign, exponent, mantissa)
  {
    sign, exponent, mantissa := bits / 0x8000_0000, bits / 0x80_0000 % 256, bits % 0x80_0000;
    assert bits / 0x80_0000 / 256 == sign;
  }

  // ---------------------------------------------------------------- layout

  /** Where entry `i` starts, with the two bytes of its length. */
  function EntryAt(plan: Plan, i: nat): nat
    requires i <= |plan.entries|
  {
    if i == 0 then 16 + 4 * |plan.centroid| else EntryAt(plan, i - 1) + 2 + |plan.entries[i - 1]|
  }

  lemma {:induction false} CentroidAt(centroid: seq<Bits>, i: nat)
    requires i < |centroid|
    ensures FromBigEndian(EncodedCentroid(centroid)[4 * i..4 * i + 4]) == if IsZero(centroid[i]) then 0 else centroid[i]
    decreases |centroid|
  {
    hide BigEndian, FromBigEndian, IsZero;
    var front, last := centroid[..|centroid| - 1], centroid[|centroid| - 1];
    var head, tail := EncodedCentroid(front), BigEndian(Normal(last), 4);
    assert EncodedCentroid(centroid) == head + tail;
    if i < |front| {
      CentroidAt(front, i);
      assert (head + tail)[4 * i..4 * i + 4] == head[4 * i..4 * i + 4];
    } else {
      assert (head + tail)[4 * i..4 * i + 4] == tail;
      Spans();
      BigEndianRoundTrip(Normal(last), 4);
    }
  }

  lemma {:induction false} EntriesUpTo(plan: Plan, i: nat)
    requires i <= |plan.entries|
    ensures |EncodedEntries(plan.entries[..i])| == EntryAt(plan, i) - 16 - 4 * |plan.centroid|
  {
    hide BigEndian;
    if i > 0 {
      EntriesUpTo(plan, i - 1);
      EncodedEntriesAppend(plan.entries[..i - 1], plan.entries[i - 1]);
      assert plan.entries[..i] == plan.entries[..i - 1] + [plan.entries[i - 1]];
    }
  }

  lemma {:induction false} EntriesSplit(entries: seq<Bytes>, more: seq<Bytes>)
    ensures EncodedEntries(entries + more) == EncodedEntries(entries) + EncodedEntries(more)
    decreases |entries|
  {
    hide EncodedEntry;
    if entries == [] {
      assert entries + more == more;
    } else {
      assert (entries + more)[1..] == entries[1..] + more;
      EntriesSplit(entries[1..], more);
      Regroup(EncodedEntry(entries[0]), EncodedEntries(entries[1..]), EncodedEntries(more));
    }
  }

  /** The bytes of entry `i` in the encoded entries. */
  lemma EntryLies(plan: Plan, i: nat)
    requires i < |plan.entries| && |plan.entries[i]| <= U16_MAX
    ensures var body, at := EncodedEntries(plan.entries), EntryAt(plan, i) - 16 - 4 * |plan.centroid|;
            && 0 <= at && at + 2 + |plan.entries[i]| <= |body|
            && FromBigEndian(body[at..at + 2]) == |plan.entries[i]| && body[at + 2..at + 2 + |plan.entries[i]|] == plan.entries[i]
  {
    hide BigEndian, FromBigEndian, EncodedEntries;
    var entry, front, back := plan.entries[i], plan.entries[..i], plan.entries[i + 1..];
    EntriesUpTo(plan, i);
    assert plan.entries == front + ([entry] + back);
    EntriesSplit(front, [entry] + back);
    EncodedFirst(entry, back);
    var head, tail := EncodedEntries(front), EncodedEntries(back);
    var body := head + (BigEndian(|entry|, 2) + entry + tail);
    assert body[|head|..|head| + 2] == BigEndian(|entry|, 2);
    assert body[|head| + 2..|head| + 2 + |entry|] == entry;
    Spans();
    BigEndianRoundTrip(|entry|, 2);
  }

  /** Every component is in its four bytes, zero for either zero. */
  ghost predicate CentroidIn(bytes: Bytes, centroid: seq<Bits>)
    requires |bytes| >= 16 + 4 * |centroid|
  {
    forall i :: 0 <= i < |centroid| ==>
      FromBigEndian(bytes[16 + 4 * i..20 + 4 * i]) == if IsZero(centroid[i]) then 0 else centroid[i]
  }

  ghost predicate EntriesIn(bytes: Bytes, plan: Plan) {
    forall i :: 0 <= i < |plan.entries| ==> EntryIn(bytes, EntryAt(plan, i), plan.entries[i])
  }

  lemma CentroidLies(bytes: Bytes, centroid: seq<Bits>, body: Bytes)
    requires |bytes| >= 16 && bytes[16..] == EncodedCentroid(centroid) + body
    ensures |bytes| >= 16 + 4 * |centroid| && CentroidIn(bytes, centroid)
  {
    hide FromBigEndian, EncodedCentroid, IsZero;
    forall i | 0 <= i < |centroid|
      ensures FromBigEndian(bytes[16 + 4 * i..20 + 4 * i]) == if IsZero(centroid[i]) then 0 else centroid[i]
    {
      ComponentIn(bytes, centroid, body, i);
    }
  }

  lemma EntriesLie(bytes: Bytes, plan: Plan)
    requires |bytes| >= 16 + 4 * |plan.centroid| && bytes[16 + 4 * |plan.centroid|..] == EncodedEntries(plan.entries)
    requires forall i :: 0 <= i < |plan.entries| ==> |plan.entries[i]| <= U16_MAX
    ensures EntriesIn(bytes, plan)
  {
    hide FromBigEndian, EncodedEntries, EntryAt;
    forall i | 0 <= i < |plan.entries| ensures EntryIn(bytes, EntryAt(plan, i), plan.entries[i]) {
      EntryLies(plan, i);
      var at := EntryAt(plan, i);
      Within(bytes, 16 + 4 * |plan.centroid|, at, 2);
      Within(bytes, 16 + 4 * |plan.centroid|, at + 2, |plan.entries[i]|);
    }
  }

  /** An encoded plan is: eight bytes of key, four of level, four of entry count, four for each
      component, and for each entry two of length and its bytes. */
  lemma EncodedLayout(plan: Plan)
    requires plan.key <= U64_MAX && plan.level <= U32_MAX && |plan.entries| <= U32_MAX
    requires forall i :: 0 <= i < |plan.entries| ==> |plan.entries[i]| <= U16_MAX
    ensures var bytes := Encoded(plan);
      && |bytes| == EntryAt(plan, |plan.entries|) >= 16 + 4 * |plan.centroid|
      && FromBigEndian(bytes[..8]) == plan.key && FromBigEndian(bytes[8..12]) == plan.level
      && FromBigEndian(bytes[12..16]) == |plan.entries|
      && CentroidIn(bytes, plan.centroid) && EntriesIn(bytes, plan)
  {
    hide FromBigEndian, EncodedCentroid, EncodedEntries, Encoded, EntryAt, CentroidIn, EntriesIn;
    HeaderFields(plan);
    var bytes := Encoded(plan);
    Tails(bytes, EncodedCentroid(plan.centroid), EncodedEntries(plan.entries));
    EntriesUpTo(plan, |plan.entries|);
    assert plan.entries[..|plan.entries|] == plan.entries;
    CentroidLies(bytes, plan.centroid, EncodedEntries(plan.entries));
    EntriesLie(bytes, plan);
  }

  /** The length and bytes of an entry lie here. */
  ghost predicate EntryIn(bytes: Bytes, at: nat, entry: Bytes) {
    at + 2 + |entry| <= |bytes| && FromBigEndian(bytes[at..at + 2]) == |entry| && bytes[at + 2..at + 2 + |entry|] == entry
  }

  lemma Within(bytes: Bytes, from: nat, at: nat, length: nat)
    requires from <= at && at + length <= |bytes|
    ensures bytes[at..at + length] == bytes[from..][at - from..at - from + length]
  {
  }

  lemma ComponentIn(bytes: Bytes, centroid: seq<Bits>, body: Bytes, i: nat)
    requires |bytes| >= 16 && bytes[16..] == EncodedCentroid(centroid) + body && i < |centroid|
    ensures 20 + 4 * i <= |bytes|
    ensures FromBigEndian(bytes[16 + 4 * i..20 + 4 * i]) == if IsZero(centroid[i]) then 0 else centroid[i]
  {
    hide FromBigEndian, EncodedCentroid, IsZero;
    CentroidAt(centroid, i);
    HeadIn(bytes, EncodedCentroid(centroid), body, 4 * i);
  }

  lemma HeadIn(bytes: Bytes, head: Bytes, body: Bytes, at: nat)
    requires |bytes| >= 16 && bytes[16..] == head + body && at + 4 <= |head|
    ensures 20 + at <= |bytes| && bytes[16 + at..20 + at] == head[at..at + 4]
  {
    Within(bytes, 16, 16 + at, 4);
    assert (head + body)[at..at + 4] == head[at..at + 4];
  }

  lemma Tails(bytes: Bytes, centroid: Bytes, body: Bytes)
    requires |bytes| >= 16 && bytes[16..] == centroid + body
    ensures |bytes| == 16 + |centroid| + |body| && bytes[16 + |centroid|..] == body
  {
    assert bytes[16 + |centroid|..] == bytes[16..][|centroid|..];
  }

  // ---------------------------------------------------------------- from construction

  lemma {:induction false} KeysAtFrom(plans: seq<Tree.Plan>, level: nat, x: Bytes)
    requires x in Tree.KeysAt(plans, level)
    ensures exists j :: 0 <= j < |plans| && plans[j].level == level && x == BigEndian(plans[j].key, 8)
    decreases |plans|
  {
    hide BigEndian;
    if plans[0].level == level && x == BigEndian(plans[0].key, 8) {
    } else {
      KeysAtFrom(plans[1..], level, x);
      var j :| 0 <= j < |plans[1..]| && plans[1..][j].level == level && x == BigEndian(plans[1..][j].key, 8);
      assert plans[j + 1].level == level && x == BigEndian(plans[j + 1].key, 8);
    }
  }

  lemma {:induction false} EntriesAtHas(plans: seq<Tree.Plan>, i: nat, x: Bytes)
    requires i < |plans| && x in plans[i].entries
    ensures x in Tree.EntriesAt(plans, plans[i].level)
    decreases |plans|
  {
    if i > 0 { EntriesAtHas(plans[1..], i - 1, x); }
  }

  lemma {:induction false} EntriesAtFrom(plans: seq<Tree.Plan>, level: nat, x: Bytes)
    requires x in Tree.EntriesAt(plans, level)
    ensures exists i :: 0 <= i < |plans| && plans[i].level == level && x in plans[i].entries
    decreases |plans|
  {
    if plans[0].level == level && x in plans[0].entries {
    } else {
      EntriesAtFrom(plans[1..], level, x);
      var j :| 0 <= j < |plans[1..]| && plans[1..][j].level == level && x in plans[1..][j].entries;
      assert plans[j + 1].level == level;
    }
  }

  lemma {:induction false} KeysAtHas(plans: seq<Tree.Plan>, i: nat)
    requires i < |plans|
    ensures BigEndian(plans[i].key, 8) in Tree.KeysAt(plans, plans[i].level)
    decreases |plans|
  {
    hide BigEndian;
    if i > 0 { KeysAtHas(plans[1..], i - 1); }
  }

  lemma KeyNonzero(key: nat)
    requires 0 < key <= U64_MAX
    ensures BigEndian(key, 8) != [0, 0, 0, 0, 0, 0, 0, 0]
  {
    var zero: Bytes := [0, 0, 0, 0, 0, 0, 0, 0];
    Spans();
    BigEndianRoundTrip(key, 8);
    ZeroBytes(zero);
  }

  lemma {:induction false} ZeroBytes(bytes: Bytes)
    requires forall i :: 0 <= i < |bytes| ==> bytes[i] == 0
    ensures FromBigEndian(bytes) == 0
    decreases |bytes|
  {
    if bytes != [] { ZeroBytes(bytes[..|bytes| - 1]); }
  }

  /** Keys and levels of a finished tree fit their fields. */
  ghost predicate FieldsFit(plans: seq<Tree.Plan>) {
    forall i :: 0 <= i < |plans| ==> 0 < plans[i].key <= U64_MAX && 0 < plans[i].level <= U32_MAX
  }

  lemma {:induction false} TreeFieldsFit(kernel: Grouping.Kernel, config: Grouping.Config, s: seq<Ordering.Item>, level: nat, highWater: nat)
    requires Grouping.Groupable(kernel, config, s) && 0 < level <= U32_MAX
    requires Tree.TreePlans(kernel, config, s, level, highWater).Some?
    ensures FieldsFit(Tree.TreePlans(kernel, config, s, level, highWater).value)
    decreases |s|
  {
    hide Grouping.Leaves, Tree.ParentRows, Grouping.Flatten, Grouping.WellFilled;
    if |s| > config.MaxEntries(level) {
      var leaves, base := Grouping.Leaves(kernel, config, s, level), GroupSizes.Max(highWater, 1);
      Grouping.LeavesExact(kernel, config, s, level);
      Tree.ParentRowsCanonical(kernel, leaves, base);
      TreeFieldsFit(kernel, config, Tree.ParentRows(kernel, leaves, base), level + 1, base + |leaves|);
    }
  }

  /** What a constructed partition holds are entries of the kind its level asks for. */
  lemma EntryFits(config: Grouping.Config, plans: seq<Tree.Plan>, ids: seq<Bytes>, i: nat, x: Bytes)
    requires Tree.Exact(config, plans, ids, 1, 1) && FieldsFit(plans) && i < |plans| && x in plans[i].entries
    requires forall id :: id in ids ==> 0 < |id| <= MAX_RECORD_ID_BYTES
    ensures EntryOk(x, plans[i].level)
  {
    hide BigEndian, Tree.EntriesAt, Tree.KeysAt, Tree.Numbered, Tree.Filled;
    var level := plans[i].level;
    EntriesAtHas(plans, i, x);
    assert x in multiset(Tree.EntriesAt(plans, level));
    if level == 1 {
      assert x in multiset(ids);
    } else {
      var l := level - 1;
      assert multiset(Tree.EntriesAt(plans, l + 1)) == multiset(Tree.KeysAt(plans, l));
      assert x in multiset(Tree.KeysAt(plans, l));
      KeysAtFrom(plans, l, x);
      var j :| 0 <= j < |plans| && plans[j].level == l && x == BigEndian(plans[j].key, 8);
      KeyNonzero(plans[j].key);
    }
  }

  lemma RootHolds(config: Grouping.Config, plans: seq<Tree.Plan>, ids: seq<Bytes>)
    requires Tree.Exact(config, plans, ids, 1, 1) && ids != []
    ensures plans != [] && plans[|plans| - 1].entries != []
  {
    hide BigEndian, Tree.EntriesAt, Tree.KeysAt, Tree.Numbered, Tree.Filled;
    var root := |plans| - 1;
    var level := plans[root].level;
    var x: Bytes;
    if level == 1 {
      x := ids[0];
      assert x in multiset(Tree.EntriesAt(plans, 1));
    } else {
      LowerLevelUsed(config, plans, ids, level);
      var j :| 0 <= j < |plans| && plans[j].level == level - 1;
      KeysAtHas(plans, j);
      x := BigEndian(plans[j].key, 8);
      assert multiset(Tree.EntriesAt(plans, (level - 1) + 1)) == multiset(Tree.KeysAt(plans, level - 1));
      assert x in multiset(Tree.KeysAt(plans, level - 1));
    }
    assert x in multiset(Tree.EntriesAt(plans, level));
    EntriesAtFrom(plans, level, x);
  }

  /** Every level below a used one is used too. */
  lemma {:induction false} LowerLevelUsed(config: Grouping.Config, plans: seq<Tree.Plan>, ids: seq<Bytes>, level: nat)
    requires Tree.Exact(config, plans, ids, 1, 1) && ids != [] && 1 < level <= plans[|plans| - 1].level
    ensures exists j :: 0 <= j < |plans| && plans[j].level == level - 1
    decreases level
  {
    hide BigEndian, Tree.EntriesAt, Tree.KeysAt, Tree.Numbered, Tree.Filled;
    var x: Bytes;
    if level == 2 {
      x := ids[0];
      assert x in multiset(Tree.EntriesAt(plans, 1));
      EntriesAtFrom(plans, 1, x);
    } else {
      LowerLevelUsed(config, plans, ids, level - 1);
      var j :| 0 <= j < |plans| && plans[j].level == level - 2;
      KeysAtHas(plans, j);
      x := BigEndian(plans[j].key, 8);
      assert multiset(Tree.EntriesAt(plans, (level - 2) + 1)) == multiset(Tree.KeysAt(plans, level - 2));
      assert x in multiset(Tree.EntriesAt(plans, level - 1));
      EntriesAtFrom(plans, level - 1, x);
    }
  }

  /** Every partition construction emits is a plan the codec takes, and survives it. */
  lemma ConstructedEncodes(kernel: Grouping.Kernel, config: Grouping.Config, input: seq<Ordering.Item>, i: nat, bits: seq<Bits>)
    requires Grouping.Groupable(kernel, config, input) && input != [] && Tree.TreePlans(kernel, config, input, 1, 0).Some?
    requires forall j :: 0 <= j < |input| ==> 0 < |input[j].id| <= MAX_RECORD_ID_BYTES
    requires i < |Tree.TreePlans(kernel, config, input, 1, 0).value|
    requires forall j :: 0 <= j < |bits| ==> Finite(bits[j])
    ensures var built, shape := Tree.TreePlans(kernel, config, input, 1, 0).value[i], Shape(|bits|, config.maxLeaf, config.maxInternal);
            var plan := Plan(built.key, built.level, bits, built.entries);
            WellFormed(plan, shape) && Decoded(Encoded(plan), shape) == Some(Normalized(plan))
  {
    hide Tree.TreePlans, Encoded, Decoded, Normalized, Finite, EntryOk, Tree.Linked, Tree.Numbered, Grouping.Groupable;
    var plans, ids := Tree.TreePlans(kernel, config, input, 1, 0).value, Tree.Ids(input);
    Tree.TreeExact(kernel, config, input, 1, 0);
    TreeFieldsFit(kernel, config, input, 1, 0);
    RootHolds(config, plans, ids);
    GroupableConfig(kernel, config, input);
    forall k | 0 <= k < |plans[i].entries| ensures EntryOk(plans[i].entries[k], plans[i].level) {
      EntryFits(config, plans, ids, i, plans[i].entries[k]);
    }
    RoundTrip(Plan(plans[i].key, plans[i].level, bits, plans[i].entries), Shape(|bits|, config.maxLeaf, config.maxInternal));
  }

  lemma GroupableConfig(kernel: Grouping.Kernel, config: Grouping.Config, input: seq<Ordering.Item>)
    requires Grouping.Groupable(kernel, config, input)
    ensures config.Valid()
  {
  }

  /** Conversely, what the codec takes above the leaves names partitions: every entry is the
      encoded key of one, in increasing order of keys. */
  lemma InteriorEntries(plan: Plan, shape: Shape, i: nat)
    requires WellFormed(plan, shape) && plan.level > 1 && i < |plan.entries|
    ensures var key := FromBigEndian(plan.entries[i]); 0 < key <= U64_MAX && plan.entries[i] == BigEndian(key, 8)
    ensures i > 0 ==> FromBigEndian(plan.entries[i - 1]) < FromBigEndian(plan.entries[i])
  {
    hide FromBigEndian, BigEndian, Less;
    Spans();
    KeyEntry(plan.entries[i]);
    if i > 0 {
      KeyEntry(plan.entries[i - 1]);
      var a, b := FromBigEndian(plan.entries[i - 1]), FromBigEndian(plan.entries[i]);
      assert Less(plan.entries[i - 1], plan.entries[i]);
      if b <= a {
        if b < a { BigEndianOrder(b, a, 8); LessTransitive(plan.entries[i - 1], plan.entries[i], plan.entries[i - 1]); }
        LessIrreflexive(plan.entries[i - 1]);
      }
    }
  }

  lemma KeyEntry(entry: Bytes)
    requires EntryOk(entry, 2)
    ensures 0 < FromBigEndian(entry) < Span(8) && entry == BigEndian(FromBigEndian(entry), 8)
  {
    var zero: Bytes := [0, 0, 0, 0, 0, 0, 0, 0];
    ZeroBytes(zero);
    FromBigEndianRoundTrip(zero);
    FromBigEndianRoundTrip(entry);
  }
}
