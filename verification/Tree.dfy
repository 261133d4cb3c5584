/** The whole bottom-up tree, level by level, and what makes it exact. */
module Tree {
  import opened Wrappers
  import opened Bytes
  import opened Ordering
  import opened GroupSizes
  import opened Grouping

  /** One final partition: leaf entries are Record IDs, internal entries encoded keys. */
  datatype Plan = Plan(key: nat, level: nat, centroid: Vector, entries: seq<Bytes>)

  function Ids(s: seq<Item>): (r: seq<Bytes>)
    ensures |r| == |s| && forall i :: 0 <= i < |s| ==> r[i] == s[i].id
  {
    seq(|s|, i requires 0 <= i < |s| => s[i].id)
  }

  /** Non-root partitions get consecutive keys above the ones in use; key 1 is the root's. */
  ghost function LevelPlans(kernel: Kernel, level: nat, leaves: seq<seq<Item>>, base: nat): (r: seq<Plan>)
    ensures |r| == |leaves|
  {
    seq(|leaves|, i requires 0 <= i < |leaves| =>
      Plan(base + 1 + i, level, kernel.mean(leaves[i]), Ids(leaves[i])))
  }

  /** The rows of the next level: one per partition, identified by its encoded key. */
  ghost function ParentRows(kernel: Kernel, leaves: seq<seq<Item>>, base: nat): (r: seq<Item>)
    ensures |r| == |leaves|
  {
    seq(|leaves|, i requires 0 <= i < |leaves| => Item(BigEndian(base + 1 + i, 8), kernel.mean(leaves[i])))
  }

  lemma LevelAppend(kernel: Kernel, level: nat, a: seq<seq<Item>>, b: seq<seq<Item>>, base: nat)
    ensures LevelPlans(kernel, level, a + b, base)
         == LevelPlans(kernel, level, a, base) + LevelPlans(kernel, level, b, base + |a|)
    ensures ParentRows(kernel, a + b, base) == ParentRows(kernel, a, base) + ParentRows(kernel, b, base + |a|)
  {
  }

  /** Consecutive keys encode to canonical rows while they fit in 64 bits. */
  lemma ParentRowsCanonical(kernel: Kernel, leaves: seq<seq<Item>>, base: nat)
    requires base + |leaves| <= U64_MAX
    ensures Canonical(ParentRows(kernel, leaves, base))
  {
    Spans();
    var rows := ParentRows(kernel, leaves, base);
    forall i, j | 0 <= i < j < |rows| ensures Before(Canon, rows[i], rows[j]) {
      BigEndianOrder(base + 1 + i, base + 1 + j, 8);
    }
  }

  /** All partitions, children before parents, or none if a 64-bit key or 32-bit
      level would overflow. */
  ghost function TreePlans(kernel: Kernel, config: Config, s: seq<Item>, level: nat, highWater: nat): Option<seq<Plan>>
    requires Groupable(kernel, config, s)
    decreases |s|
  {
    if |s| <= config.MaxEntries(level) then Some([Plan(1, level, kernel.mean(s), Ids(s))])
    else
      var leaves := Leaves(kernel, config, s, level);
      var base := Max(highWater, 1);
      LeavesExact(kernel, config, s, level);
      if base + |leaves| > U64_MAX || level >= U32_MAX then None
      else
        ParentRowsCanonical(kernel, leaves, base);
        match TreePlans(kernel, config, ParentRows(kernel, leaves, base), level + 1, base + |leaves|)
        case None => None
        case Some(rest) => Some(LevelPlans(kernel, level, leaves, base) + rest)
  }

  // ---------------------------------------------------------------- exactness

  ghost function EntriesAt(plans: seq<Plan>, level: nat): seq<Bytes> {
    if plans == [] then []
    else (if plans[0].level == level then plans[0].entries else []) + EntriesAt(plans[1..], level)
  }

  ghost function KeysAt(plans: seq<Plan>, level: nat): seq<Bytes> {
    if plans == [] then []
    else (if plans[0].level == level then [BigEndian(plans[0].key, 8)] else []) + KeysAt(plans[1..], level)
  }

  ghost predicate Increasing(entries: seq<Bytes>) {
    forall i, j :: 0 <= i < j < |entries| ==> Less(entries[i], entries[j])
  }

  /** The root comes last with key 1; the others have consecutive keys above `base`. */
  ghost predicate Numbered(plans: seq<Plan>, base: nat) {
    && plans != []
    && plans[|plans| - 1].key == 1
    && (forall i :: 0 <= i < |plans| - 1 ==> plans[i].key == base + 1 + i)
  }

  /** Levels rise to the root, which alone is at the top. */
  ghost predicate Levelled(plans: seq<Plan>, level: nat) {
    && plans != []
    && plans[|plans| - 1].level >= level
    && (forall i :: 0 <= i < |plans| - 1 ==> level <= plans[i].level < plans[|plans| - 1].level)
    && (forall i, j :: 0 <= i < j < |plans| ==> plans[i].level <= plans[j].level)
  }

  /** Every partition is in canonical order and within bounds; only the root may be
      under the minimum. */
  ghost predicate Filled(config: Config, plans: seq<Plan>) {
    && plans != []
    && |plans[|plans| - 1].entries| <= config.MaxEntries(plans[|plans| - 1].level)
    && (forall i :: 0 <= i < |plans| - 1 ==>
          config.MinEntries(plans[i].level) <= |plans[i].entries| <= config.MaxEntries(plans[i].level))
    && (forall i :: 0 <= i < |plans| ==> Increasing(plans[i].entries))
  }

  /** Each level's entries are exactly the identities of the level below. */
  ghost predicate Linked(plans: seq<Plan>, ids: seq<Bytes>, level: nat) {
    && plans != []
    && multiset(EntriesAt(plans, level)) == multiset(ids)
    && (forall l :: level <= l < plans[|plans| - 1].level ==>
          multiset(EntriesAt(plans, l + 1)) == multiset(KeysAt(plans, l)))
  }

  /** An exact tree over the rows `ids` of one level. */
  ghost predicate Exact(config: Config, plans: seq<Plan>, ids: seq<Bytes>, level: nat, base: nat) {
    Numbered(plans, base) && Levelled(plans, level) && Filled(config, plans) && Linked(plans, ids, level)
  }

  lemma {:induction false} AtAppend(a: seq<Plan>, b: seq<Plan>, level: nat)
    ensures EntriesAt(a + b, level) == EntriesAt(a, level) + EntriesAt(b, level)
    ensures KeysAt(a + b, level) == KeysAt(a, level) + KeysAt(b, level)
    decreases |a|
  {
    hide BigEndian;
    if a == [] {
      assert a + b == b;
    } else {
      assert (a + b)[1..] == a[1..] + b;
      AtAppend(a[1..], b, level);
    }
  }

  lemma {:induction false} NoneAt(plans: seq<Plan>, level: nat)
    requires forall i :: 0 <= i < |plans| ==> plans[i].level != level
    ensures EntriesAt(plans, level) == [] && KeysAt(plans, level) == []
    decreases |plans|
  {
    if plans != [] { NoneAt(plans[1..], level); }
  }

  lemma LevelPlansFirst(kernel: Kernel, level: nat, leaves: seq<seq<Item>>, base: nat)
    requires leaves != []
    ensures LevelPlans(kernel, level, leaves, base) ==
            [Plan(base + 1, level, kernel.mean(leaves[0]), Ids(leaves[0]))] + LevelPlans(kernel, level, leaves[1..], base + 1)
    ensures Ids(ParentRows(kernel, leaves, base)) == [BigEndian(base + 1, 8)] + Ids(ParentRows(kernel, leaves[1..], base + 1))
  {
    hide BigEndian;
  }

  lemma AtFirst(plan: Plan, plans: seq<Plan>)
    ensures EntriesAt([plan] + plans, plan.level) == plan.entries + EntriesAt(plans, plan.level)
    ensures KeysAt([plan] + plans, plan.level) == [BigEndian(plan.key, 8)] + KeysAt(plans, plan.level)
  {
    hide BigEndian;
    assert ([plan] + plans)[1..] == plans;
  }

  lemma IdsAppend(a: seq<Item>, b: seq<Item>)
    ensures Ids(a + b) == Ids(a) + Ids(b)
  {
  }

  lemma {:induction false} LevelAt(kernel: Kernel, level: nat, leaves: seq<seq<Item>>, base: nat)
    ensures EntriesAt(LevelPlans(kernel, level, leaves, base), level) == Ids(Flatten(leaves))
    ensures KeysAt(LevelPlans(kernel, level, leaves, base), level) == Ids(ParentRows(kernel, leaves, base))
    decreases |leaves|
  {
    if leaves != [] {
      LevelAt(kernel, level, leaves[1..], base + 1);
      LevelPlansFirst(kernel, level, leaves, base);
      AtFirst(Plan(base + 1, level, kernel.mean(leaves[0]), Ids(leaves[0])), LevelPlans(kernel, level, leaves[1..], base + 1));
      IdsAppend(leaves[0], Flatten(leaves[1..]));
      hide EntriesAt, KeysAt, Ids, LevelPlans, ParentRows, BigEndian;
    }
  }

  lemma IdsWithout(t: seq<Item>, i: nat)
    requires i < |t|
    ensures multiset(Ids(t)) == multiset(Ids(Without(t, i))) + multiset{t[i].id}
  {
    var a, b := Ids(t)[..i], Ids(t)[i + 1..];
    assert Ids(t) == a + [t[i].id] + b;
    assert Ids(Without(t, i)) == a + b;
  }

  lemma {:induction false} IdsPermute(s: seq<Item>, t: seq<Item>)
    requires multiset(s) == multiset(t)
    ensures multiset(Ids(s)) == multiset(Ids(t))
    decreases |s|
  {
    assert |multiset(s)| == |s| && |multiset(t)| == |t|;
    if s != [] {
      assert s[0] in multiset(t);
      var i := IndexOf(t, s[0]);
      IdsPermute(Without(s, 0), Without(t, i));
      IdsWithout(s, 0);
      IdsWithout(t, i);
    }
  }

  lemma CanonicalIncreasing(s: seq<Item>)
    requires Canonical(s)
    ensures Increasing(Ids(s))
  {
    forall i, j | 0 <= i < j < |s| ensures Less(Ids(s)[i], Ids(s)[j]) {
      assert Before(Canon, s[i], s[j]);
    }
  }

  /** A level that fits in the root is an exact tree by itself. */
  lemma RootExact(kernel: Kernel, config: Config, s: seq<Item>, level: nat, base: nat)
    requires Canonical(s) && |s| <= config.MaxEntries(level)
    ensures Exact(config, [Plan(1, level, kernel.mean(s), Ids(s))], Ids(s), level, base)
  {
    CanonicalIncreasing(s);
    var plans := [Plan(1, level, kernel.mean(s), Ids(s))];
    assert EntriesAt(plans[1..], level) == [];
  }

  /** Putting one grouped level below the tree of its parents links the two. */
  lemma LinkLevel(kernel: Kernel, s: seq<Item>, level: nat, leaves: seq<seq<Item>>, base: nat, rest: seq<Plan>)
    requires multiset(Flatten(leaves)) == multiset(s)
    requires Levelled(rest, level + 1)
    requires Linked(rest, Ids(ParentRows(kernel, leaves, base)), level + 1)
    ensures Linked(LevelPlans(kernel, level, leaves, base) + rest, Ids(s), level)
  {
    hide LevelPlans, EntriesAt, KeysAt, Flatten;
    var below := LevelPlans(kernel, level, leaves, base);
    var plans := below + rest;
    LevelAt(kernel, level, leaves, base);
    LevelsOf(kernel, level, leaves, base);
    IdsPermute(Flatten(leaves), s);
    NoneAt(rest, level);
    AtAppend(below, rest, level);
    assert EntriesAt(plans, level) == Ids(Flatten(leaves));
    assert KeysAt(plans, level) == Ids(ParentRows(kernel, leaves, base));
    forall l | level <= l < rest[|rest| - 1].level
      ensures multiset(EntriesAt(plans, l + 1)) == multiset(KeysAt(plans, l))
    {
      NoneAt(below, l + 1);
      AtAppend(below, rest, l + 1);
      assert EntriesAt(plans, l + 1) == EntriesAt(rest, l + 1);
      if l > level {
        NoneAt(below, l);
        AtAppend(below, rest, l);
        assert KeysAt(plans, l) == KeysAt(rest, l);
      }
    }
  }

  lemma LevelsOf(kernel: Kernel, level: nat, leaves: seq<seq<Item>>, base: nat)
    ensures forall i :: 0 <= i < |leaves| ==> LevelPlans(kernel, level, leaves, base)[i].level == level
  {
  }

  lemma LevelBelow(kernel: Kernel, config: Config, level: nat, leaves: seq<seq<Item>>, base: nat, rest: seq<Plan>)
    requires forall i :: 0 <= i < |leaves| ==> WellFilled(config, level, leaves[i])
    requires Numbered(rest, base + |leaves|) && Levelled(rest, level + 1) && Filled(config, rest)
    ensures var plans := LevelPlans(kernel, level, leaves, base) + rest;
            Numbered(plans, base) && Levelled(plans, level) && Filled(config, plans)
  {
    forall i | 0 <= i < |leaves| ensures Increasing(Ids(leaves[i])) {
      CanonicalIncreasing(leaves[i]);
    }
  }

  /** Whatever construction emits is an exact tree over its input. */
  lemma {:induction false} TreeExact(kernel: Kernel, config: Config, s: seq<Item>, level: nat, highWater: nat)
    requires Groupable(kernel, config, s)
    requires TreePlans(kernel, config, s, level, highWater).Some?
    ensures Exact(config, TreePlans(kernel, config, s, level, highWater).value, Ids(s), level, Max(highWater, 1))
    decreases |s|
  {
    hide Numbered, Levelled, Filled, Linked, Leaves, LevelPlans, ParentRows, Ids;
    if |s| <= config.MaxEntries(level) {
      RootExact(kernel, config, s, level, Max(highWater, 1));
    } else {
      var leaves, base := Leaves(kernel, config, s, level), Max(highWater, 1);
      LeavesExact(kernel, config, s, level);
      ParentRowsCanonical(kernel, leaves, base);
      var parents := ParentRows(kernel, leaves, base);
      TreeExact(kernel, config, parents, level + 1, base + |leaves|);
      var rest := TreePlans(kernel, config, parents, level + 1, base + |leaves|).value;
      LevelBelow(kernel, config, level, leaves, base, rest);
      LinkLevel(kernel, s, level, leaves, base, rest);
    }
  }

  // ---------------------------------------------------------------- centroids

  /** The rows that stand for the partitions of one level: key and centroid. */
  ghost function RowsAt(plans: seq<Plan>, level: nat): seq<Item> {
    if plans == [] then []
    else (if plans[0].level == level then [Item(BigEndian(plans[0].key, 8), plans[0].centroid)] else []) + RowsAt(plans[1..], level)
  }

  /** The plan names some of the rows, and its centroid is their mean. */
  ghost predicate MeanOf(kernel: Kernel, plan: Plan, rows: seq<Item>) {
    exists group :: plan.entries == Ids(group) && plan.centroid == kernel.mean(group) && forall j :: 0 <= j < |group| ==> group[j] in rows
  }

  /** Every centroid is the mean of what the partition holds: records on the lowest level, the
      centroids of its child partitions above it. */
  ghost predicate Centred(kernel: Kernel, plans: seq<Plan>, rows: seq<Item>, level: nat) {
    forall i :: 0 <= i < |plans| ==>
      MeanOf(kernel, plans[i], if plans[i].level <= level then rows else RowsAt(plans, plans[i].level - 1))
  }

  lemma {:induction false} RowsAtAppend(a: seq<Plan>, b: seq<Plan>, level: nat)
    ensures RowsAt(a + b, level) == RowsAt(a, level) + RowsAt(b, level)
    decreases |a|
  {
    hide BigEndian;
    if a == [] {
      assert a + b == b;
    } else {
      assert (a + b)[1..] == a[1..] + b;
      RowsAtAppend(a[1..], b, level);
    }
  }

  lemma {:induction false} NoRowsAt(plans: seq<Plan>, level: nat)
    requires forall i :: 0 <= i < |plans| ==> plans[i].level != level
    ensures RowsAt(plans, level) == []
    decreases |plans|
  {
    if plans != [] { NoRowsAt(plans[1..], level); }
  }

  /** Parent rows carry the keys and centroids of the level's plans. */
  lemma {:induction false} ParentRowsAt(kernel: Kernel, level: nat, leaves: seq<seq<Item>>, base: nat)
    ensures RowsAt(LevelPlans(kernel, level, leaves, base), level) == ParentRows(kernel, leaves, base)
    decreases |leaves|
  {
    hide BigEndian;
    if leaves != [] {
      ParentRowsAt(kernel, level, leaves[1..], base + 1);
      LevelPlansFirst(kernel, level, leaves, base);
      var first, rest := LevelPlans(kernel, level, leaves, base)[0], LevelPlans(kernel, level, leaves[1..], base + 1);
      assert LevelPlans(kernel, level, leaves, base)[1..] == rest;
      assert ParentRows(kernel, leaves, base) == [Item(BigEndian(base + 1, 8), kernel.mean(leaves[0]))] + ParentRows(kernel, leaves[1..], base + 1);
    }
  }

  lemma {:induction false} LeafRows(leaves: seq<seq<Item>>, i: nat, j: nat)
    requires i < |leaves| && j < |leaves[i]|
    ensures leaves[i][j] in Flatten(leaves)
    decreases |leaves|
  {
    if i > 0 { LeafRows(leaves[1..], i - 1, j); }
  }

  lemma LevelCentred(kernel: Kernel, s: seq<Item>, level: nat, leaves: seq<seq<Item>>, base: nat, i: nat)
    requires multiset(Flatten(leaves)) == multiset(s) && i < |leaves|
    ensures MeanOf(kernel, LevelPlans(kernel, level, leaves, base)[i], s)
  {
    forall j | 0 <= j < |leaves[i]| ensures leaves[i][j] in s {
      LeafRows(leaves, i, j);
      assert leaves[i][j] in multiset(s);
    }
  }

  /** Putting one grouped level below the tree of its parents keeps centroids right. */
  lemma CentredBelow(kernel: Kernel, s: seq<Item>, level: nat, leaves: seq<seq<Item>>, base: nat, rest: seq<Plan>)
    requires multiset(Flatten(leaves)) == multiset(s) && Levelled(rest, level + 1)
    requires Centred(kernel, rest, ParentRows(kernel, leaves, base), level + 1)
    ensures Centred(kernel, LevelPlans(kernel, level, leaves, base) + rest, s, level)
  {
    hide LevelPlans, RowsAt, MeanOf, Flatten;
    var below := LevelPlans(kernel, level, leaves, base);
    var plans := below + rest;
    LevelsOf(kernel, level, leaves, base);
    ParentRowsAt(kernel, level, leaves, base);
    forall i | 0 <= i < |plans|
      ensures MeanOf(kernel, plans[i], if plans[i].level <= level then s else RowsAt(plans, plans[i].level - 1))
    {
      if i < |below| {
        LevelCentred(kernel, s, level, leaves, base, i);
      } else {
        var plan := rest[i - |below|];
        RowsAtAppend(below, rest, plan.level - 1);
        if plan.level == level + 1 {
          NoRowsAt(rest, level);
          assert RowsAt(plans, level) == ParentRows(kernel, leaves, base);
        } else {
          NoRowsAt(below, plan.level - 1);
          assert RowsAt(plans, plan.level - 1) == RowsAt(rest, plan.level - 1);
        }
      }
    }
  }

  lemma RootCentred(kernel: Kernel, s: seq<Item>, level: nat)
    ensures Centred(kernel, [Plan(1, level, kernel.mean(s), Ids(s))], s, level)
  {
  }

  /** Every centroid of a finished tree is the mean of what its partition holds. */
  lemma {:induction false} TreeCentred(kernel: Kernel, config: Config, s: seq<Item>, level: nat, highWater: nat)
    requires Groupable(kernel, config, s)
    requires TreePlans(kernel, config, s, level, highWater).Some?
    ensures Centred(kernel, TreePlans(kernel, config, s, level, highWater).value, s, level)
    decreases |s|
  {
    hide Centred, Numbered, Levelled, Filled, Linked, Leaves, LevelPlans, ParentRows, Ids;
    if |s| <= config.MaxEntries(level) {
      RootCentred(kernel, s, level);
    } else {
      var leaves, base := Leaves(kernel, config, s, level), Max(highWater, 1);
      LeavesExact(kernel, config, s, level);
      ParentRowsCanonical(kernel, leaves, base);
      var parents := ParentRows(kernel, leaves, base);
      TreeCentred(kernel, config, parents, level + 1, base + |leaves|);
      TreeExact(kernel, config, parents, level + 1, base + |leaves|);
      CentredBelow(kernel, s, level, leaves, base, TreePlans(kernel, config, parents, level + 1, base + |leaves|).value);
    }
  }

  /** Below 2^32 - 1 records the level loop always reaches a root: every level has
      strictly fewer rows than the one below it. */
  lemma {:induction false} ReachesRoot(kernel: Kernel, config: Config, s: seq<Item>, level: nat, highWater: nat)
    requires Groupable(kernel, config, s)
    requires level + |s| <= U32_MAX && Max(highWater, 1) + |s| * |s| <= U64_MAX
    ensures TreePlans(kernel, config, s, level, highWater).Some?
    decreases |s|
  {
    hide Leaves, LevelPlans, ParentRows, Flatten, WellFilled;
    if |s| > config.MaxEntries(level) {
      var leaves, base := Leaves(kernel, config, s, level), Max(highWater, 1);
      LeavesExact(kernel, config, s, level);
      ParentRowsCanonical(kernel, leaves, base);
      Squares(|leaves|, |s|);
      ReachesRoot(kernel, config, ParentRows(kernel, leaves, base), level + 1, base + |leaves|);
    }
  }

  lemma Squares(m: nat, n: nat)
    requires m < n
    ensures m + m * m <= n * n
  {
    TimesMonotone(m, n, m + 1);
    TimesMonotone(m + 1, n, n);
    assert m * (m + 1) == m * m + m;
  }

  /** The keys in use are exactly 1 to the number of partitions. */
  lemma KeysAreDense(config: Config, plans: seq<Plan>, ids: seq<Bytes>, key: nat)
    requires Exact(config, plans, ids, 1, 1)
    ensures (exists i :: 0 <= i < |plans| && plans[i].key == key) <==> 1 <= key <= |plans|
  {
    if key == 1 {
      assert plans[|plans| - 1].key == key;
    } else if 2 <= key <= |plans| {
      assert plans[key - 2].key == key;
    }
  }
}
