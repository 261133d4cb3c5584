/** Construction rows and the total orders they are cut by.

    Every comparison in the construction stage is by a natural-number key and
    then by ID: canonical order (constant key), sampling order (seeded hash) and
    cutting order (center label). One order with the key as a parameter covers
    all three. With unique IDs a multiset of rows has exactly one sorted form. */
module Ordering {
  import opened Bytes

  type Vector = seq<real>

  /** One construction point. */
  datatype Item = Item(id: Bytes, vector: Vector)

  type Key = Item -> nat

  const Canon: Key := (x: Item) => 0

  predicate Before(key: Key, a: Item, b: Item) {
    key(a) < key(b) || (key(a) == key(b) && Less(a.id, b.id))
  }

  ghost predicate SortedBy(key: Key, s: seq<Item>) {
    forall i, j :: 0 <= i < j < |s| ==> Before(key, s[i], s[j])
  }

  ghost predicate Canonical(s: seq<Item>) {
    SortedBy(Canon, s)
  }

  ghost predicate DistinctIds(s: seq<Item>) {
    forall i, j :: 0 <= i < j < |s| ==> s[i].id != s[j].id
  }

  lemma BeforeIrreflexive(key: Key, a: Item)
    ensures !Before(key, a, a)
  {
    LessIrreflexive(a.id);
  }

  lemma BeforeTransitive(key: Key, a: Item, b: Item, c: Item)
    requires Before(key, a, b) && Before(key, b, c)
    ensures Before(key, a, c)
  {
    if key(a) == key(b) == key(c) { LessTransitive(a.id, b.id, c.id); }
  }

  lemma BeforeTotal(key: Key, a: Item, b: Item)
    requires a.id != b.id
    ensures Before(key, a, b) || Before(key, b, a)
  {
    LessTotal(a.id, b.id);
  }

  lemma BeforeAsymmetric(key: Key, a: Item, b: Item)
    requires Before(key, a, b)
    ensures !Before(key, b, a)
  {
    if Before(key, b, a) {
      BeforeTransitive(key, a, b, a);
      BeforeIrreflexive(key, a);
    }
  }

  // ---------------------------------------------------------------- sorting

  /** Inserts before the first row that must come later. */
  function Insert(key: Key, t: seq<Item>, x: Item): (r: seq<Item>)
    ensures multiset(r) == multiset(t) + multiset{x}
    ensures |r| == |t| + 1
    decreases |t|
  {
    if t == [] then [x]
    else if Before(key, x, t[0]) then [x] + t
    else
      assert t == [t[0]] + t[1..];
      [t[0]] + Insert(key, t[1..], x)
  }

  /** The sorted form of a sequence of rows. */
  function SortBy(key: Key, s: seq<Item>): (r: seq<Item>)
    ensures multiset(r) == multiset(s)
    ensures |r| == |s|
    decreases |s|
  {
    if s == [] then []
    else
      assert s == s[..|s| - 1] + [s[|s| - 1]];
      Insert(key, SortBy(key, s[..|s| - 1]), s[|s| - 1])
  }

  lemma {:induction false} InsertSorted(key: Key, t: seq<Item>, x: Item)
    requires SortedBy(key, t)
    requires forall i :: 0 <= i < |t| ==> t[i].id != x.id
    ensures SortedBy(key, Insert(key, t, x))
    decreases |t|
  {
    if t != [] {
      var r := Insert(key, t, x);
      if Before(key, x, t[0]) {
        forall j | 0 < j < |r| ensures Before(key, r[0], r[j]) {
          if j > 1 { BeforeTransitive(key, x, t[0], t[j - 1]); }
        }
      } else {
        InsertSorted(key, t[1..], x);
        BeforeTotal(key, x, t[0]);
        forall j | 0 < j < |r| ensures Before(key, r[0], r[j]) {
          assert r[j] in multiset(Insert(key, t[1..], x));
        }
      }
    }
  }

  function Without(s: seq<Item>, i: nat): (r: seq<Item>)
    requires i < |s|
    ensures |r| == |s| - 1
    ensures forall k :: 0 <= k < |r| ==> r[k] == s[if k < i then k else k + 1]
    ensures multiset(r) == multiset(s) - multiset{s[i]}
    ensures multiset(s) == multiset(r) + multiset{s[i]}
  {
    assert s == s[..i] + [s[i]] + s[i + 1..];
    s[..i] + s[i + 1..]
  }

  lemma SameLength(s: seq<Item>, t: seq<Item>)
    requires multiset(s) == multiset(t)
    ensures |s| == |t|
  {
    assert |multiset(s)| == |s| && |multiset(t)| == |t|;
  }

  /** Distinct IDs survive any rearrangement. */
  lemma DistinctIdsPermute(s: seq<Item>, t: seq<Item>)
    requires DistinctIds(s) && multiset(s) == multiset(t)
    ensures DistinctIds(t)
  {
    forall i, j | 0 <= i < j < |t| ensures t[i].id != t[j].id {
      var rest := Without(t, i);
      assert rest[j - 1] == t[j];
      assert t[i] in multiset(t);
      var a := IndexOf(s, t[i]);
      var others := Without(s, a);
      assert multiset(others) == multiset(rest);
      assert t[j] in multiset(rest);
      var b := IndexOf(others, t[j]);
    }
  }

  lemma IndexOf(s: seq<Item>, x: Item) returns (i: nat)
    requires x in s
    ensures i < |s| && s[i] == x
  {
    i :| 0 <= i < |s| && s[i] == x;
  }

  lemma {:induction false} SortBySorted(key: Key, s: seq<Item>)
    requires DistinctIds(s)
    ensures SortedBy(key, SortBy(key, s))
    decreases |s|
  {
    if s != [] {
      var front, x := s[..|s| - 1], s[|s| - 1];
      SortBySorted(key, front);
      var t := SortBy(key, front);
      forall i | 0 <= i < |t| ensures t[i].id != x.id {
        assert t[i] in multiset(front);
      }
      InsertSorted(key, t, x);
    }
  }

  lemma SortedDistinct(key: Key, s: seq<Item>)
    requires SortedBy(key, s)
    ensures NoRepeats(s)
  {
    forall i, j | 0 <= i < j < |s| ensures s[i] != s[j] {
      BeforeIrreflexive(key, s[i]);
    }
  }

  lemma CanonicalDistinctIds(s: seq<Item>)
    requires Canonical(s)
    ensures DistinctIds(s)
  {
    forall i, j | 0 <= i < j < |s| ensures s[i].id != s[j].id {
      LessIrreflexive(s[i].id);
    }
  }

  /** Sorted rearrangements start with the same row. */
  lemma SortedSameHead(key: Key, s: seq<Item>, t: seq<Item>)
    requires SortedBy(key, s) && SortedBy(key, t)
    requires multiset(s) == multiset(t) && s != [] && t != []
    ensures s[0] == t[0]
  {
    assert s[0] in multiset(s) && t[0] in multiset(t);
    var i := IndexOf(t, s[0]);
    var j := IndexOf(s, t[0]);
    if i > 0 && j > 0 {
      BeforeAsymmetric(key, t[0], s[0]);
      assert false;
    }
  }

  /** A sorted sequence is determined by its multiset. */
  lemma {:induction false} SortedUnique(key: Key, s: seq<Item>, t: seq<Item>)
    requires SortedBy(key, s) && SortedBy(key, t)
    requires multiset(s) == multiset(t)
    ensures s == t
    decreases |s|
  {
    assert |multiset(s)| == |s| && |multiset(t)| == |t|;
    if s != [] {
      SortedSameHead(key, s, t);
      var s', t' := Without(s, 0), Without(t, 0);
      SortedUnique(key, s', t');
      assert s == [s[0]] + s' && t == [t[0]] + t';
    }
  }

  lemma SortByUnique(key: Key, s: seq<Item>, t: seq<Item>)
    requires DistinctIds(s) && multiset(s) == multiset(t)
    ensures SortBy(key, s) == SortBy(key, t)
  {
    DistinctIdsPermute(s, t);
    SortBySorted(key, s);
    SortBySorted(key, t);
    SortedUnique(key, SortBy(key, s), SortBy(key, t));
  }

  lemma SortByFixed(key: Key, s: seq<Item>, t: seq<Item>)
    requires SortedBy(key, t) && multiset(s) == multiset(t) && DistinctIds(s)
    ensures SortBy(key, s) == t
  {
    SortBySorted(key, s);
    SortedUnique(key, SortBy(key, s), t);
  }

  /** A cut of an arrangement whose left rows all come before its right rows holds
      exactly the smallest rows. */
  lemma CutIsPrefix(key: Key, a: seq<Item>, b: seq<Item>, t: seq<Item>)
    requires SortedBy(key, t) && DistinctIds(t)
    requires multiset(a + b) == multiset(t)
    requires forall x, y :: x in a && y in b ==> Before(key, x, y)
    ensures |a| + |b| == |t|
    ensures multiset(a) == multiset(t[..|a|])
    ensures multiset(b) == multiset(t[|a|..])
  {
    DistinctIdsPermute(t, a + b);
    assert a == (a + b)[..|a|] && b == (a + b)[|a|..];
    SortBySorted(key, a);
    SortBySorted(key, b);
    var a', b' := SortBy(key, a), SortBy(key, b);
    forall i, j | 0 <= i < |a'| && 0 <= j < |b'| ensures Before(key, a'[i], b'[j]) {
      assert a'[i] in multiset(a) && b'[j] in multiset(b);
    }
    SortedUnique(key, a' + b', t);
    assert t[..|a|] == a' && t[|a|..] == b';
  }

  /** Cutting a sorted prefix keeps distinct IDs. */
  lemma SliceDistinctIds(s: seq<Item>, t: seq<Item>, lo: nat, hi: nat)
    requires DistinctIds(s) && multiset(s) == multiset(t) && lo <= hi <= |t|
    ensures DistinctIds(t[lo..hi])
  {
    DistinctIdsPermute(s, t);
  }

  ghost predicate NoRepeats(s: seq<Item>) {
    forall i, j :: 0 <= i < j < |s| ==> s[i] != s[j]
  }

  lemma CountOnce(s: seq<Item>, x: Item)
    requires NoRepeats(s)
    ensures multiset(s)[x] == if x in s then 1 else 0
  {
    if x in s {
      var i := IndexOf(s, x);
      var rest := Without(s, i);
      assert x !in rest;
    }
  }

  /** Sequences without repeats and with the same members are rearrangements. */
  lemma SameMembersPermute(s: seq<Item>, t: seq<Item>)
    requires NoRepeats(s) && NoRepeats(t)
    requires forall x :: x in s <==> x in t
    ensures multiset(s) == multiset(t)
  {
    forall x ensures multiset(s)[x] == multiset(t)[x] {
      CountOnce(s, x);
      CountOnce(t, x);
    }
  }
}
