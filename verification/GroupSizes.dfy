/** How one oversized group is cut into children: the number of children, and
    boundaries that follow the natural cluster sizes as far as occupancy allows. */
module GroupSizes {
  import opened Bytes

  function Sum(s: seq<nat>): nat {
    if s == [] then 0 else s[0] + Sum(s[1..])
  }

  lemma {:induction false} SumAppend(s: seq<nat>, t: seq<nat>)
    ensures Sum(s + t) == Sum(s) + Sum(t)
    decreases |s|
  {
    if s == [] {
      assert s + t == t;
    } else {
      assert (s + t)[1..] == s[1..] + t;
      SumAppend(s[1..], t);
    }
  }

  lemma SumPrefix(s: seq<nat>, i: nat)
    requires i < |s|
    ensures Sum(s[..i + 1]) == Sum(s[..i]) + s[i]
    ensures Sum(s[..i + 1]) <= Sum(s)
  {
    assert s[..i + 1] == s[..i] + [s[i]];
    SumAppend(s[..i], [s[i]]);
    assert s == s[..i + 1] + s[i + 1..];
    SumAppend(s[..i + 1], s[i + 1..]);
  }

  /** Multiplication by repeated addition; keeps proofs linear. */
  function Product(a: nat, b: nat): nat {
    if a == 0 then 0 else Product(a - 1, b) + b
  }

  lemma {:induction false} ProductIsTimes(a: nat, b: nat)
    ensures Product(a, b) == a * b
    decreases a
  {
    if a > 0 { ProductIsTimes(a - 1, b); }
  }

  lemma {:induction false} ProductMonotone(a: nat, b: nat, c: nat, d: nat)
    requires a <= b && c <= d
    ensures Product(a, c) <= Product(b, d)
    decreases b
  {
    if b > 0 { ProductMonotone(if a < b then a else b - 1, b - 1, c, d); }
  }

  function CeilDiv(a: nat, b: nat): nat
    requires b > 0
  {
    (a + b - 1) / b
  }

  /** The most rows one child may take, so that recursion shrinks by a quarter. */
  function Cap(n: nat): nat {
    n - CeilDiv(n, 4)
  }

  function Min(a: int, b: int): int { if a < b then a else b }

  function Max(a: int, b: int): int { if a < b then b else a }

  // Unsigned 64-bit saturating arithmetic.
  function SatAdd(a: nat, b: nat): nat { Min(a + b, U64_MAX) }
  function SatMul(a: nat, b: nat): nat { Min(Product(a, b), U64_MAX) }
  function SatSub(a: nat, b: nat): nat { Max(a - b, 0) }

  function Clamp(x: int, lower: int, upper: int): int {
    Max(lower, Min(x, upper))
  }

  /** `rest` children of at most `cap` rows can take over at `previous`: there are
      enough rows for every minimum, and enough capacity for every row. */
  ghost predicate Feasible(n: nat, min: nat, cap: nat, rest: nat, previous: nat) {
    && previous + Product(rest, min) <= n <= U64_MAX
    && previous + Product(rest, cap) >= n
    && min <= cap
  }

  /** What `group_sizes` asks of its caller. */
  ghost predicate Splittable(counts: seq<nat>, min: nat) {
    && |counts| >= 2
    && min >= 1
    && Sum(counts) <= U64_MAX
    && Product(|counts|, min) <= Sum(counts)
  }

  lemma CapAtLeastHalf(n: nat)
    requires n >= 2
    ensures 2 * Cap(n) >= n
    ensures Cap(n) < n
  {
  }

  lemma SplittableFeasible(counts: seq<nat>, min: nat)
    requires Splittable(counts, min)
    ensures Feasible(Sum(counts), min, Cap(Sum(counts)), |counts|, 0)
  {
    var n, k := Sum(counts), |counts|;
    ProductMonotone(2, k, min, min);
    ProductIsTimes(2, min);
    CapAtLeastHalf(n);
    var cap := Cap(n);
    ProductMonotone(2, k, cap, cap);
    ProductIsTimes(2, cap);
  }

  function Lower(n: nat, min: nat, cap: nat, remaining: nat, previous: nat): nat {
    Max(previous + min, SatSub(n, SatMul(remaining, cap)))
  }

  function Upper(n: nat, min: nat, cap: nat, remaining: nat, previous: nat): int {
    Min(SatAdd(previous, cap), n - Product(remaining, min))
  }

  /** The natural boundary, moved into the feasible interval. */
  function Boundary(n: nat, min: nat, cap: nat, remaining: nat, previous: nat, natural: nat): int {
    Clamp(natural, Lower(n, min, cap, remaining, previous), Upper(n, min, cap, remaining, previous))
  }

  /** The clamp interval is never empty, its arithmetic never leaves u64, and every
      boundary in it leaves the remaining children feasible. */
  lemma IntervalNonempty(n: nat, min: nat, cap: nat, remaining: nat, previous: nat, natural: nat)
    requires Feasible(n, min, cap, remaining + 1, previous)
    ensures Product(remaining, min) <= n && previous + min <= U64_MAX
    ensures Lower(n, min, cap, remaining, previous) <= Upper(n, min, cap, remaining, previous)
    ensures var end := Boundary(n, min, cap, remaining, previous, natural);
            previous + min <= end <= previous + cap && Feasible(n, min, cap, remaining, end)
  {
    ProductMonotone(remaining, remaining, min, cap);
  }

  /** The state of the boundary loop after `index` children. */
  datatype Cut = Cut(sizes: seq<nat>, natural: nat, previous: nat)

  /** One pass of the boundary loop leads from `c` to `d`. */
  ghost predicate CutsOn(counts: seq<nat>, min: nat, n: nat, cap: nat, index: nat, c: Cut, d: Cut) {
    && 0 < index <= |counts|
    && d.natural == c.natural + counts[index - 1]
    && d.previous == Boundary(n, min, cap, |counts| - index, c.previous, d.natural)
    && c.previous + min <= d.previous <= c.previous + cap
    && d.sizes == c.sizes + [d.previous - c.previous]
  }

  function NextCut(counts: seq<nat>, min: nat, n: nat, cap: nat, index: nat, c: Cut): (d: Cut)
    requires 0 < index <= |counts| && Feasible(n, min, cap, |counts| - index + 1, c.previous)
    ensures CutsOn(counts, min, n, cap, index, c, d) && Feasible(n, min, cap, |counts| - index, d.previous)
  {
    var natural := c.natural + counts[index - 1];
    IntervalNonempty(n, min, cap, |counts| - index, c.previous, natural);
    var end := Boundary(n, min, cap, |counts| - index, c.previous, natural);
    Cut(c.sizes + [end - c.previous], natural, end)
  }

  function CutAt(counts: seq<nat>, min: nat, n: nat, cap: nat, index: nat): (c: Cut)
    requires index <= |counts| && Feasible(n, min, cap, |counts|, 0)
    ensures Feasible(n, min, cap, |counts| - index, c.previous)
    ensures |c.sizes| == index && Sum(c.sizes) == c.previous
    ensures c.natural == Sum(counts[..index])
    decreases index
  {
    if index == 0 then Cut([], 0, 0) else
      var c := CutAt(counts, min, n, cap, index - 1);
      var d := NextCut(counts, min, n, cap, index, c);
      SumPrefix(counts, index - 1);
      SumAppend(c.sizes, [d.previous - c.previous]);
      d
  }

  lemma CutUnfold(counts: seq<nat>, min: nat, n: nat, cap: nat, index: nat)
    requires 0 < index <= |counts| && Feasible(n, min, cap, |counts|, 0)
    ensures CutsOn(counts, min, n, cap, index, CutAt(counts, min, n, cap, index - 1), CutAt(counts, min, n, cap, index))
  {
    hide Boundary, Feasible, Sum, Product, CutsOn, NextCut;
  }

  lemma {:induction false} CutsWithin(counts: seq<nat>, min: nat, n: nat, cap: nat, index: nat)
    requires index <= |counts| && Feasible(n, min, cap, |counts|, 0)
    ensures var c := CutAt(counts, min, n, cap, index);
            forall i :: 0 <= i < index ==> min <= c.sizes[i] <= cap
  {
    if index > 0 {
      CutsWithin(counts, min, n, cap, index - 1);
      CutUnfold(counts, min, n, cap, index);
      hide CutAt, Feasible;
    }
  }

  function Sizes(counts: seq<nat>, min: nat): (r: seq<nat>)
    requires Splittable(counts, min)
    ensures |r| == |counts|
    ensures Sum(r) == Sum(counts)
    ensures forall i :: 0 <= i < |r| ==> min <= r[i] <= Cap(Sum(counts))
  {
    SizesWithin(counts, min);
    CutAt(counts, min, Sum(counts), Cap(Sum(counts)), |counts|).sizes
  }

  lemma SizesWithin(counts: seq<nat>, min: nat)
    requires Splittable(counts, min)
    ensures Feasible(Sum(counts), min, Cap(Sum(counts)), |counts|, 0)
    ensures var r := CutAt(counts, min, Sum(counts), Cap(Sum(counts)), |counts|).sizes;
            && |r| == |counts| && Sum(r) == Sum(counts)
            && forall i :: 0 <= i < |r| ==> min <= r[i] <= Cap(Sum(counts))
  {
    SplittableFeasible(counts, min);
    CutsWithin(counts, min, Sum(counts), Cap(Sum(counts)), |counts|);
  }

  ghost predicate WithinBounds(counts: seq<nat>, min: nat, max: nat) {
    forall i :: 0 <= i < |counts| ==> min <= counts[i] <= max
  }

  lemma {:induction false} SumBounds(counts: seq<nat>, min: nat, max: nat)
    requires WithinBounds(counts, min, max)
    ensures Product(|counts|, min) <= Sum(counts) <= Product(|counts|, max)
    decreases |counts|
  {
    if counts != [] {
      SumBounds(counts[1..], min, max);
    }
  }

  /** A natural boundary inside the interval is not moved. */
  lemma LegalBoundary(n: nat, min: nat, cap: nat, remaining: nat, previous: nat, natural: nat)
    requires n <= U64_MAX
    requires previous + min <= natural <= previous + cap
    requires natural + Product(remaining, min) <= n <= natural + Product(remaining, cap)
    ensures Boundary(n, min, cap, remaining, previous, natural) == natural
  {
  }

  /** Where a legal cut falls, in the terms of `LegalBoundary`. */
  lemma LegalSplit(counts: seq<nat>, min: nat, cap: nat, index: nat)
    requires 0 < index <= |counts| && WithinBounds(counts, min, cap)
    ensures Sum(counts[..index]) == Sum(counts[..index - 1]) + counts[index - 1]
    ensures min <= counts[index - 1] <= cap
    ensures Sum(counts[..index]) + Product(|counts| - index, min) <= Sum(counts)
    ensures Sum(counts) <= Sum(counts[..index]) + Product(|counts| - index, cap)
  {
    hide Sum, Product;
    SumPrefix(counts, index - 1);
    SumBounds(counts[index..], min, cap);
    assert counts == counts[..index] + counts[index..];
    SumAppend(counts[..index], counts[index..]);
  }

  lemma {:induction false} LegalCutsKept(counts: seq<nat>, min: nat, cap: nat, index: nat)
    requires index <= |counts| && Feasible(Sum(counts), min, cap, |counts|, 0)
    requires WithinBounds(counts, min, cap)
    ensures var c := CutAt(counts, min, Sum(counts), cap, index);
            c.sizes == counts[..index] && c.previous == c.natural == Sum(counts[..index])
    decreases index
  {
    if index > 0 {
      LegalCutsKept(counts, min, cap, index - 1);
      CutUnfold(counts, min, Sum(counts), cap, index);
      var c, d := CutAt(counts, min, Sum(counts), cap, index - 1), CutAt(counts, min, Sum(counts), cap, index);
      LegalStep(counts, min, cap, index, c, d);
      hide *;
    }
  }

  lemma LegalStep(counts: seq<nat>, min: nat, cap: nat, index: nat, c: Cut, d: Cut)
    requires WithinBounds(counts, min, cap) && Sum(counts) <= U64_MAX
    requires CutsOn(counts, min, Sum(counts), cap, index, c, d)
    requires c.sizes == counts[..index - 1] && c.previous == c.natural == Sum(counts[..index - 1])
    ensures d.sizes == counts[..index] && d.previous == d.natural == Sum(counts[..index])
  {
    hide Boundary, Sum, Product, WithinBounds;
    LegalSplit(counts, min, cap, index);
    LegalBoundary(Sum(counts), min, cap, |counts| - index, Sum(counts[..index - 1]), Sum(counts[..index]));
    PrefixNext(counts, index);
  }

  lemma PrefixNext(counts: seq<nat>, index: nat)
    requires 0 < index <= |counts|
    ensures counts[..index] == counts[..index - 1] + [counts[index - 1]]
  {
  }

  /** Natural cluster sizes that already satisfy every bound are kept. */
  lemma LegalCountsKept(counts: seq<nat>, min: nat)
    requires Splittable(counts, min)
    requires WithinBounds(counts, min, Cap(Sum(counts)))
    ensures Sizes(counts, min) == counts
  {
    SplittableFeasible(counts, min);
    LegalCutsKept(counts, min, Cap(Sum(counts)), |counts|);
    assert counts[..|counts|] == counts;
  }

  // ------------------------------------------------------------ nearest legal boundary

  /** A child may end at row `e`: it has its minimum and at most three quarters of the rows,
      and so can each of the `remaining` children have. */
  ghost predicate LegalEnd(n: nat, min: nat, remaining: nat, previous: nat, e: nat) {
    && previous + min <= e && 4 * (e - previous) <= 3 * n
    && e + remaining * min <= n <= e + remaining * (3 * n / 4)
  }

  function Distance(a: int, b: int): nat {
    if a < b then b - a else a - b
  }

  lemma CapIsThreeQuarters(n: nat)
    ensures Cap(n) == 3 * n / 4 && 4 * Cap(n) <= 3 * n < 4 * (Cap(n) + 1)
  {
  }

  /** The legal ends are exactly the clamp interval. */
  lemma LegalInterval(n: nat, min: nat, remaining: nat, previous: nat, e: nat)
    requires Feasible(n, min, Cap(n), remaining + 1, previous)
    ensures LegalEnd(n, min, remaining, previous, e) <==>
            Lower(n, min, Cap(n), remaining, previous) <= e <= Upper(n, min, Cap(n), remaining, previous)
  {
    CapIsThreeQuarters(n);
    ProductIsTimes(remaining, min);
    ProductIsTimes(remaining, Cap(n));
    hide Product, Cap;
  }

  lemma BoundaryNearest(n: nat, min: nat, remaining: nat, previous: nat, natural: nat, e: nat)
    requires Feasible(n, min, Cap(n), remaining + 1, previous)
    ensures var end := Boundary(n, min, Cap(n), remaining, previous, natural);
            && 0 <= end && LegalEnd(n, min, remaining, previous, end)
            && (LegalEnd(n, min, remaining, previous, e) ==> Distance(end, natural) <= Distance(e, natural))
  {
    hide LegalEnd, Lower, Upper, Cap, Product;
    IntervalNonempty(n, min, Cap(n), remaining, previous, natural);
    LegalInterval(n, min, remaining, previous, e);
    LegalInterval(n, min, remaining, previous, Boundary(n, min, Cap(n), remaining, previous, natural));
  }

  lemma {:induction false} CutPrefix(counts: seq<nat>, min: nat, n: nat, cap: nat, index: nat, total: nat)
    requires index <= total <= |counts| && Feasible(n, min, cap, |counts|, 0)
    ensures var c := CutAt(counts, min, n, cap, index);
            CutAt(counts, min, n, cap, total).sizes[..index] == c.sizes && Sum(c.sizes) == c.previous
    decreases total
  {
    hide Boundary, Feasible, NextCut;
    var c := CutAt(counts, min, n, cap, index);
    assert c.sizes[..index] == c.sizes;
    if index < total {
      CutPrefix(counts, min, n, cap, index, total - 1);
      CutUnfold(counts, min, n, cap, total);
      var d := CutAt(counts, min, n, cap, total - 1);
      assert CutAt(counts, min, n, cap, total).sizes[..index] == d.sizes[..index];
    }
  }

  /** Every child ends at the legal row nearest to where its natural clusters end. */
  lemma SizesNearest(counts: seq<nat>, min: nat, index: nat, e: nat)
    requires Splittable(counts, min) && index < |counts|
    ensures var n, remaining := Sum(counts), |counts| - index - 1;
            var previous, end := Sum(Sizes(counts, min)[..index]), Sum(Sizes(counts, min)[..index + 1]);
            var natural := Sum(counts[..index + 1]);
            && LegalEnd(n, min, remaining, previous, end)
            && (LegalEnd(n, min, remaining, previous, e) ==> Distance(end, natural) <= Distance(e, natural))
  {
    hide Boundary, Feasible, LegalEnd, Sum, Cap, Product, CutAt;
    var n := Sum(counts);
    SplittableFeasible(counts, min);
    CutPrefix(counts, min, n, Cap(n), index, |counts|);
    CutPrefix(counts, min, n, Cap(n), index + 1, |counts|);
    CutUnfold(counts, min, n, Cap(n), index + 1);
    var c, d := CutAt(counts, min, n, Cap(n), index), CutAt(counts, min, n, Cap(n), index + 1);
    BoundaryNearest(n, min, |counts| - index - 1, c.previous, d.natural, e);
  }

  method Total(counts: seq<nat>) returns (n: nat)
    requires Sum(counts) <= U64_MAX
    ensures n == Sum(counts)
  {
    n := 0;
    for i := 0 to |counts|
      invariant n == Sum(counts[..i]) <= U64_MAX
    {
      SumPrefix(counts, i);
      n := n + counts[i];
    }
    assert counts[..|counts|] == counts;
  }

  /** One clamped boundary, with every u64 operation shown not to wrap. */
  method NextBoundary(n: nat, min: nat, max: nat, remaining: nat, previous: nat, naturalEnd: nat) returns (end: nat)
    requires Feasible(n, min, max, remaining + 1, previous)
    ensures end == Boundary(n, min, max, remaining, previous, naturalEnd) >= previous
  {
    IntervalNonempty(n, min, max, remaining, previous, naturalEnd);
    ProductIsTimes(remaining, min);
    assert previous + min <= U64_MAX && remaining * min <= n;
    var lower := Max(previous + min, SatSub(n, SatMul(remaining, max)));
    var upper := Min(SatAdd(previous, max), n - remaining * min);
    end := Clamp(naturalEnd, lower, upper);
  }

  /** The boundary loop. */
  method ClampBoundaries(counts: seq<nat>, min: nat) returns (sizes: seq<nat>)
    requires Splittable(counts, min)
    ensures sizes == Sizes(counts, min)
  {
    hide Boundary, Sum, Feasible;
    var n := Total(counts);
    SplittableFeasible(counts, min);
    var max := Cap(n);
    var naturalEnd: nat, previous: nat := 0, 0;
    sizes := [];
    for index := 0 to |counts|
      invariant Cut(sizes, naturalEnd, previous) == CutAt(counts, min, n, max, index)
    {
      SumPrefix(counts, index);
      naturalEnd := naturalEnd + counts[index];
      assert naturalEnd <= U64_MAX;
      var end := NextBoundary(n, min, max, |counts| - index - 1, previous, naturalEnd);
      var size: nat := end - previous;
      sizes := sizes + [size];
      previous := end;
    }
  }

  // ------------------------------------------------------------ fanout

  /** How many centers a group of `n` rows trains from a sample of `sampled` rows. */
  function Fanout(n: nat, sampled: nat, maximum: nat): nat
    requires maximum > 0
  {
    Max(Min(sampled, Min(CeilDiv(n, maximum), 8)), 2)
  }

  /** The fanout is the least number of children whose maxima hold the rows, but at most eight,
      at most the sample, and at least two. */
  lemma FanoutLeast(n: nat, sampled: nat, maximum: nat, k: nat)
    requires maximum > 0
    ensures var fanout := Fanout(n, sampled, maximum);
            && fanout >= 2 && (fanout > 2 ==> fanout <= 8 && fanout <= sampled && Product(fanout - 1, maximum) < n)
            && (n <= Product(fanout, maximum) || fanout >= 8 || fanout >= sampled)
            && (2 <= k && n <= Product(k, maximum) ==> fanout <= k)
  {
    hide Product, CeilDiv;
    var desired := CeilDiv(n, maximum);
    if n > 0 { CeilDivTight(n, maximum); } else { CeilDivNone(maximum); }
    CeilDivCovers(n, maximum);
    var fanout := Fanout(n, sampled, maximum);
    if fanout > 2 { ProductMonotone(fanout - 1, desired - 1, maximum, maximum); }
    if fanout >= desired { ProductMonotone(desired, fanout, maximum, maximum); }
    if k < desired { ProductMonotone(k, desired - 1, maximum, maximum); }
  }

  lemma CeilDivNone(d: nat)
    requires d > 0
    ensures CeilDiv(0, d) == 0
  {
  }

  lemma CeilDivCovers(n: nat, d: nat)
    requires d > 0
    ensures n <= Product(CeilDiv(n, d), d)
  {
    var q := (n + d - 1) / d;
    assert n + d - 1 == q * d + (n + d - 1) % d;
    ProductIsTimes(q, d);
  }

  lemma TimesMonotone(a: nat, b: nat, c: nat)
    requires a <= b
    ensures a * c <= b * c && c * a <= c * b
  {
    assert b * c == a * c + (b - a) * c;
  }

  /** Any group over its maximum gets a fanout every child of which can meet the
      minimum, and which is smaller than the group itself. */
  lemma FanoutFeasible(n: nat, sampled: nat, minimum: nat, maximum: nat)
    requires 1 <= minimum && 2 * minimum <= maximum
    requires n > maximum
    ensures 2 <= Fanout(n, sampled, maximum) <= 8
    ensures Product(Fanout(n, sampled, maximum), minimum) <= n
    ensures Fanout(n, sampled, maximum) < n
  {
    var k, desired := Fanout(n, sampled, maximum), CeilDiv(n, maximum);
    if k == 2 {
      ProductIsTimes(2, minimum);
    } else {
      CeilDivTight(n, maximum);
      FanoutArithmetic(n, k, desired, minimum, maximum);
    }
  }

  lemma CeilDivTight(n: nat, d: nat)
    requires n > 0 && d > 0
    ensures CeilDiv(n, d) >= 1 && Product(CeilDiv(n, d) - 1, d) < n
  {
    var q := (n + d - 1) / d;
    assert q * d <= n + d - 1;
    assert (q - 1) * d == q * d - d;
    ProductIsTimes(q - 1, d);
  }

  lemma FanoutArithmetic(n: nat, k: nat, desired: nat, minimum: nat, maximum: nat)
    requires 1 <= minimum && 2 * minimum <= maximum
    requires 2 <= k <= desired && Product(desired - 1, maximum) < n
    ensures Product(k, minimum) <= n && k < n
  {
    ProductMonotone(k - 1, desired - 1, maximum, maximum);
    ProductMonotone(k - 1, k - 1, 2 * minimum, maximum);
    DoubleCovers(k, minimum);
    ProductMonotone(k, k, 1, minimum);
    ProductIsTimes(k, 1);
  }

  lemma {:induction false} DoubleCovers(k: nat, minimum: nat)
    requires k >= 2
    ensures Product(k, minimum) <= Product(k - 1, 2 * minimum)
    decreases k
  {
    if k == 2 {
      ProductIsTimes(2, minimum);
    } else {
      DoubleCovers(k - 1, minimum);
    }
  }
}
