/** The native graph stream and its strict validator.

    A stream is five 64-bit header fields, a table of 16-bit levels, and one block
    per node: its ordinal key, its level again, and for every layer a degree followed
    by a fixed number of target slots. `ValidStream` says what an acceptable stream is
    by reading fields at closed-form offsets; the validator is a single forward pass
    with stamped duplicate detection and a search over the base layer. */
module GraphStream {
  import opened Bytes
  import opened Reachability

  const MAX_NODES := 65_536
  const HEADER_BYTES := 40

  // ---------------------------------------------------------------- limits

  predicate ValidShape(n: nat, m: nat) {
    n <= MAX_NODES && 2 <= m <= MAX_NODES / 2
  }

  function Pow(m: nat, e: nat): nat {
    if e == 0 then 1 else m * Pow(m, e - 1)
  }

  lemma Quotient(p: nat, m: nat)
    requires m >= 2 && p >= m
    ensures 1 <= p / m < p
    ensures m * (p / m) <= p < m * (p / m) + m
  {
    var q := p / m;
    assert p == m * q + p % m;
    assert q < 2 * q <= m * q;
  }

  lemma Scale(m: nat, p: nat, q: nat, low: nat, high: nat)
    requires low <= q < high && m * q <= p < m * q + m
    ensures m * low <= p < m * high
  {
    assert m * low <= m * q;
    assert m * (q + 1) <= m * high;
  }

  lemma PowStep(m: nat, e: nat)
    ensures Pow(m, 0) == 1 && Pow(m, e + 1) == m * Pow(m, e)
  {
  }

  /** How often a population can be divided by `m` while at least `m` remain. */
  function Divisions(population: nat, m: nat): nat
    requires m >= 2
    decreases population
  {
    if population < m then 0 else
      Quotient(population, m);
      1 + Divisions(population / m, m)
  }

  function MaxLevel(m: nat): nat
    requires m >= 2
  {
    Divisions(MAX_NODES, m)
  }

  lemma {:induction false} DivisionsExact(population: nat, m: nat)
    requires m >= 2 && population > 0
    ensures Pow(m, Divisions(population, m)) <= population < Pow(m, Divisions(population, m) + 1)
    decreases population
  {
    hide Pow;
    if population < m {
      PowStep(m, 0);
    } else {
      Quotient(population, m);
      var q := population / m;
      DivisionsExact(q, m);
      var d := Divisions(q, m);
      Scale(m, population, q, Pow(m, d), Pow(m, d + 1));
      PowStep(m, d);
      PowStep(m, d + 1);
    }
  }

  lemma {:induction false} DivisionsBound(population: nat, m: nat, k: nat)
    requires m >= 2 && population < Pow(2, k + 1)
    ensures Divisions(population, m) <= k
    decreases k
  {
    hide Pow;
    PowStep(2, k);
    if population >= m {
      Quotient(population, m);
      var q := population / m;
      assert 2 * q <= m * q;
      if k == 0 {
        assert false;
      } else {
        DivisionsBound(q, m, k - 1);
      }
    }
  }

  /** No level exceeds 16, whatever the degree. */
  lemma MaxLevelAtMost16(m: nat)
    requires m >= 2
    ensures MaxLevel(m) <= 16
  {
    assert Pow(2, 17) == 131072 by {
      assert Pow(2, 4) == 16;
      assert Pow(2, 8) == 2 * (2 * (2 * (2 * Pow(2, 4))));
      assert Pow(2, 12) == 2 * (2 * (2 * (2 * Pow(2, 8))));
      assert Pow(2, 16) == 2 * (2 * (2 * (2 * Pow(2, 12))));
    }
    DivisionsBound(MAX_NODES, m, 16);
  }

  /** The level ceiling is the highest level expected to hold a node at full size. */
  method ComputeMaxLevel(m: nat) returns (level: nat)
    requires m >= 2
    ensures level == MaxLevel(m)
    ensures Pow(m, level) <= MAX_NODES < Pow(m, level + 1)
  {
    hide Pow;
    level := 0;
    var population := MAX_NODES;
    while population >= m
      invariant population >= 0
      invariant level + Divisions(population, m) == MaxLevel(m)
      decreases population
    {
      Quotient(population, m);
      population := population / m;
      level := level + 1;
    }
    DivisionsExact(MAX_NODES, m);
  }

  function Capacity(m: nat, layer: nat): nat {
    if layer == 0 then 2 * m else m
  }

  function LayerBytes(m: nat, layer: nat): nat {
    4 + 4 * Capacity(m, layer)
  }

  /** Bytes of the first `layers` layers of a node. */
  function LayersBytes(m: nat, layers: nat): nat {
    if layers == 0 then 0 else LayersBytes(m, layers - 1) + LayerBytes(m, layers - 1)
  }

  function NodeBytes(m: nat, level: nat): nat {
    10 + LayersBytes(m, level + 1)
  }

  function EncodedBound(n: nat, m: nat): nat
    requires m >= 2
  {
    var layers := MaxLevel(m);
    n * (12 + 4 * (layers + 1) + 4 * (2 * m + layers * m)) + HEADER_BYTES
  }

  function BuildBound(n: nat, m: nat): nat {
    n * (17 * (4 + 4 * m) + 4 * m + 192) + (1024 * m + 32768) + ((n + 2 * m + 1) * 128 + 8192)
  }

  function DecodeBound(n: nat, m: nat, bytes: nat): nat {
    BuildBound(n, m) + bytes + (n * (2 * 8 + 6) + 1024)
  }

  // ---------------------------------------------------------------- reading fields

  function FromLittleEndian(bytes: Bytes): (r: nat)
    ensures r < Span(|bytes|)
  {
    if bytes == [] then 0 else bytes[0] + 256 * FromLittleEndian(bytes[1..])
  }

  /** A native-endian field; absent fields read as zero. */
  function Field(little: bool, bytes: Bytes, at: nat, width: nat): nat {
    if at + width > |bytes| then 0
    else if little then FromLittleEndian(bytes[at..at + width])
    else FromBigEndian(bytes[at..at + width])
  }

  // ---------------------------------------------------------------- what a valid stream is

  function LevelAt(little: bool, bytes: Bytes, node: nat): nat {
    Field(little, bytes, HEADER_BYTES + 2 * node, 2)
  }

  /** The level table. */
  function LevelTable(little: bool, bytes: Bytes, n: nat): (r: seq<nat>)
    ensures |r| == n
  {
    seq(n, i requires 0 <= i < n => LevelAt(little, bytes, i))
  }

  /** Where a node's block starts. */
  function NodeStart(levels: seq<nat>, m: nat, node: nat): nat
    requires node <= |levels|
  {
    if node == 0 then HEADER_BYTES + 2 * |levels|
    else NodeStart(levels, m, node - 1) + NodeBytes(m, levels[node - 1])
  }

  function Degree(little: bool, bytes: Bytes, at: nat): nat {
    Field(little, bytes, at, 4)
  }

  function Target(little: bool, bytes: Bytes, at: nat, edge: nat): nat {
    Field(little, bytes, at + 4 + 4 * edge, 4)
  }

  /** An active edge leads to another node that exists on the layer. */
  predicate EdgeOk(little: bool, bytes: Bytes, at: nat, edge: nat, node: nat, layer: nat, levels: seq<nat>) {
    var target := Target(little, bytes, at, edge);
    target < |levels| && target != node && levels[target] >= layer
  }

  /** One layer: in bounds, of legal degree, active edges legal and distinct. Inactive
      slots may hold anything. */
  ghost predicate LayerOk(little: bool, bytes: Bytes, at: nat, node: nat, layer: nat, levels: seq<nat>, m: nat) {
    var degree := Degree(little, bytes, at);
    && at + LayerBytes(m, layer) <= |bytes|
    && degree <= Capacity(m, layer) && degree <= (if |levels| == 0 then 0 else |levels| - 1)
    && (forall e :: 0 <= e < degree ==> EdgeOk(little, bytes, at, e, node, layer, levels))
    && (forall e, f :: 0 <= e < f < degree ==> Target(little, bytes, at, e) != Target(little, bytes, at, f))
  }

  /** One node: its ordinal key, its level again, and every layer. */
  ghost predicate NodeOk(little: bool, bytes: Bytes, at: nat, node: nat, levels: seq<nat>, m: nat)
    requires node < |levels|
  {
    && at + 10 <= |bytes|
    && Field(little, bytes, at, 8) == node
    && Field(little, bytes, at + 8, 2) == levels[node]
    && forall layer :: 0 <= layer <= levels[node] ==>
        LayerOk(little, bytes, at + 10 + LayersBytes(m, layer), node, layer, levels, m)
  }

  /** The active base-layer neighbours of a node. */
  function BaseEdges(little: bool, bytes: Bytes, levels: seq<nat>, m: nat, node: nat): seq<nat>
    requires node < |levels|
  {
    var at := NodeStart(levels, m, node) + 10;
    seq(Degree(little, bytes, at), e requires 0 <= e < Degree(little, bytes, at) => Target(little, bytes, at, e))
  }

  function BaseLayer(little: bool, bytes: Bytes, levels: seq<nat>, m: nat): (r: Graph)
    ensures |r| == |levels|
  {
    seq(|levels|, v requires 0 <= v < |levels| => BaseEdges(little, bytes, levels, m, v))
  }

  ghost predicate HeaderOk(little: bool, bytes: Bytes, n: nat, m: nat) {
    && |bytes| >= HEADER_BYTES
    && Field(little, bytes, 0, 8) == n && Field(little, bytes, 8, 8) == m && Field(little, bytes, 16, 8) == 2 * m
  }

  /** The header alone is acceptable: its counts match the shape, and its entry fields could
      name a node of some legal level. */
  ghost predicate HeaderRight(little: bool, bytes: Bytes, n: nat, m: nat)
    requires m >= 2
  {
    var top, entry := Field(little, bytes, 24, 8), Field(little, bytes, 32, 8);
    && HeaderOk(little, bytes, n, m)
    && (if n == 0 then top == U64_MAX && entry == 0 else top <= MaxLevel(m) && entry < n)
  }

  /** The entry point: none in an empty graph, else a node of the highest level. */
  ghost predicate EntryOk(little: bool, bytes: Bytes, levels: seq<nat>) {
    var top, entry := Field(little, bytes, 24, 8), Field(little, bytes, 32, 8);
    if |levels| == 0 then top == U64_MAX && entry == 0
    else entry < |levels| && levels[entry] == top && forall v :: 0 <= v < |levels| ==> levels[v] <= top
  }

  /** The bytes are exactly one well-formed graph of `n` nodes and degree `m`. */
  ghost predicate ValidStream(little: bool, bytes: Bytes, n: nat, m: nat)
    requires m >= 2
  {
    var levels := LevelTable(little, bytes, n);
    && HeaderOk(little, bytes, n, m)
    && HEADER_BYTES + 2 * n <= |bytes|
    && (forall v :: 0 <= v < n ==> levels[v] <= MaxLevel(m))
    && (forall v :: 0 <= v < n ==> NodeOk(little, bytes, NodeStart(levels, m, v), v, levels, m))
    && |bytes| == NodeStart(levels, m, n)
    && EntryOk(little, bytes, levels)
    && (n > 0 ==> AllReachable(BaseLayer(little, bytes, levels, m), Field(little, bytes, 32, 8)))
  }

  lemma ValidHeader(little: bool, bytes: Bytes, n: nat, m: nat)
    requires m >= 2 && ValidStream(little, bytes, n, m)
    ensures HeaderRight(little, bytes, n, m)
  {
    hide NodeOk, AllReachable, NodeStart, MaxLevel, BaseLayer, Field;
  }

  // ---------------------------------------------------------------- the length bound

  lemma {:induction false} LayersBytesClosed(m: nat, layers: nat)
    ensures LayersBytes(m, layers + 1) == 4 * (layers + 1) + 4 * (2 * m + layers * m)
    decreases layers
  {
    if layers == 0 {
      assert LayersBytes(m, 1) == LayersBytes(m, 0) + LayerBytes(m, 0);
    } else {
      LayersBytesClosed(m, layers - 1);
      assert (layers - 1) * m + m == layers * m;
    }
  }

  lemma {:induction false} LayersBytesMonotone(m: nat, a: nat, b: nat)
    requires a <= b
    ensures LayersBytes(m, a) <= LayersBytes(m, b)
    decreases b
  {
    if a < b { LayersBytesMonotone(m, a, b - 1); }
  }

  lemma {:induction false} NodeStartBound(levels: seq<nat>, m: nat, node: nat, level: nat)
    requires node <= |levels| && forall v :: 0 <= v < |levels| ==> levels[v] <= level
    ensures NodeStart(levels, m, node) <= HEADER_BYTES + 2 * |levels| + node * NodeBytes(m, level)
    decreases node
  {
    if node > 0 {
      NodeStartBound(levels, m, node - 1, level);
      LayersBytesMonotone(m, levels[node - 1] + 1, level + 1);
      assert (node - 1) * NodeBytes(m, level) + NodeBytes(m, level) == node * NodeBytes(m, level);
    }
  }

  lemma Distribute(n: nat, per: nat)
    ensures n * (per + 2) == n * per + 2 * n
  {
  }

  /** No valid stream is longer than the admission bound. */
  lemma ValidStreamFits(little: bool, bytes: Bytes, n: nat, m: nat)
    requires m >= 2 && ValidStream(little, bytes, n, m)
    ensures |bytes| <= EncodedBound(n, m)
  {
    hide NodeOk, AllReachable, EntryOk, HeaderOk, NodeStart, MaxLevel, BaseLayer;
    var levels, top := LevelTable(little, bytes, n), MaxLevel(m);
    NodeStartBound(levels, m, n, top);
    LayersBytesClosed(m, top);
    Distribute(n, NodeBytes(m, top));
  }

  lemma {:induction false} NodeStartFull(levels: seq<nat>, m: nat, node: nat, level: nat)
    requires node <= |levels| && forall v :: 0 <= v < |levels| ==> levels[v] == level
    ensures NodeStart(levels, m, node) == HEADER_BYTES + 2 * |levels| + node * NodeBytes(m, level)
    decreases node
  {
    if node > 0 {
      NodeStartFull(levels, m, node - 1, level);
      assert (node - 1) * NodeBytes(m, level) + NodeBytes(m, level) == node * NodeBytes(m, level);
    }
  }

  /** The admission bound is tight: it is the length of a stream whose nodes all have the
      highest level. */
  lemma EncodedBoundTight(levels: seq<nat>, m: nat)
    requires m >= 2 && forall v :: 0 <= v < |levels| ==> levels[v] == MaxLevel(m)
    ensures NodeStart(levels, m, |levels|) == EncodedBound(|levels|, m)
  {
    hide NodeStart, MaxLevel, LayersBytes;
    NodeStartFull(levels, m, |levels|, MaxLevel(m));
    LayersBytesClosed(m, MaxLevel(m));
    Distribute(|levels|, NodeBytes(m, MaxLevel(m)));
  }

  // ---------------------------------------------------------------- the memory bound

  lemma TimesAtMost(n: nat, a: nat, b: nat)
    requires a <= b
    ensures n * a <= n * b
  {
    assert n * b == n * a + n * (b - a);
  }

  /** The loaded graph is charged at least the length of its longest stream. */
  lemma BuildCoversStream(n: nat, m: nat)
    requires m >= 2
    ensures EncodedBound(n, m) <= BuildBound(n, m)
  {
    MaxLevelAtMost16(m);
    hide MaxLevel;
    var layers := MaxLevel(m);
    TimesAtMost(m, layers, 16);
    TimesAtMost(n, 12 + 4 * (layers + 1) + 4 * (2 * m + layers * m), 17 * (4 + 4 * m) + 4 * m + 192);
  }

  /** Admission covers the input, the loaded graph, and what the pass holds: two bytes of level,
      eight of offset, four of mark and eight of stack for each node. */
  lemma DecodeCovers(n: nat, m: nat, bytes: nat, levels: nat, offsets: nat, marks: nat, stack: nat)
    requires m >= 2 && levels <= n && offsets <= n && marks <= n && stack <= n && bytes <= EncodedBound(n, m)
    ensures bytes + EncodedBound(n, m) + (2 * levels + 8 * offsets + 4 * marks + 8 * stack) <= DecodeBound(n, m, bytes)
  {
    BuildCoversStream(n, m);
    hide EncodedBound, BuildBound;
  }
}
