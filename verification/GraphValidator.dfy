/** The one-pass validator of native graph streams. */
module GraphValidator {
  import opened Bytes
  import opened Checkpoints
  import opened Ordinals
  import opened Reachability
  import opened GraphImage
  import opened GraphStream

  datatype Check = Pass | Invalid | Stopped

  datatype Verdict = Valid | InvalidArgument | InvalidEncoding | LimitExceeded | Cancelled

  /** Checked native-endian field reads. */
  class Cursor {
    const little: bool
    const bytes: Bytes
    var position: nat

    constructor (little: bool, bytes: Bytes)
      ensures this.little == little && this.bytes == bytes && position == 0
    {
      this.little, this.bytes, position := little, bytes, 0;
    }

    method Read(width: nat) returns (ok: bool, value: nat)
      modifies this
      ensures ok <==> old(position) + width <= |bytes|
      ensures ok ==> position == old(position) + width
      ensures value == Field(little, bytes, old(position), width)
    {
      value := Field(little, bytes, position, width);
      ok := Skip(width);
    }

    method Skip(count: nat) returns (ok: bool)
      modifies this
      ensures ok <==> old(position) + count <= |bytes|
      ensures ok ==> position == old(position) + count
    {
      position := position + count;
      ok := position <= |bytes|;
    }
  }

  /** The targets of the first `edges` edges, exactly the nodes bearing the stamp. */
  ghost predicate Stamped(little: bool, bytes: Bytes, at: nat, edges: nat, seen: seq<nat>, stamp: nat) {
    && (forall t :: 0 <= t < |seen| ==> seen[t] <= stamp)
    && (forall t :: 0 <= t < |seen| && seen[t] == stamp ==> exists e :: 0 <= e < edges && Target(little, bytes, at, e) == t)
    && (forall e :: 0 <= e < edges ==> Target(little, bytes, at, e) < |seen| && seen[Target(little, bytes, at, e)] == stamp)
    && (forall e, f :: 0 <= e < f < edges ==> Target(little, bytes, at, e) != Target(little, bytes, at, f))
  }

  lemma StampNext(little: bool, bytes: Bytes, at: nat, edges: nat, seen: seq<nat>, stamp: nat)
    requires Stamped(little, bytes, at, edges, seen, stamp)
    requires Target(little, bytes, at, edges) < |seen| && seen[Target(little, bytes, at, edges)] != stamp
    ensures Stamped(little, bytes, at, edges + 1, seen[Target(little, bytes, at, edges) := stamp], stamp)
  {
    hide Field;
    var target := Target(little, bytes, at, edges);
    var next := seen[target := stamp];
    forall t | 0 <= t < |next| && next[t] == stamp
      ensures exists e :: 0 <= e < edges + 1 && Target(little, bytes, at, e) == t
    {
      if t == target {
        assert Target(little, bytes, at, edges) == t;
      } else {
        var e :| 0 <= e < edges && Target(little, bytes, at, e) == t;
        assert 0 <= e < edges + 1;
      }
    }
  }

  /** A stamped target repeats an earlier edge. */
  lemma StampedRepeats(little: bool, bytes: Bytes, at: nat, edge: nat, degree: nat, seen: seq<nat>, stamp: nat,
                       node: nat, layer: nat, levels: seq<nat>, m: nat)
    requires Stamped(little, bytes, at, edge, seen, stamp) && edge < degree == Degree(little, bytes, at)
    requires Target(little, bytes, at, edge) < |seen| && seen[Target(little, bytes, at, edge)] == stamp
    ensures !LayerOk(little, bytes, at, node, layer, levels, m)
  {
    hide Field, EdgeOk;
    var e :| 0 <= e < edge && Target(little, bytes, at, e) == Target(little, bytes, at, edge);
  }

  lemma StampNone(little: bool, bytes: Bytes, at: nat, seen: seq<nat>, stamp: nat)
    requires forall t :: 0 <= t < |seen| ==> seen[t] < stamp
    ensures Stamped(little, bytes, at, 0, seen, stamp)
  {
  }

  lemma StampedFacts(little: bool, bytes: Bytes, at: nat, edges: nat, seen: seq<nat>, stamp: nat)
    requires Stamped(little, bytes, at, edges, seen, stamp)
    ensures forall t :: 0 <= t < |seen| ==> seen[t] <= stamp
    ensures forall e, f :: 0 <= e < f < edges ==> Target(little, bytes, at, e) != Target(little, bytes, at, f)
  {
  }

  /** An active edge that is truncated or illegal condemns its layer. */
  lemma BadEdge(little: bool, bytes: Bytes, at: nat, edge: nat, node: nat, layer: nat, levels: seq<nat>, m: nat)
    requires edge < Degree(little, bytes, at)
    ensures LayerOk(little, bytes, at, node, layer, levels, m) ==>
      && at + 8 + 4 * edge <= |bytes|
      && var target := Target(little, bytes, at, edge);
      && target < |levels| && target != node && levels[target] >= layer
    ensures EdgeOk(little, bytes, at, edge, node, layer, levels) <==>
      var target := Target(little, bytes, at, edge);
      target < |levels| && target != node && levels[target] >= layer
  {
    hide Field;
    if LayerOk(little, bytes, at, node, layer, levels, m) {
      assert EdgeOk(little, bytes, at, edge, node, layer, levels);
    }
  }

  /** Reads and checks one active edge list. */
  method CheckEdges(cursor: Cursor, control: Control, node: nat, layer: nat, levels: seq<nat>, ghost m: nat,
                    degree: nat, seen: array<nat>, stamp: nat, ghost at: nat) returns (r: Check)
    requires seen.Length == |levels| && (forall t :: 0 <= t < |levels| ==> seen[t] < stamp)
    requires cursor.position == at + 4 && degree == Degree(cursor.little, cursor.bytes, at) <= Capacity(m, layer)
    modifies cursor, control, seen
    ensures forall t :: 0 <= t < |levels| ==> seen[t] <= stamp
    ensures r.Pass? ==>
      && cursor.position == at + 4 + 4 * degree
      && (forall e :: 0 <= e < degree ==> EdgeOk(cursor.little, cursor.bytes, at, e, node, layer, levels))
      && (forall e, f :: 0 <= e < f < degree ==>
            Target(cursor.little, cursor.bytes, at, e) != Target(cursor.little, cursor.bytes, at, f))
    ensures r.Invalid? ==> !LayerOk(cursor.little, cursor.bytes, at, node, layer, levels, m)
    ensures control.Answered(old(control.calls), !r.Stopped?)
  {
    hide Field, Stamped, LayerOk, EdgeOk;
    StampNone(cursor.little, cursor.bytes, at, seen[..], stamp);
    for edge := 0 to degree
      invariant control.Answered(old(control.calls), true)
      invariant cursor.position == at + 4 + 4 * edge
      invariant Stamped(cursor.little, cursor.bytes, at, edge, seen[..], stamp)
      invariant forall e :: 0 <= e < edge ==> EdgeOk(cursor.little, cursor.bytes, at, e, node, layer, levels)
    {
      StampedFacts(cursor.little, cursor.bytes, at, edge, seen[..], stamp);
      BadEdge(cursor.little, cursor.bytes, at, edge, node, layer, levels, m);
      if edge % 64 == 0 {
        var ok := control.Proceed();
        if !ok {
          return Stopped;
        }
      }
      var ok, target := cursor.Read(4);
      if !ok {
        return Invalid;
      }
      assert target == Target(cursor.little, cursor.bytes, at, edge);
      if target >= |levels| || target == node || levels[target] < layer {
        return Invalid;
      }
      if seen[target] == stamp {
        StampedRepeats(cursor.little, cursor.bytes, at, edge, degree, seen[..], stamp, node, layer, levels, m);
        return Invalid;
      }
      StampNext(cursor.little, cursor.bytes, at, edge, seen[..], stamp);
      ghost var before := seen[..];
      seen[target] := stamp;
      assert seen[..] == before[target := stamp];
    }
    StampedFacts(cursor.little, cursor.bytes, at, degree, seen[..], stamp);
    r := Pass;
  }

  /** Checks one layer of one node and skips its inactive slots. */
  method CheckLayer(cursor: Cursor, control: Control, node: nat, layer: nat, levels: seq<nat>, m: nat,
                    seen: array<nat>, stamp: nat) returns (r: Check)
    requires seen.Length == |levels| && (forall t :: 0 <= t < |levels| ==> seen[t] < stamp)
    modifies cursor, control, seen
    ensures forall t :: 0 <= t < |levels| ==> seen[t] <= stamp
    ensures r.Pass? ==>
      && LayerOk(cursor.little, cursor.bytes, old(cursor.position), node, layer, levels, m)
      && cursor.position == old(cursor.position) + LayerBytes(m, layer)
    ensures r.Invalid? ==> !LayerOk(cursor.little, cursor.bytes, old(cursor.position), node, layer, levels, m)
    ensures control.Answered(old(control.calls), !r.Stopped?)
  {
    hide Field, EdgeOk, Target;
    ghost var at := cursor.position;
    var capacity := Capacity(m, layer);
    var ok, degree := cursor.Read(4);
    if !ok || degree > capacity || degree > (if |levels| == 0 then 0 else |levels| - 1) {
      return Invalid;
    }
    r := CheckEdges(cursor, control, node, layer, levels, m, degree, seen, stamp, at);
    if r.Pass? {
      ok := cursor.Skip(4 * (capacity - degree));
      if !ok {
        r := Invalid;
      }
    }
  }

  /** Checks one node's block. */
  method CheckNode(cursor: Cursor, control: Control, node: nat, levels: seq<nat>, m: nat, seen: array<nat>, stamp: nat)
    returns (r: Check, last: nat)
    requires seen.Length == |levels| && node < |levels|
    requires forall t :: 0 <= t < |levels| ==> seen[t] <= stamp
    modifies cursor, control, seen
    ensures forall t :: 0 <= t < |levels| ==> seen[t] <= last
    ensures r.Pass? ==>
      && NodeOk(cursor.little, cursor.bytes, old(cursor.position), node, levels, m)
      && cursor.position == old(cursor.position) + NodeBytes(m, levels[node])
      && last == stamp + levels[node] + 1
    ensures r.Invalid? ==> !NodeOk(cursor.little, cursor.bytes, old(cursor.position), node, levels, m)
    ensures control.Answered(old(control.calls), !r.Stopped?)
  {
    hide Field, LayerOk;
    ghost var at := cursor.position;
    last := stamp;
    var ok := control.Proceed();
    if !ok {
      return Stopped, last;
    }
    var read, key := cursor.Read(8);
    if !read || key != node {
      return Invalid, last;
    }
    var level;
    read, level := cursor.Read(2);
    if !read || level != levels[node] {
      return Invalid, last;
    }
    for layer := 0 to level + 1
      invariant control.Answered(old(control.calls), true)
      invariant last == stamp + layer
      invariant forall t :: 0 <= t < |levels| ==> seen[t] <= last
      invariant cursor.position == at + 10 + LayersBytes(m, layer)
      invariant forall l :: 0 <= l < layer ==>
        LayerOk(cursor.little, cursor.bytes, at + 10 + LayersBytes(m, l), node, l, levels, m)
    {
      last := last + 1;
      r := CheckLayer(cursor, control, node, layer, levels, m, seen, last);
      if !r.Pass? {
        return;
      }
    }
    r := Pass;
  }

  /** Reads the level table. */
  method ReadLevels(cursor: Cursor, control: Control, n: nat, m: nat) returns (r: Check, levels: seq<nat>)
    requires m >= 2 && cursor.position == HEADER_BYTES
    modifies cursor, control
    ensures r.Pass? ==>
      && levels == LevelTable(cursor.little, cursor.bytes, n)
      && (forall v :: 0 <= v < n ==> levels[v] <= MaxLevel(m))
      && cursor.position == HEADER_BYTES + 2 * n <= |cursor.bytes|
    ensures r.Invalid? ==> !ValidStream(cursor.little, cursor.bytes, n, m)
    ensures control.Answered(old(control.calls), !r.Stopped?)
  {
    hide Field, NodeOk, AllReachable, EntryOk, HeaderOk, MaxLevel, NodeStart;
    var ceiling := ComputeMaxLevel(m);
    levels := [];
    if |cursor.bytes| < HEADER_BYTES {
      return Invalid, levels;
    }
    ghost var table := LevelTable(cursor.little, cursor.bytes, n);
    for node := 0 to n
      invariant control.Answered(old(control.calls), true)
      invariant cursor.position == HEADER_BYTES + 2 * node <= |cursor.bytes|
      invariant levels == table[..node]
      invariant forall v :: 0 <= v < node ==> levels[v] <= MaxLevel(m)
    {
      var ok := control.Proceed();
      if !ok {
        return Stopped, levels;
      }
      var read, level := cursor.Read(2);
      assert level == table[node];
      if !read || level > ceiling {
        return Invalid, levels;
      }
      levels := levels + [level];
    }
    r := Pass;
  }

  /** Validates every node's block in one pass, recording where its edges start. */
  method CheckNodes(cursor: Cursor, control: Control, levels: seq<nat>, m: nat, seen: array<nat>)
    returns (r: Check, offsets: seq<nat>)
    requires m >= 2 && seen.Length == |levels| <= MAX_NODES
    requires forall t :: 0 <= t < |levels| ==> seen[t] == 0
    requires forall v :: 0 <= v < |levels| ==> levels[v] <= MaxLevel(m)
    requires cursor.position == HEADER_BYTES + 2 * |levels|
    modifies cursor, control, seen
    ensures r.Pass? ==>
      && (forall v :: 0 <= v < |levels| ==> NodeOk(cursor.little, cursor.bytes, NodeStart(levels, m, v), v, levels, m))
      && cursor.position == NodeStart(levels, m, |levels|)
      && |offsets| == |levels|
      && (forall v :: 0 <= v < |levels| ==> offsets[v] == NodeStart(levels, m, v) + 10)
    ensures r.Invalid? ==>
      exists v :: 0 <= v < |levels| && !NodeOk(cursor.little, cursor.bytes, NodeStart(levels, m, v), v, levels, m)
    ensures control.Answered(old(control.calls), !r.Stopped?)
  {
    hide Field, NodeOk, MaxLevel, NodeBytes;
    offsets := [];
    MaxLevelAtMost16(m);
    var stamp := 0;
    for node := 0 to |levels|
      invariant control.Answered(old(control.calls), true)
      invariant cursor.position == NodeStart(levels, m, node) && |offsets| == node
      invariant forall v :: 0 <= v < node ==> offsets[v] == NodeStart(levels, m, v) + 10
      invariant forall v :: 0 <= v < node ==>
        NodeOk(cursor.little, cursor.bytes, NodeStart(levels, m, v), v, levels, m)
      invariant 0 <= stamp <= 17 * node && forall t :: 0 <= t < |levels| ==> seen[t] <= stamp
    {
      offsets := offsets + [cursor.position + 10];
      r, stamp := CheckNode(cursor, control, node, levels, m, seen, stamp);
      if !r.Pass? {
        return;
      }
      assert stamp <= U32_MAX;
    }
    r := Pass;
  }

  /** The search marks exactly the nodes found. */
  ghost predicate Marks(seen: seq<nat>, found: set<nat>) {
    forall t :: 0 <= t < |seen| ==> (seen[t] != 0 <==> t in found)
  }

  lemma MarkOne(seen: seq<nat>, found: set<nat>, target: nat)
    requires Marks(seen, found) && target < |seen|
    ensures seen[target] != 0 <==> target in found
    ensures Marks(seen[target := 1], found + {target})
  {
  }

  /** Every node's edge list can be read back from where the pass left it. */
  ghost predicate EdgesAt(little: bool, bytes: Bytes, graph: Graph, offsets: seq<nat>) {
    && |offsets| == |graph|
    && forall v :: 0 <= v < |graph| ==>
      && offsets[v] + 4 + 4 * |graph[v]| <= |bytes|
      && |graph[v]| == Degree(little, bytes, offsets[v])
      && forall e :: 0 <= e < |graph[v]| ==> graph[v][e] == Target(little, bytes, offsets[v], e)
  }

  /** Looks at every neighbour of a node taken from the stack. */
  method Expand(cursor: Cursor, control: Control, offset: nat, seen: array<nat>, stack: seq<nat>, ghost node: nat,
                ghost graph: Graph, ghost offsets: seq<nat>, ghost entry: nat, ghost found: set<nat>, ghost done: nat)
    returns (r: Check, pending: seq<nat>, ghost more: set<nat>)
    requires InRange(graph) && EdgesAt(cursor.little, cursor.bytes, graph, offsets)
    requires node < |graph| == seen.Length && offset == offsets[node]
    requires Marks(seen[..], found) && Expanding(graph, entry, found, stack, done, node, 0)
    modifies cursor, control, seen
    ensures !r.Invalid? && control.Answered(old(control.calls), !r.Stopped?)
    ensures r.Pass? ==> Marks(seen[..], more) && Searching(graph, entry, more, pending, done)
  {
    hide Field, Degree, Target, Expanding, Searching, InRange, Marks;
    more, pending := found, stack;
    cursor.position := offset;
    var ok, degree := cursor.Read(4);
    assert ok && degree == |graph[node]| by { DegreeField(cursor.little, cursor.bytes, offset); }
    for edge := 0 to degree
      invariant control.Answered(old(control.calls), true)
      invariant cursor.position == offset + 4 + 4 * edge
      invariant Marks(seen[..], more)
      invariant Expanding(graph, entry, more, pending, done, node, edge)
    {
      if edge % 64 == 0 {
        ok := control.Proceed();
        if !ok {
          return Stopped, pending, more;
        }
      }
      var target;
      ok, target := cursor.Read(4);
      TargetField(cursor.little, cursor.bytes, offset, edge);
      assert ok && target == graph[node][edge];
      EdgeInRange(graph, node, edge);
      SearchEdge(graph, entry, more, pending, done, node, edge);
      MarkOne(seen[..], more, target);
      if seen[target] == 0 {
        ghost var was := seen[..];
        seen[target] := 1;
        assert seen[..] == was[target := 1];
        pending := pending + [target];
        more := more + {target};
      }
    }
    SearchTaken(graph, entry, more, pending, done, node);
    r := Pass;
  }

  lemma DegreeField(little: bool, bytes: Bytes, at: nat)
    ensures Degree(little, bytes, at) == Field(little, bytes, at, 4)
  {
  }

  lemma TargetField(little: bool, bytes: Bytes, at: nat, edge: nat)
    ensures Target(little, bytes, at, edge) == Field(little, bytes, at + 4 + 4 * edge, 4)
  {
  }

  /** Counts the nodes reachable from the entry on the base layer. */
  method Search(cursor: Cursor, control: Control, entry: nat, offsets: seq<nat>, seen: array<nat>, ghost graph: Graph)
    returns (r: Check, reached: nat)
    requires InRange(graph) && EdgesAt(cursor.little, cursor.bytes, graph, offsets)
    requires entry < |graph| == seen.Length
    modifies cursor, control, seen
    ensures !r.Invalid? && control.Answered(old(control.calls), !r.Stopped?)
    ensures r.Pass? ==> (reached == |graph| <==> AllReachable(graph, entry))
  {
    hide Field, Degree, Target, Searching, Expanding, EdgesAt, InRange, AllReachable;
    for i := 0 to seen.Length
      invariant forall t :: 0 <= t < i ==> seen[t] == 0
      modifies seen
    {
      seen[i] := 0;
    }
    SearchStart(graph, entry);
    var pending := [entry];
    seen[entry] := 1;
    ghost var found := {entry};
    reached := 0;
    while pending != []
      invariant control.Answered(old(control.calls), true)
      invariant Marks(seen[..], found) && Searching(graph, entry, found, pending, reached)
      decreases |graph| - reached
    {
      SearchBound(graph, entry, found, pending, reached);
      var ok := control.Proceed();
      if !ok {
        return Stopped, reached;
      }
      var node := pending[|pending| - 1];
      SearchTake(graph, entry, found, pending, reached, |pending| - 1);
      assert pending[..|pending| - 1] + pending[|pending| - 1 + 1..] == pending[..|pending| - 1];
      pending := pending[..|pending| - 1];
      reached := reached + 1;
      OffsetsMatch(cursor.little, cursor.bytes, graph, offsets);
      r, pending, found := Expand(cursor, control, offsets[node], seen, pending, node, graph, offsets, entry, found, reached);
      if !r.Pass? {
        return;
      }
    }
    SearchDone(graph, entry, found, reached);
    r := Pass;
  }

  lemma OffsetsMatch(little: bool, bytes: Bytes, graph: Graph, offsets: seq<nat>)
    requires EdgesAt(little, bytes, graph, offsets)
    ensures |offsets| == |graph|
  {
  }

  lemma SearchBound(graph: Graph, entry: nat, found: set<nat>, pending: seq<nat>, done: nat)
    requires Searching(graph, entry, found, pending, done) && pending != []
    ensures done < |graph|
    ensures pending[|pending| - 1] < |graph|
  {
    NodesBound(found, |graph|);
    assert pending[|pending| - 1] in found;
  }

  // ---------------------------------------------------------------- the whole validation

  /** Validated nodes give an in-range base layer whose edges sit where the pass saw them. */
  lemma NodesGiveGraph(little: bool, bytes: Bytes, levels: seq<nat>, m: nat, offsets: seq<nat>)
    requires forall v :: 0 <= v < |levels| ==> NodeOk(little, bytes, NodeStart(levels, m, v), v, levels, m)
    requires |offsets| == |levels| && forall v :: 0 <= v < |levels| ==> offsets[v] == NodeStart(levels, m, v) + 10
    ensures InRange(BaseLayer(little, bytes, levels, m))
    ensures EdgesAt(little, bytes, BaseLayer(little, bytes, levels, m), offsets)
  {
    hide Field, NodeStart;
    var graph := BaseLayer(little, bytes, levels, m);
    forall v | 0 <= v < |levels|
      ensures offsets[v] + 4 + 4 * |graph[v]| <= |bytes|
      ensures forall e :: 0 <= e < |graph[v]| ==> graph[v][e] < |levels|
    {
      assert NodeOk(little, bytes, NodeStart(levels, m, v), v, levels, m);
      assert LayersBytes(m, 0) == 0;
      var at := NodeStart(levels, m, v) + 10 + LayersBytes(m, 0);
      assert LayerOk(little, bytes, at, v, 0, levels, m);
      forall e | 0 <= e < |graph[v]| ensures graph[v][e] < |levels| {
        assert EdgeOk(little, bytes, at, e, v, 0, levels);
      }
    }
  }

  /** Whether the entry named by the header is a node of the highest level. */
  method EntryIsTop(levels: seq<nat>, top: nat, entry: nat) returns (ok: bool)
    requires entry < |levels|
    ensures ok <==> levels[entry] == top && forall v :: 0 <= v < |levels| ==> levels[v] <= top
  {
    ok := levels[entry] == top;
    for v := 0 to |levels|
      invariant ok <==> levels[entry] == top && forall u :: 0 <= u < v ==> levels[u] <= top
    {
      if levels[v] > levels[entry] {
        ok := false;
      }
    }
  }

  /** Reads and checks the header up to the entry fields. */
  method ReadHeader(cursor: Cursor, n: nat, m: nat) returns (ok: bool, top: nat, entry: nat)
    requires ValidShape(n, m) && cursor.position == 0
    modifies cursor
    ensures ok ==>
      && HeaderOk(cursor.little, cursor.bytes, n, m) && cursor.position == HEADER_BYTES
      && top == Field(cursor.little, cursor.bytes, 24, 8) && entry == Field(cursor.little, cursor.bytes, 32, 8)
      && (n > 0 ==> entry < n) && (n == 0 ==> top == U64_MAX && entry == 0)
    ensures ok <==> HeaderRight(cursor.little, cursor.bytes, n, m)
  {
    hide Field, MaxLevel;
    var read1, nodes := cursor.Read(8);
    var read2, degree := cursor.Read(8);
    var read3, base := cursor.Read(8);
    var read4, read5;
    read4, top := cursor.Read(8);
    read5, entry := cursor.Read(8);
    ok := read1 && read2 && read3 && read4 && read5 && nodes == n && degree == m && base == 2 * m;
    if ok {
      var ceiling := ComputeMaxLevel(m);
      if (n == 0 && (top != U64_MAX || entry != 0)) || (n != 0 && (top > ceiling || entry >= n)) {
        ok := false;
      }
    }
  }

  /** A stream short enough and rightly headed whose admission bound is over the limit. */
  ghost predicate OverLimit(little: bool, bytes: Bytes, n: nat, m: nat, limit: nat) {
    && ValidShape(n, m) && |bytes| <= EncodedBound(n, m) && HeaderRight(little, bytes, n, m)
    && DecodeBound(n, m, |bytes|) > limit
  }

  /** The stack of a search never outgrows the graph. */
  lemma StackFits(graph: Graph, entry: nat, found: set<nat>, pending: seq<nat>, done: nat)
    requires Searching(graph, entry, found, pending, done)
    ensures |pending| <= |graph|
  {
    NodesBound(found, |graph|);
  }

  /** The single pass over a whole stream. With a sufficient limit and an uninterrupted
      caller it accepts exactly the valid streams. */
  method Validate(little: bool, bytes: Bytes, n: nat, m: nat, limit: nat, control: Control) returns (verdict: Verdict)
    modifies control
    ensures verdict.Valid? ==> ValidShape(n, m) && ValidStream(little, bytes, n, m)
    ensures verdict.InvalidEncoding? ==> ValidShape(n, m) && !ValidStream(little, bytes, n, m)
    ensures verdict.InvalidArgument? <==> !ValidShape(n, m) && !verdict.Cancelled?
    ensures verdict.Valid? ==> DecodeBound(n, m, |bytes|) <= limit
    ensures verdict.LimitExceeded? <==> !verdict.Cancelled? && OverLimit(little, bytes, n, m, limit)
    ensures control.Answered(old(control.calls), !verdict.Cancelled?)
  {
    hide Field, NodeOk, AllReachable, NodeStart, MaxLevel, EncodedBound, DecodeBound, InRange, EdgesAt, BaseLayer, LevelTable, HeaderRight;
    var ok := control.Proceed();
    if !ok {
      return Cancelled;
    }
    if !ValidShape(n, m) {
      return InvalidArgument;
    }
    if |bytes| > EncodedBound(n, m) {
      if ValidStream(little, bytes, n, m) { ValidStreamFits(little, bytes, n, m); }
      return InvalidEncoding;
    }
    var cursor := new Cursor(little, bytes);
    var top, entry;
    ok, top, entry := ReadHeader(cursor, n, m);
    if !ok {
      if ValidStream(little, bytes, n, m) { ValidHeader(little, bytes, n, m); }
      return InvalidEncoding;
    }
    if DecodeBound(n, m, |bytes|) > limit {
      return LimitExceeded;
    }
    var r, levels := ReadLevels(cursor, control, n, m);
    if !r.Pass? {
      return if r.Invalid? then InvalidEncoding else Cancelled;
    }
    var seen := new nat[n](i => 0);
    var offsets;
    r, offsets := CheckNodes(cursor, control, levels, m, seen);
    if !r.Pass? {
      return if r.Invalid? then InvalidEncoding else Cancelled;
    }
    if cursor.position != |bytes| {
      return InvalidEncoding;
    }
    if n != 0 {
      ok := EntryIsTop(levels, top, entry);
      if !ok {
        return InvalidEncoding;
      }
      ghost var graph := BaseLayer(little, bytes, levels, m);
      NodesGiveGraph(little, bytes, levels, m, offsets);
      var reached;
      r, reached := Search(cursor, control, entry, offsets, seen, graph);
      if !r.Pass? {
        return Cancelled;
      }
      if reached != n {
        return InvalidEncoding;
      }
    }
    verdict := Valid;
  }

  /** Accepts exactly the bytes that encode a legal graph of the given shape. */
  method Decode(little: bool, bytes: Bytes, n: nat, m: nat, limit: nat, control: Control) returns (verdict: Verdict)
    modifies control
    ensures !verdict.Cancelled? && ValidShape(n, m) ==>
      (verdict.Valid? <==> DecodeBound(n, m, |bytes|) <= limit && exists image :: Encodes(little, bytes, n, m, image))
    ensures verdict.InvalidArgument? <==> !ValidShape(n, m) && !verdict.Cancelled?
    ensures verdict.Valid? ==> ValidShape(n, m) && exists image :: Encodes(little, bytes, n, m, image)
    ensures verdict.InvalidEncoding? ==> ValidShape(n, m) && !exists image :: Encodes(little, bytes, n, m, image)
    ensures verdict.Valid? ==> DecodeBound(n, m, |bytes|) <= limit
    ensures verdict.LimitExceeded? <==> !verdict.Cancelled? && OverLimit(little, bytes, n, m, limit)
    ensures control.Answered(old(control.calls), !verdict.Cancelled?)
  {
    hide ValidStream, Encodes, DecodeBound;
    verdict := Validate(little, bytes, n, m, limit, control);
    if ValidShape(n, m) {
      StreamsAreGraphs(little, bytes, n, m);
    }
  }
}
