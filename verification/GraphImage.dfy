/** Graph streams as the serialised form of graphs: what the format predicate accepts is
    exactly what serialising a legal graph produces. */
module GraphImage {
  import opened Bytes
  import opened GraphStream
  import opened Ordinals
  import opened Reachability

  /** One layer of a node: its active edges, and whatever its unused slots hold. */
  datatype Layer = Layer(targets: seq<nat>, spare: seq<nat>)

  /** A graph: the layers of every node, base layer first, and the entry point. */
  datatype Image = Image(nodes: seq<seq<Layer>>, entry: nat)

  // ---------------------------------------------------------------- legal graphs

  ghost predicate Shaped(image: Image) {
    forall v :: 0 <= v < |image.nodes| ==> image.nodes[v] != []
  }

  function Levels(image: Image): (r: seq<nat>)
    requires Shaped(image)
    ensures |r| == |image.nodes| && forall v :: 0 <= v < |r| ==> r[v] == |image.nodes[v]| - 1
  {
    seq(|image.nodes|, v requires 0 <= v < |image.nodes| => |image.nodes[v]| - 1)
  }

  function Base(image: Image): (r: Graph)
    requires Shaped(image)
    ensures |r| == |image.nodes| && forall v :: 0 <= v < |r| ==> r[v] == image.nodes[v][0].targets
  {
    seq(|image.nodes|, v requires 0 <= v < |image.nodes| => image.nodes[v][0].targets)
  }

  ghost predicate Words32(s: seq<nat>) {
    forall i :: 0 <= i < |s| ==> s[i] <= U32_MAX
  }

  /** Edges lead to other nodes of the layer, none twice, in a full row of slots. */
  ghost predicate LayerLegal(layer: Layer, node: nat, l: nat, levels: seq<nat>, m: nat) {
    && |layer.targets| + |layer.spare| == Capacity(m, l)
    && Words32(layer.spare) && Distinct(layer.targets)
    && forall e :: 0 <= e < |layer.targets| ==>
      layer.targets[e] < |levels| && layer.targets[e] != node && levels[layer.targets[e]] >= l
  }

  ghost predicate NodeLegal(layers: seq<Layer>, node: nat, levels: seq<nat>, m: nat) {
    forall l :: 0 <= l < |layers| ==> LayerLegal(layers[l], node, l, levels, m)
  }

  ghost predicate Legal(image: Image, m: nat)
    requires m >= 2
  {
    var n := |image.nodes|;
    && Shaped(image)
    && (forall v :: 0 <= v < n ==> Levels(image)[v] <= MaxLevel(m))
    && (forall v :: 0 <= v < n ==> NodeLegal(image.nodes[v], v, Levels(image), m))
    && (n == 0 ==> image.entry == 0)
    && (n > 0 ==>
          && image.entry < n && (forall v :: 0 <= v < n ==> Levels(image)[v] <= Levels(image)[image.entry])
          && AllReachable(Base(image), image.entry))
  }

  // ---------------------------------------------------------------- fields

  function LittleEndian(value: nat, width: nat): (r: Bytes)
    ensures |r| == width
  {
    if width == 0 then [] else [value % 256] + LittleEndian(value / 256, width - 1)
  }

  lemma {:induction false} LittleEndianRoundTrip(value: nat, width: nat)
    requires value < Span(width)
    ensures FromLittleEndian(LittleEndian(value, width)) == value
    decreases width
  {
    if width > 0 {
      LittleEndianRoundTrip(value / 256, width - 1);
    }
  }

  lemma DigitSplit(low: Byte, rest: nat)
    ensures (low + 256 * rest) % 256 == low && (low + 256 * rest) / 256 == rest
  {
  }

  lemma {:induction false} FromLittleEndianRoundTrip(bytes: Bytes)
    ensures LittleEndian(FromLittleEndian(bytes), |bytes|) == bytes
    decreases |bytes|
  {
    if bytes != [] {
      var rest := FromLittleEndian(bytes[1..]);
      FromLittleEndianRoundTrip(bytes[1..]);
      DigitSplit(bytes[0], rest);
    }
  }

  function Written(little: bool, value: nat, width: nat): (r: Bytes)
    ensures |r| == width
  {
    if little then LittleEndian(value, width) else BigEndian(value, width)
  }

  lemma WrittenReads(little: bool, value: nat, width: nat)
    requires value < Span(width)
    ensures Field(little, Written(little, value, width), 0, width) == value
  {
    var bytes := Written(little, value, width);
    assert bytes[0..width] == bytes;
    if little {
      LittleEndianRoundTrip(value, width);
    } else {
      BigEndianRoundTrip(value, width);
    }
  }

  lemma ReadWrites(little: bool, bytes: Bytes, at: nat, width: nat)
    requires at + width <= |bytes|
    ensures Written(little, Field(little, bytes, at, width), width) == bytes[at..at + width]
    ensures Field(little, bytes, at, width) < Span(width)
  {
    if little {
      FromLittleEndianRoundTrip(bytes[at..at + width]);
    } else {
      FromBigEndianRoundTrip(bytes[at..at + width]);
    }
  }

  /** A field of a part is the same field of the whole. */
  lemma FieldInside(little: bool, before: Bytes, part: Bytes, after: Bytes, at: nat, width: nat)
    requires at + width <= |part|
    ensures Field(little, before + part + after, |before| + at, width) == Field(little, part, at, width)
  {
    var whole := before + part + after;
    assert whole[|before| + at..|before| + at + width] == part[at..at + width];
  }

  // ---------------------------------------------------------------- serialised layers

  /** Numbers of one width, one after another. */
  function Row(little: bool, values: seq<nat>, width: nat): (r: Bytes)
    ensures |r| == |values| * width
  {
    if values == [] then []
    else
      assert (|values| - 1) * width + width == |values| * width;
      Row(little, values[..|values| - 1], width) + Written(little, values[|values| - 1], width)
  }

  lemma RowRoom(e: nat, count: nat, width: nat)
    requires e < count
    ensures e * width + width <= count * width
  {
    assert count * width == e * width + (count - e) * width;
    assert (count - e) * width == width + (count - e - 1) * width;
  }

  lemma {:induction false} RowAt(little: bool, values: seq<nat>, width: nat, e: nat)
    requires e < |values| && values[e] < Span(width)
    ensures Field(little, Row(little, values, width), e * width, width) == values[e]
    decreases |values|
  {
    hide Field, Written, Span;
    var front, last := values[..|values| - 1], values[|values| - 1];
    var head, tail := Row(little, front, width), Written(little, last, width);
    if e < |front| {
      RowAt(little, front, width, e);
      RowRoom(e, |front|, width);
      FieldInside(little, [], head, tail, e * width, width);
      assert [] + head + tail == head + tail;
    } else {
      WrittenReads(little, last, width);
      FieldInside(little, head, tail, [], 0, width);
      assert head + tail + [] == head + tail;
    }
  }

  function LayerImage(little: bool, layer: Layer): (r: Bytes)
    ensures |r| == 4 + 4 * (|layer.targets| + |layer.spare|)
  {
    Written(little, |layer.targets|, 4) + Row(little, layer.targets + layer.spare, 4)
  }

  lemma LayerFields(little: bool, layer: Layer)
    requires |layer.targets| <= U32_MAX && Words32(layer.targets + layer.spare)
    ensures Degree(little, LayerImage(little, layer), 0) == |layer.targets|
    ensures forall e :: 0 <= e < |layer.targets| ==> Target(little, LayerImage(little, layer), 0, e) == layer.targets[e]
  {
    hide Field, Written, Row;
    Spans();
    var head, words := Written(little, |layer.targets|, 4), layer.targets + layer.spare;
    var tail := Row(little, words, 4);
    WrittenReads(little, |layer.targets|, 4);
    FieldInside(little, [], head, tail, 0, 4);
    assert [] + head + tail == head + tail;
    forall e | 0 <= e < |layer.targets| ensures Field(little, LayerImage(little, layer), 4 + 4 * e, 4) == layer.targets[e] {
      RowAt(little, words, 4, e);
      FieldInside(little, head, tail, [], 4 * e, 4);
      assert head + tail + [] == head + tail;
    }
  }

  /** The same fields, wherever the layer lies in a stream. */
  lemma LayerPlaced(little: bool, before: Bytes, layer: Layer, after: Bytes)
    requires |layer.targets| <= U32_MAX && Words32(layer.targets + layer.spare)
    ensures var bytes := before + LayerImage(little, layer) + after;
            && Degree(little, bytes, |before|) == |layer.targets|
            && forall e :: 0 <= e < |layer.targets| ==> Target(little, bytes, |before|, e) == layer.targets[e]
  {
    LayerFields(little, layer);
    hide Field, LayerImage, Words32;
    var part := LayerImage(little, layer);
    FieldInside(little, before, part, after, 0, 4);
    forall e | 0 <= e < |layer.targets|
      ensures Target(little, before + part + after, |before|, e) == layer.targets[e]
    {
      FieldInside(little, before, part, after, 4 + 4 * e, 4);
    }
  }

  function LayersImage(little: bool, layers: seq<Layer>): Bytes {
    if layers == [] then []
    else LayersImage(little, layers[..|layers| - 1]) + LayerImage(little, layers[|layers| - 1])
  }

  ghost predicate Slotted(layers: seq<Layer>, m: nat) {
    forall l :: 0 <= l < |layers| ==> |layers[l].targets| + |layers[l].spare| == Capacity(m, l)
  }

  lemma {:induction false} LayersLength(little: bool, layers: seq<Layer>, m: nat)
    requires Slotted(layers, m)
    ensures |LayersImage(little, layers)| == LayersBytes(m, |layers|)
    decreases |layers|
  {
    if layers != [] {
      LayersLength(little, layers[..|layers| - 1], m);
    }
  }

  /** Where one layer lies among the layers of its node. */
  lemma {:induction false} LayersSplit(little: bool, layers: seq<Layer>, l: nat) returns (after: Bytes)
    requires l < |layers|
    ensures LayersImage(little, layers) == LayersImage(little, layers[..l]) + LayerImage(little, layers[l]) + after
    decreases |layers|
  {
    hide LayerImage;
    var front, last := layers[..|layers| - 1], LayerImage(little, layers[|layers| - 1]);
    if l == |layers| - 1 {
      after := [];
      assert LayersImage(little, front) + last + [] == LayersImage(little, front) + last;
    } else {
      var rest := LayersSplit(little, front, l);
      after := rest + last;
      assert front[..l] == layers[..l];
      var head, part := LayersImage(little, layers[..l]), LayerImage(little, layers[l]);
      assert head + part + rest + last == head + part + (rest + last);
    }
  }

  // ---------------------------------------------------------------- serialised nodes

  function NodeImage(little: bool, node: nat, layers: seq<Layer>): Bytes
    requires layers != []
  {
    Written(little, node, 8) + Written(little, |layers| - 1, 2) + LayersImage(little, layers)
  }

  function NodesImage(little: bool, nodes: seq<seq<Layer>>): Bytes
    requires forall v :: 0 <= v < |nodes| ==> nodes[v] != []
  {
    if nodes == [] then []
    else NodesImage(little, nodes[..|nodes| - 1]) + NodeImage(little, |nodes| - 1, nodes[|nodes| - 1])
  }

  lemma {:induction false} NodesSplit(little: bool, nodes: seq<seq<Layer>>, v: nat) returns (after: Bytes)
    requires v < |nodes| && forall u :: 0 <= u < |nodes| ==> nodes[u] != []
    ensures NodesImage(little, nodes) == NodesImage(little, nodes[..v]) + NodeImage(little, v, nodes[v]) + after
    decreases |nodes|
  {
    hide NodeImage;
    var front, last := nodes[..|nodes| - 1], NodeImage(little, |nodes| - 1, nodes[|nodes| - 1]);
    if v == |nodes| - 1 {
      after := [];
      assert NodesImage(little, front) + last + [] == NodesImage(little, front) + last;
    } else {
      var rest := NodesSplit(little, front, v);
      after := rest + last;
      assert front[..v] == nodes[..v];
      var head, part := NodesImage(little, nodes[..v]), NodeImage(little, v, nodes[v]);
      assert head + part + rest + last == head + part + (rest + last);
    }
  }

  lemma {:induction false} NodesLength(little: bool, nodes: seq<seq<Layer>>, m: nat, levels: seq<nat>)
    requires |nodes| <= |levels|
    requires forall v :: 0 <= v < |nodes| ==> nodes[v] != [] && Slotted(nodes[v], m) && levels[v] == |nodes[v]| - 1
    ensures HEADER_BYTES + 2 * |levels| + |NodesImage(little, nodes)| == NodeStart(levels, m, |nodes|)
    decreases |nodes|
  {
    if nodes != [] {
      NodesLength(little, nodes[..|nodes| - 1], m, levels);
      LayersLength(little, nodes[|nodes| - 1], m);
    }
  }

  // ---------------------------------------------------------------- serialised graphs

  function TopLevel(image: Image): nat
    requires Shaped(image) && (image.nodes != [] ==> image.entry < |image.nodes|)
  {
    if image.nodes == [] then U64_MAX else |image.nodes[image.entry]| - 1
  }

  function HeaderRow(image: Image, m: nat): (r: seq<nat>)
    requires Shaped(image) && (image.nodes != [] ==> image.entry < |image.nodes|)
    ensures |r| == 5
  {
    [|image.nodes|, m, 2 * m, TopLevel(image), image.entry]
  }

  /** Header and level table. */
  function Preamble(little: bool, image: Image, m: nat): (r: Bytes)
    requires Shaped(image) && (image.nodes != [] ==> image.entry < |image.nodes|)
    ensures |r| == HEADER_BYTES + 2 * |image.nodes|
  {
    Row(little, HeaderRow(image, m), 8) + Row(little, Levels(image), 2)
  }

  function Serialized(little: bool, image: Image, m: nat): Bytes
    requires Shaped(image) && (image.nodes != [] ==> image.entry < |image.nodes|)
  {
    Preamble(little, image, m) + NodesImage(little, image.nodes)
  }

  lemma DegreeBound(targets: seq<nat>, node: nat, n: nat)
    requires Distinct(targets) && node < n
    requires forall e :: 0 <= e < |targets| ==> targets[e] < n && targets[e] != node
    ensures |targets| <= n - 1
  {
    var all := targets + [node];
    assert Distinct(all);
    DistinctSize(all);
    NodesBound(Members(all), n);
  }

  /** A legal layer is well formed wherever it lies. */
  lemma LayerForward(little: bool, before: Bytes, layer: Layer, after: Bytes, node: nat, l: nat, levels: seq<nat>, m: nat)
    requires LayerLegal(layer, node, l, levels, m) && node < |levels| <= MAX_NODES
    ensures LayerOk(little, before + LayerImage(little, layer) + after, |before|, node, l, levels, m)
    ensures var bytes := before + LayerImage(little, layer) + after;
            && Degree(little, bytes, |before|) == |layer.targets|
            && forall e :: 0 <= e < |layer.targets| ==> Target(little, bytes, |before|, e) == layer.targets[e]
  {
    hide Field, LayerImage, Degree, Target;
    DegreeBound(layer.targets, node, |levels|);
    LayerPlaced(little, before, layer, after);
  }

  lemma NodeForward(little: bool, before: Bytes, layers: seq<Layer>, after: Bytes, node: nat, levels: seq<nat>, m: nat)
    requires layers != [] && NodeLegal(layers, node, levels, m)
    requires node < |levels| <= MAX_NODES && levels[node] == |layers| - 1 <= U16_MAX
    ensures NodeOk(little, before + NodeImage(little, node, layers) + after, |before|, node, levels, m)
  {
    hide Field, LayersImage, Written, LayerOk, LayerLegal, NodeLegal;
    var bytes := before + NodeImage(little, node, layers) + after;
    var key, level := Written(little, node, 8), Written(little, |layers| - 1, 2);
    var body := LayersImage(little, layers);
    Spans();
    WrittenReads(little, node, 8);
    WrittenReads(little, |layers| - 1, 2);
    FieldInside(little, before, key, level + body + after, 0, 8);
    FieldInside(little, before + key, level, body + after, 0, 2);
    assert bytes == before + key + (level + body + after) == before + key + level + (body + after);
    forall l | 0 <= l < |layers|
      ensures LayerOk(little, bytes, |before| + 10 + LayersBytes(m, l), node, l, levels, m)
    {
      LayerOfNode(little, before, layers, after, node, levels, m, l);
    }
  }

  /** Each layer of a serialised node is where the format looks for it. */
  lemma LayerOfNode(little: bool, before: Bytes, layers: seq<Layer>, after: Bytes, node: nat, levels: seq<nat>, m: nat, l: nat)
    requires layers != [] && NodeLegal(layers, node, levels, m) && node < |levels| <= MAX_NODES && l < |layers|
    ensures var bytes, at := before + NodeImage(little, node, layers) + after, |before| + 10 + LayersBytes(m, l);
            && LayerOk(little, bytes, at, node, l, levels, m)
            && Degree(little, bytes, at) == |layers[l].targets|
            && forall e :: 0 <= e < |layers[l].targets| ==> Target(little, bytes, at, e) == layers[l].targets[e]
  {
    hide LayerImage, LayersImage, Written, Degree, Target, LayerOk, LayerLegal, LayersBytes;
    var bytes := before + NodeImage(little, node, layers) + after;
    var rest := LayersSplit(little, layers, l);
    SlottedPrefix(layers, node, levels, m, l);
    LayersLength(little, layers[..l], m);
    var head := before + (Written(little, node, 8) + Written(little, |layers| - 1, 2)) + LayersImage(little, layers[..l]);
    Nest(before, Written(little, node, 8) + Written(little, |layers| - 1, 2), LayersImage(little, layers[..l]), LayerImage(little, layers[l]), rest, after);
    assert bytes == head + LayerImage(little, layers[l]) + (rest + after);
    assert |head| == |before| + 10 + LayersBytes(m, l);
    LayerForward(little, head, layers[l], rest + after, node, l, levels, m);
  }

  lemma Nest(a: Bytes, b: Bytes, c: Bytes, d: Bytes, e: Bytes, f: Bytes)
    ensures a + (b + (c + d + e)) + f == a + b + c + d + (e + f)
  {
  }

  lemma SlottedPrefix(layers: seq<Layer>, node: nat, levels: seq<nat>, m: nat, l: nat)
    requires l <= |layers| && NodeLegal(layers, node, levels, m)
    ensures Slotted(layers[..l], m)
  {
    forall k | 0 <= k < l ensures |layers[k].targets| + |layers[k].spare| == Capacity(m, k) {
      assert LayerLegal(layers[k], node, k, levels, m);
    }
  }

  lemma PreambleFields(little: bool, image: Image, m: nat, after: Bytes)
    requires Shaped(image) && (image.nodes != [] ==> image.entry < |image.nodes|) && (image.nodes == [] ==> image.entry == 0)
    requires ValidShape(|image.nodes|, m) && forall v :: 0 <= v < |image.nodes| ==> Levels(image)[v] <= U16_MAX
    ensures var bytes := Preamble(little, image, m) + after;
            && HeaderOk(little, bytes, |image.nodes|, m)
            && Field(little, bytes, 24, 8) == TopLevel(image) && Field(little, bytes, 32, 8) == image.entry
            && LevelTable(little, bytes, |image.nodes|) == Levels(image)
  {
    hide Field, Row;
    Spans();
    var header, table := Row(little, HeaderRow(image, m), 8), Row(little, Levels(image), 2);
    var bytes := Preamble(little, image, m) + after;
    assert bytes == [] + header + (table + after) == header + table + after;
    forall e | 0 <= e < 5 ensures Field(little, bytes, 8 * e, 8) == HeaderRow(image, m)[e] {
      HeaderFits(image, m, e);
      RowAt(little, HeaderRow(image, m), 8, e);
      FieldInside(little, [], header, table + after, 8 * e, 8);
    }
    assert Field(little, bytes, 8 * 0, 8) == |image.nodes| && Field(little, bytes, 8 * 1, 8) == m;
    assert Field(little, bytes, 8 * 2, 8) == 2 * m && Field(little, bytes, 8 * 3, 8) == TopLevel(image);
    assert Field(little, bytes, 8 * 4, 8) == image.entry;
    forall v | 0 <= v < |image.nodes| ensures LevelAt(little, bytes, v) == Levels(image)[v] {
      RowAt(little, Levels(image), 2, v);
      FieldInside(little, header, table, after, 2 * v, 2);
    }
  }

  lemma HeaderFits(image: Image, m: nat, e: nat)
    requires Shaped(image) && (image.nodes != [] ==> image.entry < |image.nodes|) && (image.nodes == [] ==> image.entry == 0)
    requires ValidShape(|image.nodes|, m) && e < 5 && forall v :: 0 <= v < |image.nodes| ==> Levels(image)[v] <= U16_MAX
    ensures HeaderRow(image, m)[e] <= U64_MAX
  {
    if image.nodes != [] {
      assert Levels(image)[image.entry] <= U16_MAX;
    }
  }

  /** Serialising a legal graph gives a valid stream, which reads back as that graph. */
  lemma SerializedValid(little: bool, image: Image, m: nat)
    requires ValidShape(|image.nodes|, m) && Legal(image, m)
    ensures var bytes, n := Serialized(little, image, m), |image.nodes|;
            && ValidStream(little, bytes, n, m)
            && LevelTable(little, bytes, n) == Levels(image)
            && BaseLayer(little, bytes, Levels(image), m) == Base(image)
            && Field(little, bytes, 32, 8) == image.entry
  {
    hide Field, NodeOk, NodeLegal, AllReachable, MaxLevel, HeaderOk, LevelTable, BaseLayer, EntryOk, NodeStart, Base, Serialized, BaseEdges, ValidStream;
    var n, levels, bytes := |image.nodes|, Levels(image), Serialized(little, image, m);
    SerializedParts(little, image, m);
    forall v | 0 <= v < n
      ensures NodeOk(little, bytes, NodeStart(levels, m, v), v, levels, m)
      ensures BaseEdges(little, bytes, levels, m, v) == image.nodes[v][0].targets
    {
      NodePlaced(little, image, m, v);
    }
    BaseReads(little, image, m, bytes);
    Assemble(little, image, m, bytes);
  }

  /** Everything but the nodes. */
  lemma SerializedParts(little: bool, image: Image, m: nat)
    requires ValidShape(|image.nodes|, m) && Legal(image, m)
    ensures var bytes, n, levels := Serialized(little, image, m), |image.nodes|, Levels(image);
            && HeaderOk(little, bytes, n, m) && EntryOk(little, bytes, levels)
            && LevelTable(little, bytes, n) == levels && Field(little, bytes, 32, 8) == image.entry
            && |bytes| == NodeStart(levels, m, n) >= HEADER_BYTES + 2 * n
  {
    hide Field, NodeLegal, NodesImage, AllReachable, MaxLevel, HeaderOk, LevelTable, NodeStart, Preamble;
    MaxLevelAtMost16(m);
    PreambleFields(little, image, m, NodesImage(little, image.nodes));
    NodesSlotted(image, m);
    NodesLength(little, image.nodes, m, Levels(image));
  }

  lemma Assemble(little: bool, image: Image, m: nat, bytes: Bytes)
    requires m >= 2 && Legal(image, m)
    requires HeaderOk(little, bytes, |image.nodes|, m) && EntryOk(little, bytes, Levels(image))
    requires LevelTable(little, bytes, |image.nodes|) == Levels(image) && Field(little, bytes, 32, 8) == image.entry
    requires |bytes| == NodeStart(Levels(image), m, |image.nodes|) >= HEADER_BYTES + 2 * |image.nodes|
    requires forall v :: 0 <= v < |image.nodes| ==> NodeOk(little, bytes, NodeStart(Levels(image), m, v), v, Levels(image), m)
    requires BaseLayer(little, bytes, Levels(image), m) == Base(image)
    ensures ValidStream(little, bytes, |image.nodes|, m)
  {
    hide Field, NodeOk, NodeLegal, AllReachable, MaxLevel, HeaderOk, LevelTable, BaseLayer, EntryOk, NodeStart, Base;
  }

  lemma BaseReads(little: bool, image: Image, m: nat, bytes: Bytes)
    requires Shaped(image)
    requires forall v :: 0 <= v < |image.nodes| ==> BaseEdges(little, bytes, Levels(image), m, v) == image.nodes[v][0].targets
    ensures BaseLayer(little, bytes, Levels(image), m) == Base(image)
  {
    hide BaseEdges;
  }

  lemma NodesSlotted(image: Image, m: nat)
    requires m >= 2 && Legal(image, m)
    ensures forall v :: 0 <= v < |image.nodes| ==> Slotted(image.nodes[v], m)
  {
    forall v | 0 <= v < |image.nodes| ensures Slotted(image.nodes[v], m) {
      SlottedPrefix(image.nodes[v], v, Levels(image), m, |image.nodes[v]|);
      assert image.nodes[v][..|image.nodes[v]|] == image.nodes[v];
    }
  }

  /** Where node `v` lies in the stream. */
  lemma NodeLies(little: bool, image: Image, m: nat, v: nat) returns (before: Bytes, rest: Bytes)
    requires ValidShape(|image.nodes|, m) && Legal(image, m) && v < |image.nodes|
    ensures Serialized(little, image, m) == before + NodeImage(little, v, image.nodes[v]) + rest
    ensures |before| == NodeStart(Levels(image), m, v)
  {
    hide NodeLegal, NodesImage, NodeImage, AllReachable, MaxLevel, NodeStart, Slotted, Preamble, Field, LevelTable;
    var head, parts := Preamble(little, image, m), NodesImage(little, image.nodes[..v]);
    NodesSlotted(image, m);
    NodesLength(little, image.nodes[..v], m, Levels(image));
    rest := NodesSplit(little, image.nodes, v);
    before := head + parts;
    assert head + (parts + NodeImage(little, v, image.nodes[v]) + rest) == before + NodeImage(little, v, image.nodes[v]) + rest;
  }

  /** A legal node is well formed wherever it lies, and its base edges read back. */
  lemma NodeReads(little: bool, before: Bytes, layers: seq<Layer>, rest: Bytes, v: nat, levels: seq<nat>, m: nat, bytes: Bytes)
    requires layers != [] && NodeLegal(layers, v, levels, m)
    requires v < |levels| <= MAX_NODES && levels[v] == |layers| - 1 <= U16_MAX
    requires bytes == before + NodeImage(little, v, layers) + rest && |before| == NodeStart(levels, m, v)
    ensures NodeOk(little, bytes, NodeStart(levels, m, v), v, levels, m)
    ensures BaseEdges(little, bytes, levels, m, v) == layers[0].targets
  {
    hide NodeOk, NodeLegal, NodeImage, NodeStart, BaseEdges, Degree, Target, LayerOk;
    NodeForward(little, before, layers, rest, v, levels, m);
    LayerOfNode(little, before, layers, rest, v, levels, m, 0);
    BaseEdgesAre(little, bytes, levels, m, v, layers[0].targets);
  }

  lemma NodePlaced(little: bool, image: Image, m: nat, v: nat)
    requires ValidShape(|image.nodes|, m) && Legal(image, m) && v < |image.nodes|
    ensures var bytes, levels := Serialized(little, image, m), Levels(image);
            && NodeOk(little, bytes, NodeStart(levels, m, v), v, levels, m)
            && BaseEdges(little, bytes, levels, m, v) == image.nodes[v][0].targets
  {
    hide NodeOk, NodeLegal, NodeImage, NodeStart, BaseEdges, Serialized, AllReachable, MaxLevel;
    MaxLevelAtMost16(m);
    var before, rest := NodeLies(little, image, m, v);
    assert Levels(image)[v] <= MaxLevel(m);
    NodeReads(little, before, image.nodes[v], rest, v, Levels(image), m, Serialized(little, image, m));
  }

  lemma BaseEdgesAre(little: bool, bytes: Bytes, levels: seq<nat>, m: nat, v: nat, targets: seq<nat>)
    requires v < |levels| && Degree(little, bytes, NodeStart(levels, m, v) + 10) == |targets|
    requires forall e :: 0 <= e < |targets| ==> Target(little, bytes, NodeStart(levels, m, v) + 10, e) == targets[e]
    ensures BaseEdges(little, bytes, levels, m, v) == targets
  {
    hide Degree, Target, NodeStart;
  }

  // ---------------------------------------------------------------- reading a stream back

  function Fields(little: bool, bytes: Bytes, at: nat, count: nat, width: nat): (r: seq<nat>)
    ensures |r| == count
  {
    if count == 0 then [] else Fields(little, bytes, at, count - 1, width) + [Field(little, bytes, at + (count - 1) * width, width)]
  }

  lemma {:induction false} FieldsAt(little: bool, bytes: Bytes, at: nat, count: nat, width: nat, e: nat)
    requires e < count
    ensures Fields(little, bytes, at, count, width)[e] == Field(little, bytes, at + e * width, width)
    decreases count
  {
    hide Field;
    if e < count - 1 {
      FieldsAt(little, bytes, at, count - 1, width, e);
    }
  }

  /** Writing the fields of a stretch again gives the stretch. */
  lemma {:induction false} RowReread(little: bool, bytes: Bytes, at: nat, count: nat, width: nat)
    requires at + count * width <= |bytes|
    ensures Row(little, Fields(little, bytes, at, count, width), width) == bytes[at..at + count * width]
    ensures forall e :: 0 <= e < count ==> Fields(little, bytes, at, count, width)[e] < Span(width)
    decreases count
  {
    hide Field, Written, Span;
    if count > 0 {
      RowNext(count, width);
      var last := at + (count - 1) * width;
      RowReread(little, bytes, at, count - 1, width);
      FieldReread(little, bytes, at, last, width, Fields(little, bytes, at, count - 1, width));
    }
  }

  /** One more field, once the ones before it are written again. */
  lemma FieldReread(little: bool, bytes: Bytes, at: nat, last: nat, width: nat, values: seq<nat>)
    requires at <= last && last + width <= |bytes| && Row(little, values, width) == bytes[at..last]
    ensures Row(little, values + [Field(little, bytes, last, width)], width) == bytes[at..last + width]
    ensures Field(little, bytes, last, width) < Span(width)
  {
    hide Field, Written, Span, Row;
    ReadWrites(little, bytes, last, width);
    RowSnoc(little, values, Field(little, bytes, last, width), width);
    SliceJoin(bytes, at, last, last + width);
  }

  lemma RowNext(count: nat, width: nat)
    requires count > 0
    ensures count * width == (count - 1) * width + width
  {
  }

  lemma SliceJoin(bytes: Bytes, a: nat, b: nat, c: nat)
    requires a <= b <= c <= |bytes|
    ensures bytes[a..c] == bytes[a..b] + bytes[b..c]
  {
  }

  lemma RowSnoc(little: bool, values: seq<nat>, value: nat, width: nat)
    ensures Row(little, values + [value], width) == Row(little, values, width) + Written(little, value, width)
  {
    assert (values + [value])[..|values|] == values;
  }

  function LayerRead(little: bool, bytes: Bytes, at: nat, m: nat, l: nat): Layer
  {
    var degree, words := Degree(little, bytes, at), Fields(little, bytes, at + 4, Capacity(m, l), 4);
    if degree <= |words| then Layer(words[..degree], words[degree..]) else Layer([], words)
  }

  lemma LayerReadFields(little: bool, bytes: Bytes, at: nat, m: nat, l: nat)
    requires at + LayerBytes(m, l) <= |bytes| && Degree(little, bytes, at) <= Capacity(m, l)
    ensures var layer := LayerRead(little, bytes, at, m, l);
            && |layer.targets| + |layer.spare| == Capacity(m, l) && |layer.targets| == Degree(little, bytes, at)
            && Words32(layer.spare)
            && forall e :: 0 <= e < |layer.targets| ==> layer.targets[e] == Target(little, bytes, at, e)
  {
    hide Field, Written, Row, Fields, Span;
    var words := Fields(little, bytes, at + 4, Capacity(m, l), 4);
    Spans();
    RowReread(little, bytes, at + 4, Capacity(m, l), 4);
    forall e | 0 <= e < |words| ensures words[e] == Target(little, bytes, at, e) {
      FieldsAt(little, bytes, at + 4, Capacity(m, l), 4, e);
    }
  }

  lemma LayerReimage(little: bool, bytes: Bytes, at: nat, m: nat, l: nat)
    requires at + LayerBytes(m, l) <= |bytes| && Degree(little, bytes, at) <= Capacity(m, l)
    ensures LayerImage(little, LayerRead(little, bytes, at, m, l)) == bytes[at..at + LayerBytes(m, l)]
  {
    hide Field, Written, Row, Fields;
    var degree, words := Degree(little, bytes, at), Fields(little, bytes, at + 4, Capacity(m, l), 4);
    ReadWrites(little, bytes, at, 4);
    RowReread(little, bytes, at + 4, Capacity(m, l), 4);
    assert words[..degree] + words[degree..] == words;
    SliceJoin(bytes, at, at + 4, at + LayerBytes(m, l));
  }

  /** A well-formed layer reads back as a legal one that serialises to the same bytes. */
  lemma LayerReread(little: bool, bytes: Bytes, at: nat, node: nat, l: nat, levels: seq<nat>, m: nat)
    requires LayerOk(little, bytes, at, node, l, levels, m)
    ensures LayerLegal(LayerRead(little, bytes, at, m, l), node, l, levels, m)
    ensures LayerImage(little, LayerRead(little, bytes, at, m, l)) == bytes[at..at + LayerBytes(m, l)]
  {
    LayerReadFields(little, bytes, at, m, l);
    LayerReimage(little, bytes, at, m, l);
    hide LayerRead, Degree, Target, Words32, LayerImage;
    var layer := LayerRead(little, bytes, at, m, l);
    forall e | 0 <= e < |layer.targets|
      ensures layer.targets[e] < |levels| && layer.targets[e] != node && levels[layer.targets[e]] >= l
    {
      assert EdgeOk(little, bytes, at, e, node, l, levels);
    }
  }

  function LayersRead(little: bool, bytes: Bytes, at: nat, m: nat, k: nat): (r: seq<Layer>)
    ensures |r| == k
  {
    if k == 0 then [] else LayersRead(little, bytes, at, m, k - 1) + [LayerRead(little, bytes, at + LayersBytes(m, k - 1), m, k - 1)]
  }

  lemma {:induction false} LayersReread(little: bool, bytes: Bytes, at: nat, node: nat, k: nat, levels: seq<nat>, m: nat)
    requires at <= |bytes|
    requires forall l :: 0 <= l < k ==> LayerOk(little, bytes, at + LayersBytes(m, l), node, l, levels, m)
    ensures at + LayersBytes(m, k) <= |bytes|
    ensures NodeLegal(LayersRead(little, bytes, at, m, k), node, levels, m)
    ensures LayersImage(little, LayersRead(little, bytes, at, m, k)) == bytes[at..at + LayersBytes(m, k)]
    decreases k
  {
    hide LayerOk, LayerLegal, LayerImage, LayerRead, NodeLegal, LayersImage, LayerBytes;
    if k == 0 {
      NoLayersReread(little, node, levels, m);
    } else {
      LayersReread(little, bytes, at, node, k - 1, levels, m);
      var last := at + LayersBytes(m, k - 1);
      assert LayerOk(little, bytes, last, node, k - 1, levels, m);
      NextLayerReread(little, bytes, at, last, node, k - 1, levels, m, LayersRead(little, bytes, at, m, k - 1));
    }
  }

  lemma NoLayersReread(little: bool, node: nat, levels: seq<nat>, m: nat)
    ensures NodeLegal([], node, levels, m) && LayersImage(little, []) == []
  {
  }

  /** One more layer, once the ones before it read back. */
  lemma NextLayerReread(little: bool, bytes: Bytes, at: nat, last: nat, node: nat, l: nat, levels: seq<nat>, m: nat, front: seq<Layer>)
    requires at <= last <= |bytes| && |front| == l && LayerOk(little, bytes, last, node, l, levels, m)
    requires NodeLegal(front, node, levels, m) && LayersImage(little, front) == bytes[at..last]
    ensures last + LayerBytes(m, l) <= |bytes|
    ensures NodeLegal(front + [LayerRead(little, bytes, last, m, l)], node, levels, m)
    ensures LayersImage(little, front + [LayerRead(little, bytes, last, m, l)]) == bytes[at..last + LayerBytes(m, l)]
  {
    hide LayerOk, LayerLegal, LayerImage, LayersImage, LayerRead;
    LayerReread(little, bytes, last, node, l, levels, m);
    LayerFits(little, bytes, last, node, l, levels, m);
    LayersSnoc(little, front, LayerRead(little, bytes, last, m, l));
    SliceJoin(bytes, at, last, last + LayerBytes(m, l));
  }

  lemma LayerFits(little: bool, bytes: Bytes, at: nat, node: nat, l: nat, levels: seq<nat>, m: nat)
    requires LayerOk(little, bytes, at, node, l, levels, m)
    ensures at + LayerBytes(m, l) <= |bytes|
  {
  }

  lemma LayersSnoc(little: bool, layers: seq<Layer>, layer: Layer)
    ensures LayersImage(little, layers + [layer]) == LayersImage(little, layers) + LayerImage(little, layer)
  {
    assert (layers + [layer])[..|layers|] == layers;
  }

  function NodeRead(little: bool, bytes: Bytes, levels: seq<nat>, m: nat, v: nat): (r: seq<Layer>)
    requires v < |levels|
    ensures |r| == levels[v] + 1
  {
    LayersRead(little, bytes, NodeStart(levels, m, v) + 10, m, levels[v] + 1)
  }

  function NodesRead(little: bool, bytes: Bytes, levels: seq<nat>, m: nat, k: nat): (r: seq<seq<Layer>>)
    requires k <= |levels|
    ensures |r| == k && forall v :: 0 <= v < k ==> r[v] == NodeRead(little, bytes, levels, m, v)
  {
    seq(k, v requires 0 <= v < k => NodeRead(little, bytes, levels, m, v))
  }

  function ImageRead(little: bool, bytes: Bytes, n: nat, m: nat): (r: Image)
    ensures |r.nodes| == n
  {
    Image(NodesRead(little, bytes, LevelTable(little, bytes, n), m, n), Field(little, bytes, 32, 8))
  }

  /** A well-formed node reads back as legal layers that serialise to the same block. */
  lemma NodeReread(little: bool, bytes: Bytes, at: nat, node: nat, levels: seq<nat>, m: nat)
    requires node < |levels| && NodeOk(little, bytes, at, node, levels, m)
    ensures at + NodeBytes(m, levels[node]) <= |bytes|
    ensures var layers := LayersRead(little, bytes, at + 10, m, levels[node] + 1);
            && NodeLegal(layers, node, levels, m)
            && NodeImage(little, node, layers) == bytes[at..at + NodeBytes(m, levels[node])]
  {
    hide Field, Written, LayerOk, LayersImage, LayersRead, NodeLegal, LayersBytes;
    ReadWrites(little, bytes, at, 8);
    ReadWrites(little, bytes, at + 8, 2);
    LayersReread(little, bytes, at + 10, node, levels[node] + 1, levels, m);
    SliceJoin(bytes, at, at + 8, at + 10);
    SliceJoin(bytes, at, at + 10, at + NodeBytes(m, levels[node]));
  }

  lemma {:induction false} NodesReread(little: bool, bytes: Bytes, levels: seq<nat>, m: nat, k: nat)
    requires k <= |levels| && HEADER_BYTES + 2 * |levels| <= |bytes|
    requires forall v :: 0 <= v < |levels| ==> NodeOk(little, bytes, NodeStart(levels, m, v), v, levels, m)
    ensures HEADER_BYTES + 2 * |levels| <= NodeStart(levels, m, k) <= |bytes|
    ensures NodesImage(little, NodesRead(little, bytes, levels, m, k)) == bytes[HEADER_BYTES + 2 * |levels|..NodeStart(levels, m, k)]
    decreases k
  {
    hide NodeOk, NodeImage, NodeRead, NodeBytes, LayersBytes, NodesImage;
    if k == 0 {
      NoNodes(little);
    } else {
      NodesReread(little, bytes, levels, m, k - 1);
      var at, front := NodeStart(levels, m, k - 1), NodesRead(little, bytes, levels, m, k - 1);
      NodeAt(little, bytes, levels, m, k - 1);
      NodesSnoc(little, front, NodeRead(little, bytes, levels, m, k - 1));
      assert NodesRead(little, bytes, levels, m, k) == front + [NodeRead(little, bytes, levels, m, k - 1)];
      SliceJoin(bytes, HEADER_BYTES + 2 * |levels|, at, NodeStart(levels, m, k));
    }
  }

  lemma NoNodes(little: bool)
    ensures NodesImage(little, []) == []
  {
  }

  lemma NodeAt(little: bool, bytes: Bytes, levels: seq<nat>, m: nat, v: nat)
    requires v < |levels| && NodeOk(little, bytes, NodeStart(levels, m, v), v, levels, m)
    ensures NodeStart(levels, m, v + 1) == NodeStart(levels, m, v) + NodeBytes(m, levels[v]) <= |bytes|
    ensures NodeLegal(NodeRead(little, bytes, levels, m, v), v, levels, m)
    ensures NodeImage(little, v, NodeRead(little, bytes, levels, m, v)) == bytes[NodeStart(levels, m, v)..NodeStart(levels, m, v + 1)]
  {
    hide NodeOk, NodeImage, NodeBytes, LayersRead;
    NodeReread(little, bytes, NodeStart(levels, m, v), v, levels, m);
  }

  lemma NodesSnoc(little: bool, nodes: seq<seq<Layer>>, layers: seq<Layer>)
    requires layers != [] && forall v :: 0 <= v < |nodes| ==> nodes[v] != []
    ensures NodesImage(little, nodes + [layers]) == NodesImage(little, nodes) + NodeImage(little, |nodes|, layers)
  {
    hide NodeImage;
    assert (nodes + [layers])[..|nodes|] == nodes;
  }

  /** Every node of a valid stream reads back as legal, under the levels of the stream. */
  lemma ReadLegal(little: bool, bytes: Bytes, n: nat, m: nat)
    requires ValidShape(n, m) && ValidStream(little, bytes, n, m)
    ensures var image := ImageRead(little, bytes, n, m);
            && Shaped(image) && Levels(image) == LevelTable(little, bytes, n)
            && Base(image) == BaseLayer(little, bytes, Levels(image), m)
            && Legal(image, m)
  {
    hide Field, NodeOk, NodeStart, AllReachable, MaxLevel, NodeRead, NodeLegal, BaseLayer, Base, HeaderOk;
    var image, levels := ImageRead(little, bytes, n, m), LevelTable(little, bytes, n);
    assert Levels(image) == levels;
    forall v | 0 <= v < n ensures NodeLegal(image.nodes[v], v, levels, m) {
      NodeAt(little, bytes, levels, m, v);
    }
    BaseReread(little, bytes, n, m);
  }

  lemma BaseReread(little: bool, bytes: Bytes, n: nat, m: nat)
    requires m >= 2 && ValidStream(little, bytes, n, m)
    ensures Shaped(ImageRead(little, bytes, n, m))
    ensures Base(ImageRead(little, bytes, n, m)) == BaseLayer(little, bytes, LevelTable(little, bytes, n), m)
  {
    hide Field, NodeOk, NodeStart, AllReachable, MaxLevel, NodeRead, BaseEdges, HeaderOk, EntryOk;
    var image, levels := ImageRead(little, bytes, n, m), LevelTable(little, bytes, n);
    forall v | 0 <= v < n ensures image.nodes[v][0].targets == BaseEdges(little, bytes, levels, m, v) {
      BaseNodeRead(little, bytes, levels, m, v);
    }
  }

  lemma BaseNodeRead(little: bool, bytes: Bytes, levels: seq<nat>, m: nat, v: nat)
    requires v < |levels| && NodeOk(little, bytes, NodeStart(levels, m, v), v, levels, m)
    ensures NodeRead(little, bytes, levels, m, v)[0].targets == BaseEdges(little, bytes, levels, m, v)
  {
    hide Field, NodeOk, Degree, Target, LayersRead;
    BaseLayerRead(little, bytes, NodeStart(levels, m, v), v, levels, m);
  }

  lemma {:induction false} LayersFirst(little: bool, bytes: Bytes, at: nat, m: nat, k: nat)
    requires k > 0
    ensures LayersRead(little, bytes, at, m, k)[0] == LayerRead(little, bytes, at, m, 0)
    decreases k
  {
    hide LayerRead;
    if k > 1 {
      LayersFirst(little, bytes, at, m, k - 1);
    }
  }

  lemma BaseLayerRead(little: bool, bytes: Bytes, start: nat, node: nat, levels: seq<nat>, m: nat)
    requires node < |levels| && NodeOk(little, bytes, start, node, levels, m)
    ensures var layers, at := LayersRead(little, bytes, start + 10, m, levels[node] + 1), start + 10;
            && |layers[0].targets| == Degree(little, bytes, at)
            && forall e :: 0 <= e < |layers[0].targets| ==> layers[0].targets[e] == Target(little, bytes, at, e)
  {
    hide Field, LayersRead, LayerRead;
    LayersFirst(little, bytes, start + 10, m, levels[node] + 1);
    assert LayerOk(little, bytes, start + 10 + LayersBytes(m, 0), node, 0, levels, m);
    LayerReadFields(little, bytes, start + 10, m, 0);
  }

  lemma FieldsAre(little: bool, bytes: Bytes, at: nat, width: nat, values: seq<nat>)
    requires forall e :: 0 <= e < |values| ==> Field(little, bytes, at + e * width, width) == values[e]
    ensures Fields(little, bytes, at, |values|, width) == values
  {
    hide Field;
    forall e | 0 <= e < |values| ensures Fields(little, bytes, at, |values|, width)[e] == values[e] {
      FieldsAt(little, bytes, at, |values|, width, e);
    }
  }

  lemma HeaderReread(little: bool, bytes: Bytes, image: Image, m: nat)
    requires Shaped(image) && (image.nodes != [] ==> image.entry < |image.nodes|)
    requires |bytes| >= HEADER_BYTES && HeaderOk(little, bytes, |image.nodes|, m)
    requires Field(little, bytes, 24, 8) == TopLevel(image) && Field(little, bytes, 32, 8) == image.entry
    ensures Row(little, HeaderRow(image, m), 8) == bytes[..HEADER_BYTES]
  {
    hide Field, Row, Fields, TopLevel;
    var header := HeaderRow(image, m);
    forall e | 0 <= e < 5 ensures Field(little, bytes, 0 + e * 8, 8) == header[e] {
    }
    FieldsAre(little, bytes, 0, 8, header);
    RowReread(little, bytes, 0, 5, 8);
    assert bytes[0..40] == bytes[..40];
  }

  lemma LevelsReread(little: bool, bytes: Bytes, n: nat)
    requires HEADER_BYTES + 2 * n <= |bytes|
    ensures Row(little, LevelTable(little, bytes, n), 2) == bytes[HEADER_BYTES..HEADER_BYTES + 2 * n]
  {
    hide Field, Row, Fields;
    FieldsAre(little, bytes, HEADER_BYTES, 2, LevelTable(little, bytes, n));
    RowReread(little, bytes, HEADER_BYTES, n, 2);
  }

  /** A valid stream is the serialised form of the graph read from it. */
  lemma ReadSerializes(little: bool, bytes: Bytes, n: nat, m: nat)
    requires ValidShape(n, m) && ValidStream(little, bytes, n, m)
    ensures Legal(ImageRead(little, bytes, n, m), m)
    ensures Serialized(little, ImageRead(little, bytes, n, m), m) == bytes
  {
    hide Field, NodeOk, NodeStart, NodesRead, NodesImage, LevelTable, Legal, Row, BaseLayer, Base, ValidStream, Shaped, Levels, TopLevel, HeaderOk,
      ImageRead, Serialized, HeaderRow;
    ReadLegal(little, bytes, n, m);
    StreamParts(little, bytes, n, m);
    var image, levels := ImageRead(little, bytes, n, m), LevelTable(little, bytes, n);
    HeaderReread(little, bytes, image, m);
    LevelsReread(little, bytes, n);
    NodesReread(little, bytes, levels, m, n);
    Reassemble(little, bytes, image, m);
  }

  lemma StreamParts(little: bool, bytes: Bytes, n: nat, m: nat)
    requires ValidShape(n, m) && ValidStream(little, bytes, n, m)
    requires Shaped(ImageRead(little, bytes, n, m)) && Levels(ImageRead(little, bytes, n, m)) == LevelTable(little, bytes, n)
    ensures var image, levels := ImageRead(little, bytes, n, m), LevelTable(little, bytes, n);
            && (image.nodes != [] ==> image.entry < |image.nodes|)
            && HeaderOk(little, bytes, |image.nodes|, m) && HEADER_BYTES + 2 * n <= |bytes| == NodeStart(levels, m, n)
            && Field(little, bytes, 24, 8) == TopLevel(image) && Field(little, bytes, 32, 8) == image.entry
            && image.nodes == NodesRead(little, bytes, levels, m, n)
            && forall v :: 0 <= v < n ==> NodeOk(little, bytes, NodeStart(levels, m, v), v, levels, m)
  {
    hide Field, NodeOk, NodeStart, AllReachable, MaxLevel, NodesRead, LevelTable, BaseLayer;
  }

  lemma Reassemble(little: bool, bytes: Bytes, image: Image, m: nat)
    requires Shaped(image) && (image.nodes != [] ==> image.entry < |image.nodes|)
    requires HEADER_BYTES + 2 * |image.nodes| <= |bytes|
    requires Row(little, HeaderRow(image, m), 8) == bytes[..HEADER_BYTES]
    requires Row(little, Levels(image), 2) == bytes[HEADER_BYTES..HEADER_BYTES + 2 * |image.nodes|]
    requires NodesImage(little, image.nodes) == bytes[HEADER_BYTES + 2 * |image.nodes|..|bytes|]
    ensures Serialized(little, image, m) == bytes
  {
    hide Row, HeaderRow, Levels, NodesImage;
  }

  /** The bytes encode a legal graph of this shape. */
  ghost predicate Encodes(little: bool, bytes: Bytes, n: nat, m: nat, image: Image)
    requires m >= 2
  {
    |image.nodes| == n && Legal(image, m) && Serialized(little, image, m) == bytes
  }

  /** The format predicate holds exactly of the bytes that encode a legal graph. */
  lemma StreamsAreGraphs(little: bool, bytes: Bytes, n: nat, m: nat)
    requires ValidShape(n, m)
    ensures ValidStream(little, bytes, n, m) <==> exists image :: Encodes(little, bytes, n, m, image)
  {
    hide ValidStream, Legal, Serialized, ImageRead;
    if ValidStream(little, bytes, n, m) {
      ReadSerializes(little, bytes, n, m);
      assert Encodes(little, bytes, n, m, ImageRead(little, bytes, n, m));
    }
    if image :| Encodes(little, bytes, n, m, image) {
      SerializedValid(little, image, m);
    }
  }
}
