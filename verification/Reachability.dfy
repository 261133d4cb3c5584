/** Directed reachability over adjacency lists of dense ordinals. */
module Reachability {
  import opened Ordinals

  type Graph = seq<seq<nat>>

  /** Every edge leads to a node. */
  ghost predicate InRange(graph: Graph) {
    forall v, i :: 0 <= v < |graph| && 0 <= i < |graph[v]| ==> graph[v][i] < |graph|
  }

  ghost predicate Path(graph: Graph, p: seq<nat>) {
    && p != []
    && (forall i :: 0 <= i < |p| ==> p[i] < |graph|)
    && (forall i :: 0 <= i < |p| - 1 ==> p[i + 1] in graph[p[i]])
  }

  ghost predicate Reachable(graph: Graph, from: nat, to: nat) {
    exists p :: Path(graph, p) && p[0] == from && p[|p| - 1] == to
  }

  ghost predicate AllReachable(graph: Graph, from: nat) {
    forall v :: 0 <= v < |graph| ==> Reachable(graph, from, v)
  }

  lemma ReachableSelf(graph: Graph, v: nat)
    requires v < |graph|
    ensures Reachable(graph, v, v)
  {
    assert Path(graph, [v]);
  }

  lemma ReachableStep(graph: Graph, from: nat, v: nat, w: nat)
    requires Reachable(graph, from, v) && v < |graph| && w in graph[v] && w < |graph|
    ensures Reachable(graph, from, w)
  {
    var p :| Path(graph, p) && p[0] == from && p[|p| - 1] == v;
    var q := p + [w];
    assert Path(graph, q);
  }

  /** A set closed under edges contains everything reachable from its members. */
  ghost predicate Closed(graph: Graph, nodes: set<nat>) {
    forall v, w :: v in nodes && v < |graph| && w in graph[v] ==> w in nodes
  }

  lemma {:induction false} ClosedPath(graph: Graph, nodes: set<nat>, p: seq<nat>)
    requires Closed(graph, nodes) && Path(graph, p) && p[0] in nodes
    ensures p[|p| - 1] in nodes
    decreases |p|
  {
    if |p| > 1 {
      assert p[1] in graph[p[0]];
      var q := p[1..];
      assert forall i :: 0 <= i < |q| ==> q[i] == p[i + 1];
      ClosedPath(graph, nodes, q);
    }
  }

  lemma ClosedContains(graph: Graph, nodes: set<nat>, from: nat, to: nat)
    requires Closed(graph, nodes) && from in nodes && Reachable(graph, from, to)
    ensures to in nodes
  {
    var p :| Path(graph, p) && p[0] == from && p[|p| - 1] == to;
    ClosedPath(graph, nodes, p);
  }

  /** A search that ends with a closed set of reachable nodes found all of them, and
      its size decides whether every node is reachable. */
  lemma SearchComplete(graph: Graph, entry: nat, found: set<nat>)
    requires entry in found && Closed(graph, found)
    requires forall v :: v in found ==> v < |graph| && Reachable(graph, entry, v)
    ensures forall v :: 0 <= v < |graph| ==> (v in found <==> Reachable(graph, entry, v))
    ensures AllReachable(graph, entry) <==> |found| == |graph|
  {
    forall v | 0 <= v < |graph| && Reachable(graph, entry, v) ensures v in found {
      ClosedContains(graph, found, entry, v);
    }
    NodesBound(found, |graph|);
    if AllReachable(graph, entry) {
      assert found == Nodes(|graph|);
    }
  }

  // ---------------------------------------------------------------- incremental search

  /** A search in progress: everything found is reachable, everything found and no
      longer pending has all its neighbours found, except that of `node` only the
      first `edges` have been looked at. */
  ghost predicate Expanding(graph: Graph, entry: nat, found: set<nat>, pending: seq<nat>, done: nat, node: nat, edges: nat) {
    && entry in found
    && (forall v :: v in found ==> v < |graph| && Reachable(graph, entry, v))
    && (forall i :: 0 <= i < |pending| ==> pending[i] in found)
    && (forall i, j :: 0 <= i < j < |pending| ==> pending[i] != pending[j])
    && node in found && node !in pending && edges <= |graph[node]|
    && (forall v, w :: v in found && v !in pending && v != node && w in graph[v] ==> w in found)
    && (forall i :: 0 <= i < edges ==> graph[node][i] in found)
    && done + |pending| == |found|
  }

  /** Between expansions. */
  ghost predicate Searching(graph: Graph, entry: nat, found: set<nat>, pending: seq<nat>, done: nat) {
    && entry in found
    && (forall v :: v in found ==> v < |graph| && Reachable(graph, entry, v))
    && (forall i :: 0 <= i < |pending| ==> pending[i] in found)
    && (forall i, j :: 0 <= i < j < |pending| ==> pending[i] != pending[j])
    && (forall v, w :: v in found && v !in pending && w in graph[v] ==> w in found)
    && done + |pending| == |found|
  }

  lemma EdgeInRange(graph: Graph, node: nat, edge: nat)
    requires InRange(graph) && node < |graph| && edge < |graph[node]|
    ensures graph[node][edge] < |graph|
  {
  }

  lemma SearchStart(graph: Graph, entry: nat)
    requires entry < |graph|
    ensures Searching(graph, entry, {entry}, [entry], 0)
  {
    ReachableSelf(graph, entry);
  }

  /** Taking any pending node starts its expansion. */
  lemma SearchTake(graph: Graph, entry: nat, found: set<nat>, pending: seq<nat>, done: nat, at: nat)
    requires Searching(graph, entry, found, pending, done) && at < |pending|
    ensures Expanding(graph, entry, found, pending[..at] + pending[at + 1..], done + 1, pending[at], 0)
  {
    var rest := pending[..at] + pending[at + 1..];
    assert forall i :: 0 <= i < |rest| ==> rest[i] == pending[if i < at then i else i + 1];
  }

  /** A neighbour already found needs nothing; a new one becomes pending. */
  lemma SearchEdge(graph: Graph, entry: nat, found: set<nat>, pending: seq<nat>, done: nat, node: nat, edge: nat)
    requires Expanding(graph, entry, found, pending, done, node, edge)
    requires InRange(graph) && edge < |graph[node]|
    ensures var w := graph[node][edge];
            if w in found then Expanding(graph, entry, found, pending, done, node, edge + 1)
            else Expanding(graph, entry, found + {w}, pending + [w], done, node, edge + 1)
  {
    var w := graph[node][edge];
    if w !in found {
      ReachableStep(graph, entry, node, w);
    }
  }

  lemma SearchTaken(graph: Graph, entry: nat, found: set<nat>, pending: seq<nat>, done: nat, node: nat)
    requires node < |graph| && Expanding(graph, entry, found, pending, done, node, |graph[node]|)
    ensures Searching(graph, entry, found, pending, done)
  {
  }

  /** When nothing is pending, the number of expansions decides reachability. */
  lemma SearchDone(graph: Graph, entry: nat, found: set<nat>, done: nat)
    requires Searching(graph, entry, found, [], done)
    ensures forall v :: 0 <= v < |graph| ==> (v in found <==> Reachable(graph, entry, v))
    ensures AllReachable(graph, entry) <==> done == |graph|
    ensures done == |found|
  {
    SearchComplete(graph, entry, found);
  }
}
