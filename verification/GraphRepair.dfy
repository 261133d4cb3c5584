/** The connectivity audit of a private native graph and its repair by a directed cycle. */
module GraphRepair {
  import opened Checkpoints
  import opened Ordinals
  import opened Reachability
  import opened VisitedSlots

  datatype Outcome = Complete | LimitExceeded | Cancelled

  /** The base layer as the format wants it: bounded, duplicate-free, self-free lists. */
  ghost predicate WellLinked(graph: Graph, cap: nat) {
    && InRange(graph)
    && forall v :: 0 <= v < |graph| ==> ListOk(graph[v], v, cap)
  }

  ghost predicate ListOk(edges: seq<nat>, node: nat, cap: nat) {
    && |edges| <= cap
    && node !in edges
    && forall i, j :: 0 <= i < j < |edges| ==> edges[i] != edges[j]
  }

  /** A list made to contain `successor`, giving up its last edge only when full. */
  function Linked(edges: seq<nat>, successor: nat, cap: nat): seq<nat>
    requires cap > 0
  {
    if successor in edges then edges
    else if |edges| == cap then edges[cap - 1 := successor]
    else edges + [successor]
  }

  lemma LinkedKeeps(edges: seq<nat>, node: nat, successor: nat, cap: nat)
    requires cap > 0
    ensures successor in Linked(edges, successor, cap)
    ensures forall w :: w in Linked(edges, successor, cap) ==> w in edges || w == successor
    ensures |edges| <= |Linked(edges, successor, cap)| && forall i :: 0 <= i < |edges| - 1 ==> Linked(edges, successor, cap)[i] == edges[i]
    ensures |edges| != cap ==> edges <= Linked(edges, successor, cap)
    ensures successor in edges ==> Linked(edges, successor, cap) == edges
    ensures ListOk(edges, node, cap) && successor != node ==> ListOk(Linked(edges, successor, cap), node, cap)
  {
    var linked := Linked(edges, successor, cap);
    if successor !in edges {
      var at := if |edges| == cap then cap - 1 else |edges|;
      assert linked[at] == successor;
      assert forall i :: 0 <= i < |linked| && i != at ==> i < |edges| && linked[i] == edges[i];
      assert forall i :: 0 <= i < |edges| - 1 ==> linked[i] == edges[i];
    }
  }

  /** The first `k` nodes linked to their cyclic successors. */
  function Cycled(graph: Graph, k: nat, cap: nat): Graph
    requires k <= |graph| && cap > 0
  {
    seq(|graph|, v requires 0 <= v < |graph| => if v < k then Linked(graph[v], (v + 1) % |graph|, cap) else graph[v])
  }

  lemma NextNode(v: nat, n: nat)
    requires v < n && n > 1
    ensures (v + 1) % n < n && (v + 1) % n != v
  {
  }

  lemma CycledKeeps(graph: Graph, k: nat, cap: nat)
    requires k <= |graph| && cap > 0 && WellLinked(graph, cap) && |graph| > 1
    ensures WellLinked(Cycled(graph, k, cap), cap)
  {
    var after := Cycled(graph, k, cap);
    forall v | 0 <= v < |graph|
      ensures ListOk(after[v], v, cap) && forall i :: 0 <= i < |after[v]| ==> after[v][i] < |graph|
    {
      NextNode(v, |graph|);
      var next := (v + 1) % |graph|;
      LinkedKeeps(graph[v], v, next, cap);
      assert after[v] == if v < k then Linked(graph[v], next, cap) else graph[v];
      hide Linked, ListOk;
      forall i | 0 <= i < |after[v]| ensures after[v][i] < |graph| {
        assert after[v][i] in after[v];
      }
    }
  }

  /** Every node has its cyclic successor among its edges. */
  ghost predicate HasCycle(graph: Graph) {
    forall v :: 0 <= v < |graph| ==> (v + 1) % |graph| in graph[v]
  }

  lemma CycleEdge(graph: Graph, v: nat)
    requires HasCycle(graph) && v < |graph|
    ensures (if v + 1 < |graph| then v + 1 else 0) in graph[v]
  {
    assert (v + 1) % |graph| == if v + 1 < |graph| then v + 1 else 0;
  }

  lemma {:induction false} Walk(graph: Graph, entry: nat, from: nat, to: nat)
    requires HasCycle(graph) && from <= to < |graph| && Reachable(graph, entry, from)
    ensures Reachable(graph, entry, to)
    decreases |graph| - from
  {
    hide Reachable;
    if from < to {
      CycleEdge(graph, from);
      ReachableStep(graph, entry, from, from + 1);
      Walk(graph, entry, from + 1, to);
    }
  }

  /** A directed cycle through all nodes reaches everything from anywhere. */
  lemma CycleReaches(graph: Graph, entry: nat)
    requires HasCycle(graph) && entry < |graph|
    ensures AllReachable(graph, entry)
  {
    hide Reachable, HasCycle;
    var last := |graph| - 1;
    ReachableSelf(graph, entry);
    Walk(graph, entry, entry, last);
    CycleEdge(graph, last);
    ReachableStep(graph, entry, last, 0);
    forall v | 0 <= v < |graph| ensures Reachable(graph, entry, v) {
      Walk(graph, entry, 0, v);
    }
  }

  lemma CycledReaches(graph: Graph, entry: nat, cap: nat)
    requires cap > 0 && entry < |graph|
    ensures AllReachable(Cycled(graph, |graph|, cap), entry)
  {
    var after := Cycled(graph, |graph|, cap);
    forall v | 0 <= v < |after| ensures (v + 1) % |after| in after[v] {
      LinkedKeeps(graph[v], v, (v + 1) % |graph|, cap);
    }
    CycleReaches(after, entry);
  }

  lemma LonelyReaches(graph: Graph, entry: nat)
    requires entry < |graph| == 1
    ensures AllReachable(graph, entry)
  {
    ReachableSelf(graph, entry);
  }

  /** The base layer of a native graph. */
  class Engine {
    var links: Graph
    const entry: nat
    const cap: nat

    constructor (links: Graph, entry: nat, cap: nat)
      ensures this.links == links && this.entry == entry && this.cap == cap
    {
      this.links, this.entry, this.cap := links, entry, cap;
    }

    ghost predicate Valid()
      reads this
    {
      entry < |links| && cap > 0 && InRange(links)
    }

    method EnsureSuccessor(slot: nat, successor: nat)
      requires slot < |links| && cap > 0
      modifies this
      ensures links == old(links)[slot := Linked(old(links)[slot], successor, cap)]
    {
      var edges: seq<nat> := links[slot];
      for i := 0 to |edges|
        invariant successor !in edges[..i]
        invariant links == old(links)
      {
        if edges[i] == successor {
          assert old(links)[slot := edges] == links;
          return;
        }
      }
      if |edges| == cap {
        edges := edges[cap - 1 := successor];
      } else {
        edges := edges + [successor];
      }
      links := links[slot := edges];
    }

    /** Breadth-first audit: `reached` is the number of nodes reachable from the entry,
        and `visited` ends up holding exactly those nodes. */
    method Audit(visited: Bitmap, control: Control) returns (ok: bool, reached: nat)
      requires Valid() && visited.Valid() && visited.Prepared(|links|)
      modifies visited`count, visited`slots, visited.words, control
      ensures visited.Valid()
      ensures control.Answered(old(control.calls), ok)
      ensures ok ==> forall v :: 0 <= v < |links| ==> (v in visited.slots <==> Reachable(links, entry, v))
      ensures ok ==> reached == visited.count == |visited.slots|
      ensures ok ==> (reached == |links| <==> AllReachable(links, entry))
    {
      hide Searching, Expanding, InRange, AllReachable, Reachable, Represents;
      var queue := new nat[|links|];
      visited.Clear();
      queue[0] := entry;
      var present := visited.Set(entry);
      var head, tail, edges := 0, 1, 0;
      assert visited.slots == {entry} && queue[head..tail] == [entry];
      SearchStart(links, entry);
      while head != tail
        invariant control.Answered(old(control.calls), true)
        invariant visited.Valid() && unchanged(visited`words)
        invariant head <= tail <= queue.Length
        invariant Searching(links, entry, visited.slots, queue[head..tail], head)
        decreases queue.Length - head
        modifies visited`count, visited`slots, visited.words, control, queue
      {
        ok := control.Proceed();
        if !ok {
          return false, 0;
        }
        SearchTake(links, entry, visited.slots, queue[head..tail], head, 0);
        assert queue[head..tail][..0] + queue[head..tail][1..] == queue[head + 1..tail];
        ok, tail, edges := Expand(visited, control, queue, head, tail, edges);
        if !ok {
          return false, 0;
        }
        head := head + 1;
      }
      assert queue[head..tail] == [];
      SearchDone(links, entry, visited.slots, head);
      return true, tail;
    }

    /** Visits the unseen neighbours of the node at the queue's head. */
    method Expand(visited: Bitmap, control: Control, queue: array<nat>, head: nat, back: nat, looked: nat)
      returns (ok: bool, tail: nat, edges: nat)
      requires Valid() && visited.Valid() && visited.Prepared(|links|)
      requires head < back <= queue.Length == |links|
      requires queue as object != visited.words as object
      requires Expanding(links, entry, visited.slots, queue[head + 1..back], head + 1, queue[head], 0)
      modifies visited`count, visited`slots, visited.words, control, queue
      ensures visited.Valid()
      ensures control.Answered(old(control.calls), ok)
      ensures back <= tail <= queue.Length
      ensures ok ==> Searching(links, entry, visited.slots, queue[head + 1..tail], head + 1)
    {
      hide Searching, Expanding, InRange, Represents;
      var node := queue[head];
      NodeInside(links, entry, visited.slots, queue[head + 1..back], head + 1, node);
      tail, edges := back, looked;
      for i := 0 to |links[node]|
        invariant control.Answered(old(control.calls), true)
        invariant visited.Valid() && unchanged(visited`words)
        invariant back <= tail <= queue.Length
        invariant Expanding(links, entry, visited.slots, queue[head + 1..tail], head + 1, node, i)
        modifies visited`count, visited`slots, visited.words, control, queue
      {
        if edges % 64 == 0 {
          ok := control.Proceed();
          if !ok {
            return;
          }
        }
        edges := edges + 1;
        var target := links[node][i];
        EdgeInRange(links, node, i);
        SearchEdge(links, entry, visited.slots, queue[head + 1..tail], head + 1, node, i);
        ghost var was, found := queue[head + 1..tail], visited.slots;
        var present := visited.Set(target);
        assert queue[head + 1..tail] == was;
        if !present {
          QueueRoom(links, entry, visited.slots, was + [target], head + 1, node, i + 1);
          ghost var slots := queue[..];
          queue[tail] := target;
          SlicePush(slots, queue[..], head + 1, tail, target);
          tail := tail + 1;
        } else {
          assert found + {target} == found;
        }
      }
      SearchTaken(links, entry, visited.slots, queue[head + 1..tail], head + 1, node);
      ok := true;
    }

    /** Audits the graph and, only if some node cannot be reached, links every node to
        its cyclic successor. */
    method Repair(visited: Bitmap, allocates: bool, control: Control) returns (r: Outcome)
      requires Valid() && visited.Valid() && visited.Prepared(|links|)
      modifies this, visited`count, visited`slots, visited.words, control
      ensures r.LimitExceeded? <==> !allocates
      ensures control.Answered(old(control.calls), !r.Cancelled?)
      ensures r.LimitExceeded? ==> links == old(links)
      ensures r.Complete? ==> AllReachable(links, entry)
      ensures r.Complete? && AllReachable(old(links), entry) ==> links == old(links)
      ensures r.Complete? && !AllReachable(old(links), entry) ==> links == Cycled(old(links), |old(links)|, cap)
      ensures |links| == |old(links)| && (WellLinked(old(links), cap) ==> WellLinked(links, cap))
    {
      hide WellLinked, AllReachable, Reachable, Cycled, InRange, Represents;
      if !allocates {
        return LimitExceeded;
      }
      var ok, reached := Audit(visited, control);
      if !ok {
        return Cancelled;
      }
      var n := |links|;
      if reached != n {
        ghost var graph := links;
        assert n > 1 by {
          if n == 1 {
            LonelyReaches(graph, entry);
          }
        }
        CycledNone(graph, cap);
        var node := 0;
        while node != n
          invariant control.Answered(old(control.calls), true)
          invariant node <= n && links == Cycled(graph, node, cap) && |links| == n
          invariant WellLinked(graph, cap) ==> WellLinked(links, cap)
          modifies this, control
        {
          ok := control.Proceed();
          if !ok {
            return Cancelled;
          }
          CycledNext(graph, node, cap);
          EnsureSuccessor(node, (node + 1) % n);
          node := node + 1;
          if WellLinked(graph, cap) {
            CycledKeeps(graph, node, cap);
          }
        }
        CycledReaches(graph, entry, cap);
      }
      return Complete;
    }
  }

  lemma CycledNone(graph: Graph, cap: nat)
    requires cap > 0
    ensures Cycled(graph, 0, cap) == graph
  {
  }

  lemma CycledNext(graph: Graph, k: nat, cap: nat)
    requires k < |graph| && cap > 0
    ensures |Cycled(graph, k, cap)| == |Cycled(graph, k + 1, cap)| == |graph|
    ensures Cycled(graph, k + 1, cap) == Cycled(graph, k, cap)[k := Linked(Cycled(graph, k, cap)[k], (k + 1) % |graph|, cap)]
  {
  }

  lemma SlicePush(before: seq<nat>, after: seq<nat>, low: nat, high: nat, x: nat)
    requires low <= high < |before| && after == before[high := x]
    ensures after[low..high + 1] == before[low..high] + [x]
  {
  }

  lemma NodeInside(graph: Graph, entry: nat, found: set<nat>, pending: seq<nat>, done: nat, node: nat)
    requires Expanding(graph, entry, found, pending, done, node, 0)
    ensures node < |graph|
  {
  }

  /** Found nodes are distinct nodes, so the queue never outgrows the graph. */
  lemma QueueRoom(graph: Graph, entry: nat, found: set<nat>, pending: seq<nat>, done: nat, node: nat, edges: nat)
    requires node < |graph| && Expanding(graph, entry, found, pending, done, node, edges)
    ensures done + |pending| <= |graph|
  {
    NodesBound(found, |graph|);
  }
}
