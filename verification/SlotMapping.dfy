/** The check that an insertion's slot mapping is a permutation. */
module SlotMapping {
  import opened Checkpoints
  import opened Ordinals

  datatype Verdict = Accepted | InvalidArgument | Cancelled

  /** Every final ordinal is the target of exactly one slot. */
  ghost predicate Permutation(mapping: seq<nat>) {
    && (forall i :: 0 <= i < |mapping| ==> mapping[i] < |mapping|)
    && (forall t: nat :: t < |mapping| ==> t in mapping)
    && Distinct(mapping)
  }

  /** In range and never twice is enough: as many targets as ordinals leave none out. */
  lemma InjectiveIsOnto(mapping: seq<nat>)
    requires forall i :: 0 <= i < |mapping| ==> mapping[i] < |mapping|
    requires Distinct(mapping)
    ensures Permutation(mapping)
  {
    DistinctSize(mapping);
    NodesBound(Members(mapping), |mapping|);
    forall t: nat | t < |mapping| ensures t in mapping {
      assert t in Nodes(|mapping|);
    }
  }

  /** Marks each target, refusing one out of range or marked before. */
  method CheckMapping(mapping: seq<nat>, control: Control) returns (r: Verdict)
    modifies control
    ensures control.Answered(old(control.calls), !r.Cancelled?)
    ensures r.Accepted? ==> Permutation(mapping)
    ensures r.InvalidArgument? ==> !Permutation(mapping)
  {
    var n := |mapping|;
    var seen := new bool[n](i => false);
    for k := 0 to n
      invariant control.Answered(old(control.calls), true)
      invariant forall i :: 0 <= i < k ==> mapping[i] < n
      invariant forall i, j :: 0 <= i < j < k ==> mapping[i] != mapping[j]
      invariant forall t :: 0 <= t < n ==> (seen[t] <==> t in mapping[..k])
      modifies control, seen
    {
      var ok := control.Proceed();
      if !ok {
        return Cancelled;
      }
      var target := mapping[k];
      if target >= n {
        return InvalidArgument;
      }
      if seen[target] {
        var i :| 0 <= i < k && mapping[..k][i] == target;
        assert mapping[i] == mapping[k];
        return InvalidArgument;
      }
      seen[target] := true;
      assert mapping[..k + 1] == mapping[..k] + [target];
    }
    InjectiveIsOnto(mapping);
    return Accepted;
  }
}
