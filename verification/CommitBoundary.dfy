/** The one-shot race between committing and cancelling one operation, together with the
    ownership race between the native actor and a dropped commit future. */
module CommitBoundary {

  /** The shared flag of `CommitStart` and `CommitCancellation`, with the side that set it. */
  datatype Claim = Unclaimed | CommitSide | CancelSide

  /** The flag of `CommitOwnership`, with the side that set it. */
  datatype Ownership = Waiting | Actor | Dropped

  /** How far the native actor got with a commit command. */
  datatype Stage = Sent | Owned | Begun | Committed | Refused | Unserved

  /** One commit attempt of the operation; `natives` counts native commits. */
  datatype Attempt = Attempt(guarded: bool, ownership: Ownership, stage: Stage, dropped: bool, natives: nat)

  /** `won` and `aborted` are the canceller's: it won the boundary, it aborted the operation. */
  datatype System = System(claim: Claim, won: bool, aborted: bool, ended: bool, attempts: seq<Attempt>)

  datatype Step =
    | Try                   // the operation starts its next commit attempt
    | DropFuture(k: nat)    // an attempt's future is dropped before it completed
    | Fail(k: nat)          // an attempt ends before the actor owns it
    | Take(k: nat)          // the actor receives the command and claims ownership
    | Begin(k: nat)         // the actor crosses the boundary, or finds it closed
    | Native(k: nat)        // the native commit itself
    | Cancel                // token, deadline or dropped caller
    | Abort                 // the winner of the boundary aborts the operation
    | End                   // the aborted operation is dropped at its next await

  const START := System(Unclaimed, false, false, false, [])

  predicate Settled(a: Attempt) {
    a.dropped || a.stage.Committed? || a.stage.Refused? || a.stage.Unserved?
  }

  predicate Enabled(s: System, e: Step) {
    match e
    case Try => !s.ended && (s.attempts == [] || Settled(s.attempts[|s.attempts| - 1]))
    case DropFuture(k) => k < |s.attempts| && !Settled(s.attempts[k])
    case Fail(k) => k < |s.attempts| && s.attempts[k].stage.Sent?
    case Take(k) => k < |s.attempts| && s.attempts[k].stage.Sent?
    case Begin(k) => k < |s.attempts| && s.attempts[k].stage.Owned?
    case Native(k) => k < |s.attempts| && s.attempts[k].stage.Begun?
    case Cancel => true
    case Abort => s.won && !s.aborted
    case End => s.aborted && !s.ended
  }

  function Set(s: System, k: nat, a: Attempt): System
    requires k < |s.attempts|
  {
    s.(attempts := s.attempts[k := a])
  }

  /** Dropping a commit future closes ownership to the actor unless the actor has it. */
  function DroppedFuture(a: Attempt): Attempt {
    a.(dropped := true, ownership := if a.ownership.Waiting? then Dropped else a.ownership)
  }

  /** What a step does to the attempt it concerns. */
  function Served(claim: Claim, e: Step, a: Attempt): Attempt {
    match e
    case DropFuture(_) => DroppedFuture(a)
    case Fail(_) => DroppedFuture(a.(stage := Unserved))
    case Take(_) => if a.ownership.Waiting? then a.(ownership := Actor, stage := Owned) else a.(stage := Unserved)
    case Begin(_) => a.(stage := if a.guarded && !claim.Unclaimed? then Refused else Begun)
    case Native(_) => a.(stage := Committed, natives := a.natives + 1)
    case End => if Settled(a) then a else DroppedFuture(a)
    case _ => a
  }

  function Apply(s: System, e: Step): System
    requires Enabled(s, e)
  {
    match e
    case Try =>
      // Only the first attempt finds the guarded right to start.
      s.(attempts := s.attempts + [Attempt(s.attempts == [], Waiting, Sent, false, 0)])
    case Begin(k) =>
      var after := Set(s, k, Served(s.claim, e, s.attempts[k]));
      if s.attempts[k].guarded && s.claim.Unclaimed? then after.(claim := CommitSide) else after
    case Cancel => if s.claim.Unclaimed? then s.(claim := CancelSide, won := true) else s
    case Abort => s.(aborted := true)
    case End =>
      if s.attempts == [] then s.(ended := true)
      else
        var last := |s.attempts| - 1;
        Set(s, last, Served(s.claim, e, s.attempts[last])).(ended := true)
    case _ => Set(s, e.k, Served(s.claim, e, s.attempts[e.k]))
  }

  // ---------------------------------------------------------------- invariant

  ghost predicate AttemptOk(a: Attempt) {
    && (a.stage.Owned? || a.stage.Begun? || a.stage.Committed? || a.stage.Refused? ==> a.ownership.Actor?)
    && a.natives == (if a.stage.Committed? then 1 else 0)
  }

  /** Only the first attempt is guarded. */
  ghost predicate AttemptsOk(s: System) {
    forall k :: 0 <= k < |s.attempts| ==> AttemptOk(s.attempts[k]) && (s.attempts[k].guarded <==> k == 0)
  }

  /** Each side of the boundary has done exactly what its claim allows. */
  ghost predicate ClaimOk(s: System) {
    && (s.aborted ==> s.won) && (s.won <==> s.claim.CancelSide?) && (s.ended ==> s.aborted)
    && (s.claim.CommitSide? <==> |s.attempts| > 0 && (s.attempts[0].stage.Begun? || s.attempts[0].stage.Committed?))
  }

  ghost predicate Valid(s: System) {
    AttemptsOk(s) && ClaimOk(s)
  }

  lemma ServedOk(s: System, e: Step, k: nat)
    requires Enabled(s, e) && k < |s.attempts| && AttemptOk(s.attempts[k])
    requires e.DropFuture? || e.Fail? || e.Take? || e.Begin? || e.Native? ==> e.k == k
    ensures var after := Served(s.claim, e, s.attempts[k]);
            AttemptOk(after) && after.guarded == s.attempts[k].guarded
  {
  }

  lemma AttemptsKept(s: System, e: Step)
    requires AttemptsOk(s) && Enabled(s, e)
    ensures AttemptsOk(Apply(s, e))
  {
    hide Served;
    if e.DropFuture? || e.Fail? || e.Take? || e.Begin? || e.Native? {
      ServedOk(s, e, e.k);
    } else if e.End? && s.attempts != [] {
      ServedOk(s, e, |s.attempts| - 1);
    }
  }

  lemma ClaimKept(s: System, e: Step)
    requires Valid(s) && Enabled(s, e)
    ensures ClaimOk(Apply(s, e))
  {
  }

  lemma StepKeeps(s: System, e: Step)
    requires Valid(s) && Enabled(s, e)
    ensures Valid(Apply(s, e))
  {
    AttemptsKept(s, e);
    ClaimKept(s, e);
  }

  ghost predicate Run(steps: seq<Step>, states: seq<System>) {
    && |states| == |steps| + 1 && states[0] == START
    && forall i :: 0 <= i < |steps| ==> Enabled(states[i], steps[i]) && states[i + 1] == Apply(states[i], steps[i])
  }

  lemma {:induction false} RunKeeps(steps: seq<Step>, states: seq<System>, k: nat)
    requires Run(steps, states) && k < |states|
    ensures Valid(states[k])
  {
    hide Enabled, Apply;
    if k > 0 {
      RunKeeps(steps, states, k - 1);
      assert states[k] == Apply(states[k - 1], steps[k - 1]);
      StepKeeps(states[k - 1], steps[k - 1]);
    }
  }

  // ---------------------------------------------------------------- exclusivity

  /** The boundary, once claimed, never changes sides; attempts stay, and a dropped
      future that closed ownership keeps it closed. */
  lemma StepSettles(s: System, e: Step)
    requires Valid(s) && Enabled(s, e)
    ensures !s.claim.Unclaimed? ==> Apply(s, e).claim == s.claim
    ensures |s.attempts| <= |Apply(s, e).attempts|
    ensures forall a :: 0 <= a < |s.attempts| && s.attempts[a].ownership.Dropped? ==> Apply(s, e).attempts[a].ownership.Dropped?
    ensures forall a :: 0 <= a < |s.attempts| ==> s.attempts[a].natives <= Apply(s, e).attempts[a].natives
  {
  }

  lemma {:induction false} RunSettles(steps: seq<Step>, states: seq<System>, i: nat, j: nat)
    requires Run(steps, states) && i <= j < |states|
    ensures !states[i].claim.Unclaimed? ==> states[j].claim == states[i].claim
    ensures |states[i].attempts| <= |states[j].attempts|
    ensures forall a :: 0 <= a < |states[i].attempts| && states[i].attempts[a].ownership.Dropped? ==> states[j].attempts[a].ownership.Dropped?
    decreases j
  {
    hide Enabled, Apply, Valid;
    if i < j {
      RunSettles(steps, states, i, j - 1);
      RunKeeps(steps, states, j - 1);
      assert states[j] == Apply(states[j - 1], steps[j - 1]);
      StepSettles(states[j - 1], steps[j - 1]);
    }
  }

  /** An operation is aborted only by a canceller that won the boundary, and then the guarded
      commit never begins: not before, and not at any later moment of the run. */
  lemma AbortExcludesCommit(steps: seq<Step>, states: seq<System>, i: nat, j: nat)
    requires Run(steps, states) && i < |states| && j < |states| && states[i].aborted
    ensures states[i].claim.CancelSide?
    ensures |states[j].attempts| > 0 ==>
              !states[j].attempts[0].stage.Begun? && !states[j].attempts[0].stage.Committed? && states[j].attempts[0].natives == 0
  {
    hide Run, Enabled, Apply;
    RunKeeps(steps, states, i);
    RunKeeps(steps, states, j);
    if i <= j {
      RunSettles(steps, states, i, j);
    } else {
      RunSettles(steps, states, j, i);
    }
  }

  /** Conversely, once the guarded commit has begun, the operation is never aborted. */
  lemma CommitExcludesAbort(steps: seq<Step>, states: seq<System>, i: nat, j: nat)
    requires Run(steps, states) && i < |states| && j < |states|
    requires |states[i].attempts| > 0 && (states[i].attempts[0].stage.Begun? || states[i].attempts[0].stage.Committed?)
    ensures !states[j].aborted && !states[j].won
  {
    hide Run, Enabled, Apply;
    RunKeeps(steps, states, i);
    RunKeeps(steps, states, j);
    if i <= j {
      RunSettles(steps, states, i, j);
    } else {
      RunSettles(steps, states, j, i);
    }
  }

  /** Each attempt commits natively at most once, and never once its future was dropped
      before the actor owned it. */
  lemma NativeAtMostOnce(steps: seq<Step>, states: seq<System>, i: nat, j: nat, a: nat)
    requires Run(steps, states) && i <= j < |states| && a < |states[i].attempts|
    ensures a < |states[j].attempts| && states[j].attempts[a].natives <= 1
    ensures states[i].attempts[a].ownership.Dropped? ==> states[j].attempts[a].natives == 0
  {
    hide Run, Enabled, Apply;
    RunKeeps(steps, states, j);
    RunSettles(steps, states, i, j);
    assert AttemptOk(states[j].attempts[a]);
  }

  // ---------------------------------------------------------------- later attempts

  /** Step `i` starts an attempt that is not the first, and so is not guarded. */
  ghost predicate StartsLater(steps: seq<Step>, states: seq<System>, i: nat)
    requires Run(steps, states) && i < |steps|
  {
    steps[i].Try? && states[i].attempts != []
  }

  /** Every later attempt starts only once the guarded one has crossed the boundary. */
  ghost predicate Ordered(steps: seq<Step>, states: seq<System>)
    requires Run(steps, states)
  {
    forall i :: 0 <= i < |steps| && StartsLater(steps, states, i) ==> states[i].claim.CommitSide?
  }

  /** Every later attempt starts only after the attempt before it began its native commit. */
  ghost predicate RetriesBegun(steps: seq<Step>, states: seq<System>)
    requires Run(steps, states)
  {
    forall i :: 0 <= i < |steps| && StartsLater(steps, states, i) ==>
      var last := states[i].attempts[|states[i].attempts| - 1];
      last.stage.Begun? || last.stage.Committed?
  }

  /** The operation was aborted and yet something was committed natively. */
  ghost predicate Escaped(s: System) {
    s.aborted && exists a :: 0 <= a < |s.attempts| && s.attempts[a].natives > 0
  }

  ghost predicate Extends(steps: seq<Step>, states: seq<System>, more: seq<Step>, after: seq<System>) {
    Run(more, after) && steps <= more && states <= after
  }

  lemma {:induction false} SeveralMeanCommit(steps: seq<Step>, states: seq<System>, k: nat)
    requires Run(steps, states) && Ordered(steps, states) && k < |states|
    ensures |states[k].attempts| > 1 ==> states[k].claim.CommitSide?
  {
    if k > 0 {
      hide Ordered;
      SeveralMeanCommit(steps, states, k - 1);
      RunSettles(steps, states, k - 1, k);
      LaterStart(steps, states, k - 1);
    }
  }

  lemma LaterStart(steps: seq<Step>, states: seq<System>, i: nat)
    requires Run(steps, states) && Ordered(steps, states) && i < |steps|
    ensures |states[i + 1].attempts| > 1 ==> |states[i].attempts| > 1 || states[i].claim.CommitSide?
  {
    assert states[i + 1] == Apply(states[i], steps[i]);
    if steps[i].Try? && states[i].attempts != [] { assert StartsLater(steps, states, i); }
  }

  /** Whatever the number of attempts: an ordered run that is aborted at some moment has no
      native commit at any moment, earlier or later. */
  lemma OrderedProtects(steps: seq<Step>, states: seq<System>, i: nat, j: nat, a: nat)
    requires Run(steps, states) && Ordered(steps, states)
    requires i < |states| && j < |states| && states[i].aborted && a < |states[j].attempts|
    ensures states[j].attempts[a].natives == 0
  {
    hide Run, Ordered, Enabled, Apply;
    AbortExcludesCommit(steps, states, i, j);
    SeveralMeanCommit(steps, states, j);
    if a > 0 {
      RunKeeps(steps, states, i);
      RunSettles(steps, states, if i <= j then i else j, if i <= j then j else i);
    }
  }

  /** Retrying only attempts that began their native commit, as the runtime's retry rule
      does, keeps a run ordered. */
  lemma RetriesBegunOrdered(steps: seq<Step>, states: seq<System>)
    requires Run(steps, states) && RetriesBegun(steps, states)
    ensures Ordered(steps, states)
  {
    forall i | 0 <= i < |steps| && StartsLater(steps, states, i) ensures states[i].claim.CommitSide? {
      FirstCrossed(steps, states, i);
    }
  }

  lemma {:induction false} FirstCrossed(steps: seq<Step>, states: seq<System>, k: nat)
    requires Run(steps, states) && RetriesBegun(steps, states) && k < |states|
    ensures |states[k].attempts| > 1 ==> states[k].claim.CommitSide?
    ensures k < |steps| && StartsLater(steps, states, k) ==> states[k].claim.CommitSide?
  {
    RunKeeps(steps, states, k);
    if k > 0 {
      FirstCrossed(steps, states, k - 1);
      RunSettles(steps, states, k - 1, k);
      assert states[k] == Apply(states[k - 1], steps[k - 1]);
    }
  }

  lemma RunExtended(steps: seq<Step>, states: seq<System>, e: Step)
    requires Run(steps, states) && Enabled(states[|steps|], e)
    ensures Extends(steps, states, steps + [e], states + [Apply(states[|steps|], e)])
  {
    hide Enabled, Apply;
    var more, after := steps + [e], states + [Apply(states[|steps|], e)];
    forall i | 0 <= i < |more| ensures Enabled(after[i], more[i]) && after[i + 1] == Apply(after[i], more[i]) {
      if i < |steps| { assert after[i + 1] == states[i + 1]; }
    }
  }

  /** An unguarded attempt that has just started commits natively whatever the canceller does. */
  lemma CommitsAnyway(steps: seq<Step>, states: seq<System>, k: nat) returns (more: seq<Step>, after: seq<System>)
    requires Run(steps, states) && |states[|steps|].attempts| == k + 1 && k > 0
    requires states[|steps|].attempts[k] == Attempt(false, Waiting, Sent, false, 0)
    ensures Extends(steps, states, more, after)
    ensures var s := after[|more|];
            |s.attempts| == k + 1 && s.attempts[k].natives == 1 && s.claim == states[|steps|].claim
  {
    assert |states| == |steps| + 1;
    hide Run;
    more, after := steps, states;
    for n := 0 to 3
      invariant |more| + 1 == |after| && Extends(steps, states, more, after)
      invariant |after[|more|].attempts| == k + 1 && after[|more|].claim == states[|steps|].claim
      invariant after[|more|].attempts[k] ==
        if n == 0 then Attempt(false, Waiting, Sent, false, 0)
        else Attempt(false, Actor, if n == 1 then Owned else if n == 2 then Begun else Committed, false, if n == 3 then 1 else 0)
    {
      var e := if n == 0 then Take(k) else if n == 1 then Begin(k) else Native(k);
      RunExtended(more, after, e);
      more, after := more + [e], after + [Apply(after[|more|], e)];
    }
  }

  /** Conversely, from every reachable state in which a later attempt has just been started
      while the guarded one had not crossed the boundary, some continuation aborts the
      operation and commits it natively. */
  lemma EarlyStartEscapes(steps: seq<Step>, states: seq<System>) returns (more: seq<Step>, after: seq<System>)
    requires Run(steps, states) && steps != [] && StartsLater(steps, states, |steps| - 1)
    requires !states[|steps| - 1].claim.CommitSide?
    ensures Extends(steps, states, more, after) && Escaped(after[|more|])
  {
    var k := |states[|steps| - 1].attempts|;
    assert states[|steps|] == Apply(states[|steps| - 1], steps[|steps| - 1]);
    more, after := CommitsAnyway(steps, states, k);
    hide Run;
    var e := Cancel;
    RunExtended(more, after, e);
    more, after := more + [e], after + [Apply(after[|more|], e)];
    RunKeeps(more, after, |more|);
    if !after[|more|].aborted {
      e := Abort;
      RunExtended(more, after, e);
      more, after := more + [e], after + [Apply(after[|more|], e)];
    }
    assert after[|more|].attempts[k].natives > 0;
  }

  /** The shortest such run: the guard is spent by a first attempt that never reaches the
      boundary, the canceller wins, and the second attempt commits. */
  lemma SpentGuardEscapes() returns (steps: seq<Step>, states: seq<System>)
    ensures Run(steps, states)
    ensures var s := states[|steps|];
            s.aborted && s.claim.CancelSide? && |s.attempts| == 2 && s.attempts[1].natives == 1
  {
    var s1 := Apply(START, Try);
    var s2 := Apply(s1, Fail(0));
    var s3 := Apply(s2, Try);
    var s4 := Apply(s3, Take(1));
    var s5 := Apply(s4, Cancel);
    var s6 := Apply(s5, Abort);
    var s7 := Apply(s6, Begin(1));
    var s8 := Apply(s7, Native(1));
    steps := [Try, Fail(0), Try, Take(1), Cancel, Abort, Begin(1), Native(1)];
    states := [START, s1, s2, s3, s4, s5, s6, s7, s8];
  }

  /** No continuation of the run escapes. */
  ghost predicate Safe(steps: seq<Step>, states: seq<System>) {
    forall more, after :: Extends(steps, states, more, after) ==> !Escaped(after[|more|])
  }

  /** Exactly when cancelling guarantees against native commits: a run is ordered if and only
      if no later attempt, at the moment it starts, leaves an escape open. */
  lemma OrderedExact(steps: seq<Step>, states: seq<System>)
    requires Run(steps, states)
    ensures Ordered(steps, states) <==>
            forall i :: 0 <= i < |steps| && StartsLater(steps, states, i) ==> Safe(steps[..i + 1], states[..i + 2])
  {
    forall i | 0 <= i < |steps| && StartsLater(steps, states, i)
      ensures states[i].claim.CommitSide? <==> Safe(steps[..i + 1], states[..i + 2])
    {
      StartExact(steps[..i + 1], states[..i + 2]);
    }
  }

  lemma StartExact(steps: seq<Step>, states: seq<System>)
    requires Run(steps, states) && steps != [] && StartsLater(steps, states, |steps| - 1)
    ensures states[|steps| - 1].claim.CommitSide? <==> Safe(steps, states)
  {
    var i := |steps| - 1;
    if states[i].claim.CommitSide? {
      forall more, after | Extends(steps, states, more, after) ensures !Escaped(after[|more|]) {
        assert after[i] == states[i];
        RunSettles(more, after, i, |more|);
        RunKeeps(more, after, |more|);
      }
    } else {
      var more, after := EarlyStartEscapes(steps, states);
    }
  }

  // ---------------------------------------------------------------- who wins

  /** The guarded commit reached the boundary, and nobody had cancelled before. */
  ghost predicate CommitFirst(steps: seq<Step>, k: nat)
    requires k <= |steps|
  {
    exists i :: 0 <= i < k && steps[i] == Begin(0) && forall j :: 0 <= j < i ==> !steps[j].Cancel?
  }

  /** Somebody cancelled, and the guarded commit had not reached the boundary before. */
  ghost predicate CancelFirst(steps: seq<Step>, k: nat)
    requires k <= |steps|
  {
    exists i :: 0 <= i < k && steps[i].Cancel? && forall j :: 0 <= j < i ==> steps[j] != Begin(0)
  }

  lemma ClaimStep(s: System, e: Step)
    requires Valid(s) && Enabled(s, e)
    ensures Apply(s, e).claim.CommitSide? <==> s.claim.CommitSide? || (s.claim.Unclaimed? && e == Begin(0))
    ensures Apply(s, e).claim.CancelSide? <==> s.claim.CancelSide? || (s.claim.Unclaimed? && e.Cancel?)
  {
  }

  /** Whoever comes to the boundary first wins it, and nothing else decides. */
  lemma {:induction false} FirstWins(steps: seq<Step>, states: seq<System>, k: nat)
    requires Run(steps, states) && k < |states|
    ensures states[k].claim.CommitSide? <==> CommitFirst(steps, k)
    ensures states[k].won <==> CancelFirst(steps, k)
    ensures states[k].claim.Unclaimed? <==> forall j :: 0 <= j < k ==> !steps[j].Cancel? && steps[j] != Begin(0)
  {
    hide Enabled, Apply, Valid;
    RunKeeps(steps, states, k);
    assert states[k].won <==> states[k].claim.CancelSide? by { WonMeans(states[k]); }
    if k > 0 {
      FirstWins(steps, states, k - 1);
      RunKeeps(steps, states, k - 1);
      WonMeans(states[k - 1]);
      assert states[k] == Apply(states[k - 1], steps[k - 1]);
      ClaimStep(states[k - 1], steps[k - 1]);
      FirstNext(steps, k, states[k - 1].claim.Unclaimed?);
    }
  }

  lemma WonMeans(s: System)
    requires Valid(s)
    ensures s.won <==> s.claim.CancelSide?
  {
  }

  lemma FirstNext(steps: seq<Step>, k: nat, open: bool)
    requires 0 < k <= |steps| && (open <==> forall j :: 0 <= j < k - 1 ==> !steps[j].Cancel? && steps[j] != Begin(0))
    requires !open ==> CommitFirst(steps, k - 1) || CancelFirst(steps, k - 1)
    ensures CommitFirst(steps, k) <==> CommitFirst(steps, k - 1) || (open && steps[k - 1] == Begin(0))
    ensures CancelFirst(steps, k) <==> CancelFirst(steps, k - 1) || (open && steps[k - 1].Cancel?)
  {
    if CommitFirst(steps, k) && !CommitFirst(steps, k - 1) {
      assert !CancelFirst(steps, k - 1);
    }
    if CancelFirst(steps, k) && !CancelFirst(steps, k - 1) {
      assert !CommitFirst(steps, k - 1);
    }
  }

  /** An uncancelled guarded commit can always go through: from every reachable state in which it
      waits for the actor and the boundary is open, some continuation commits it natively. */
  lemma OpenCommits(steps: seq<Step>, states: seq<System>) returns (more: seq<Step>, after: seq<System>)
    requires Run(steps, states) && states[|steps|].claim.Unclaimed? && |states[|steps|].attempts| > 0
    requires states[|steps|].attempts[0] == Attempt(true, Waiting, Sent, false, 0)
    ensures Extends(steps, states, more, after) && |after[|more|].attempts| > 0 && after[|more|].attempts[0].natives == 1
  {
    assert |states| == |steps| + 1;
    hide Run;
    more, after := steps, states;
    for n := 0 to 3
      invariant |more| + 1 == |after| && Extends(steps, states, more, after)
      invariant |after[|more|].attempts| > 0 && (n < 2 ==> after[|more|].claim.Unclaimed?)
      invariant after[|more|].attempts[0] ==
        if n == 0 then Attempt(true, Waiting, Sent, false, 0)
        else Attempt(true, Actor, if n == 1 then Owned else if n == 2 then Begun else Committed, false, if n == 3 then 1 else 0)
    {
      var e := if n == 0 then Take(0) else if n == 1 then Begin(0) else Native(0);
      RunExtended(more, after, e);
      more, after := more + [e], after + [Apply(after[|more|], e)];
    }
  }

  // ---------------------------------------------------------------- dropped futures

  lemma TakeStep(s: System, e: Step, a: nat)
    requires Valid(s) && Enabled(s, e) && a < |s.attempts| && s.attempts[a].ownership.Waiting? && e != Take(a)
    ensures a < |Apply(s, e).attempts| && !Apply(s, e).attempts[a].ownership.Actor?
    ensures e == DropFuture(a) ==> Apply(s, e).attempts[a].ownership.Dropped?
  {
  }

  lemma {:induction false} UntakenWaits(steps: seq<Step>, states: seq<System>, k: nat, a: nat)
    requires Run(steps, states) && k < |states| && a < |states[k].attempts|
    requires forall j :: 0 <= j < k ==> steps[j] != Take(a)
    ensures !states[k].attempts[a].ownership.Actor?
    decreases k
  {
    hide Valid;
    if k > 0 {
      RunKeeps(steps, states, k - 1);
      assert states[k] == Apply(states[k - 1], steps[k - 1]);
      if a < |states[k - 1].attempts| {
        UntakenWaits(steps, states, k - 1, a);
        if states[k - 1].attempts[a].ownership.Waiting? {
          TakeStep(states[k - 1], steps[k - 1], a);
        } else {
          RunSettles(steps, states, k - 1, k);
        }
      }
    }
  }

  /** A future dropped before the actor took the command never commits. */
  lemma DroppedNeverCommits(steps: seq<Step>, states: seq<System>, i: nat, k: nat, a: nat)
    requires Run(steps, states) && i < k < |states| && steps[i] == DropFuture(a)
    requires forall j :: 0 <= j < i ==> steps[j] != Take(a)
    ensures a < |states[k].attempts| && states[k].attempts[a].natives == 0
  {
    RunKeeps(steps, states, i);
    assert Enabled(states[i], steps[i]) && states[i + 1] == Apply(states[i], steps[i]);
    UntakenWaits(steps, states, i, a);
    if states[i].attempts[a].ownership.Waiting? {
      TakeStep(states[i], steps[i], a);
    } else {
      RunSettles(steps, states, i, i + 1);
    }
    NativeAtMostOnce(steps, states, i + 1, k, a);
  }
}
