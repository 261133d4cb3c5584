/** Admission, activity and shutdown of the runtime, as the critical sections of its
    lifecycle mutex and the interleavings between them. */
module RuntimeLifecycle {
  import opened Bytes

  datatype Phase = Accepting | Closing | Releasing | Closed

  function Rank(phase: Phase): nat {
    match phase
    case Accepting => 0
    case Closing => 1
    case Releasing => 2
    case Closed => 3
  }

  /** What the mutex protects; `backend` says whether the runtime still owns it. */
  datatype Cell = Cell(phase: Phase, active: nat, backend: bool)

  // ---------------------------------------------------------------- critical sections

  function Begun(c: Cell): Cell {
    c.(active := if c.active < U64_MAX then c.active + 1 else U64_MAX)
  }

  /** Takes the backend if the runtime is closing and nothing is active. */
  function Drained(c: Cell): (Cell, bool) {
    if c.phase == Closing && c.active == 0 then (Cell(Releasing, 0, false), c.backend) else (c, false)
  }

  function Ended(c: Cell): (Cell, bool) {
    Drained(c.(active := if c.active > 0 then c.active - 1 else 0))
  }

  function Shut(c: Cell): (Cell, bool) {
    Drained(if c.phase == Accepting then c.(phase := Closing) else c)
  }

  /** The mutex-protected record, changed in place. */
  class Lifecycle {
    var phase: Phase
    var active: nat
    var backend: bool

    constructor ()
      ensures Value() == Cell(Accepting, 0, true)
    {
      phase, active, backend := Accepting, 0, true;
    }

    function Value(): Cell
      reads this
    {
      Cell(phase, active, backend)
    }

    method BeginActivity()
      modifies this
      ensures Value() == Begun(old(Value()))
    {
      active := if active < U64_MAX then active + 1 else U64_MAX;
    }

    method StartReleaseIfDrained() returns (taken: bool)
      modifies this
      ensures (Value(), taken) == Drained(old(Value()))
    {
      taken := false;
      if phase == Closing && active == 0 {
        phase := Releasing;
        taken := backend;
        backend := false;
      }
    }

    /** Admission's critical section: `allowed` is the operation-control check. */
    method Admit(allowed: bool) returns (ok: bool)
      modifies this
      ensures ok <==> allowed && old(phase) == Accepting && old(backend)
      ensures Value() == if ok then Begun(old(Value())) else old(Value())
    {
      if !allowed || phase != Accepting || !backend {
        return false;
      }
      BeginActivity();
      return true;
    }

    method BeginShutdown() returns (taken: bool, started: bool)
      modifies this
      ensures (Value(), taken) == Shut(old(Value()))
      ensures started <==> old(phase) == Accepting
    {
      started := phase == Accepting;
      if started {
        phase := Closing;
      }
      taken := StartReleaseIfDrained();
    }

    method FinishActivity() returns (taken: bool)
      modifies this
      ensures (Value(), taken) == Ended(old(Value()))
    {
      if active > 0 {
        active := active - 1;
      }
      taken := StartReleaseIfDrained();
    }

    method FinishRelease()
      modifies this
      ensures Value() == old(Value()).(phase := Closed)
    {
      phase := Closed;
    }
  }

  // ---------------------------------------------------------------- interleavings

  /** Someone shutting the runtime down; `waits` tells a call of `shutdown` from the
      release of the last handle. */
  datatype Caller = Gating(waits: bool) | Armed | Asleep | Woken | Returned | Left

  /** The runtime: the protected cell, the admission gate, and everything in flight. */
  datatype Runtime = Runtime(
    cell: Cell,
    limit: nat,
    permits: nat,
    gateClosed: bool,
    asking: set<nat>,       // operations holding a permit, not yet admitted
    live: set<nat>,         // admitted operations
    leaving: set<nat>,      // operations accounted as finished, permit still held
    workers: set<nat>,      // maintenance workers
    releases: nat,          // release tasks that own the backend
    notifying: bool,
    callers: map<nat, Caller>,
    takes: nat)             // how often the backend was taken so far

  datatype Step =
    | Acquire(id: nat) | Admit(id: nat, allowed: bool) | Finish(id: nat) | Leave(id: nat)
    | StopWorker(id: nat)
    | Shutdown(id: nat, waits: bool) | CloseGate(id: nat) | Check(id: nat) | Rearm(id: nat)
    | ReleaseDone | NotifyAll

  ghost predicate Initial(s: Runtime) {
    && s.cell == Cell(Accepting, |s.workers|, true)
    && s.permits == s.limit && !s.gateClosed
    && s.asking == {} && s.live == {} && s.leaving == {} && s.releases == 0 && !s.notifying && s.callers == map[] && s.takes == 0
    && s.limit + |s.workers| <= U64_MAX
  }

  predicate CallerAt(s: Runtime, id: nat, caller: Caller) {
    id in s.callers && s.callers[id] == caller
  }

  predicate Enabled(s: Runtime, e: Step) {
    match e
    case Acquire(id) => id !in s.asking + s.live + s.leaving && s.permits > 0 && !s.gateClosed
    case Admit(id, _) => id in s.asking
    case Finish(id) => id in s.live
    case Leave(id) => id in s.leaving
    case StopWorker(id) => id in s.workers
    case Shutdown(id, _) => id !in s.callers
    case CloseGate(id) => id in s.callers && s.callers[id].Gating?
    case Check(id) => CallerAt(s, id, Armed)
    case Rearm(id) => CallerAt(s, id, Woken)
    case ReleaseDone => s.releases > 0
    case NotifyAll => s.notifying
  }

  /** The state after a critical section that may have taken the backend. */
  function Took(s: Runtime, r: (Cell, bool)): Runtime {
    s.(cell := r.0, releases := s.releases + (if r.1 then 1 else 0), takes := s.takes + (if r.1 then 1 else 0))
  }

  function Apply(s: Runtime, e: Step): Runtime
    requires Enabled(s, e)
  {
    match e
    case Acquire(id) => s.(asking := s.asking + {id}, permits := s.permits - 1)
    case Admit(id, allowed) =>
      if allowed && s.cell.phase == Accepting && s.cell.backend
      then s.(asking := s.asking - {id}, live := s.live + {id}, cell := Begun(s.cell))
      else s.(asking := s.asking - {id}, permits := s.permits + 1)
    case Finish(id) => Took(s.(live := s.live - {id}, leaving := s.leaving + {id}), Ended(s.cell))
    case Leave(id) => s.(leaving := s.leaving - {id}, permits := s.permits + 1)
    case StopWorker(id) => Took(s.(workers := s.workers - {id}), Ended(s.cell))
    case Shutdown(id, waits) =>
      var after := if s.cell.phase == Accepting then Gating(waits) else if waits then Armed else Left;
      Took(s.(callers := s.callers[id := after]), Shut(s.cell))
    case CloseGate(id) => s.(gateClosed := true, callers := s.callers[id := if s.callers[id].waits then Armed else Left])
    case Check(id) => s.(callers := s.callers[id := if s.cell.phase == Closed then Returned else Asleep])
    case Rearm(id) => s.(callers := s.callers[id := Armed])
    case ReleaseDone => s.(releases := s.releases - 1, cell := s.cell.(phase := Closed), notifying := true)
    case NotifyAll => s.(notifying := false, callers := map id | id in s.callers :: if s.callers[id] == Asleep then Woken else s.callers[id])
  }

  // ---------------------------------------------------------------- the invariant

  /** An operation is at one place at a time. */
  ghost predicate Apart(s: Runtime) {
    s.asking !! s.live && s.asking !! s.leaving && s.live !! s.leaving
  }

  /** Every permit is free or held by an operation in flight. */
  ghost predicate Counted(s: Runtime) {
    && s.permits + |s.asking| + |s.live| + |s.leaving| == s.limit
    && s.limit + |s.workers| <= U64_MAX
  }

  ghost predicate Gated(s: Runtime) {
    Apart(s) && Counted(s)
  }

  /** The active count is exact. */
  ghost predicate Exact(s: Runtime) {
    s.cell.active == |s.live| + |s.workers|
  }

  /** The backend is owned until it is taken, once, by a release that ends in `Closed`;
      from then on nothing is active, and a closing runtime always still has activity. */
  ghost predicate CellOwned(c: Cell, takes: nat, releases: nat) {
    && (c.backend <==> c.phase.Accepting? || c.phase.Closing?)
    && takes == (if c.backend then 0 else 1)
    && releases == (if c.phase.Releasing? then 1 else 0)
    && (!c.backend ==> c.active == 0)
    && (c.phase.Closing? ==> c.active > 0)
  }

  ghost predicate Owned(s: Runtime) {
    CellOwned(s.cell, s.takes, s.releases)
  }

  /** `shutdown` returns only once closed, and never sleeps through the end. */
  ghost predicate Heard(s: Runtime) {
    && (s.notifying ==> s.cell.phase.Closed?)
    && (forall id :: id in s.callers && s.callers[id].Returned? ==> s.cell.phase.Closed?)
    && (forall id :: id in s.callers && s.callers[id].Asleep? && s.cell.phase.Closed? ==> s.notifying)
  }

  /** Once the runtime stops accepting, the gate is closed or someone is about to. */
  ghost predicate Barred(s: Runtime) {
    !s.cell.phase.Accepting? ==> s.gateClosed || exists id :: id in s.callers && s.callers[id].Gating?
  }

  ghost predicate Valid(s: Runtime) {
    Gated(s) && Exact(s) && Owned(s) && Heard(s) && Barred(s)
  }

  lemma StepKeeps(s: Runtime, e: Step)
    requires Valid(s) && Enabled(s, e)
    ensures Valid(Apply(s, e))
  {
    GatedKept(s, e);
    ExactKept(s, e);
    OwnedKept(s, e);
    HeardKept(s, e);
    BarredKept(s, e);
  }

  lemma BarredKept(s: Runtime, e: Step)
    requires Barred(s) && Owned(s) && Exact(s) && Enabled(s, e)
    ensures Barred(Apply(s, e))
  {
    var t := Apply(s, e);
    if s.cell.phase.Accepting? {
      if e.Shutdown? {
        assert e.id in t.callers && t.callers[e.id].Gating?;
      }
    } else if !s.gateClosed && !e.CloseGate? {
      var other :| other in s.callers && s.callers[other].Gating?;
      assert other in t.callers && t.callers[other].Gating?;
    }
  }

  lemma GatedKept(s: Runtime, e: Step)
    requires Gated(s) && Enabled(s, e)
    ensures Gated(Apply(s, e))
  {
    ApartKept(s, e);
    if e.Acquire? || e.Admit? || e.Leave? {
      PermitsKept(s, e);
    } else if e.Finish? || e.StopWorker? {
      ActivityKept(s, e);
    } else {
      hide Apart;
    }
  }

  lemma ApartKept(s: Runtime, e: Step)
    requires Apart(s) && Enabled(s, e)
    ensures Apart(Apply(s, e))
  {
    hide Ended, Shut, Begun;
  }

  lemma PermitsKept(s: Runtime, e: Step)
    requires Gated(s) && Enabled(s, e) && (e.Acquire? || e.Admit? || e.Leave?)
    ensures Counted(Apply(s, e))
  {
    if e.Acquire? {
      assert e.id !in s.asking;
      hide Apart;
      CardAdd(s.asking, e.id);
    } else if e.Admit? {
      AdmitKept(s, e);
    } else {
      hide Apart;
      CardDrop(s.leaving, e.id);
    }
  }

  lemma AdmitKept(s: Runtime, e: Step)
    requires Gated(s) && Enabled(s, e) && e.Admit?
    ensures Counted(Apply(s, e))
  {
    assert e.id !in s.live;
    hide Apart, Begun;
    CardDrop(s.asking, e.id);
    CardAdd(s.live, e.id);
  }

  lemma ActivityKept(s: Runtime, e: Step)
    requires Gated(s) && Enabled(s, e) && (e.Finish? || e.StopWorker?)
    ensures Counted(Apply(s, e))
  {
    if e.Finish? {
      assert e.id !in s.leaving;
      hide Apart, Ended;
      CardDrop(s.live, e.id);
      CardAdd(s.leaving, e.id);
    } else {
      hide Apart, Ended;
      CardDrop(s.workers, e.id);
    }
  }

  lemma CardAdd(ids: set<nat>, id: nat)
    ensures |ids + {id}| == if id in ids then |ids| else |ids| + 1
  {
    if id in ids {
      assert ids + {id} == ids;
    }
  }

  lemma CardDrop(ids: set<nat>, id: nat)
    ensures |ids - {id}| == if id in ids then |ids| - 1 else |ids|
  {
    if id !in ids {
      assert ids - {id} == ids;
    }
  }

  lemma SomeActive(s: Runtime, id: nat)
    requires Exact(s) && (id in s.live || id in s.workers)
    ensures s.cell.active > 0
  {
  }

  /** Admissions and workers together never reach the saturation point. */
  lemma RoomToBegin(s: Runtime, id: nat)
    requires Gated(s) && Exact(s) && id in s.asking
    ensures s.cell.active < U64_MAX
  {
  }

  lemma ExactKept(s: Runtime, e: Step)
    requires Gated(s) && Exact(s) && Enabled(s, e)
    ensures Exact(Apply(s, e))
  {
    match e
    case Admit(id, allowed) =>
      RoomToBegin(s, id);
      assert id !in s.live;
    case _ =>
      hide Gated, Ended, Shut;
      match e
      case Finish(id) =>
        SomeActive(s, id);
        EndedActive(s.cell);
      case StopWorker(id) =>
        SomeActive(s, id);
        EndedActive(s.cell);
      case Shutdown(id, waits) => ShutActive(s.cell);
      case _ =>
  }

  lemma EndedActive(c: Cell)
    requires c.active > 0
    ensures Ended(c).0.active == c.active - 1
  {
  }

  lemma ShutActive(c: Cell)
    ensures Shut(c).0.active == c.active
  {
  }

  lemma TookOwned(s: Runtime, r: (Cell, bool))
    requires CellOwned(r.0, s.takes + (if r.1 then 1 else 0), s.releases + (if r.1 then 1 else 0))
    ensures Owned(Took(s, r))
  {
  }

  lemma EndedOwned(c: Cell, takes: nat, releases: nat)
    requires CellOwned(c, takes, releases) && c.active > 0
    ensures var (after, taken) := Ended(c);
            CellOwned(after, takes + (if taken then 1 else 0), releases + (if taken then 1 else 0))
  {
  }

  lemma ShutOwned(c: Cell, takes: nat, releases: nat)
    requires CellOwned(c, takes, releases)
    ensures var (after, taken) := Shut(c);
            CellOwned(after, takes + (if taken then 1 else 0), releases + (if taken then 1 else 0))
  {
  }

  lemma OwnedKept(s: Runtime, e: Step)
    requires Exact(s) && Owned(s) && Enabled(s, e)
    ensures Owned(Apply(s, e))
  {
    hide Ended, Shut, Took;
    match e
    case Finish(id) =>
      SomeActive(s, id);
      EndedOwned(s.cell, s.takes, s.releases);
      TookOwned(s.(live := s.live - {id}, leaving := s.leaving + {id}), Ended(s.cell));
    case StopWorker(id) =>
      SomeActive(s, id);
      EndedOwned(s.cell, s.takes, s.releases);
      TookOwned(s.(workers := s.workers - {id}), Ended(s.cell));
    case Shutdown(id, waits) =>
      ShutOwned(s.cell, s.takes, s.releases);
      var after := if s.cell.phase == Accepting then Gating(waits) else if waits then Armed else Left;
      TookOwned(s.(callers := s.callers[id := after]), Shut(s.cell));
    case _ =>
  }

  lemma HeardKept(s: Runtime, e: Step)
    requires Heard(s) && Owned(s) && Enabled(s, e)
    ensures Heard(Apply(s, e))
  {
  }

  // ---------------------------------------------------------------- runs

  ghost predicate Run(steps: seq<Step>, states: seq<Runtime>) {
    && |states| == |steps| + 1 && Initial(states[0])
    && forall i :: 0 <= i < |steps| ==> Enabled(states[i], steps[i]) && states[i + 1] == Apply(states[i], steps[i])
  }

  lemma {:induction false} RunKeeps(steps: seq<Step>, states: seq<Runtime>, k: nat)
    requires Run(steps, states) && k < |states|
    ensures Valid(states[k])
  {
    hide Enabled, Apply;
    if k > 0 {
      RunKeeps(steps, states, k - 1);
      assert states[k] == Apply(states[k - 1], steps[k - 1]);
      StepKeeps(states[k - 1], steps[k - 1]);
    }
  }

  /** One step never goes back a phase, and admits only while accepting. */
  lemma StepAdvances(s: Runtime, e: Step)
    requires Valid(s) && Enabled(s, e)
    ensures Rank(s.cell.phase) <= Rank(Apply(s, e).cell.phase)
    ensures !s.cell.phase.Accepting? ==> Apply(s, e).live <= s.live
    ensures s.takes <= Apply(s, e).takes
  {
    hide Gated, Exact, Owned, Heard, Barred;
  }

  /** Phases only advance, and once the runtime stops accepting nothing more is admitted. */
  lemma {:induction false} RunAdvances(steps: seq<Step>, states: seq<Runtime>, i: nat, j: nat)
    requires Run(steps, states) && i <= j < |states|
    ensures Rank(states[i].cell.phase) <= Rank(states[j].cell.phase)
    ensures !states[i].cell.phase.Accepting? ==> states[j].live <= states[i].live
    decreases j
  {
    hide Enabled, Apply;
    if i < j {
      RunAdvances(steps, states, i, j - 1);
      RunKeeps(steps, states, j - 1);
      assert states[j] == Apply(states[j - 1], steps[j - 1]);
      StepAdvances(states[j - 1], steps[j - 1]);
    }
  }

  /** The backend is taken at most once in a run, and at that moment, and ever after, no
      admitted operation or worker is left to use it. */
  lemma BackendTakenOnce(steps: seq<Step>, states: seq<Runtime>, k: nat)
    requires Run(steps, states) && k < |states|
    ensures states[k].takes <= 1
    ensures states[k].takes == 1 <==> states[k].cell.phase.Releasing? || states[k].cell.phase.Closed?
    ensures states[k].takes == 1 ==> states[k].live == {} && states[k].workers == {}
  {
    RunKeeps(steps, states, k);
  }

  /** Every admitted operation finds the backend still owned by the runtime. */
  lemma LiveHasBackend(steps: seq<Step>, states: seq<Runtime>, k: nat, id: nat)
    requires Run(steps, states) && k < |states| && (id in states[k].live || id in states[k].workers)
    ensures states[k].cell.backend
  {
    RunKeeps(steps, states, k);
  }

  /** `shutdown` returns only from a closed runtime, in which nothing runs. */
  lemma ShutdownReturnsClosed(steps: seq<Step>, states: seq<Runtime>, k: nat, id: nat)
    requires Run(steps, states) && k < |states| && CallerAt(states[k], id, Returned)
    ensures states[k].cell.phase.Closed? && states[k].cell.active == 0 && states[k].live == {} && states[k].workers == {}
  {
    RunKeeps(steps, states, k);
  }

  /** Once shutdown has begun, the runtime can always get on with it: something is still
      active, a release is under way, or every sleeping caller is about to be woken. */
  lemma ShutdownProgress(steps: seq<Step>, states: seq<Runtime>, k: nat)
    requires Run(steps, states) && k < |states| && !states[k].cell.phase.Accepting?
    ensures var s := states[k];
            || (exists id :: id in s.live || id in s.workers)
            || Enabled(s, ReleaseDone)
            || (s.cell.phase.Closed? && forall id :: CallerAt(s, id, Asleep) ==> Enabled(s, NotifyAll))
  {
    RunKeeps(steps, states, k);
    var s := states[k];
    if s.cell.phase.Closing? {
      assert s.live != {} || s.workers != {};
    }
  }

  // ---------------------------------------------------------------- phases by what happened

  lemma PhaseStep(s: Runtime, e: Step)
    requires Valid(s) && Enabled(s, e)
    ensures Apply(s, e).cell.phase.Accepting? <==> s.cell.phase.Accepting? && !e.Shutdown?
    ensures Apply(s, e).cell.phase.Closed? <==> s.cell.phase.Closed? || e.ReleaseDone?
  {
    hide Gated, Exact, Heard, Barred;
  }

  /** The runtime accepts until the first call of shutdown, and is closed from the end of the
      release on. */
  lemma {:induction false} PhaseExact(steps: seq<Step>, states: seq<Runtime>, k: nat)
    requires Run(steps, states) && k < |states|
    ensures states[k].cell.phase.Accepting? <==> forall j :: 0 <= j < k ==> !steps[j].Shutdown?
    ensures states[k].cell.phase.Closed? <==> exists j :: 0 <= j < k && steps[j].ReleaseDone?
  {
    hide Enabled, Apply, Valid;
    if k > 0 {
      PhaseExact(steps, states, k - 1);
      RunKeeps(steps, states, k - 1);
      assert states[k] == Apply(states[k - 1], steps[k - 1]);
      PhaseStep(states[k - 1], steps[k - 1]);
    }
  }

  /** Whoever asks is admitted exactly if its control allows it and nobody has called shutdown. */
  lemma AdmittedUntilShutdown(steps: seq<Step>, states: seq<Runtime>, k: nat, id: nat, allowed: bool)
    requires Run(steps, states) && k < |steps| && steps[k] == Admit(id, allowed)
    ensures id in states[k + 1].live <==> allowed && forall j :: 0 <= j < k ==> !steps[j].Shutdown?
  {
    RunKeeps(steps, states, k);
    PhaseExact(steps, states, k);
    assert states[k + 1] == Apply(states[k], steps[k]);
    assert id in states[k].asking;
  }

  // ---------------------------------------------------------------- shutdown completes

  ghost predicate Extends(steps: seq<Step>, states: seq<Runtime>, more: seq<Step>, after: seq<Runtime>) {
    Run(more, after) && steps <= more && states <= after
  }

  lemma RunExtended(steps: seq<Step>, states: seq<Runtime>, e: Step)
    requires Run(steps, states) && Enabled(states[|steps|], e)
    ensures Extends(steps, states, steps + [e], states + [Apply(states[|steps|], e)])
  {
    hide Enabled, Apply;
    var more, after := steps + [e], states + [Apply(states[|steps|], e)];
    forall i | 0 <= i < |more| ensures Enabled(after[i], more[i]) && after[i + 1] == Apply(after[i], more[i]) {
      if i < |steps| { assert after[i + 1] == states[i + 1]; }
    }
  }

  /** Whatever is active ends, and the phase does not go back. */
  lemma {:induction false} Drains(steps: seq<Step>, states: seq<Runtime>) returns (more: seq<Step>, after: seq<Runtime>)
    requires Run(steps, states) && !states[|steps|].cell.phase.Accepting?
    ensures Extends(steps, states, more, after)
    ensures var s := after[|more|]; s.live == {} && s.workers == {} && !s.cell.phase.Accepting? && s.callers == states[|steps|].callers
    decreases |states[|steps|].live| + |states[|steps|].workers|
  {
    hide Run;
    RunLength(steps, states);
    var s := states[|steps|];
    RunKeeps(steps, states, |steps|);
    if s.live == {} && s.workers == {} {
      more, after := steps, states;
    } else {
      var e := if s.live != {} then (var id :| id in s.live; Finish(id)) else var id :| id in s.workers; StopWorker(id);
      EndsOne(s, e);
      RunExtended(steps, states, e);
      more, after := Drains(steps + [e], states + [Apply(s, e)]);
    }
  }

  lemma RunLength(steps: seq<Step>, states: seq<Runtime>)
    requires Run(steps, states)
    ensures |states| == |steps| + 1
  {
  }

  lemma EndsOne(s: Runtime, e: Step)
    requires Valid(s) && Enabled(s, e) && (e.Finish? || e.StopWorker?) && !s.cell.phase.Accepting?
    ensures var t := Apply(s, e);
            |t.live| + |t.workers| < |s.live| + |s.workers| && !t.cell.phase.Accepting? && t.callers == s.callers
  {
    hide Gated, Exact, Heard, Barred;
    if e.Finish? {
      assert |s.live - {e.id}| == |s.live| - 1;
    } else {
      assert |s.workers - {e.id}| == |s.workers| - 1;
    }
  }

  /** A caller of `shutdown` that has not returned. */
  predicate Waiting(s: Runtime, id: nat) {
    id in s.callers && !s.callers[id].Returned? && !s.callers[id].Left? && (s.callers[id].Gating? ==> s.callers[id].waits)
  }

  /** The next step of a waiting caller of a closed runtime. */
  function NextMove(s: Runtime, id: nat): Step
    requires Waiting(s, id)
  {
    match s.callers[id]
    case Gating(_) => CloseGate(id)
    case Asleep => NotifyAll
    case Woken => Rearm(id)
    case _ => Check(id)
  }

  function Away(caller: Caller): nat {
    match caller
    case Gating(_) => 4
    case Asleep => 3
    case Woken => 2
    case Armed => 1
    case _ => 0
  }

  lemma MovesOn(s: Runtime, id: nat)
    requires Valid(s) && s.cell.phase.Closed? && Waiting(s, id)
    ensures Enabled(s, NextMove(s, id))
    ensures var t := Apply(s, NextMove(s, id));
            t.cell.phase.Closed? && id in t.callers && Away(t.callers[id]) < Away(s.callers[id])
            && (Waiting(t, id) || CallerAt(t, id, Returned))
  {
    hide Gated, Exact, Owned, Barred;
  }

  lemma {:induction false} Returns(steps: seq<Step>, states: seq<Runtime>, id: nat) returns (more: seq<Step>, after: seq<Runtime>)
    requires Run(steps, states) && states[|steps|].cell.phase.Closed?
    requires Waiting(states[|steps|], id) || CallerAt(states[|steps|], id, Returned)
    ensures Extends(steps, states, more, after) && CallerAt(after[|more|], id, Returned)
    decreases if id in states[|steps|].callers then Away(states[|steps|].callers[id]) else 0
  {
    hide Run, Enabled, Apply, Valid;
    RunLength(steps, states);
    var s := states[|steps|];
    RunKeeps(steps, states, |steps|);
    if CallerAt(s, id, Returned) {
      more, after := steps, states;
    } else {
      MovesOn(s, id);
      RunExtended(steps, states, NextMove(s, id));
      more, after := Returns(steps + [NextMove(s, id)], states + [Apply(s, NextMove(s, id))], id);
    }
  }

  /** From every reachable state, every call of `shutdown` can still return: there is always a
      way on that ends all activity, releases the backend and wakes the caller. */
  lemma ShutdownCompletes(steps: seq<Step>, states: seq<Runtime>, id: nat) returns (more: seq<Step>, after: seq<Runtime>)
    requires Run(steps, states) && Waiting(states[|steps|], id) && !states[|steps|].cell.phase.Accepting?
    ensures Extends(steps, states, more, after) && CallerAt(after[|more|], id, Returned)
  {
    hide Run;
    more, after := Drains(steps, states);
    RunLength(more, after);
    RunKeeps(more, after, |more|);
    if after[|more|].cell.phase.Releasing? {
      RunExtended(more, after, ReleaseDone);
      more, after := more + [ReleaseDone], after + [Apply(after[|more|], ReleaseDone)];
    }
    assert after[|more|].cell.phase.Closed?;
    more, after := Returns(more, after, id);
  }
}
