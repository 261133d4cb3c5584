/** The bounded pool of native worker threads as a state machine over its atomic steps. */
module BlockingPool {
  import opened Ordinals
  import opened Wrappers

  /** Where one open of a transaction actor stands. */
  datatype Phase =
    | Waiting                              // for a permit
    | Permitted                            // holds a permit
    | Slow                                 // saw fewer workers than the limit
    | Locked                               // holds the spawn lock
    | Spawned                              // its new thread runs but is not counted yet
    | Refused                              // spawn failed, permit about to go back
    | Ensured                              // past `ensure_worker`
    | Activated                            // counted as active
    | Queued
    | Running(worker: nat)
    | Cleaned(worker: nat, signal: bool)   // no longer active, permit still held
    | Finished | Failed | Abandoned

  datatype Worker = Awake | Parked | Busy(job: nat) | Exited

  /** A task waiting for the pool to fall idle. */
  datatype Waiter = Absent | Checking | Sleeping

  datatype Pool = Pool(
    limit: nat,
    permits: nat,
    spawned: nat,
    active: nat,
    lock: Option<nat>,
    phases: map<nat, Phase>,
    queue: seq<nat>,
    notifying: nat,
    workers: seq<Worker>,
    closed: bool,
    waiters: map<nat, Waiter>,
    token: bool)

  datatype Step =
    | Arrive(id: nat) | Abandon(id: nat) | Acquire(id: nat)
    | SeeFull(id: nat) | SeeRoom(id: nat) | Lock(id: nat) | FullUnderLock(id: nat)
    | SpawnFails(id: nat) | GiveBack(id: nat) | Spawn(id: nat) | CountWorker(id: nat)
    | Activate(id: nat) | Push(id: nat)
    | Notify(worker: nat) | NotifyNobody | Wake(worker: nat)
    | Pop(worker: nat) | Park(worker: nat) | Exit(worker: nat)
    | Finish(worker: nat) | Signal(worker: nat) | Release(worker: nat)
    | Close | Ask(who: nat) | Look(who: nat) | Hear(who: nat)

  function Start(limit: nat): Pool {
    Pool(limit, limit, 0, 0, None, map[], [], 0, [], false, map[], false)
  }

  // ---------------------------------------------------------------- steps

  predicate At(s: Pool, id: nat, phase: Phase) {
    id in s.phases && s.phases[id] == phase
  }

  predicate Does(s: Pool, worker: nat, w: Worker) {
    worker < |s.workers| && s.workers[worker] == w
  }

  predicate Waits(s: Pool, who: nat, waiter: Waiter) {
    who in s.waiters && s.waiters[who] == waiter
  }

  /** The worker is busy and its job is at the given phase. */
  predicate Works(s: Pool, worker: nat, phase: Phase) {
    worker < |s.workers| && s.workers[worker].Busy? && At(s, s.workers[worker].job, phase)
  }

  /** Opens that still borrow the pool. */
  predicate Opening(phase: Phase) {
    phase.Waiting? || phase.Permitted? || phase.Slow? || phase.Locked? || phase.Spawned? || phase.Refused? || phase.Ensured? || phase.Activated?
  }

  ghost predicate Enabled(s: Pool, e: Step) {
    match e
    case Arrive(id) => id !in s.phases && !s.closed
    case Abandon(id) => At(s, id, Waiting)
    case Acquire(id) => At(s, id, Waiting) && s.permits > 0
    case SeeFull(id) => At(s, id, Permitted) && s.spawned >= s.limit
    case SeeRoom(id) => At(s, id, Permitted) && s.spawned < s.limit
    case Lock(id) => At(s, id, Slow) && s.lock.None?
    case FullUnderLock(id) => At(s, id, Locked) && s.spawned >= s.limit
    case SpawnFails(id) => At(s, id, Locked) && s.spawned < s.limit
    case GiveBack(id) => At(s, id, Refused)
    case Spawn(id) => At(s, id, Locked) && s.spawned < s.limit
    case CountWorker(id) => At(s, id, Spawned)
    case Activate(id) => At(s, id, Ensured)
    case Push(id) => At(s, id, Activated)
    case Notify(worker) => s.notifying > 0 && Does(s, worker, Parked)
    case NotifyNobody => s.notifying > 0 && !AnyParked(s.workers)
    case Wake(worker) => Does(s, worker, Parked)
    case Pop(worker) => Does(s, worker, Awake) && s.queue != []
    case Park(worker) => Does(s, worker, Awake) && s.queue == [] && !s.closed
    case Exit(worker) => Does(s, worker, Awake) && s.queue == [] && s.closed
    case Finish(worker) => Works(s, worker, Running(worker)) && s.active > 0
    case Signal(worker) => Works(s, worker, Cleaned(worker, true))
    case Release(worker) => Works(s, worker, Cleaned(worker, false))
    case Close => !s.closed && forall id :: id in s.phases ==> !Opening(s.phases[id])
    case Ask(who) => who in s.waiters ==> s.waiters[who].Absent?
    case Look(who) => Waits(s, who, Checking)
    case Hear(who) => Waits(s, who, Sleeping) && s.token
  }

  function Turn(s: Pool, worker: nat, w: Worker): Pool
    requires worker < |s.workers|
  {
    s.(workers := s.workers[worker := w])
  }

  /** The open a step moves, and where to. */
  function Target(s: Pool, e: Step): Option<(nat, Phase)>
    requires Enabled(s, e)
  {
    match e
    case Arrive(id) => Some((id, Waiting))
    case Abandon(id) => Some((id, Abandoned))
    case Acquire(id) => Some((id, Permitted))
    case SeeFull(id) => Some((id, Ensured))
    case SeeRoom(id) => Some((id, Slow))
    case Lock(id) => Some((id, Locked))
    case FullUnderLock(id) => Some((id, Ensured))
    case SpawnFails(id) => Some((id, Refused))
    case GiveBack(id) => Some((id, Failed))
    case Spawn(id) => Some((id, Spawned))
    case CountWorker(id) => Some((id, Ensured))
    case Activate(id) => Some((id, Activated))
    case Push(id) => Some((id, Queued))
    case Pop(worker) => Some((s.queue[0], Running(worker)))
    case Finish(worker) => Some((s.workers[worker].job, Cleaned(worker, s.active == 1)))
    case Signal(worker) => Some((s.workers[worker].job, Cleaned(worker, false)))
    case Release(worker) => Some((s.workers[worker].job, Finished))
    case _ => None
  }

  /** What else a step changes. */
  function Effect(s: Pool, e: Step): Pool
    requires Enabled(s, e)
  {
    match e
    case Acquire(id) => s.(permits := s.permits - 1)
    case Lock(id) => s.(lock := Some(id))
    case FullUnderLock(id) => s.(lock := None)
    case SpawnFails(id) => s.(lock := None)
    case GiveBack(id) => s.(permits := s.permits + 1)
    case Spawn(id) => s.(workers := s.workers + [Awake])
    case CountWorker(id) => s.(spawned := s.spawned + 1, lock := None)
    case Activate(id) => s.(active := s.active + 1)
    case Push(id) => s.(queue := s.queue + [id], notifying := s.notifying + 1)
    case Notify(worker) => Turn(s, worker, Awake).(notifying := s.notifying - 1)
    case NotifyNobody => s.(notifying := s.notifying - 1)
    case Wake(worker) => Turn(s, worker, Awake)
    case Pop(worker) => Turn(s, worker, Busy(s.queue[0])).(queue := s.queue[1..])
    case Park(worker) => Turn(s, worker, Parked)
    case Exit(worker) => Turn(s, worker, Exited)
    case Finish(worker) => s.(active := s.active - 1)
    case Signal(worker) => s.(token := true)
    case Release(worker) => Turn(s, worker, Awake).(permits := s.permits + 1)
    case Close => s.(closed := true)
    case Ask(who) => s.(waiters := s.waiters[who := Checking])
    case Look(who) => s.(waiters := s.waiters[who := if s.active == 0 then Absent else Sleeping])
    case Hear(who) => s.(waiters := s.waiters[who := Checking], token := false)
    case _ => s
  }

  function Apply(s: Pool, e: Step): Pool
    requires Enabled(s, e)
  {
    Effect(s, e).(phases := match Target(s, e) case None => s.phases case Some((id, phase)) => s.phases[id := phase])
  }

  // ---------------------------------------------------------------- counting opens

  datatype Kind = Holder | Live | Active | Uncounted | Occupied | Signalling

  predicate In(phase: Phase, kind: Kind) {
    match kind
    case Holder => !phase.Waiting? && !phase.Finished? && !phase.Failed? && !phase.Abandoned?
    case Live => phase.Ensured? || phase.Activated? || phase.Queued? || phase.Running? || phase.Cleaned?
    case Active => phase.Activated? || phase.Queued? || phase.Running?
    case Uncounted => phase.Spawned?
    case Occupied => phase.Running? || phase.Cleaned?
    case Signalling => phase.Cleaned? && phase.signal
  }

  ghost function All(phases: map<nat, Phase>, kind: Kind): set<nat> {
    set id | id in phases && In(phases[id], kind)
  }

  ghost function Count(phases: map<nat, Phase>, kind: Kind): nat {
    |All(phases, kind)|
  }

  /** Moving one open changes each count by at most one, as its phases say. */
  lemma CountPut(phases: map<nat, Phase>, id: nat, phase: Phase, kind: Kind)
    ensures Count(phases[id := phase], kind) ==
            Count(phases, kind)
            - (if id in phases && In(phases[id], kind) then 1 else 0)
            + (if In(phase, kind) then 1 else 0)
  {
    hide In;
    var before, after := All(phases, kind), All(phases[id := phase], kind);
    if In(phase, kind) {
      assert after == before + {id};
    } else {
      assert after == before - {id};
    }
  }

  /** Everyone past `ensure_worker` holds a permit, and a permit holder not yet past it
      leaves room. */
  lemma LiveHold(phases: map<nat, Phase>, id: nat)
    requires id in phases && In(phases[id], Holder) && !In(phases[id], Live)
    ensures Count(phases, Live) < Count(phases, Holder)
  {
    var live, held := All(phases, Live), All(phases, Holder);
    assert live <= held && id in held && id !in live;
    SubsetSize(live, held);
  }

  lemma CountSome(phases: map<nat, Phase>, id: nat, kind: Kind)
    requires id in phases && In(phases[id], kind)
    ensures Count(phases, kind) > 0
  {
    assert id in All(phases, kind);
  }

  lemma CountNone(phases: map<nat, Phase>, kind: Kind)
    requires forall id :: id in phases ==> !In(phases[id], kind)
    ensures Count(phases, kind) == 0
  {
    assert All(phases, kind) == {};
  }

  // ---------------------------------------------------------------- the invariant

  /** Permits, workers and the active count all account for the opens in flight. */
  ghost predicate Accounted(s: Pool) {
    && s.permits + Count(s.phases, Holder) == s.limit
    && Count(s.phases, Live) <= s.spawned <= s.limit
    && s.active == Count(s.phases, Active)
    && |s.workers| == s.spawned + Count(s.phases, Uncounted)
  }

  /** The spawn lock has exactly the one holder it names, and an uncounted worker has room. */
  ghost predicate Exclusive(s: Pool) {
    && (s.lock.Some? ==> At(s, s.lock.value, Locked) || At(s, s.lock.value, Spawned))
    && (forall id :: id in s.phases && (s.phases[id].Locked? || s.phases[id].Spawned?) ==> s.lock == Some(id))
    && (forall id :: id in s.phases && s.phases[id].Spawned? ==> s.spawned < s.limit)
  }

  /** The queue holds exactly the opens that say so, each once. */
  ghost predicate QueuePlaced(s: Pool) {
    && Distinct(s.queue)
    && (forall id :: id in s.queue <==> At(s, id, Queued))
  }

  /** Busy workers and running opens name each other. */
  ghost predicate WorkersPlaced(s: Pool) {
    && (forall w :: 0 <= w < |s.workers| && s.workers[w].Busy? ==> s.workers[w].job in s.phases && OnWorker(s.phases[s.workers[w].job], w))
    && (forall id :: id in s.phases && In(s.phases[id], Occupied) ==> Does(s, s.phases[id].worker, Busy(id)))
  }

  ghost predicate Placed(s: Pool) {
    QueuePlaced(s) && WorkersPlaced(s)
  }

  predicate OnWorker(phase: Phase, worker: nat) {
    (phase.Running? || phase.Cleaned?) && phase.worker == worker
  }

  /** Workers leave only a closed, drained pool that nobody is opening. */
  ghost predicate Draining(s: Pool) {
    && (s.closed ==> forall id :: id in s.phases ==> !Opening(s.phases[id]))
    && (forall w :: 0 <= w < |s.workers| && s.workers[w].Exited? ==> s.closed && s.queue == [])
  }

  function AwakeCount(workers: seq<Worker>): nat {
    if workers == [] then 0
    else AwakeCount(workers[..|workers| - 1]) + if workers[|workers| - 1].Awake? then 1 else 0
  }

  ghost predicate AnyParked(workers: seq<Worker>) {
    exists w :: 0 <= w < |workers| && workers[w].Parked?
  }

  /** While a worker sleeps, every queued job has an awake worker or a notification coming. */
  ghost predicate NoLostWake(s: Pool) {
    AnyParked(s.workers) ==> |s.queue| <= AwakeCount(s.workers) + s.notifying
  }

  ghost predicate Valid(s: Pool) {
    Accounted(s) && Exclusive(s) && Placed(s) && Draining(s) && NoLostWake(s)
  }

  // ---------------------------------------------------------------- every step keeps it

  function Ones(b: bool): int {
    if b then 1 else 0
  }

  /** How a step changes the number of opens of a kind. */
  function Change(s: Pool, e: Step, kind: Kind): int
    requires Enabled(s, e)
  {
    match Target(s, e)
    case None => 0
    case Some((id, phase)) => Ones(In(phase, kind)) - Ones(id in s.phases && In(s.phases[id], kind))
  }

  lemma Recount(s: Pool, e: Step, kind: Kind)
    requires Enabled(s, e)
    ensures Count(Apply(s, e).phases, kind) == Count(s.phases, kind) + Change(s, e, kind)
  {
    hide Count, Enabled, Effect, Target;
    match Target(s, e)
    case None =>
    case Some((id, phase)) => CountPut(s.phases, id, phase, kind);
  }

  lemma PopTakesQueued(s: Pool, e: Step)
    requires Placed(s) && Enabled(s, e) && e.Pop?
    ensures At(s, s.queue[0], Queued)
  {
    QueueHead(s);
  }

  /** Permits change hands exactly where opens start or stop holding one. */
  lemma PermitShape(s: Pool, e: Step)
    requires Enabled(s, e) && (e.Pop? ==> At(s, s.queue[0], Queued))
    ensures Change(s, e, Holder) == Ones(e.Acquire?) - Ones(e.GiveBack? || e.Release?)
  {
    hide Effect;
  }

  lemma PermitsKept(s: Pool, e: Step)
    requires Enabled(s, e) && Accounted(s) && Placed(s)
    ensures Apply(s, e).permits + Count(Apply(s, e).phases, Holder) == s.limit
  {
    hide Count;
    if e.Pop? {
      PopTakesQueued(s, e);
    }
    PermitShape(s, e);
    Recount(s, e, Holder);
    hide Placed, Change, Target;
  }

  lemma ActiveKept(s: Pool, e: Step)
    requires Enabled(s, e) && Accounted(s) && Placed(s)
    ensures Apply(s, e).active == Count(Apply(s, e).phases, Active)
  {
    hide Count;
    if e.Pop? {
      PopTakesQueued(s, e);
    }
    hide Placed;
    Recount(s, e, Active);
  }

  /** Only spawning adds a worker, and counting it is the next step. */
  lemma SpawnShape(s: Pool, e: Step)
    requires Enabled(s, e) && (e.Pop? ==> At(s, s.queue[0], Queued))
    ensures Change(s, e, Uncounted) == Ones(e.Spawn?) - Ones(e.CountWorker?)
    ensures |Effect(s, e).workers| == |s.workers| + Ones(e.Spawn?)
    ensures Effect(s, e).spawned == s.spawned + Ones(e.CountWorker?) && Effect(s, e).limit == s.limit
  {
  }

  lemma WorkersKept(s: Pool, e: Step)
    requires Enabled(s, e) && Accounted(s) && Placed(s)
    ensures |Apply(s, e).workers| == Apply(s, e).spawned + Count(Apply(s, e).phases, Uncounted)
  {
    hide Count, Change, Effect, Target;
    if e.Pop? {
      PopTakesQueued(s, e);
    }
    SpawnShape(s, e);
    hide Placed, Enabled;
    Recount(s, e, Uncounted);
  }

  /** An open passes `ensure_worker` by adding a worker or by finding as many workers
      as there are permits. */
  lemma LiveKept(s: Pool, e: Step)
    requires Enabled(s, e) && Accounted(s) && Exclusive(s) && Placed(s)
    ensures Count(Apply(s, e).phases, Live) <= Apply(s, e).spawned <= s.limit
  {
    hide Count, Change, Effect, Target;
    if e.Pop? {
      PopTakesQueued(s, e);
    } else if e.SeeFull? || e.FullUnderLock? {
      LiveHold(s.phases, e.id);
    }
    LiveShape(s, e);
    SpawnShape(s, e);
    hide Placed;
    Recount(s, e, Live);
  }

  lemma LiveShape(s: Pool, e: Step)
    requires Enabled(s, e) && (e.Pop? ==> At(s, s.queue[0], Queued))
    ensures Change(s, e, Live) == Ones(e.SeeFull? || e.FullUnderLock? || e.CountWorker?) - Ones(e.Release?)
  {
    hide Effect;
  }

  lemma AccountedKept(s: Pool, e: Step)
    requires Enabled(s, e) && Accounted(s) && Exclusive(s) && Placed(s)
    ensures Accounted(Apply(s, e))
  {
    hide Count, Enabled, Exclusive, Placed, Apply;
    PermitsKept(s, e);
    ActiveKept(s, e);
    WorkersKept(s, e);
    LiveKept(s, e);
    LimitFixed(s, e);
  }

  /** What a step does to the lock, seen from the open it moves. */
  lemma LockShape(s: Pool, e: Step)
    requires Enabled(s, e) && Exclusive(s) && (e.Pop? ==> At(s, s.queue[0], Queued))
    ensures var t := Effect(s, e);
            match Target(s, e)
            case None => t.lock == s.lock && t.spawned == s.spawned && t.limit == s.limit
            case Some((id, phase)) =>
              && t.limit == s.limit && (t.lock == s.lock || s.lock.None? || s.lock == Some(id))
              && (t.spawned == s.spawned || s.lock == Some(id))
              && (phase.Locked? || phase.Spawned? <==> t.lock == Some(id))
              && (phase.Spawned? ==> t.spawned < t.limit)
  {
  }

  lemma ExclusiveKept(s: Pool, e: Step)
    requires Enabled(s, e) && Exclusive(s) && Placed(s)
    ensures Exclusive(Apply(s, e))
  {
    if e.Pop? {
      PopTakesQueued(s, e);
    }
    LockShape(s, e);
    hide Enabled, Effect, Target, Placed;
  }

  /** A step opens nothing in a closed pool. */
  lemma OpeningShape(s: Pool, e: Step)
    requires Enabled(s, e) && Draining(s) && Target(s, e).Some? && Opening(Target(s, e).value.1)
    ensures !s.closed
  {
    hide Effect;
  }

  /** A step queues nothing in a closed pool and makes no worker leave. */
  lemma DrainShape(s: Pool, e: Step)
    requires Enabled(s, e) && Draining(s) && !e.Close? && !e.Exit?
    ensures var t := Effect(s, e);
            && t.closed == s.closed
            && (forall w :: 0 <= w < |t.workers| && t.workers[w].Exited? ==> w < |s.workers| && s.workers[w].Exited?)
            && (s.closed && s.queue == [] ==> t.queue == [])
  {
    hide Target, Effect;
    ClosedShape(s, e);
    forall w | 0 <= w < |Effect(s, e).workers| && Effect(s, e).workers[w].Exited?
      ensures w < |s.workers| && s.workers[w].Exited?
    {
      ExitedShape(s, e, w);
    }
  }

  lemma ClosedShape(s: Pool, e: Step)
    requires Enabled(s, e) && Draining(s) && !e.Close?
    ensures Effect(s, e).closed == s.closed && (s.closed && s.queue == [] ==> Effect(s, e).queue == [])
  {
    hide Target;
  }

  lemma ExitedShape(s: Pool, e: Step, w: nat)
    requires Enabled(s, e) && !e.Exit? && w < |Effect(s, e).workers| && Effect(s, e).workers[w].Exited?
    ensures w < |s.workers| && s.workers[w].Exited?
  {
    hide Target;
  }

  lemma DrainingKept(s: Pool, e: Step)
    requires Enabled(s, e) && Draining(s)
    ensures Draining(Apply(s, e))
  {
    if e.Close? || e.Exit? {
      LeavingKept(s, e);
    } else {
      DrainShape(s, e);
      if Target(s, e).Some? && Opening(Target(s, e).value.1) {
        OpeningShape(s, e);
      }
      hide Enabled, Effect, Target, Opening;
    }
  }

  lemma LeavingKept(s: Pool, e: Step)
    requires Enabled(s, e) && Draining(s) && (e.Close? || e.Exit?)
    ensures Draining(Apply(s, e))
  {
  }

  lemma QueueShape(s: Pool, e: Step)
    requires Enabled(s, e) && !e.Push? && !e.Pop?
    ensures Effect(s, e).queue == s.queue
    ensures Target(s, e).Some? ==> !At(s, Target(s, e).value.0, Queued) && !Target(s, e).value.1.Queued?
  {
  }

  lemma PushKept(s: Pool, id: nat)
    requires Enabled(s, Push(id)) && QueuePlaced(s)
    ensures QueuePlaced(Apply(s, Push(id)))
  {
    assert id !in s.queue;
  }

  lemma PopKept(s: Pool, worker: nat)
    requires Enabled(s, Pop(worker)) && QueuePlaced(s)
    ensures QueuePlaced(Apply(s, Pop(worker)))
  {
    var t := Apply(s, Pop(worker));
    assert s.queue == [s.queue[0]] + t.queue;
    forall id ensures id in t.queue <==> At(t, id, Queued) {
      assert id in s.queue <==> id == s.queue[0] || id in t.queue;
    }
  }

  lemma QueueKept(s: Pool, e: Step)
    requires Enabled(s, e) && QueuePlaced(s)
    ensures QueuePlaced(Apply(s, e))
  {
    if e.Push? {
      PushKept(s, e.id);
    } else if e.Pop? {
      PopKept(s, e.worker);
    } else {
      QueueShape(s, e);
      hide Enabled, Effect, Target;
    }
  }

  predicate Jobs(e: Step) {
    e.Finish? || e.Signal? || e.Release? || e.Pop?
  }

  /** Other steps free or occupy no worker. */
  lemma WorkerShape(s: Pool, e: Step)
    requires Enabled(s, e) && !Jobs(e)
    ensures var t := Effect(s, e);
            && |s.workers| <= |t.workers|
            && (forall w :: 0 <= w < |s.workers| && s.workers[w].Busy? ==> t.workers[w] == s.workers[w])
            && (forall w :: 0 <= w < |t.workers| && t.workers[w].Busy? ==> w < |s.workers| && s.workers[w] == t.workers[w])
  {
    hide Target;
  }

  /** Other steps move no open on or off a worker. */
  lemma JobShape(s: Pool, e: Step)
    requires Enabled(s, e) && !Jobs(e) && Target(s, e).Some?
    ensures var (id, phase) := Target(s, e).value;
            !In(phase, Occupied) && (id in s.phases ==> !In(s.phases[id], Occupied))
  {
    hide Effect;
  }

  lemma WorkersPlacedKept(s: Pool, e: Step)
    requires Enabled(s, e) && Placed(s)
    ensures WorkersPlaced(Apply(s, e))
  {
    if e.Pop? {
      PopTakesQueued(s, e);
    }
    hide QueuePlaced;
    if Jobs(e) {
      JobPlaced(s, e);
    } else {
      WorkerShape(s, e);
      if Target(s, e).Some? {
        JobShape(s, e);
      }
      hide Enabled, Effect, Target;
    }
  }

  lemma JobPlaced(s: Pool, e: Step)
    requires Enabled(s, e) && WorkersPlaced(s) && Jobs(e)
    requires e.Pop? ==> At(s, s.queue[0], Queued)
    ensures WorkersPlaced(Apply(s, e))
  {
    if e.Pop? {
      PopPlaced(s, e.worker);
    } else if e.Release? {
      ReleasePlaced(s, e.worker);
    } else {
      CleanPlaced(s, e);
    }
  }

  lemma PopPlaced(s: Pool, worker: nat)
    requires Enabled(s, Pop(worker)) && WorkersPlaced(s) && At(s, s.queue[0], Queued)
    ensures WorkersPlaced(Apply(s, Pop(worker)))
  {
  }

  lemma ReleasePlaced(s: Pool, worker: nat)
    requires Enabled(s, Release(worker)) && WorkersPlaced(s)
    ensures WorkersPlaced(Apply(s, Release(worker)))
  {
  }

  lemma CleanPlaced(s: Pool, e: Step)
    requires Enabled(s, e) && WorkersPlaced(s) && (e.Finish? || e.Signal?)
    ensures WorkersPlaced(Apply(s, e))
  {
  }

  lemma PlacedKept(s: Pool, e: Step)
    requires Enabled(s, e) && Placed(s)
    ensures Placed(Apply(s, e))
  {
    hide QueuePlaced, WorkersPlaced, Enabled, Apply;
    QueueKept(s, e);
    WorkersPlacedKept(s, e);
  }

  lemma {:induction false} AwakeTurn(workers: seq<Worker>, at: nat, w: Worker)
    requires at < |workers|
    ensures AwakeCount(workers[at := w]) == AwakeCount(workers) - Ones(workers[at].Awake?) + Ones(w.Awake?)
    ensures !w.Parked? && AnyParked(workers[at := w]) ==> AnyParked(workers)
    decreases |workers|
  {
    ParkedTurn(workers, at, w);
    hide AnyParked;
    var last := |workers| - 1;
    if at < last {
      AwakeTurn(workers[..last], at, w);
      assert workers[at := w][..last] == workers[..last][at := w];
    } else {
      assert workers[at := w][..last] == workers[..last];
    }
  }

  lemma ParkedTurn(workers: seq<Worker>, at: nat, w: Worker)
    requires at < |workers|
    ensures !w.Parked? && AnyParked(workers[at := w]) ==> AnyParked(workers)
  {
    var after := workers[at := w];
    if !w.Parked? && AnyParked(after) {
      var v :| 0 <= v < |after| && after[v].Parked?;
      assert workers[v].Parked?;
    }
  }

  lemma AwakeMore(workers: seq<Worker>)
    ensures AwakeCount(workers + [Awake]) == AwakeCount(workers) + 1
    ensures AnyParked(workers + [Awake]) ==> AnyParked(workers)
  {
    var after := workers + [Awake];
    if AnyParked(after) {
      var v :| 0 <= v < |after| && after[v].Parked?;
      assert workers[v].Parked?;
    }
    assert (workers + [Awake])[..|workers|] == workers;
  }

  lemma {:induction false} AwakeOne(workers: seq<Worker>)
    requires AwakeCount(workers) > 0
    ensures exists w :: 0 <= w < |workers| && workers[w].Awake?
    decreases |workers|
  {
    var last := |workers| - 1;
    if !workers[last].Awake? {
      AwakeOne(workers[..last]);
      var w :| 0 <= w < last && workers[..last][w].Awake?;
      assert workers[w].Awake?;
    }
  }

  /** Steps that touch the queue, its notifications or the workers. */
  predicate Touches(e: Step) {
    e.Spawn? || e.Push? || e.Notify? || e.NotifyNobody? || e.Wake? || e.Pop? || e.Park? || e.Exit? || e.Release?
  }

  lemma WakeShape(s: Pool, e: Step)
    requires Enabled(s, e) && !Touches(e)
    ensures Effect(s, e).workers == s.workers && Effect(s, e).queue == s.queue && Effect(s, e).notifying == s.notifying
  {
    hide Target;
  }

  lemma NoLostWakeKept(s: Pool, e: Step)
    requires Enabled(s, e) && NoLostWake(s)
    ensures NoLostWake(Apply(s, e))
  {
    if Touches(e) {
      WakeKept(s, e);
    } else {
      WakeShape(s, e);
      hide Enabled, Effect, Target;
    }
  }

  lemma WakeKept(s: Pool, e: Step)
    requires Enabled(s, e) && NoLostWake(s) && Touches(e)
    ensures NoLostWake(Apply(s, e))
  {
    hide AwakeCount, Target, AnyParked;
    if e.Spawn? {
      AwakeMore(s.workers);
    } else if e.Notify? || e.Wake? || e.Release? {
      AwakeTurn(s.workers, e.worker, Awake);
    } else if e.Pop? {
      AwakeTurn(s.workers, e.worker, Busy(s.queue[0]));
    } else if e.Exit? {
      AwakeTurn(s.workers, e.worker, Exited);
    }
  }

  /** Only a signal lowers the number of finishers that still owe one. */
  lemma SignalShape(s: Pool, e: Step)
    requires Enabled(s, e) && (e.Pop? ==> At(s, s.queue[0], Queued))
    ensures Change(s, e, Signalling) == Ones(e.Finish? && s.active == 1) - Ones(e.Signal?)
  {
    hide Effect;
  }

  lemma StepKeeps(s: Pool, e: Step)
    requires Valid(s) && Enabled(s, e)
    ensures Valid(Apply(s, e))
  {
    hide Accounted, Exclusive, Placed, Draining, NoLostWake, Enabled, Apply;
    AccountedKept(s, e);
    ExclusiveKept(s, e);
    PlacedKept(s, e);
    DrainingKept(s, e);
    NoLostWakeKept(s, e);
  }

  /** A run: the states a fresh pool goes through. */
  ghost predicate Run(limit: nat, steps: seq<Step>, states: seq<Pool>) {
    Path(Start(limit), steps, states)
  }

  /** The states a pool goes through under a sequence of steps. */
  ghost predicate Path(s: Pool, steps: seq<Step>, states: seq<Pool>) {
    && |states| == |steps| + 1 && states[0] == s
    && forall i :: 0 <= i < |steps| ==> Enabled(states[i], steps[i]) && states[i + 1] == Apply(states[i], steps[i])
  }

  lemma {:induction false} RunKeeps(limit: nat, steps: seq<Step>, states: seq<Pool>, k: nat)
    requires Run(limit, steps, states) && k < |states|
    ensures Valid(states[k]) && states[k].limit == limit
  {
    hide Valid, Enabled, Apply;
    if k == 0 {
      StartValid(limit);
    } else {
      RunKeeps(limit, steps, states, k - 1);
      assert states[k] == Apply(states[k - 1], steps[k - 1]);
      StepKeeps(states[k - 1], steps[k - 1]);
      LimitFixed(states[k - 1], steps[k - 1]);
    }
  }

  /** Some run ends here. */
  ghost predicate Reaches(limit: nat, s: Pool) {
    exists steps, states :: Run(limit, steps, states) && states[|steps|] == s
  }

  lemma ReachesValid(limit: nat, s: Pool)
    requires Reaches(limit, s)
    ensures Valid(s) && s.limit == limit
  {
    var steps, states :| Run(limit, steps, states) && states[|steps|] == s;
    RunKeeps(limit, steps, states, |steps|);
  }

  lemma StartValid(limit: nat)
    ensures Valid(Start(limit))
  {
    forall kind ensures Count(Start(limit).phases, kind) == 0 {
      CountNone(Start(limit).phases, kind);
    }
  }

  lemma LimitFixed(s: Pool, e: Step)
    requires Enabled(s, e)
    ensures Apply(s, e).limit == s.limit
  {
    hide Target;
  }

  // ---------------------------------------------------------------- what it means

  /** Distinct workers hold distinct jobs, so no more can be busy than jobs occupy. */
  lemma {:induction false} BusyBound(workers: seq<Worker>, jobs: set<nat>)
    requires forall w :: 0 <= w < |workers| ==> workers[w].Busy? && workers[w].job in jobs
    requires forall v, w :: 0 <= v < w < |workers| ==> workers[v].job != workers[w].job
    ensures |workers| <= |jobs|
    decreases |workers|
  {
    if workers != [] {
      var last := |workers| - 1;
      BusyBound(workers[..last], jobs - {workers[last].job});
    }
  }

  lemma QueueSize(s: Pool)
    requires Placed(s)
    ensures |s.queue| + Count(s.phases, Occupied) <= Count(s.phases, Live)
  {
    var occupied := All(s.phases, Occupied);
    var both := QueueAdds(s.queue, occupied);
    assert both <= All(s.phases, Live);
    SubsetSize(both, All(s.phases, Live));
  }

  lemma QueueAdds(queue: seq<nat>, occupied: set<nat>) returns (both: set<nat>)
    requires Distinct(queue) && forall id :: id in queue ==> id !in occupied
    ensures |both| == |queue| + |occupied| && forall id :: id in both <==> id in queue || id in occupied
  {
    DistinctSize(queue);
    both := Members(queue) + occupied;
    assert Members(queue) !! occupied;
  }

  /** No stranded actor: whenever a job is queued, some worker is not occupied, and that
      worker is awake or will be. */
  lemma NoStrandedActor(limit: nat, s: Pool)
    requires Reaches(limit, s) && s.queue != []
    ensures exists w :: 0 <= w < |s.workers| && (s.workers[w].Awake? || s.workers[w].Parked?)
    ensures (exists w :: 0 <= w < |s.workers| && s.workers[w].Awake?) || s.notifying > 0
  {
    ReachesValid(limit, s);
    QueueSize(s);
    if forall w :: 0 <= w < |s.workers| ==> s.workers[w].Busy? {
      BusyBound(s.workers, All(s.phases, Occupied));
    } else {
      var w :| 0 <= w < |s.workers| && !s.workers[w].Busy?;
      assert !s.workers[w].Exited?;
      if s.workers[w].Parked? && s.notifying == 0 {
        AwakeOne(s.workers);
      }
    }
  }

  /** Workers, queued jobs and jobs being run all stay within the limit, and the jobs
      past `ensure_worker` never outnumber the workers. */
  lemma WithinLimit(limit: nat, s: Pool)
    requires Reaches(limit, s)
    ensures |s.queue| + Count(s.phases, Occupied) <= Count(s.phases, Live) <= s.spawned <= limit
    ensures |s.workers| <= limit && s.active <= limit
  {
    ReachesValid(limit, s);
    QueueSize(s);
    if id: nat :| id in All(s.phases, Uncounted) {
      OneUncounted(s, id);
    }
    SubsetSize(All(s.phases, Active), All(s.phases, Holder));
  }

  lemma OneUncounted(s: Pool, id: nat)
    requires Exclusive(s) && id in s.phases && s.phases[id].Spawned?
    ensures Count(s.phases, Uncounted) == 1 && s.spawned < s.limit
  {
    assert All(s.phases, Uncounted) == {id};
  }

  /** Nothing leaks: once no open is in flight, however the earlier ones ended, every
      permit is back and nothing counts as active. */
  lemma NothingLeaks(limit: nat, s: Pool)
    requires Reaches(limit, s)
    requires forall id :: id in s.phases ==> s.phases[id].Waiting? || s.phases[id].Finished? || s.phases[id].Failed? || s.phases[id].Abandoned?
    ensures s.permits == limit && s.active == 0 && s.queue == []
    ensures forall w :: 0 <= w < |s.workers| ==> !s.workers[w].Busy?
  {
    ReachesValid(limit, s);
    CountNone(s.phases, Holder);
    CountNone(s.phases, Active);
    if s.queue != [] {
      QueueHead(s);
    }
  }

  lemma QueueHead(s: Pool)
    requires QueuePlaced(s) && s.queue != []
    ensures At(s, s.queue[0], Queued)
  {
    assert s.queue[0] in s.queue;
  }

  /** A job that ends always finds itself counted: the active count cannot wrap. */
  lemma FinishEnabled(limit: nat, s: Pool, worker: nat)
    requires Reaches(limit, s) && Works(s, worker, Running(worker))
    ensures Enabled(s, Finish(worker))
  {
    ReachesValid(limit, s);
    CountSome(s.phases, s.workers[worker].job, Active);
  }

  /** An open that failed to get its worker thread leaves nothing behind: it holds no permit,
      no lock and no place in the queue, no worker runs it, and it is not active. */
  lemma FailedLeavesNothing(limit: nat, s: Pool, id: nat)
    requires Reaches(limit, s) && At(s, id, Failed)
    ensures id !in All(s.phases, Holder) && s.permits == limit - |All(s.phases, Holder)|
    ensures s.lock != Some(id) && id !in s.queue && id !in All(s.phases, Active)
    ensures forall w :: 0 <= w < |s.workers| ==> s.workers[w] != Busy(id)
  {
    ReachesValid(limit, s);
  }

  /** The spawn lock never leaks: while it is held, its holder can take a step that releases it. */
  lemma LockHolderMoves(limit: nat, s: Pool, id: nat)
    requires Reaches(limit, s) && s.lock == Some(id)
    ensures (Enabled(s, FullUnderLock(id)) && Apply(s, FullUnderLock(id)).lock.None?)
            || (Enabled(s, SpawnFails(id)) && Apply(s, SpawnFails(id)).lock.None?)
            || (Enabled(s, CountWorker(id)) && Apply(s, CountWorker(id)).lock.None?)
  {
    hide Reaches, Accounted, Placed, Draining, NoLostWake;
    ReachesValid(limit, s);
  }

  /** Any task stops waiting only at a moment when no open counts as active. */
  lemma IdleMeansIdle(limit: nat, s: Pool, who: nat)
    requires Reaches(limit, s) && Waits(s, who, Checking) && Waits(Apply(s, Look(who)), who, Absent)
    ensures s.active == 0 && forall id :: id in s.phases ==> !In(s.phases[id], Active)
  {
    ReachesValid(limit, s);
    forall id | id in s.phases ensures !In(s.phases[id], Active) {
      if In(s.phases[id], Active) {
        CountSome(s.phases, id, Active);
      }
    }
  }

  // ---------------------------------------------------------------- no deadlock

  /** Steps that bring some open nearer its end, or tell a worker to. */
  predicate Serves(e: Step) {
    !e.Arrive? && !e.Abandon? && !e.Wake? && !e.Park? && !e.Exit? && !e.Close? && !e.Ask? && !e.Look? && !e.Hear?
  }

  ghost predicate CanServe(s: Pool) {
    exists e :: Serves(e) && Enabled(s, e)
  }

  /** An open under way to the queue can move, or the holder of the spawn lock can. */
  lemma OpenerMoves(s: Pool, id: nat)
    requires Exclusive(s) && id in s.phases && Opening(s.phases[id]) && !s.phases[id].Waiting?
    ensures CanServe(s)
  {
    match s.phases[id] {
      case Permitted => assert Enabled(s, if s.spawned >= s.limit then SeeFull(id) else SeeRoom(id));
      case Slow =>
        if s.lock.None? {
          assert Enabled(s, Lock(id));
        } else {
          HolderMoves(s, s.lock.value);
        }
      case Locked => HolderMoves(s, id);
      case Spawned => HolderMoves(s, id);
      case Refused => assert Enabled(s, GiveBack(id));
      case Ensured => assert Enabled(s, Activate(id));
      case Activated => assert Enabled(s, Push(id));
    }
  }

  lemma HolderMoves(s: Pool, id: nat)
    requires At(s, id, Locked) || At(s, id, Spawned)
    ensures CanServe(s)
  {
    var e := if At(s, id, Spawned) then CountWorker(id) else if s.spawned >= s.limit then FullUnderLock(id) else Spawn(id);
    assert Serves(e) && Enabled(s, e);
  }

  /** A queued job is taken by an awake worker, or one is notified. */
  lemma QueuedMoves(limit: nat, s: Pool)
    requires Reaches(limit, s) && s.queue != []
    ensures CanServe(s)
  {
    hide Reaches;
    NoStrandedActor(limit, s);
    if w :| 0 <= w < |s.workers| && s.workers[w].Awake? {
      assert Enabled(s, Pop(w));
    } else {
      var w :| 0 <= w < |s.workers| && s.workers[w].Parked?;
      assert Enabled(s, Notify(w));
    }
  }

  lemma WorkerMoves(limit: nat, s: Pool, id: nat)
    requires Reaches(limit, s) && id in s.phases && In(s.phases[id], Occupied)
    ensures CanServe(s)
  {
    hide Reaches, Accounted, Exclusive, QueuePlaced, Draining, NoLostWake, Count;
    ReachesValid(limit, s);
    var w := s.phases[id].worker;
    assert Does(s, w, Busy(id));
    if s.phases[id].Running? {
      FinishEnabled(limit, s, w);
      assert Enabled(s, Finish(w));
    } else {
      assert Enabled(s, if s.phases[id].signal then Signal(w) else Release(w));
    }
  }

  lemma SomeHolder(s: Pool) returns (id: nat)
    requires Accounted(s) && s.permits == 0 && s.limit > 0
    ensures id in s.phases && In(s.phases[id], Holder)
  {
    assert All(s.phases, Holder) != {};
    id :| id in All(s.phases, Holder);
  }

  lemma HolderServed(limit: nat, s: Pool, id: nat)
    requires Reaches(limit, s) && id in s.phases && In(s.phases[id], Holder)
    ensures CanServe(s)
  {
    hide Reaches, Accounted, WorkersPlaced, Draining, NoLostWake, CanServe;
    ReachesValid(limit, s);
    if Opening(s.phases[id]) {
      OpenerMoves(s, id);
    } else if s.phases[id].Queued? {
      assert At(s, id, Queued) && id in s.queue;
      QueuedMoves(limit, s);
    } else {
      WorkerMoves(limit, s, id);
    }
  }

  /** No deadlock: while any open has neither finished, failed nor been abandoned, some step that
      serves an open is possible. */
  lemma NoDeadlock(limit: nat, s: Pool, id: nat)
    requires limit > 0 && Reaches(limit, s) && id in s.phases
    requires s.phases[id].Waiting? || In(s.phases[id], Holder)
    ensures CanServe(s)
  {
    hide Reaches, CanServe, Exclusive, Placed, Draining, NoLostWake;
    ReachesValid(limit, s);
    if In(s.phases[id], Holder) {
      HolderServed(limit, s, id);
    } else if s.permits == 0 {
      var holder := SomeHolder(s);
      HolderServed(limit, s, holder);
    } else {
      CanAcquire(s, id);
    }
  }

  lemma CanAcquire(s: Pool, id: nat)
    requires At(s, id, Waiting) && s.permits > 0
    ensures CanServe(s)
  {
    assert Serves(Acquire(id)) && Enabled(s, Acquire(id));
  }
}
