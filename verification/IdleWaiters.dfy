/** Tasks in `wait_for_idle`. When the pool falls idle one of them is woken, through a token
    that does not count: the promise that a task asleep over an idle pool is woken holds for
    runs in which tasks wait one at a time, and for no larger number. */
module IdleWaiters {
  import opened BlockingPool
  import opened Ordinals
  import opened Wrappers

  /** The tasks waiting just now. */
  ghost function Crowd(s: Pool): set<nat> {
    set who | who in s.waiters && !s.waiters[who].Absent?
  }

  /** At no moment do more than `n` tasks wait. */
  ghost predicate AtMost(states: seq<Pool>, n: nat) {
    forall k :: 0 <= k < |states| ==> |Crowd(states[k])| <= n
  }

  /** A task asleep while nothing is active is about to be woken: the token is there, or the
      worker that finished last has yet to leave it. */
  ghost predicate Told(s: Pool) {
    forall who :: Waits(s, who, Sleeping) && s.active == 0 ==> Enabled(s, Hear(who)) || exists w :: Enabled(s, Signal(w))
  }

  /** What the promise rests on. */
  ghost predicate Heard(s: Pool) {
    s.active == 0 && (exists who :: Waits(s, who, Sleeping)) ==> s.token || Count(s.phases, Signalling) > 0
  }

  lemma HeardTold(s: Pool)
    requires Valid(s) && Heard(s)
    ensures Told(s)
  {
    if s.active == 0 && !s.token && exists who :: Waits(s, who, Sleeping) {
      assert All(s.phases, Signalling) != {};
      var id :| id in All(s.phases, Signalling);
      var w := s.phases[id].worker;
      assert Does(s, w, Busy(id));
      assert Enabled(s, Signal(w));
    }
  }

  // ---------------------------------------------------------------- one task at a time

  lemma AloneInCrowd(s: Pool, i: nat, j: nat)
    requires |Crowd(s)| <= 1 && i in Crowd(s) && j in Crowd(s)
    ensures i == j
  {
    if i != j { SubsetSize({i, j}, Crowd(s)); }
  }

  /** A task falls asleep only by looking while something is active. */
  lemma SleepersShape(s: Pool, e: Step, who: nat)
    requires Enabled(s, e)
    ensures Waits(Effect(s, e), who, Sleeping) ==> Waits(s, who, Sleeping) || (e == Look(who) && s.active != 0)
    ensures e == Hear(who) ==> !Waits(Effect(s, e), who, Sleeping)
  {
    hide Target;
  }

  /** The active count falls only when a job finishes, and the token goes only to a task. */
  lemma IdleShape(s: Pool, e: Step)
    requires Enabled(s, e)
    ensures Effect(s, e).active == s.active + Ones(e.Activate?) - Ones(e.Finish?)
    ensures s.token && !e.Hear? ==> Effect(s, e).token
  {
    hide Target;
  }

  /** A step after which a task sleeps while nothing is active. */
  lemma WaiterShape(s: Pool, e: Step, who: nat)
    requires Enabled(s, e) && |Crowd(s)| <= 1 && Waits(Effect(s, e), who, Sleeping) && Effect(s, e).active == 0
    ensures Waits(s, who, Sleeping) && (Effect(s, e).token || !s.token)
    ensures s.active == 0 || (e.Finish? && s.active == 1)
  {
    if e.Hear? { assert e.who in Crowd(s); }
    hide Target, Effect, Enabled;
    SleepersShape(s, e, who);
    IdleShape(s, e);
    if e.Hear? { AloneInCrowd(s, who, e.who); }
  }

  lemma HeardKept(s: Pool, e: Step)
    requires Enabled(s, e) && Valid(s) && |Crowd(s)| <= 1 && Heard(s)
    ensures Heard(Apply(s, e))
  {
    hide Count;
    var t := Apply(s, e);
    if t.active == 0 && exists who :: Waits(t, who, Sleeping) {
      var who :| Waits(t, who, Sleeping);
      assert Waits(Effect(s, e), who, Sleeping);
      WaiterShape(s, e, who);
      if e.Pop? {
        PopTakesQueued(s, e);
      }
      Recount(s, e, Signalling);
      SignalShape(s, e);
      hide Valid, Target, Change;
    }
  }

  lemma {:induction false} AloneHeard(limit: nat, steps: seq<Step>, states: seq<Pool>, k: nat)
    requires Run(limit, steps, states) && AtMost(states, 1) && k < |states|
    ensures Heard(states[k])
  {
    hide Valid, Enabled, Apply, Heard;
    if k == 0 {
      StartHeard(limit);
    } else {
      AloneHeard(limit, steps, states, k - 1);
      RunKeeps(limit, steps, states, k - 1);
      assert states[k] == Apply(states[k - 1], steps[k - 1]);
      HeardKept(states[k - 1], steps[k - 1]);
    }
  }

  lemma StartHeard(limit: nat)
    ensures Heard(Start(limit))
  {
  }

  /** In a pool without room no task ever sleeps, for no open ever becomes active. */
  lemma {:induction false} NobodySleeps(steps: seq<Step>, states: seq<Pool>, k: nat, who: nat)
    requires Run(0, steps, states) && k < |states|
    ensures !Waits(states[k], who, Sleeping)
  {
    hide Valid, Count;
    if k > 0 {
      NobodySleeps(steps, states, k - 1, who);
      assert Reaches(0, states[k - 1]) by {
        assert Run(0, steps[..k - 1], states[..k]);
      }
      WithinLimit(0, states[k - 1]);
      assert states[k] == Apply(states[k - 1], steps[k - 1]);
      hide Run, Reaches;
      SleepShape(states[k - 1], steps[k - 1], who);
    }
  }

  lemma SleepShape(s: Pool, e: Step, who: nat)
    requires Enabled(s, e) && s.active == 0
    ensures Waits(Apply(s, e), who, Sleeping) ==> Waits(s, who, Sleeping)
  {
    hide Target, Effect;
    SleepersShape(s, e, who);
  }

  // ---------------------------------------------------------------- two tasks

  /** The run so far: its steps and states, ending in `s`, with at most two tasks waiting. */
  datatype Story = Story(steps: seq<Step>, states: seq<Pool>)

  ghost predicate Tells(story: Story, limit: nat, s: Pool) {
    Run(limit, story.steps, story.states) && AtMost(story.states, 2) && story.states[|story.steps|] == s
  }

  /** Continues a story by one step. */
  lemma Then(story: Story, limit: nat, s: Pool, e: Step, t: Pool) returns (longer: Story)
    requires Tells(story, limit, s) && Enabled(s, e) && t == Apply(s, e)
    requires forall who :: who in t.waiters ==> who < 2
    ensures Tells(longer, limit, t)
  {
    hide Enabled, Apply;
    longer := Story(story.steps + [e], story.states + [t]);
    var steps, states := longer.steps, longer.states;
    forall i | 0 <= i < |steps| ensures Enabled(states[i], steps[i]) && states[i + 1] == Apply(states[i], steps[i]) {
      assert i < |story.steps| ==> steps[i] == story.steps[i] && states[i] == story.states[i] && states[i + 1] == story.states[i + 1];
    }
    assert |Crowd(t)| <= 2 by {
      SubsetSize(Crowd(t), {0, 1});
    }
  }

  /** A pool with one job on its one worker and the given tasks waiting. */
  function Working(limit: nat, waiters: map<nat, Waiter>): Pool
    requires limit > 0
  {
    Pool(limit, limit - 1, 1, 1, None, map[0 := Running(0)], [], 1, [Busy(0)], false, waiters, false)
  }

  /** The same pool once the job has finished. */
  function Idle(limit: nat, waiters: map<nat, Waiter>, token: bool): Pool {
    Pool(limit, limit, 1, 0, None, map[0 := Finished], [], 1, [Awake], false, waiters, token)
  }

  lemma StoryStarts(limit: nat) returns (story: Story)
    ensures Tells(story, limit, Start(limit))
  {
    story := Story([], [Start(limit)]);
    assert Crowd(Start(limit)) == {};
  }

  /** A pool of any size whose first open is getting its worker. */
  function Growing(limit: nat, phase: Phase, lock: Option<nat>, workers: seq<Worker>): Pool
    requires limit > 0
  {
    Pool(limit, limit - 1, 0, 0, lock, map[0 := phase], [], 0, workers, false, map[], false)
  }

  lemma OpenAdmitted(limit: nat) returns (story: Story)
    requires limit > 0
    ensures Tells(story, limit, Growing(limit, Slow, None, []))
  {
    hide Run, Tells;
    story := StoryStarts(limit);
    var s1 := Start(limit).(phases := map[0 := BlockingPool.Waiting]);
    story := Then(story, limit, Start(limit), Arrive(0), s1);
    var s2 := Growing(limit, Permitted, None, []);
    story := Then(story, limit, s1, Acquire(0), s2);
    story := Then(story, limit, s2, SeeRoom(0), Growing(limit, Slow, None, []));
  }

  lemma WorkerStarts(limit: nat) returns (story: Story)
    requires limit > 0
    ensures Tells(story, limit, Growing(limit, Ensured, None, [Awake]).(spawned := 1))
  {
    hide Run, Tells;
    story := OpenAdmitted(limit);
    var s1 := Growing(limit, Locked, Some(0), []);
    story := Then(story, limit, Growing(limit, Slow, None, []), Lock(0), s1);
    var s2 := Growing(limit, Spawned, Some(0), [Awake]);
    story := Then(story, limit, s1, Spawn(0), s2);
    story := Then(story, limit, s2, CountWorker(0), Growing(limit, Ensured, None, [Awake]).(spawned := 1));
  }

  lemma JobRuns(limit: nat) returns (story: Story)
    requires limit > 0
    ensures Tells(story, limit, Working(limit, map[]))
  {
    hide Run, Tells;
    story := WorkerStarts(limit);
    var s0 := Growing(limit, Ensured, None, [Awake]).(spawned := 1);
    var s1 := s0.(active := 1, phases := map[0 := Activated]);
    story := Then(story, limit, s0, Activate(0), s1);
    var s2 := s1.(queue := [0], notifying := 1, phases := map[0 := Queued]);
    story := Then(story, limit, s1, Push(0), s2);
    story := Then(story, limit, s2, Pop(0), Working(limit, map[]));
  }

  lemma TasksSleep(limit: nat) returns (story: Story)
    requires limit > 0
    ensures Tells(story, limit, Working(limit, map[0 := Sleeping, 1 := Sleeping]))
  {
    hide Run, Tells;
    story := JobRuns(limit);
    var s1 := Working(limit, map[0 := Checking]);
    story := Then(story, limit, Working(limit, map[]), Ask(0), s1);
    var s2 := Working(limit, map[0 := Sleeping]);
    story := Then(story, limit, s1, Look(0), s2);
    var s3 := Working(limit, map[0 := Sleeping, 1 := Checking]);
    story := Then(story, limit, s2, Ask(1), s3);
    story := Then(story, limit, s3, Look(1), Working(limit, map[0 := Sleeping, 1 := Sleeping]));
  }

  lemma JobFinishes(limit: nat) returns (story: Story)
    requires limit > 0
    ensures Tells(story, limit, Idle(limit, map[0 := Sleeping, 1 := Sleeping], true))
  {
    hide Run, Tells;
    story := TasksSleep(limit);
    var s0 := Working(limit, map[0 := Sleeping, 1 := Sleeping]);
    var s1 := s0.(active := 0, phases := map[0 := Cleaned(0, true)]);
    story := Then(story, limit, s0, Finish(0), s1);
    var s2 := s1.(token := true, phases := map[0 := Cleaned(0, false)]);
    story := Then(story, limit, s1, Signal(0), s2);
    story := Then(story, limit, s2, Release(0), Idle(limit, map[0 := Sleeping, 1 := Sleeping], true));
  }

  /** With two tasks waiting, a pool of any size can strand one: a reachable state in which the
      pool is idle, one task is gone, and the other sleeps with neither token nor signal left. */
  lemma TwoWaitersStrand(limit: nat) returns (story: Story)
    requires limit > 0
    ensures Tells(story, limit, Idle(limit, map[0 := Absent, 1 := Sleeping], false))
    ensures !Told(Idle(limit, map[0 := Absent, 1 := Sleeping], false))
  {
    hide Run, Tells;
    story := JobFinishes(limit);
    var s1 := Idle(limit, map[0 := Checking, 1 := Sleeping], false);
    story := Then(story, limit, Idle(limit, map[0 := Sleeping, 1 := Sleeping], true), Hear(0), s1);
    var s2 := Idle(limit, map[0 := Absent, 1 := Sleeping], false);
    story := Then(story, limit, s1, Look(0), s2);
    assert Waits(s2, 1, Sleeping);
  }

  // ---------------------------------------------------------------- the exact condition

  /** Every task is woken in every run with at most `n` tasks waiting at once. */
  ghost predicate KeepsPromise(limit: nat, n: nat) {
    forall steps, states, k :: Run(limit, steps, states) && AtMost(states, n) && 0 <= k < |states| ==> Told(states[k])
  }

  /** The pool keeps its promise exactly when tasks wait one at a time, or it has no room at all. */
  lemma IdlePromiseExact(limit: nat, n: nat)
    ensures KeepsPromise(limit, n) <==> n <= 1 || limit == 0
  {
    if n <= 1 || limit == 0 {
      forall steps, states, k | Run(limit, steps, states) && AtMost(states, n) && 0 <= k < |states| ensures Told(states[k]) {
        OneAtATime(limit, steps, states, n, k);
      }
    } else {
      var story := TwoWaitersStrand(limit);
      assert AtMost(story.states, n);
      assert !Told(story.states[|story.steps|]);
    }
  }

  lemma OneAtATime(limit: nat, steps: seq<Step>, states: seq<Pool>, n: nat, k: nat)
    requires Run(limit, steps, states) && AtMost(states, n) && k < |states| && (n <= 1 || limit == 0)
    ensures Told(states[k])
  {
    hide Run, Valid, Heard;
    if limit == 0 {
      forall who | Waits(states[k], who, Sleeping) ensures false {
        NobodySleeps(steps, states, k, who);
      }
    } else {
      assert AtMost(states, 1);
      AloneHeard(limit, steps, states, k);
      RunKeeps(limit, steps, states, k);
      HeardTold(states[k]);
    }
  }
}
