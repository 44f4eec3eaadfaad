/**
 * Runners on top of the queue. An execution carries the job as it was when claimed and reports
 * once, under the name of its worker; its decision between retry and dead letter rests on the
 * attempt that its claim started, even when the same worker has claimed the job again since.
 */
module JobRunner {
  import opened GoValues
  import opened JobLifecycle
  import opened JobRepository
  import opened JobRuns

  /** The attempt that a worker's claim started. */
  datatype Execution = Execution(id: JobId, worker: Text, attempt: nat)

  /** The store, the executions that can still report, and all that claims have ever started. */
  datatype World = World(store: Store, inFlight: set<Execution>, started: set<Execution>)

  datatype Step =
    | Call(op: Op)
    | Succeed(execution: Execution, result: Text, now: int)
    | GiveUp(execution: Execution, error: Text, now: int, base: int64, cap: int64)
    | Abandon(execution: Execution, lease: int, now: int)

  /** Runner.fail: the outcome it reports for an execution of a job with the given budget. */
  function OutcomeFor(attempt: nat, maxAttempts: int, error: Text, now: int, base: int64, cap: int64): FailOutcome {
    if attempt >= maxAttempts then FailOutcome(Failed, 0, error)
    else FailOutcome(Queued, now + DelayFrom(base, Doublings(attempt), cap), error)
  }

  /** Reports come from executions; any worker may heartbeat, and anybody may enqueue, claim and cancel. */
  ghost predicate StepEnabled(w: World, step: Step) {
    match step
    case Call(op) => Enabled(w.store, op) && !op.CompleteOp? && !op.FailOp?
    case Succeed(e, _, _) => e in w.inFlight && e.id in w.store
    case GiveUp(e, _, _, _, _) => e in w.inFlight && e.id in w.store
    case Abandon(e, _, _) => e in w.inFlight && e.id in w.store
  }

  /** The repository call a step makes; an execution that ends without a report made a last heartbeat. */
  ghost function OpOf(w: World, step: Step): Op
    requires StepEnabled(w, step)
  {
    match step
    case Call(op) => op
    case Succeed(e, result, now) => CompleteOp(e.id, e.worker, result, now)
    case GiveUp(e, error, now, base, cap) =>
      FailOp(e.id, e.worker, OutcomeFor(e.attempt, w.store[e.id].maxAttempts, error, now, base, cap), now)
    case Abandon(e, lease, now) => HeartbeatOp(e.id, e.worker, lease, now)
  }

  ghost function Started(w: World, op: Op): set<Execution> {
    if op.ClaimOp? then set id | id in op.picks && id in w.store :: Execution(id, op.worker, w.store[id].attempts + 1)
    else {}
  }

  ghost function Next(w: World, step: Step): World
    requires StepEnabled(w, step)
  {
    var op := OpOf(w, step);
    World(Apply(w.store, op),
          if step.Call? then w.inFlight + Started(w, op) else w.inFlight - {step.execution},
          w.started + Started(w, op))
  }

  ghost predicate ValidSteps(w: World, steps: seq<Step>)
    decreases |steps|
  {
    steps == [] || (StepEnabled(w, steps[0]) && ValidSteps(Next(w, steps[0]), steps[1..]))
  }

  ghost function After(w: World, steps: seq<Step>): World
    requires ValidSteps(w, steps)
    decreases |steps|
  {
    if steps == [] then w else After(Next(w, steps[0]), steps[1..])
  }

  ghost function OpsOf(w: World, steps: seq<Step>): seq<Op>
    requires ValidSteps(w, steps)
    decreases |steps|
  {
    if steps == [] then [] else [OpOf(w, steps[0])] + OpsOf(Next(w, steps[0]), steps[1..])
  }

  /** Runners only make runs of the repository, so all that holds of those holds of them. */
  lemma {:induction false} RunnersMakeRuns(w: World, steps: seq<Step>)
    requires ValidSteps(w, steps)
    ensures ValidRun(w.store, OpsOf(w, steps)) && Run(w.store, OpsOf(w, steps)) == After(w, steps).store
    decreases |steps|
  {
    if steps != [] {
      RunnersMakeRuns(Next(w, steps[0]), steps[1..]);
      assert OpsOf(w, steps)[1..] == OpsOf(Next(w, steps[0]), steps[1..]);
    }
  }

  // ----- what every reachable world satisfies

  /** Executions are numbered by attempts that have begun. */
  ghost predicate Numbered(w: World) {
    forall e :: e in w.started ==> e.id in w.store && 1 <= e.attempt <= w.store[e.id].attempts
  }

  /** No attempt of a job was started twice. */
  ghost predicate StartedOnce(w: World) {
    forall e, f :: e in w.started && f in w.started && e.id == f.id && e.attempt == f.attempt ==> e == f
  }

  /** A lease belongs to the execution of the stored attempt. */
  ghost predicate LeasesStarted(w: World) {
    forall id :: id in w.store && w.store[id].leaseOwner.Some? ==>
      Execution(id, w.store[id].leaseOwner.value, w.store[id].attempts) in w.started
  }

  ghost predicate WorldOk(w: World) {
    w.inFlight <= w.started && Numbered(w) && StartedOnce(w) && LeasesStarted(w)
  }

  lemma NextKeepsNumbered(w: World, step: Step)
    requires Numbered(w) && StepEnabled(w, step)
    ensures Numbered(Next(w, step))
  {
    var after := Next(w, step);
    forall e | e in after.started ensures e.id in after.store && 1 <= e.attempt <= after.store[e.id].attempts {
      ApplyKeepsJob(w.store, OpOf(w, step), e.id);
    }
  }

  lemma NextKeepsLeases(w: World, step: Step)
    requires LeasesStarted(w) && StepEnabled(w, step)
    ensures LeasesStarted(Next(w, step))
  {
    var after := Next(w, step);
    forall id | id in after.store && after.store[id].leaseOwner.Some?
      ensures Execution(id, after.store[id].leaseOwner.value, after.store[id].attempts) in after.started
    {
      LeaseAfter(w, step, id);
    }
  }

  lemma LeaseAfter(w: World, step: Step, id: JobId)
    requires LeasesStarted(w) && StepEnabled(w, step)
    requires id in Next(w, step).store && Next(w, step).store[id].leaseOwner.Some?
    ensures var j := Next(w, step).store[id]; Execution(id, j.leaseOwner.value, j.attempts) in Next(w, step).started
  {
    var op := OpOf(w, step);
    if op.ClaimOp? && id in op.picks {
      assert Execution(id, op.worker, w.store[id].attempts + 1) in Started(w, op);
    }
  }

  lemma NextKeepsWorldOk(w: World, step: Step)
    requires WorldOk(w) && StepEnabled(w, step)
    ensures WorldOk(Next(w, step))
  {
    NextKeepsNumbered(w, step);
    NextKeepsLeases(w, step);
  }

  /** A queue that nobody has used yet. */
  const Unused := World(map[], {}, {})

  /** So every world that runners reach from an unused queue is as described. */
  lemma {:induction false} RunKeepsWorldOk(w: World, steps: seq<Step>)
    requires ValidSteps(w, steps)
    requires WorldOk(w)
    ensures WorldOk(Unused) && WorldOk(After(w, steps))
    decreases |steps|
  {
    if steps != [] {
      NextKeepsWorldOk(w, steps[0]);
      RunKeepsWorldOk(Next(w, steps[0]), steps[1..]);
    }
  }

  // ----- claims from the queue

  /** How often a run of runners claims the job from the queue. */
  ghost function ClaimsFromQueue(w: World, steps: seq<Step>, id: JobId): nat
    requires ValidSteps(w, steps)
    decreases |steps|
  {
    if steps == [] then 0
    else
      var op := OpOf(w, steps[0]);
      (if op.ClaimOp? && id in op.picks && id in w.store && w.store[id].status == Queued then 1 else 0)
      + ClaimsFromQueue(Next(w, steps[0]), steps[1..], id)
  }

  ghost predicate StillRuns(w: World, id: JobId, attempt: int) {
    exists e :: e in w.inFlight && e.id == id && e.attempt == attempt
  }

  /** Attempts below the budget that are running or still to come: each can requeue the job once. */
  ghost function RetriesLeft(w: World, id: JobId): set<int>
    requires id in w.store
  {
    set n: int | 1 <= n < w.store[id].maxAttempts && (n > w.store[id].attempts || StillRuns(w, id, n))
  }

  function IsQueued(j: Job): nat {
    if j.status == Queued then 1 else 0
  }

  lemma RetriesLeftShrink(w: World, step: Step, id: JobId)
    requires StepEnabled(w, step) && id in w.store
    ensures id in Next(w, step).store
    ensures RetriesLeft(Next(w, step), id) <= RetriesLeft(w, id)
  {
    ApplyKeepsJob(w.store, OpOf(w, step), id);
    forall n | n in RetriesLeft(Next(w, step), id) ensures n in RetriesLeft(w, id) {
      if n <= w.store[id].attempts {
        var e :| e in Next(w, step).inFlight && e.id == id && e.attempt == n;
        assert e in w.inFlight;
      }
    }
  }

  /** Only a report that spends a running attempt below the budget puts a job back on the queue. */
  lemma RequeueSpendsAttempt(w: World, step: Step, id: JobId)
    requires WorldOk(w) && StepEnabled(w, step) && id in w.store && id in Next(w, step).store
    requires w.store[id].status != Queued && Next(w, step).store[id].status == Queued
    ensures step.GiveUp? && step.execution.attempt in RetriesLeft(w, id)
    ensures step.execution.attempt !in RetriesLeft(Next(w, step), id)
  {
    assert step.GiveUp? && step.execution.id == id;
    assert StillRuns(w, id, step.execution.attempt);
  }

  lemma ClaimTakesOffQueue(w: World, step: Step, id: JobId)
    requires StepEnabled(w, step) && id in w.store && id in Next(w, step).store
    requires OpOf(w, step).ClaimOp? && id in OpOf(w, step).picks
    ensures Next(w, step).store[id].status == Running
  {
  }

  /** One step uses up a claim from the queue for every time it takes the job off the queue. */
  lemma StepUsesBudget(w: World, step: Step, id: JobId)
    requires WorldOk(w) && StepEnabled(w, step) && id in w.store
    ensures id in Next(w, step).store
    ensures var op := OpOf(w, step);
            (if op.ClaimOp? && id in op.picks && w.store[id].status == Queued then 1 else 0)
            + IsQueued(Next(w, step).store[id]) + |RetriesLeft(Next(w, step), id)|
            <= IsQueued(w.store[id]) + |RetriesLeft(w, id)|
  {
    RetriesLeftShrink(w, step, id);
    var before, after := RetriesLeft(w, id), RetriesLeft(Next(w, step), id);
    SubsetSize(after, before);
    if w.store[id].status != Queued && Next(w, step).store[id].status == Queued {
      RequeueSpendsAttempt(w, step, id);
      SubsetSize(after, before - {step.execution.attempt as int});
    } else if OpOf(w, step).ClaimOp? && id in OpOf(w, step).picks {
      ClaimTakesOffQueue(w, step, id);
    }
  }

  lemma SubsetSize(a: set<int>, b: set<int>)
    requires a <= b
    ensures |a| <= |b|
  {
    assert b == a + (b - a);
  }

  lemma {:induction false} ClaimsWithinBudget(w: World, steps: seq<Step>, id: JobId)
    requires WorldOk(w) && ValidSteps(w, steps) && id in w.store
    ensures ClaimsFromQueue(w, steps, id) <= IsQueued(w.store[id]) + |RetriesLeft(w, id)|
    decreases |steps|
  {
    if steps != [] {
      NextKeepsWorldOk(w, steps[0]);
      StepUsesBudget(w, steps[0], id);
      ClaimsWithinBudget(Next(w, steps[0]), steps[1..], id);
    }
  }

  ghost function Below(max: int): (r: set<int>)
    ensures forall n :: n in r <==> 1 <= n < max
    ensures max >= 1 ==> |r| == max - 1
  {
    if max <= 1 then {} else Below(max - 1) + {max - 1}
  }

  /**
   * A new job is claimed from the queue at most maxAttempts times in any run of any runners,
   * although stale executions decide on outdated attempts and lost leases add attempts.
   */
  lemma RunnersClaimWithinBudget(w: World, input: EnqueueInput, id: JobId, steps: seq<Step>)
    requires WorldOk(w) && id !in w.store && !HasDuplicate(w.store, input) && input.maxAttempts > 0
    requires ValidSteps(Next(w, Call(EnqueueOp(input, id))), steps)
    ensures ClaimsFromQueue(Next(w, Call(EnqueueOp(input, id))), steps, id) <= input.maxAttempts
  {
    var start := Next(w, Call(EnqueueOp(input, id)));
    NextKeepsWorldOk(w, Call(EnqueueOp(input, id)));
    ClaimsWithinBudget(start, steps, id);
    assert RetriesLeft(start, id) == Below(input.maxAttempts);
  }

  // ----- the documented guard: retry exactly while the job's attempts are below the budget

  /** The same worker has claimed the job again since. */
  ghost predicate ClaimedAgain(w: World, e: Execution) {
    exists f :: f in w.started && f.id == e.id && f.worker == e.worker && f.attempt > e.attempt
  }

  /** The worker has since begun an attempt that uses up a budget which the execution's own attempt does not. */
  ghost predicate SpentSince(w: World, e: Execution, maxAttempts: int) {
    exists f :: f in w.started && f.id == e.id && f.worker == e.worker && e.attempt < maxAttempts <= f.attempt
  }

  /**
   * A report that takes effect carries the stored attempt exactly when its worker has not claimed
   * the job again: a re-claim by another worker takes the lease away instead.
   */
  lemma EffectiveReportIsCurrentExactly(w: World, e: Execution, now: int)
    requires WorldOk(w) && e in w.started && Holds(w.store, e.id, e.worker, now)
    ensures e.attempt == w.store[e.id].attempts <==> !ClaimedAgain(w, e)
  {
    var current := Execution(e.id, e.worker, w.store[e.id].attempts);
    assert current in w.started;
    assert e.attempt <= current.attempt;
  }

  /** The step is no failure report, takes no effect, or does as documented. */
  ghost predicate FollowsGuard(w: World, step: Step)
    requires StepEnabled(w, step)
  {
    step.GiveUp? && Holds(w.store, step.execution.id, step.execution.worker, step.now) ==>
      var id := step.execution.id;
      id in Next(w, step).store
      && Next(w, step).store[id].status == if w.store[id].attempts < w.store[id].maxAttempts then Queued else Failed
  }

  /** The report takes effect although its worker has begun an attempt since that uses up the budget. */
  ghost predicate ReportsSpent(w: World, step: Step)
    requires StepEnabled(w, step)
  {
    && step.GiveUp? && Holds(w.store, step.execution.id, step.execution.worker, step.now)
    && SpentSince(w, step.execution, w.store[step.execution.id].maxAttempts)
  }

  /** A runner can tell from its own claims whether a failure report follows the documented guard. */
  lemma ReportFollowsGuardExactly(w: World, step: Step)
    requires WorldOk(w) && StepEnabled(w, step)
    ensures FollowsGuard(w, step) <==> !ReportsSpent(w, step)
  {
    if step.GiveUp? && Holds(w.store, step.execution.id, step.execution.worker, step.now) {
      var e := step.execution;
      var current := Execution(e.id, e.worker, w.store[e.id].attempts);
      assert current in w.started && e.attempt <= current.attempt;
      GiveUpDecides(w, step);
    }
  }

  lemma GiveUpDecides(w: World, step: Step)
    requires StepEnabled(w, step) && step.GiveUp?
    requires Holds(w.store, step.execution.id, step.execution.worker, step.now)
    ensures var e := step.execution;
            e.id in Next(w, step).store
            && Next(w, step).store[e.id].status == if e.attempt < w.store[e.id].maxAttempts then Queued else Failed
  {
  }

  ghost predicate RunFollowsGuard(w: World, steps: seq<Step>)
    requires ValidSteps(w, steps)
    decreases |steps|
  {
    steps == [] || (FollowsGuard(w, steps[0]) && RunFollowsGuard(Next(w, steps[0]), steps[1..]))
  }

  ghost predicate NeverReportsSpent(w: World, steps: seq<Step>)
    requires ValidSteps(w, steps)
    decreases |steps|
  {
    steps == [] || (!ReportsSpent(w, steps[0]) && NeverReportsSpent(Next(w, steps[0]), steps[1..]))
  }

  /** So a whole run follows the guard exactly when no execution reports past such an attempt. */
  lemma {:induction false} RunFollowsGuardExactly(w: World, steps: seq<Step>)
    requires WorldOk(w) && ValidSteps(w, steps)
    ensures RunFollowsGuard(w, steps) <==> NeverReportsSpent(w, steps)
    decreases |steps|
  {
    if steps != [] {
      ReportFollowsGuardExactly(w, steps[0]);
      NextKeepsWorldOk(w, steps[0]);
      RunFollowsGuardExactly(Next(w, steps[0]), steps[1..]);
    }
  }

  /** No worker claims a job that it still executes. */
  ghost predicate ClaimsApart(w: World, step: Step) {
    step.Call? && step.op.ClaimOp? ==>
      forall e :: e in w.inFlight && e.worker == step.op.worker ==> e.id !in step.op.picks
  }

  ghost predicate RunClaimsApart(w: World, steps: seq<Step>)
    requires ValidSteps(w, steps)
    decreases |steps|
  {
    steps == [] || (ClaimsApart(w, steps[0]) && RunClaimsApart(Next(w, steps[0]), steps[1..]))
  }

  /** Where a worker holds the lease, what it still executes is the stored attempt. */
  ghost predicate NoneStale(w: World) {
    forall e :: e in w.inFlight && e.id in w.store && w.store[e.id].leaseOwner == Some(e.worker) ==>
      e.attempt == w.store[e.id].attempts
  }

  lemma NextKeepsNoneStale(w: World, step: Step)
    requires WorldOk(w) && NoneStale(w) && StepEnabled(w, step) && ClaimsApart(w, step)
    ensures NoneStale(Next(w, step))
  {
    var after := Next(w, step);
    forall e | e in after.inFlight && e.id in after.store && after.store[e.id].leaseOwner == Some(e.worker)
      ensures e.attempt == after.store[e.id].attempts
    {
      if e in w.inFlight {
        assert e in w.started;
      }
    }
  }

  /** Runs in which no worker claims a job that it still executes follow the documented guard. */
  lemma {:induction false} ClaimsApartFollowGuard(w: World, steps: seq<Step>)
    requires WorldOk(w) && NoneStale(w) && ValidSteps(w, steps) && RunClaimsApart(w, steps)
    ensures RunFollowsGuard(w, steps)
    decreases |steps|
  {
    if steps != [] {
      NextKeepsWorldOk(w, steps[0]);
      NextKeepsNoneStale(w, steps[0]);
      CurrentReportFollowsGuard(w, steps[0]);
      ClaimsApartFollowGuard(Next(w, steps[0]), steps[1..]);
    }
  }

  lemma CurrentReportFollowsGuard(w: World, step: Step)
    requires WorldOk(w) && NoneStale(w) && StepEnabled(w, step)
    ensures FollowsGuard(w, step)
  {
    if step.GiveUp? && Holds(w.store, step.execution.id, step.execution.worker, step.now) {
      GiveUpDecides(w, step);
    }
  }

  // ----- the backoff reaches the job

  lemma OutcomeIsBackoff(attempt: nat, maxAttempts: int, error: Text, now: int, base: int64, cap: int64)
    requires base >= 0 && 0 <= cap <= TWO_62
    ensures var outcome := OutcomeFor(attempt, maxAttempts, error, now, base, cap);
            && outcome.error == error
            && (outcome.nextStatus == Queued <==> attempt < maxAttempts)
            && (attempt < maxAttempts ==> outcome.runAt == now + CappedDelay(attempt, base, cap))
  {
    DelayIsCapped(base, Doublings(attempt), cap);
    DoubledIsPower(base, Doublings(attempt));
  }

  /**
   * A job that a failure report puts back on the queue waits out the documented delay: as long as it
   * stays queued, in any run of any calls, no claim with an earlier clock picks it.
   */
  lemma RequeuedWaitsOutBackoff(w: World, step: Step, ops: seq<Op>, i: nat)
    requires StepEnabled(w, step) && step.GiveUp? && step.base >= 0 && 0 <= step.cap <= TWO_62
    requires var e := step.execution;
             HasLiveLease(w.store, e.id, e.worker, step.now) && e.attempt < w.store[e.id].maxAttempts
    requires ValidRun(Next(w, step).store, ops) && i < |ops| && ops[i].ClaimOp? && step.execution.id in ops[i].picks
    requires forall k :: 0 <= k <= i ==>
               var s := Run(Next(w, step).store, ops[..k]);
               step.execution.id in s && s[step.execution.id].status == Queued
    ensures ops[i].now >= step.now + CappedDelay(step.execution.attempt, step.base, step.cap)
  {
    var e := step.execution;
    var outcome := OutcomeFor(e.attempt, w.store[e.id].maxAttempts, step.error, step.now, step.base, step.cap);
    OutcomeIsBackoff(e.attempt, w.store[e.id].maxAttempts, step.error, step.now, step.base, step.cap);
    FailureIsStored(w.store, e.id, e.worker, outcome, step.now);
    RunOfOne(w.store, FailOp(e.id, e.worker, outcome, step.now));
    QueuedWaits(Next(w, step).store, ops, e.id, i);
  }

  // ----- a run that breaks the guard

  /** A claim of one job, leased for one unit of time. */
  ghost function ClaimOf(id: JobId, worker: Text, lane: Text, now: int): Step {
    Call(ClaimOp(worker, lane, 1, 1, now, {id}))
  }

  lemma ClaimOnly(w: World, id: JobId, worker: Text, lane: Text, now: int) returns (w': World)
    requires w.store.Keys == {id} && Claimable(w.store[id], lane, now)
    ensures StepEnabled(w, ClaimOf(id, worker, lane, now)) && w' == Next(w, ClaimOf(id, worker, lane, now))
    ensures w'.store.Keys == {id} && w'.store[id].lane == w.store[id].lane
    ensures LeaseHeld(w'.store[id], worker, now) && w'.store[id].leaseExpiresAt == Some(now + 1)
    ensures w'.store[id].attempts == w.store[id].attempts + 1 && w'.store[id].maxAttempts == w.store[id].maxAttempts
    ensures w.inFlight <= w'.inFlight && Execution(id, worker, w.store[id].attempts + 1) in w'.inFlight
  {
    assert ClaimableIds(w.store, lane, now) == {id};
    w' := Next(w, ClaimOf(id, worker, lane, now));
    assert w'.store == ClaimAll(w.store, {id}, worker, 1, now);
  }

  /** A store with one job, due and not yet attempted, with a budget of two. */
  ghost predicate OneDueJob(w: World, id: JobId, lane: Text) {
    && w.store.Keys == {id} && w.store[id].lane == lane && w.store[id].status == Queued && w.store[id].runAt <= 0
    && w.store[id].attempts == 0 && w.store[id].maxAttempts == 2
  }

  /** The worker claims the job, loses the lease, and claims it again. */
  lemma ClaimedTwice(w: World, id: JobId, worker: Text, lane: Text) returns (w1: World, w2: World)
    requires OneDueJob(w, id, lane)
    ensures StepEnabled(w, ClaimOf(id, worker, lane, 0)) && w1 == Next(w, ClaimOf(id, worker, lane, 0))
    ensures StepEnabled(w1, ClaimOf(id, worker, lane, 2)) && w2 == Next(w1, ClaimOf(id, worker, lane, 2))
    ensures Holds(w2.store, id, worker, 2) && Execution(id, worker, 1) in w2.inFlight
    ensures w2.store[id].attempts == w2.store[id].maxAttempts == 2
  {
    w1 := ClaimOnly(w, id, worker, lane, 0);
    w2 := ClaimOnly(w1, id, worker, lane, 2);
  }

  lemma StaleReport(w: World, id: JobId, worker: Text, error: Text) returns (w': World)
    requires Holds(w.store, id, worker, 2) && Execution(id, worker, 1) in w.inFlight
    requires w.store[id].attempts == w.store[id].maxAttempts == 2
    ensures var report := GiveUp(Execution(id, worker, 1), error, 2, 30, 1800);
            StepEnabled(w, report) && w' == Next(w, report)
    ensures id in w'.store && w'.store[id].status == Queued && w'.store[id].attempts == w'.store[id].maxAttempts
  {
    w' := Next(w, GiveUp(Execution(id, worker, 1), error, 2, 30, 1800));
  }

  lemma FirstStep(w: World, first: Step, rest: seq<Step>)
    requires StepEnabled(w, first) && ValidSteps(Next(w, first), rest)
    ensures ValidSteps(w, [first] + rest) && After(w, [first] + rest) == After(Next(w, first), rest)
  {
    assert ([first] + rest)[1..] == rest;
  }

  /**
   * A stale report breaks the guard. From a store that holds one due job with a budget of two, a
   * worker claims it, loses the lease, claims it again, and then its first execution fails: the
   * job is back on the queue although both attempts are used up.
   */
  lemma StaleReportRequeuesSpentJob(w: World, id: JobId, worker: Text, error: Text) returns (steps: seq<Step>)
    requires id in w.store && OneDueJob(w, id, w.store[id].lane)
    ensures ValidSteps(w, steps)
    ensures id in After(w, steps).store
    ensures var j := After(w, steps).store[id]; j.status == Queued && j.attempts == j.maxAttempts
  {
    var lane := w.store[id].lane;
    var claim, reclaim := ClaimOf(id, worker, lane, 0), ClaimOf(id, worker, lane, 2);
    var report := GiveUp(Execution(id, worker, 1), error, 2, 30, 1800);
    var w1, w2 := ClaimedTwice(w, id, worker, lane);
    var w3 := StaleReport(w2, id, worker, error);
    FirstStep(w2, report, []);
    FirstStep(w1, reclaim, [report] + []);
    FirstStep(w, claim, [reclaim] + ([report] + []));
    steps := [claim] + ([reclaim] + ([report] + []));
  }
}
