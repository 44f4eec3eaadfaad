/** Whole runs of the queue: any interleaving of any workers' calls, with whatever clocks they have. */
module JobRuns {
  import opened GoValues
  import opened JobLifecycle
  import opened JobRepository

  ghost predicate ValidRun(s: Store, ops: seq<Op>)
    decreases |ops|
  {
    ops == [] || (Enabled(s, ops[0]) && ValidRun(Apply(s, ops[0]), ops[1..]))
  }

  ghost function Run(s: Store, ops: seq<Op>): Store
    decreases |ops|
  {
    if ops == [] then s else Run(Apply(s, ops[0]), ops[1..])
  }

  // ----- the invariant

  lemma ApplyKeepsInv(s: Store, op: Op)
    requires Inv(s) && Enabled(s, op)
    ensures Inv(Apply(s, op))
  {
    match op
    case ClaimOp(worker, lane, _, lease, now, picks) =>
      ClaimKeepsInv(s, picks, worker, lane, lease, now);
    case _ =>
      var after := Apply(s, op);
      forall a, b | a in after && b in after && a != b && Duplicates(after[a], after[a].tenantId, after[a].dedupKey)
        ensures !Duplicates(after[b], after[a].tenantId, after[a].dedupKey)
      {
        if a in s && b in s {
          assert Duplicates(s[a], s[a].tenantId, s[a].dedupKey);
          assert !Duplicates(s[b], s[a].tenantId, s[a].dedupKey);
        }
      }
  }

  /** In every reachable store a tenant's dedup key names at most one unfinished job. */
  lemma {:induction false} RunKeepsInv(s: Store, ops: seq<Op>)
    requires Inv(s) && ValidRun(s, ops)
    ensures Inv(Run(s, ops))
    decreases |ops|
  {
    if ops != [] {
      ApplyKeepsInv(s, ops[0]);
      RunKeepsInv(Apply(s, ops[0]), ops[1..]);
    }
  }

  // ----- what never changes

  /** Tenant, kind, lane, budget and key of a job. */
  predicate SameIdentity(a: Job, b: Job) {
    a.tenantId == b.tenantId && a.kind == b.kind && a.lane == b.lane && a.params == b.params &&
    a.maxAttempts == b.maxAttempts && a.dedupKey == b.dedupKey && a.createdAt == b.createdAt
  }

  lemma ApplyKeepsJob(s: Store, op: Op, id: JobId)
    requires Enabled(s, op) && id in s
    ensures id in Apply(s, op) && SameIdentity(s[id], Apply(s, op)[id])
    ensures s[id].attempts <= Apply(s, op)[id].attempts
    ensures s[id].status.IsTerminal() ==> Apply(s, op)[id] == s[id]
  {
  }

  /** Jobs never vanish or change identity, and a terminal job never changes at all. */
  lemma {:induction false} RunKeepsJob(s: Store, ops: seq<Op>, id: JobId)
    requires ValidRun(s, ops) && id in s
    ensures id in Run(s, ops) && SameIdentity(s[id], Run(s, ops)[id])
    ensures s[id].attempts <= Run(s, ops)[id].attempts
    ensures s[id].status.IsTerminal() ==> Run(s, ops)[id] == s[id]
    decreases |ops|
  {
    if ops != [] {
      ApplyKeepsJob(s, ops[0], id);
      RunKeepsJob(Apply(s, ops[0]), ops[1..], id);
    }
  }

  // ----- exclusivity of leases

  /** The time an operation carries. */
  function At(op: Op): int {
    match op
    case EnqueueOp(input, _) => input.now
    case ClaimOp(_, _, _, _, now, _) => now
    case HeartbeatOp(_, _, _, now) => now
    case CompleteOp(_, _, _, now) => now
    case FailOp(_, _, _, now) => now
    case CancelOp(_, now) => now
  }

  /** The operation is the lease holder's own heartbeat for the job. */
  predicate IsRenewal(op: Op, id: JobId, worker: Text) {
    op.HeartbeatOp? && op.id == id && op.worker == worker
  }

  /** The operation is the lease holder's own report for the job, or cancels it. */
  predicate EndsLease(op: Op, id: JobId, worker: Text) {
    match op
    case CompleteOp(i, w, _, _) => i == id && w == worker
    case FailOp(i, w, _, _) => i == id && w == worker
    case CancelOp(i, _) => i == id
    case _ => false
  }

  ghost predicate Leased(s: Store, id: JobId, worker: Text, expiry: int) {
    id in s && s[id].status == Running && s[id].leaseOwner == Some(worker) && s[id].leaseExpiresAt == Some(expiry)
  }

  /** The expiry after an operation: a heartbeat of the holder sets it anew. */
  function ExpiryAfter(op: Op, id: JobId, worker: Text, expiry: int): int {
    if IsRenewal(op, id, worker) then op.now + op.lease else expiry
  }

  /** Every operation, heartbeats of the holder included, comes by the expiry that is current then. */
  predicate KeptAlive(ops: seq<Op>, id: JobId, worker: Text, expiry: int)
    decreases |ops|
  {
    ops == [] ||
    (&& At(ops[0]) <= expiry && !EndsLease(ops[0], id, worker)
     && KeptAlive(ops[1..], id, worker, ExpiryAfter(ops[0], id, worker, expiry)))
  }

  /** A job that only heartbeats of the holder have touched. */
  function Renewed(j: Job, ops: seq<Op>, id: JobId, worker: Text): Job
    decreases |ops|
  {
    if ops == [] then j
    else
      var next := if IsRenewal(ops[0], id, worker) then Extended(j, ops[0].lease, ops[0].now) else j;
      Renewed(next, ops[1..], id, worker)
  }

  lemma LeaseExcludesOther(s: Store, op: Op, id: JobId, worker: Text, expiry: int)
    requires Enabled(s, op) && Leased(s, id, worker, expiry)
    requires At(op) <= expiry && !EndsLease(op, id, worker)
    ensures Leased(Apply(s, op), id, worker, ExpiryAfter(op, id, worker, expiry))
    ensures Apply(s, op)[id] == if IsRenewal(op, id, worker) then Extended(s[id], op.lease, op.now) else s[id]
    ensures op.ClaimOp? ==> id !in op.picks
  {
    assert op.ClaimOp? ==> id !in ClaimableIds(s, op.lane, op.now);
  }

  /**
   * While a lease lives, be it renewed any number of times, nothing that anybody else does touches
   * the job: no claim picks it, no report or heartbeat of another worker takes effect, and every
   * heartbeat of the holder does.
   */
  lemma {:induction false} LeaseExcludesOthers(s: Store, ops: seq<Op>, id: JobId, worker: Text, expiry: int)
    requires ValidRun(s, ops) && Leased(s, id, worker, expiry) && KeptAlive(ops, id, worker, expiry)
    ensures id in Run(s, ops) && Run(s, ops)[id] == Renewed(s[id], ops, id, worker)
    ensures forall op :: op in ops && op.ClaimOp? ==> id !in op.picks
    decreases |ops|
  {
    if ops != [] {
      LeaseExcludesOther(s, ops[0], id, worker, expiry);
      LeaseExcludesOthers(Apply(s, ops[0]), ops[1..], id, worker, ExpiryAfter(ops[0], id, worker, expiry));
    }
  }

  /** Without a renewal the job stays exactly as it is. */
  lemma {:induction false} NotRenewedIsUntouched(j: Job, ops: seq<Op>, id: JobId, worker: Text)
    requires forall op :: op in ops ==> !IsRenewal(op, id, worker)
    ensures Renewed(j, ops, id, worker) == j
    decreases |ops|
  {
    if ops != [] {
      assert ops[0] in ops;
      NotRenewedIsUntouched(j, ops[1..], id, worker);
    }
  }

  /** A claim takes only jobs of its lane that are due or whose lease has run out by its clock. */
  lemma ClaimTakesOnlyFreeJobsOfItsLane(s: Store, op: Op, id: JobId)
    requires Inv(s) && op.ClaimOp? && Enabled(s, op) && id in op.picks
    ensures id in s && s[id].lane == op.lane
    ensures (s[id].status == Queued && s[id].runAt <= op.now)
            || (exists w, e :: Leased(s, id, w, e) && e < op.now)
  {
    assert id in ClaimableIds(s, op.lane, op.now);
    if s[id].status != Queued {
      assert Leased(s, id, s[id].leaseOwner.value, s[id].leaseExpiresAt.value);
    }
  }

  // ----- reports and the time of a retry

  lemma RunOfOne(s: Store, op: Op)
    ensures Run(s, [op]) == Apply(s, op)
  {
    assert [op][1..] == [];
  }

  /** A report or heartbeat without a live lease, be it too late or another worker's, changes nothing. */
  lemma NoLeaseNoEffect(s: Store, op: Op)
    requires op.HeartbeatOp? || op.CompleteOp? || op.FailOp?
    requires !HasLiveLease(s, op.id, op.worker, op.now)
    ensures Run(s, [op]) == s
  {
    RunOfOne(s, op);
  }

  /** A failure report that takes effect stores its error, and its run time exactly when it asks for a retry. */
  lemma FailureIsStored(s: Store, id: JobId, worker: Text, outcome: FailOutcome, now: int)
    requires HasLiveLease(s, id, worker, now)
    ensures var after := Run(s, [FailOp(id, worker, outcome, now)]);
            && id in after && after[id].error == Some(outcome.error)
            && after[id].leaseOwner == None && after[id].leaseExpiresAt == None
            && after[id].attempts == s[id].attempts
            && if outcome.nextStatus == Queued then after[id].status == Queued && after[id].runAt == outcome.runAt
               else after[id].status == Failed && after[id].runAt == s[id].runAt
  {
    RunOfOne(s, FailOp(id, worker, outcome, now));
  }

  lemma QueuedStays(s: Store, op: Op, id: JobId)
    requires Enabled(s, op) && id in s && s[id].status == Queued
    ensures id in Apply(s, op)
    ensures Apply(s, op)[id].status == Queued ==> Apply(s, op)[id].runAt == s[id].runAt
    ensures op.ClaimOp? && id in op.picks ==> s[id].runAt <= op.now && Apply(s, op)[id].status == Running
  {
    assert op.ClaimOp? && id in op.picks ==> id in ClaimableIds(s, op.lane, op.now);
  }

  /** A queued job waits: as long as it stays queued no claim with an earlier clock picks it. */
  lemma {:induction false} QueuedWaits(s: Store, ops: seq<Op>, id: JobId, i: nat)
    requires ValidRun(s, ops) && i < |ops| && ops[i].ClaimOp? && id in ops[i].picks
    requires forall k :: 0 <= k <= i ==> id in Run(s, ops[..k]) && Run(s, ops[..k])[id].status == Queued
    ensures id in s && ops[i].now >= s[id].runAt
    decreases |ops|
  {
    assert ops[..0] == [] && Run(s, ops[..0]) == s;
    QueuedStays(s, ops[0], id);
    if i > 0 {
      var rest := ops[1..];
      assert rest[i - 1] == ops[i];
      forall k | 0 <= k <= i - 1
        ensures id in Run(Apply(s, ops[0]), rest[..k]) && Run(Apply(s, ops[0]), rest[..k])[id].status == Queued
      {
        RunOfPrefix(s, ops, k);
      }
      RunOfPrefix(s, ops, 0);
      assert rest[..0] == [];
      QueuedWaits(Apply(s, ops[0]), rest, id, i - 1);
    }
  }

  lemma RunOfPrefix(s: Store, ops: seq<Op>, k: nat)
    requires k < |ops|
    ensures Run(s, ops[..k + 1]) == Run(Apply(s, ops[0]), ops[1..][..k])
  {
    assert ops[..k + 1][1..] == ops[1..][..k] && ops[..k + 1][0] == ops[0];
  }

  // ----- at most one completion

  /** How often a completion of the job takes effect in a run. */
  ghost function Completions(s: Store, ops: seq<Op>, id: JobId): nat
    decreases |ops|
  {
    if ops == [] then 0
    else
      var op := ops[0];
      (if op.CompleteOp? && op.id == id && Holds(s, id, op.worker, op.now) then 1 else 0)
      + Completions(Apply(s, op), ops[1..], id)
  }

  lemma {:induction false} TerminalIsNotCompleted(s: Store, ops: seq<Op>, id: JobId)
    requires ValidRun(s, ops) && id in s && s[id].status.IsTerminal()
    ensures Completions(s, ops, id) == 0
    decreases |ops|
  {
    if ops != [] {
      ApplyKeepsJob(s, ops[0], id);
      TerminalIsNotCompleted(Apply(s, ops[0]), ops[1..], id);
    }
  }

  /** A job is completed at most once in a whole run. */
  lemma {:induction false} CompletedAtMostOnce(s: Store, ops: seq<Op>, id: JobId)
    requires ValidRun(s, ops)
    ensures Completions(s, ops, id) <= 1
    decreases |ops|
  {
    if ops != [] {
      var op := ops[0];
      if op.CompleteOp? && op.id == id && Holds(s, id, op.worker, op.now) {
        TerminalIsNotCompleted(Apply(s, op), ops[1..], id);
      } else {
        CompletedAtMostOnce(Apply(s, op), ops[1..], id);
      }
    }
  }

  // ----- the attempt budget

  /** How often the job is claimed from the queue, re-claims after a lost lease apart. */
  ghost function QueuedClaims(s: Store, ops: seq<Op>, id: JobId): nat
    decreases |ops|
  {
    if ops == [] then 0
    else
      var op := ops[0];
      (if op.ClaimOp? && id in op.picks && id in s && s[id].status == Queued then 1 else 0)
      + QueuedClaims(Apply(s, op), ops[1..], id)
  }

  /** Every failure that takes effect is retried only while the stored attempts are below the budget. */
  ghost predicate RetriesWithinBudget(s: Store, ops: seq<Op>)
    decreases |ops|
  {
    ops == [] || (RetryWithinBudget(s, ops[0]) && RetriesWithinBudget(Apply(s, ops[0]), ops[1..]))
  }

  predicate RetryWithinBudget(s: Store, op: Op) {
    op.FailOp? && Holds(s, op.id, op.worker, op.now) && op.outcome.nextStatus == Queued ==>
      s[op.id].attempts < s[op.id].maxAttempts
  }

  /** The claims from the queue that a job has left. */
  function ClaimsLeft(j: Job): nat {
    if j.status.IsTerminal() || j.attempts >= j.maxAttempts then 0 else j.maxAttempts - j.attempts
  }

  lemma {:induction false} QueuedClaimsWithinBudget(s: Store, ops: seq<Op>, id: JobId)
    requires ValidRun(s, ops) && RetriesWithinBudget(s, ops) && id in s
    requires s[id].status == Queued ==> s[id].attempts < s[id].maxAttempts
    ensures QueuedClaims(s, ops, id) <= ClaimsLeft(s[id])
    decreases |ops|
  {
    if ops != [] {
      ApplyKeepsJob(s, ops[0], id);
      QueuedClaimsWithinBudget(Apply(s, ops[0]), ops[1..], id);
    }
  }

  /** A new job is claimed from the queue at most maxAttempts times, however many leases are lost. */
  lemma NewJobClaimedWithinBudget(s: Store, input: EnqueueInput, id: JobId, ops: seq<Op>)
    requires id !in s && !HasDuplicate(s, input) && input.maxAttempts > 0
    requires ValidRun(Apply(s, EnqueueOp(input, id)), ops) && RetriesWithinBudget(Apply(s, EnqueueOp(input, id)), ops)
    ensures QueuedClaims(Apply(s, EnqueueOp(input, id)), ops, id) <= input.maxAttempts
  {
    QueuedClaimsWithinBudget(Apply(s, EnqueueOp(input, id)), ops, id);
  }
}
