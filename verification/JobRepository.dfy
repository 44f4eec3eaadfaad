/** The durable queue and worker leasing: the repository contract on its in-process store. */
module JobRepository {
  import opened GoValues
  import opened JobLifecycle
  import opened Sorting

  /** Identifiers and payloads, of which only equality matters. */
  type Text(==, !new)
  type JobId = Text

  datatype Job = Job(
    tenantId: Text,
    kind: Text,
    lane: Text,
    status: Status,
    params: Text,
    result: Option<Text>,
    error: Option<Text>,
    attempts: nat,
    maxAttempts: int,
    dedupKey: Option<Text>,
    leaseOwner: Option<Text>,
    leaseExpiresAt: Option<int>,
    runAt: int,
    createdAt: int,
    updatedAt: int)

  type Store = map<JobId, Job>

  datatype Error = JobNotFound | LeaseLost | AlreadyTerminal

  datatype Result<+T> = Ok(value: T) | Err(error: Error)

  datatype EnqueueInput = EnqueueInput(
    tenantId: Text,
    kind: Text,
    lane: Text,
    params: Text,
    dedupKey: Option<Text>,
    maxAttempts: int,
    runAt: Option<int>,
    now: int)

  datatype FailOutcome = FailOutcome(nextStatus: Status, runAt: int, error: Text)

  // ----- what the operations do to the store

  predicate LeaseHeld(j: Job, worker: Text, now: int) {
    j.status == Running && j.leaseOwner == Some(worker) &&
    j.leaseExpiresAt.Some? && !(j.leaseExpiresAt.value < now)
  }

  predicate Claimable(j: Job, lane: Text, now: int) {
    j.lane == lane &&
    ((j.status == Queued && j.runAt <= now) ||
     (j.status == Running && j.leaseExpiresAt.Some? && j.leaseExpiresAt.value < now))
  }

  /** A job that an Enqueue with this tenant and key returns instead of creating another. */
  predicate Duplicates(j: Job, tenantId: Text, dedupKey: Option<Text>) {
    dedupKey.Some? && j.tenantId == tenantId && !j.status.IsTerminal() && j.dedupKey == dedupKey
  }

  function NewJob(input: EnqueueInput): Job {
    Job(input.tenantId, input.kind, input.lane, Queued, input.params, None, None, 0, input.maxAttempts,
        input.dedupKey, None, None, if input.runAt.Some? then input.runAt.value else input.now,
        input.now, input.now)
  }

  function Claimed(j: Job, worker: Text, lease: int, now: int): Job {
    j.(status := Running, attempts := j.attempts + 1, leaseOwner := Some(worker),
       leaseExpiresAt := Some(now + lease), updatedAt := now)
  }

  function ClaimAll(s: Store, picks: set<JobId>, worker: Text, lease: int, now: int): Store {
    map id | id in s :: if id in picks then Claimed(s[id], worker, lease, now) else s[id]
  }

  /** The claimable jobs of a lane. */
  ghost function ClaimableIds(s: Store, lane: Text, now: int): set<JobId> {
    set id | id in s && Claimable(s[id], lane, now)
  }

  /** What ClaimBatch may pick: the claimable jobs, or as many of the earliest of them as fit. */
  ghost predicate IsPick(s: Store, picks: set<JobId>, lane: Text, batch: int, now: int) {
    && picks <= ClaimableIds(s, lane, now)
    && (if batch <= 0 then picks == {}
        else if |ClaimableIds(s, lane, now)| <= batch then picks == ClaimableIds(s, lane, now)
        else |picks| == batch)
    && (batch > 0 ==>
          forall id, other :: id in picks && other in ClaimableIds(s, lane, now) && other !in picks ==>
            s[id].runAt <= s[other].runAt)
  }

  function Extended(j: Job, lease: int, now: int): Job {
    j.(leaseExpiresAt := Some(now + lease), updatedAt := now)
  }

  function Completed(j: Job, result: Text, now: int): Job {
    j.(status := Succeeded, result := Some(result), leaseOwner := None, leaseExpiresAt := None, updatedAt := now)
  }

  function FailedWith(j: Job, outcome: FailOutcome, now: int): Job {
    var retry := outcome.nextStatus == Queued;
    j.(status := if retry then Queued else Failed, error := Some(outcome.error),
       leaseOwner := None, leaseExpiresAt := None, updatedAt := now,
       runAt := if retry then outcome.runAt else j.runAt)
  }

  function CanceledAt(j: Job, now: int): Job {
    j.(status := Canceled, leaseOwner := None, leaseExpiresAt := None, updatedAt := now)
  }

  // ----- what the port promises, in terms of the stored jobs alone

  /** The worker holds a lease that has not run out; it lasts up to and including its expiry. */
  ghost predicate HasLiveLease(s: Store, id: JobId, worker: Text, now: int) {
    && id in s && s[id].status == Running && s[id].leaseOwner == Some(worker)
    && s[id].leaseExpiresAt.Some? && now <= s[id].leaseExpiresAt.value
  }

  /** The job is of the lane, and is due or has a lease that has run out. */
  ghost predicate IsFree(s: Store, id: JobId, lane: Text, now: int) {
    && id in s && s[id].lane == lane
    && ((s[id].status == Queued && s[id].runAt <= now)
        || (s[id].status == Running && s[id].leaseExpiresAt.Some? && s[id].leaseExpiresAt.value < now))
  }

  /** The job is the tenant's, has the key and is queued or running. */
  ghost predicate Blocks(j: Job, tenantId: Text, dedupKey: Option<Text>) {
    dedupKey.Some? && j.tenantId == tenantId && j.dedupKey == dedupKey && (j.status == Queued || j.status == Running)
  }

  /** Exactly the named jobs, all of them free, are under a new lease with one more attempt. */
  ghost predicate LeasesFree(
    before: Store, after: Store, claimed: seq<Job>, ids: seq<JobId>, worker: Text, lane: Text, lease: int, now: int)
  {
    && |claimed| == |ids| && after.Keys == before.Keys
    && (forall i :: 0 <= i < |ids| ==>
          && IsFree(before, ids[i], lane, now) && ids[i] in after && after[ids[i]] == claimed[i]
          && claimed[i] == before[ids[i]].(status := Running, attempts := before[ids[i]].attempts + 1,
                                           leaseOwner := Some(worker), leaseExpiresAt := Some(now + lease),
                                           updatedAt := now))
    && (forall id :: id in before && id !in ids ==> after[id] == before[id])
  }

  /** A free job is left over only when the batch is full, and with jobs that were due no later. */
  ghost predicate ClaimsEarliest(s: Store, ids: seq<JobId>, lane: Text, batch: int, now: int) {
    var room := if batch <= 0 then 0 else batch;
    && |ids| <= room
    && (forall id :: IsFree(s, id, lane, now) && id !in ids ==>
          && |ids| == room
          && forall i :: 0 <= i < |ids| ==> ids[i] in s && s[ids[i]].runAt <= s[id].runAt)
  }

  // ----- what every reachable store satisfies

  ghost predicate JobOk(j: Job) {
    && (j.status == Running <==> j.leaseOwner.Some?)
    && (j.status == Running <==> j.leaseExpiresAt.Some?)
  }

  ghost predicate DedupUnique(s: Store) {
    forall a, b :: a in s && b in s && a != b && Duplicates(s[a], s[a].tenantId, s[a].dedupKey) ==>
      !Duplicates(s[b], s[a].tenantId, s[a].dedupKey)
  }

  /** Leases exist exactly while running, and a tenant's dedup key names one unfinished job. */
  ghost predicate Inv(s: Store) {
    (forall id :: id in s ==> JobOk(s[id])) && DedupUnique(s)
  }

  // ----- one operation by one worker, as a step of the store

  datatype Op =
    | EnqueueOp(input: EnqueueInput, id: JobId)
    | ClaimOp(worker: Text, lane: Text, batch: int, lease: int, now: int, picks: set<JobId>)
    | HeartbeatOp(id: JobId, worker: Text, lease: int, now: int)
    | CompleteOp(id: JobId, worker: Text, result: Text, now: int)
    | FailOp(id: JobId, worker: Text, outcome: FailOutcome, now: int)
    | CancelOp(id: JobId, now: int)

  ghost predicate HasDuplicate(s: Store, input: EnqueueInput) {
    exists k :: k in s && Duplicates(s[k], input.tenantId, input.dedupKey)
  }

  /** A new id is fresh, and a claim picks what ClaimBatch may pick; otherwise any call can come. */
  ghost predicate Enabled(s: Store, op: Op) {
    match op
    case EnqueueOp(_, id) => id !in s
    case ClaimOp(_, lane, batch, _, now, picks) => IsPick(s, picks, lane, batch, now)
    case _ => true
  }

  /** The report or heartbeat of a worker takes effect. */
  predicate Holds(s: Store, id: JobId, worker: Text, now: int) {
    id in s && LeaseHeld(s[id], worker, now)
  }

  ghost function Apply(s: Store, op: Op): Store {
    match op
    case EnqueueOp(input, id) => if HasDuplicate(s, input) then s else s[id := NewJob(input)]
    case ClaimOp(worker, _, _, lease, now, picks) => ClaimAll(s, picks, worker, lease, now)
    case HeartbeatOp(id, worker, lease, now) =>
      if Holds(s, id, worker, now) then s[id := Extended(s[id], lease, now)] else s
    case CompleteOp(id, worker, result, now) =>
      if Holds(s, id, worker, now) then s[id := Completed(s[id], result, now)] else s
    case FailOp(id, worker, outcome, now) =>
      if Holds(s, id, worker, now) then s[id := FailedWith(s[id], outcome, now)] else s
    case CancelOp(id, now) =>
      if id in s && !s[id].status.IsTerminal() then s[id := CanceledAt(s[id], now)] else s
  }

  /** A candidate for a claim, with the run time it is ordered by. */
  datatype Due = Due(id: JobId, runAt: int)

  predicate ByRunAt(a: Due, b: Due) {
    a.runAt <= b.runAt
  }

  lemma ByRunAtIsTotal()
    ensures Total(ByRunAt)
  {
  }

  function IdsOf(due: seq<Due>): (ids: seq<JobId>)
    ensures |ids| == |due|
    ensures forall i :: 0 <= i < |ids| ==> ids[i] == due[i].id
  {
    seq(|due|, i requires 0 <= i < |due| => due[i].id)
  }

  ghost function IdSet(ids: seq<JobId>): set<JobId> {
    set id | id in ids
  }

  /** The candidates, each once, with their run times. */
  ghost predicate IsDueList(s: Store, due: seq<Due>, lane: Text, now: int) {
    && Distinct(due)
    && (forall d :: d in due ==> d.id in ClaimableIds(s, lane, now) && d.runAt == s[d.id].runAt)
    && (forall id :: id in ClaimableIds(s, lane, now) ==> Due(id, s[id].runAt) in due)
  }

  lemma SortedDueList(s: Store, candidates: seq<Due>, lane: Text, now: int)
    requires IsDueList(s, candidates, lane, now)
    ensures IsDueList(s, Sort(candidates, ByRunAt), lane, now)
    ensures Ordered(Sort(candidates, ByRunAt), ByRunAt)
  {
    ByRunAtIsTotal();
    SortSorts(candidates, ByRunAt);
    var sorted := Sort(candidates, ByRunAt);
    DistinctPermutation(candidates, sorted);
    forall d ensures d in sorted <==> d in candidates {
      assert d in sorted <==> d in multiset(sorted);
      assert d in candidates <==> d in multiset(candidates);
    }
  }

  lemma DueIds(s: Store, due: seq<Due>, lane: Text, now: int)
    requires IsDueList(s, due, lane, now)
    ensures Distinct(IdsOf(due)) && IdSet(IdsOf(due)) == ClaimableIds(s, lane, now)
    ensures |due| == |ClaimableIds(s, lane, now)|
  {
    var ids := IdsOf(due);
    forall i, j | 0 <= i < j < |ids| ensures ids[i] != ids[j] {
      assert due[i] in due && due[j] in due && due[i] != due[j];
    }
    forall id | id in ClaimableIds(s, lane, now) ensures id in ids {
      var i :| 0 <= i < |due| && due[i] == Due(id, s[id].runAt);
      assert ids[i] == id;
    }
    forall id | id in ids ensures id in ClaimableIds(s, lane, now) {
      var i :| 0 <= i < |ids| && ids[i] == id;
      assert due[i] in due;
    }
    DistinctSetSize(ids);
    assert IdSet(ids) == set x | x in ids;
  }

  lemma PrefixIsEarliest(s: Store, sorted: seq<Due>, n: nat, lane: Text, now: int, id: JobId, other: JobId)
    requires n <= |sorted| && IsDueList(s, sorted, lane, now) && Ordered(sorted, ByRunAt)
    requires id in IdsOf(sorted)[..n] && other in IdsOf(sorted) && other !in IdsOf(sorted)[..n]
    ensures id in s && other in s && s[id].runAt <= s[other].runAt
  {
    var i :| 0 <= i < n && IdsOf(sorted)[i] == id;
    var j :| 0 <= j < |sorted| && IdsOf(sorted)[j] == other;
    assert j >= n && ByRunAt(sorted[i], sorted[j]);
    assert sorted[i] in sorted && sorted[j] in sorted;
  }

  /** What the first n candidates name, all of them claimable. */
  lemma PrefixIds(s: Store, sorted: seq<Due>, n: nat, lane: Text, now: int)
    requires n <= |sorted| && IsDueList(s, sorted, lane, now)
    ensures IdsOf(sorted[..n]) == IdsOf(sorted)[..n] && Distinct(IdsOf(sorted[..n]))
    ensures IdSet(IdsOf(sorted[..n])) <= ClaimableIds(s, lane, now) && |IdSet(IdsOf(sorted[..n]))| == n
    ensures |ClaimableIds(s, lane, now)| == |sorted|
    ensures n == |sorted| ==> IdSet(IdsOf(sorted[..n])) == ClaimableIds(s, lane, now)
  {
    DueIds(s, sorted, lane, now);
    var ids, picked := IdsOf(sorted), IdsOf(sorted[..n]);
    assert picked == ids[..n];
    DistinctSetSize(picked);
    assert IdSet(picked) == set x | x in picked;
    assert IdSet(picked) <= IdSet(ids);
    if n == |sorted| {
      assert picked == ids;
    }
  }

  /** A prefix of the ordered candidates is a pick. */
  lemma PrefixIsPick(s: Store, sorted: seq<Due>, n: nat, lane: Text, batch: int, now: int)
    requires batch > 0 && IsDueList(s, sorted, lane, now) && Ordered(sorted, ByRunAt)
    requires n == if |sorted| > batch then batch else |sorted|
    ensures Distinct(IdsOf(sorted[..n])) && IsPick(s, IdSet(IdsOf(sorted[..n])), lane, batch, now)
  {
    PrefixIds(s, sorted, n, lane, now);
    DueIds(s, sorted, lane, now);
    var picked := IdSet(IdsOf(sorted[..n]));
    forall id, other | id in picked && other in ClaimableIds(s, lane, now) && other !in picked
      ensures s[id].runAt <= s[other].runAt
    {
      PrefixIsEarliest(s, sorted, n, lane, now, id, other);
    }
  }

  lemma PicksAreEarliest(s: Store, ids: seq<JobId>, lane: Text, batch: int, now: int)
    requires batch > 0 && Distinct(ids) && IsPick(s, IdSet(ids), lane, batch, now)
    ensures ClaimsEarliest(s, ids, lane, batch, now)
  {
    DistinctSetSize(ids);
    assert IdSet(ids) == set x | x in ids;
    forall id | IsFree(s, id, lane, now) && id !in ids
      ensures |ids| == batch && forall i :: 0 <= i < |ids| ==> ids[i] in s && s[ids[i]].runAt <= s[id].runAt
    {
      assert id in ClaimableIds(s, lane, now) && id !in IdSet(ids);
      forall i | 0 <= i < |ids| ensures ids[i] in s && s[ids[i]].runAt <= s[id].runAt {
        assert ids[i] in IdSet(ids) && ids[i] in ClaimableIds(s, lane, now);
      }
    }
  }

  lemma PicksAreLeased(
    s: Store, claimed: seq<Job>, ids: seq<JobId>, worker: Text, lane: Text, batch: int, lease: int, now: int)
    requires IsPick(s, IdSet(ids), lane, batch, now) && |claimed| == |ids|
    requires forall i :: 0 <= i < |ids| ==> ids[i] in s && claimed[i] == Claimed(s[ids[i]], worker, lease, now)
    ensures LeasesFree(s, ClaimAll(s, IdSet(ids), worker, lease, now), claimed, ids, worker, lane, lease, now)
  {
    forall i | 0 <= i < |ids| ensures IsFree(s, ids[i], lane, now) && ids[i] in IdSet(ids) {
      assert ids[i] in IdSet(ids) && ids[i] in ClaimableIds(s, lane, now);
    }
  }

  class Repository {
    var byId: Store

    constructor ()
      ensures byId == map[] && Inv(byId)
    {
      byId := map[];
    }

    /** The id is a fresh UUID. */
    method Enqueue(input: EnqueueInput, id: JobId) returns (job: Job, jobId: JobId, created: bool)
      requires Inv(byId) && id !in byId
      modifies this
      ensures Inv(byId)
      ensures byId == Apply(old(byId), EnqueueOp(input, id))
      ensures created <==> forall k :: k in old(byId) ==> !Duplicates(old(byId)[k], input.tenantId, input.dedupKey)
      ensures created ==> jobId == id && job == NewJob(input) && byId == old(byId)[id := job]
      ensures !created ==>
                && byId == old(byId) && jobId in byId && job == byId[jobId]
                && Duplicates(job, input.tenantId, input.dedupKey)
      ensures created <==> forall k :: k in old(byId) ==> !Blocks(old(byId)[k], input.tenantId, input.dedupKey)
      ensures !created ==> Blocks(job, input.tenantId, input.dedupKey)
      ensures created ==>
                && job.tenantId == input.tenantId && job.kind == input.kind && job.lane == input.lane
                && job.params == input.params && job.dedupKey == input.dedupKey && job.maxAttempts == input.maxAttempts
                && job.status == Queued && job.attempts == 0 && job.result == job.error == None
                && job.leaseOwner == None && job.leaseExpiresAt == None
                && job.runAt == (if input.runAt.Some? then input.runAt.value else input.now)
                && job.createdAt == job.updatedAt == input.now
    {
      if input.dedupKey.Some? {
        var rest := byId.Keys;
        while rest != {}
          invariant rest <= byId.Keys && byId == old(byId)
          invariant forall k :: k in byId && k !in rest ==> !Duplicates(byId[k], input.tenantId, input.dedupKey)
          decreases rest
        {
          var k :| k in rest;
          if Duplicates(byId[k], input.tenantId, input.dedupKey) {
            return byId[k], k, false;
          }
          rest := rest - {k};
        }
      }
      job, jobId, created := NewJob(input), id, true;
      byId := byId[id := job];
    }

    method Heartbeat(jobId: JobId, worker: Text, lease: int, now: int) returns (r: Result<int>)
      requires Inv(byId)
      modifies this
      ensures Inv(byId)
      ensures jobId !in old(byId) ==> r == Err(JobNotFound)
      ensures jobId in old(byId) ==>
                r == if LeaseHeld(old(byId)[jobId], worker, now) then Ok(now + lease) else Err(LeaseLost)
      ensures byId == Apply(old(byId), HeartbeatOp(jobId, worker, lease, now))
      ensures r.Ok? <==> HasLiveLease(old(byId), jobId, worker, now)
      ensures r.Ok? ==>
                byId == old(byId)[jobId := old(byId)[jobId].(leaseExpiresAt := Some(now + lease), updatedAt := now)]
      ensures r.Err? ==> byId == old(byId)
    {
      if jobId !in byId {
        return Err(JobNotFound);
      }
      var j := byId[jobId];
      if !LeaseHeld(j, worker, now) {
        return Err(LeaseLost);
      }
      var expiry := now + lease;
      byId := byId[jobId := j.(leaseExpiresAt := Some(expiry), updatedAt := now)];
      return Ok(expiry);
    }

    method Complete(jobId: JobId, worker: Text, result: Text, now: int) returns (r: Result<Job>)
      requires Inv(byId)
      modifies this
      ensures Inv(byId)
      ensures jobId !in old(byId) ==> r == Err(JobNotFound)
      ensures jobId in old(byId) ==>
                r == if LeaseHeld(old(byId)[jobId], worker, now) then Ok(Completed(old(byId)[jobId], result, now))
                     else Err(LeaseLost)
      ensures byId == Apply(old(byId), CompleteOp(jobId, worker, result, now))
      ensures r.Ok? <==> HasLiveLease(old(byId), jobId, worker, now)
      ensures r.Ok? ==>
                && byId == old(byId)[jobId := r.value]
                && r.value == old(byId)[jobId].(status := Succeeded, result := Some(result), leaseOwner := None,
                                                leaseExpiresAt := None, updatedAt := now)
      ensures r.Err? ==> byId == old(byId)
    {
      if jobId !in byId {
        return Err(JobNotFound);
      }
      var j := byId[jobId];
      if !LeaseHeld(j, worker, now) {
        return Err(LeaseLost);
      }
      var next := TransitionJobLifecycle(j.status, EventComplete);
      if next.None? {
        return Err(LeaseLost);
      }
      j := j.(status := next.value, result := Some(result), leaseOwner := None, leaseExpiresAt := None,
              updatedAt := now);
      byId := byId[jobId := j];
      return Ok(j);
    }

    method Fail(jobId: JobId, worker: Text, outcome: FailOutcome, now: int) returns (r: Result<Job>)
      requires Inv(byId)
      modifies this
      ensures Inv(byId)
      ensures jobId !in old(byId) ==> r == Err(JobNotFound)
      ensures jobId in old(byId) ==>
                r == if LeaseHeld(old(byId)[jobId], worker, now) then Ok(FailedWith(old(byId)[jobId], outcome, now))
                     else Err(LeaseLost)
      ensures byId == Apply(old(byId), FailOp(jobId, worker, outcome, now))
      ensures r.Ok? <==> HasLiveLease(old(byId), jobId, worker, now)
      ensures r.Ok? && outcome.nextStatus == Queued ==>
                && byId == old(byId)[jobId := r.value]
                && r.value == old(byId)[jobId].(status := Queued, error := Some(outcome.error), runAt := outcome.runAt,
                                                leaseOwner := None, leaseExpiresAt := None, updatedAt := now)
      ensures r.Ok? && outcome.nextStatus != Queued ==>
                && byId == old(byId)[jobId := r.value]
                && r.value == old(byId)[jobId].(status := Failed, error := Some(outcome.error),
                                                leaseOwner := None, leaseExpiresAt := None, updatedAt := now)
      ensures r.Err? ==> byId == old(byId)
    {
      if jobId !in byId {
        return Err(JobNotFound);
      }
      var j := byId[jobId];
      if !LeaseHeld(j, worker, now) {
        return Err(LeaseLost);
      }
      var event := EventFail;
      if outcome.nextStatus == Queued {
        event := EventRetry;
      }
      var next := TransitionJobLifecycle(j.status, event);
      j := j.(status := next.value, error := Some(outcome.error), leaseOwner := None, leaseExpiresAt := None,
              updatedAt := now);
      if next.value == Queued {
        j := j.(runAt := outcome.runAt);
      }
      byId := byId[jobId := j];
      return Ok(j);
    }

    method Cancel(jobId: JobId, now: int) returns (r: Result<Job>)
      requires Inv(byId)
      modifies this
      ensures Inv(byId)
      ensures jobId !in old(byId) ==> r == Err(JobNotFound)
      ensures jobId in old(byId) ==>
                r == if old(byId)[jobId].status.IsTerminal() then Err(AlreadyTerminal)
                     else Ok(CanceledAt(old(byId)[jobId], now))
      ensures byId == Apply(old(byId), CancelOp(jobId, now))
      ensures r.Ok? <==> jobId in old(byId) && (old(byId)[jobId].status == Queued || old(byId)[jobId].status == Running)
      ensures r.Ok? ==>
                && byId == old(byId)[jobId := r.value]
                && r.value == old(byId)[jobId].(status := Canceled, leaseOwner := None, leaseExpiresAt := None,
                                                updatedAt := now)
      ensures r.Err? ==> byId == old(byId)
    {
      if jobId !in byId {
        return Err(JobNotFound);
      }
      var j := byId[jobId];
      if j.status.IsTerminal() {
        return Err(AlreadyTerminal);
      }
      var next := TransitionJobLifecycle(j.status, EventCancel);
      j := j.(status := next.value, leaseOwner := None, leaseExpiresAt := None, updatedAt := now);
      byId := byId[jobId := j];
      return Ok(j);
    }

    /** Collects the claimable jobs of the lane in any order. */
    method Candidates(lane: Text, now: int) returns (due: seq<Due>)
      ensures IsDueList(byId, due, lane, now)
    {
      due := [];
      var rest := byId.Keys;
      while rest != {}
        invariant rest <= byId.Keys
        invariant forall d :: d in due ==> d.id in ClaimableIds(byId, lane, now) && d.id !in rest
                                           && d.runAt == byId[d.id].runAt
        invariant forall id :: id in ClaimableIds(byId, lane, now) && id !in rest ==>
                    Due(id, byId[id].runAt) in due
        invariant Distinct(due)
        decreases rest
      {
        var id :| id in rest;
        if Claimable(byId[id], lane, now) {
          due := due + [Due(id, byId[id].runAt)];
        }
        rest := rest - {id};
      }
    }

    /** The loop that puts the picked jobs under a lease. */
    method LeaseAll(due: seq<Due>, worker: Text, lease: int, now: int) returns (claimed: seq<Job>)
      requires Distinct(IdsOf(due))
      requires forall i :: 0 <= i < |due| ==>
                 due[i].id in byId && (byId[due[i].id].status == Queued || byId[due[i].id].status == Running)
      modifies this
      ensures byId == ClaimAll(old(byId), IdSet(IdsOf(due)), worker, lease, now)
      ensures |claimed| == |due|
      ensures forall i :: 0 <= i < |due| ==> claimed[i] == Claimed(old(byId)[due[i].id], worker, lease, now)
    {
      claimed := [];
      ghost var ids := IdsOf(due);
      for i := 0 to |due|
        invariant byId == ClaimAll(old(byId), IdSet(ids[..i]), worker, lease, now)
        invariant |claimed| == i
        invariant forall k :: 0 <= k < i ==> claimed[k] == Claimed(old(byId)[ids[k]], worker, lease, now)
      {
        var id := due[i].id;
        assert id == ids[i] && id !in ids[..i] && ids[..i + 1] == ids[..i] + [id];
        var j := byId[id];
        if j.status == Queued {
          var next := TransitionJobLifecycle(j.status, EventClaim);
          j := j.(status := next.value);
        }
        j := j.(attempts := j.attempts + 1, leaseOwner := Some(worker), leaseExpiresAt := Some(now + lease),
                updatedAt := now);
        byId := byId[id := j];
        claimed := claimed + [j];
      }
      assert ids[..|due|] == ids;
    }

    /** The earliest claimable jobs of the lane that fit the batch, in that order. */
    method Pick(lane: Text, batch: int, now: int) returns (due: seq<Due>)
      requires batch > 0
      ensures Distinct(IdsOf(due)) && IsPick(byId, IdSet(IdsOf(due)), lane, batch, now)
      ensures forall i :: 0 <= i < |due| ==>
                due[i].id in ClaimableIds(byId, lane, now) && byId[due[i].id].runAt == due[i].runAt
      ensures Ordered(due, ByRunAt)
    {
      var candidates := Candidates(lane, now);
      SortedDueList(byId, candidates, lane, now);
      var sorted := Sort(candidates, ByRunAt);
      var n := if |sorted| > batch then batch else |sorted|;
      PrefixIsPick(byId, sorted, n, lane, batch, now);
      due := sorted[..n];
      assert forall i :: 0 <= i < |due| ==> due[i] == sorted[i] && sorted[i] in sorted;
    }

    /** Claims the earliest claimable jobs of the lane that fit the batch, and returns them in that order. */
    method ClaimBatch(worker: Text, lane: Text, batch: int, lease: int, now: int)
      returns (claimed: seq<Job>, ghost ids: seq<JobId>)
      requires Inv(byId)
      modifies this
      ensures Inv(byId)
      ensures var op := ClaimOp(worker, lane, batch, lease, now, IdSet(ids));
              Enabled(old(byId), op) && byId == Apply(old(byId), op)
      ensures Distinct(ids)
      ensures |claimed| == |ids|
      ensures forall i :: 0 <= i < |ids| ==>
                ids[i] in old(byId) && claimed[i] == Claimed(old(byId)[ids[i]], worker, lease, now)
      ensures forall i, j :: 0 <= i < j < |ids| ==> claimed[i].runAt <= claimed[j].runAt
      ensures LeasesFree(old(byId), byId, claimed, ids, worker, lane, lease, now)
      ensures ClaimsEarliest(old(byId), ids, lane, batch, now)
    {
      if batch <= 0 {
        assert ClaimAll(byId, IdSet([]), worker, lease, now) == byId;
        assert IdSet([]) == {};
        return [], [];
      }
      var due := Pick(lane, batch, now);
      ids := IdsOf(due);
      ClaimKeepsInv(byId, IdSet(ids), worker, lane, lease, now);
      forall i, j | 0 <= i < j < |due| ensures due[i].runAt <= due[j].runAt {
        assert ByRunAt(due[i], due[j]);
      }
      PicksAreEarliest(byId, ids, lane, batch, now);
      claimed := LeaseAll(due, worker, lease, now);
      PicksAreLeased(old(byId), claimed, ids, worker, lane, batch, lease, now);
    }
  }

  lemma ClaimKeepsInv(s: Store, picks: set<JobId>, worker: Text, lane: Text, lease: int, now: int)
    requires Inv(s) && picks <= ClaimableIds(s, lane, now)
    ensures Inv(ClaimAll(s, picks, worker, lease, now))
  {
    var after := ClaimAll(s, picks, worker, lease, now);
    forall id | id in after
      ensures JobOk(after[id])
      ensures forall t, k :: Duplicates(after[id], t, k) <==> Duplicates(s[id], t, k)
    {
    }
  }
}
