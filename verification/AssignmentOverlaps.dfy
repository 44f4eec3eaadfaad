/**
 * Calls that overlap. Each call looks up what it needs, then changes the stored rows, then emits its
 * event, then notifies provisioning; anything can happen between these steps. This module is about
 * the rows and the event log, OverlapNotices about the notices.
 */
module AssignmentOverlaps {
  import opened GoValues
  import opened Assignments
  import opened AssignmentRuns

  // ----- the steps of a call

  /** The change of the stored rows that a call makes. */
  datatype Effect = Put(key: Key, row: Row) | Drop(key: Key) | DropApp(tenant: string, app: string)

  /** What a call still has to do: store, emit and notify, or the last of these. */
  datatype Stage = Storing | Emitting | Notifying

  /** A call after its lookup, which has decided on the change and on the notice. */
  datatype Call = Call(effect: Effect, notice: Option<Notice>, stage: Stage)

  /** The checks and the lookup of a call; None if the call ends there. */
  function Lookup(s: State, op: Op): Option<Call>
    requires !op.Elsewhere?
  {
    if Refusal(s, op).Some? then None else
    match op
    case AssignOp(key, visibility, now) =>
      Some(Call(Put(Trim(key), Row(OrVisible(visibility), now, now)), Sent(s, op), Storing))
    case UnassignOp(key) => Some(Call(Drop(key), Sent(s, op), Storing))
    case AssignDesiredOp(tenant, app, user, visibility, now) =>
      var key := UserKey(tenant, app, user);
      if AsDesired(s.rows, key, visibility) then None
      else Some(Call(Put(key, Desired(s.rows, key, visibility, now)), Sent(s, op), Storing))
    case UnassignDesiredOp(tenant, app, user) =>
      var key := UserKey(tenant, app, user);
      if key in s.rows then Some(Call(Drop(key), Sent(s, op), Storing)) else None
    case DeleteOp(tenant, app) => Some(Call(DropApp(tenant, app), None, Storing))
  }

  /** The deletion of an application fails if it has gone since the lookup. */
  predicate Storable(s: State, e: Effect) {
    e.DropApp? ==> (e.tenant, e.app) in s.apps
  }

  function Stored(s: State, e: Effect): State {
    match e
    case Put(key, row) => s.(rows := Saved(s.rows, key, row))
    case Drop(key) => s.(rows := s.rows - {key})
    case DropApp(tenant, app) => s.(rows := WithoutApp(s.rows, tenant, app), apps := s.apps - {(tenant, app)})
  }

  function EventOf(e: Effect): Event {
    match e
    case Put(key, _) => Assigned(key)
    case Drop(key) => Unassigned(key)
    case DropApp(tenant, app) => AppDeleted(tenant, app)
  }

  /** The keys whose presence a change decides. */
  predicate Touches(e: Effect, key: Key) {
    match e
    case Put(k, _) => k == key
    case Drop(k) => k == key
    case DropApp(tenant, app) => OfApp(key, tenant, app)
  }

  // ----- worlds with calls in progress

  /** The state, and the calls in progress by a number that each of them has. */
  datatype World = World(state: State, calls: map<nat, Call>)

  datatype Step =
    | Begin(call: nat, op: Op)
    | Store(call: nat)
    | Emit(call: nat)
    | Notify(call: nat)
    | Other(apps: set<(string, string)>, subjects: set<(string, string, string)>)

  predicate StepEnabled(w: World, step: Step) {
    match step
    case Begin(call, op) => call !in w.calls && !op.Elsewhere?
    case Store(call) => call in w.calls && w.calls[call].stage == Storing
    case Emit(call) => call in w.calls && w.calls[call].stage == Emitting
    case Notify(call) => call in w.calls && w.calls[call].stage == Notifying && w.calls[call].notice.Some?
    case Other(_, _) => true
  }

  function Next(w: World, step: Step): World
    requires StepEnabled(w, step)
  {
    match step
    case Begin(call, op) =>
      if Lookup(w.state, op).None? then w else w.(calls := w.calls[call := Lookup(w.state, op).value])
    case Store(call) =>
      var c := w.calls[call];
      if !Storable(w.state, c.effect) then w.(calls := w.calls - {call})
      else World(Stored(w.state, c.effect), w.calls[call := c.(stage := Emitting)])
    case Emit(call) =>
      var c := w.calls[call];
      World(w.state.(events := w.state.events + [EventOf(c.effect)]),
            if c.notice.Some? then w.calls[call := c.(stage := Notifying)] else w.calls - {call})
    case Notify(call) =>
      World(w.state.(notices := w.state.notices + [w.calls[call].notice.value]), w.calls - {call})
    case Other(apps, subjects) => w.(state := w.state.(apps := apps, subjects := subjects))
  }

  ghost predicate ValidSteps(w: World, steps: seq<Step>, n: nat)
    requires n <= |steps|
    decreases n, 0
  {
    n > 0 ==> ValidSteps(w, steps, n - 1) && StepEnabled(After(w, steps, n - 1), steps[n - 1])
  }

  ghost function After(w: World, steps: seq<Step>, n: nat): World
    requires n <= |steps| && ValidSteps(w, steps, n)
    decreases n, 1
  {
    if n == 0 then w else Next(After(w, steps, n - 1), steps[n - 1])
  }

  lemma NextStep(w: World, steps: seq<Step>, n: nat)
    requires n < |steps| && ValidSteps(w, steps, n) && StepEnabled(After(w, steps, n), steps[n])
    ensures ValidSteps(w, steps, n + 1) && After(w, steps, n + 1) == Next(After(w, steps, n), steps[n])
  {
  }

  /** A world without calls in progress. */
  function Idle(s: State): World {
    World(s, map[])
  }

  // ----- steps without interruption are the call as a whole

  /** The rest of a call after its lookup, with nothing in between. */
  function Finished(s: State, c: Call): State {
    if !Storable(s, c.effect) then s
    else
      var stored := Stored(s, c.effect);
      stored.(events := stored.events + [EventOf(c.effect)],
              notices := if c.notice.Some? then stored.notices + [c.notice.value] else stored.notices)
  }

  lemma PartsMakeTheCall(s: State, op: Op)
    requires !op.Elsewhere?
    ensures Apply(s, op) == if Lookup(s, op).None? then s else Finished(s, Lookup(s, op).value)
  {
    if op.DeleteOp? && Refusal(s, op).None? {
      assert Lookup(s, op) == Some(Call(DropApp(op.tenant, op.app), None, Storing));
    }
  }

  /** The steps of one call after another, with nothing in between. */
  ghost function Uninterrupted(w: World, call: nat, op: Op): World
    requires call !in w.calls && !op.Elsewhere?
  {
    var begun := Next(w, Begin(call, op));
    if call !in begun.calls then begun
    else
      var stored := Next(begun, Store(call));
      if call !in stored.calls then stored
      else
        var emitted := Next(stored, Emit(call));
        if call !in emitted.calls then emitted else Next(emitted, Notify(call))
  }

  /** Steps without interruption leave what the call as a whole leaves, and no call in progress but those before. */
  lemma StepsMakeTheCall(w: World, call: nat, op: Op)
    requires call !in w.calls && !op.Elsewhere?
    ensures Uninterrupted(w, call, op) == World(Apply(w.state, op), w.calls)
  {
    PartsMakeTheCall(w.state, op);
    assert w.calls - {call} == w.calls;
    if Lookup(w.state, op).Some? {
      var c := Lookup(w.state, op).value;
      var calls := w.calls[call := c];
      assert calls - {call} == w.calls;
      assert calls[call := c.(stage := Emitting)] - {call} == w.calls;
      assert calls[call := c.(stage := Emitting)][call := c.(stage := Notifying)] - {call} == w.calls;
    }
  }

  // ----- what lookups decide on

  /** A notice is about the user whose row the call changes, and says how. */
  predicate NoticeFits(c: Call) {
    c.notice.Some? ==>
      && !c.effect.DropApp? && c.notice.value.key == c.effect.key && c.effect.key.subjectType == USER
      && (c.notice.value.trigger == Added <==> c.effect.Put?)
  }

  ghost predicate NoticesFit(w: World) {
    forall call :: call in w.calls ==> NoticeFits(w.calls[call])
  }

  lemma NextKeepsNoticesFit(w: World, step: Step)
    requires StepEnabled(w, step) && NoticesFit(w)
    ensures NoticesFit(Next(w, step))
  {
  }

  // ----- the event log

  /** A call other than the given one has changed the row of a key, or removed it, and not emitted yet. */
  ghost predicate UnemittedBut(w: World, but: Option<nat>, key: Key) {
    exists call :: call in w.calls && Some(call) != but
      && w.calls[call].stage == Emitting && Touches(w.calls[call].effect, key)
  }

  /** Log and rows agree on every key of which nothing is left to emit. */
  ghost predicate LogAgrees(w: World) {
    forall key :: UnemittedBut(w, None, key) || (key in Replay(w.state.events) <==> key in w.state.rows)
  }

  /** The rows are still as the call left them, wherever no other call has something to emit. */
  ghost predicate StillAsLeft(w: World, call: nat)
    requires call in w.calls
  {
    var e := w.calls[call].effect;
    forall key :: Touches(e, key) && !UnemittedBut(w, Some(call), key) ==> (key in w.state.rows <==> e.Put?)
  }

  lemma EmitAtKey(w: World, call: nat, key: Key)
    requires StepEnabled(w, Emit(call))
    ensures UnemittedBut(Next(w, Emit(call)), None, key) <==> UnemittedBut(w, Some(call), key)
    ensures UnemittedBut(w, None, key) <==> UnemittedBut(w, Some(call), key) || Touches(w.calls[call].effect, key)
    ensures var e := w.calls[call].effect;
            key in Replay(Next(w, Emit(call)).state.events) <==>
            if Touches(e, key) then e.Put? else key in Replay(w.state.events)
  {
    var after, e := Next(w, Emit(call)), w.calls[call].effect;
    ReplayMore(w.state.events, EventOf(e));
    if UnemittedBut(w, Some(call), key) {
      var c :| c in w.calls && Some(c) != Some(call) && w.calls[c].stage == Emitting && Touches(w.calls[c].effect, key);
      assert c in after.calls && after.calls[c] == w.calls[c];
    }
    if UnemittedBut(after, None, key) {
      var c :| c in after.calls && after.calls[c].stage == Emitting && Touches(after.calls[c].effect, key);
      assert c != call && w.calls[c] == after.calls[c];
    }
  }

  /** An event keeps log and rows in agreement exactly when the rows are still as its call left them. */
  lemma EmitKeepsLogExactly(w: World, call: nat)
    requires StepEnabled(w, Emit(call)) && LogAgrees(w)
    ensures LogAgrees(Next(w, Emit(call))) <==> StillAsLeft(w, call)
  {
    var after, e := Next(w, Emit(call)), w.calls[call].effect;
    forall key
      ensures (UnemittedBut(after, None, key) || (key in Replay(after.state.events) <==> key in after.state.rows)) <==>
              (Touches(e, key) && !UnemittedBut(w, Some(call), key) ==> (key in w.state.rows <==> e.Put?))
    {
      EmitAtKey(w, call, key);
    }
  }

  lemma StoreAtKey(w: World, call: nat, key: Key)
    requires StepEnabled(w, Store(call))
    ensures var after := Next(w, Store(call));
            UnemittedBut(after, None, key) || (key in after.state.rows <==> key in w.state.rows)
    ensures UnemittedBut(w, None, key) ==> UnemittedBut(Next(w, Store(call)), None, key)
  {
    var after := Next(w, Store(call));
    if Storable(w.state, w.calls[call].effect) && Touches(w.calls[call].effect, key) {
      assert call in after.calls && after.calls[call].stage == Emitting;
    }
    if UnemittedBut(w, None, key) {
      var c :| c in w.calls && w.calls[c].stage == Emitting && Touches(w.calls[c].effect, key);
      assert c in after.calls && after.calls[c] == w.calls[c];
    }
  }

  lemma UnemittedElsewhere(w: World, step: Step, key: Key)
    requires StepEnabled(w, step) && !step.Emit? && !step.Store?
    ensures UnemittedBut(w, None, key) ==> UnemittedBut(Next(w, step), None, key)
  {
    if UnemittedBut(w, None, key) {
      var c :| c in w.calls && w.calls[c].stage == Emitting && Touches(w.calls[c].effect, key);
      assert c in Next(w, step).calls && Next(w, step).calls[c] == w.calls[c];
    }
  }

  /** No other step disturbs the agreement. */
  lemma OthersKeepLog(w: World, step: Step)
    requires StepEnabled(w, step) && !step.Emit? && LogAgrees(w)
    ensures LogAgrees(Next(w, step))
  {
    forall key
      ensures UnemittedBut(w, None, key) ==> UnemittedBut(Next(w, step), None, key)
      ensures UnemittedBut(Next(w, step), None, key) || (key in Next(w, step).state.rows <==> key in w.state.rows)
    {
      if step.Store? {
        StoreAtKey(w, step.call, key);
      } else {
        UnemittedElsewhere(w, step, key);
      }
    }
  }

  ghost predicate LogAgreesThroughout(w: World, steps: seq<Step>, n: nat)
    requires n <= |steps| && ValidSteps(w, steps, n)
  {
    (n > 0 ==> LogAgreesThroughout(w, steps, n - 1)) && LogAgrees(After(w, steps, n))
  }

  /** Every event is emitted while the rows are still as its call left them. */
  ghost predicate NeverLate(w: World, steps: seq<Step>, n: nat)
    requires n <= |steps| && ValidSteps(w, steps, n)
  {
    n > 0 ==>
      && NeverLate(w, steps, n - 1)
      && (steps[n - 1].Emit? ==> StillAsLeft(After(w, steps, n - 1), steps[n - 1].call))
  }

  lemma LogStep(w: World, step: Step)
    requires StepEnabled(w, step) && LogAgrees(w)
    ensures LogAgrees(Next(w, step)) <==> (step.Emit? ==> StillAsLeft(w, step.call))
  {
    if step.Emit? {
      EmitKeepsLogExactly(w, step.call);
    } else {
      OthersKeepLog(w, step);
    }
  }

  /** However calls overlap, log and rows agree throughout exactly when no event is late. */
  lemma {:induction false} OverlapRunKeepsLogExactly(w: World, steps: seq<Step>, n: nat)
    requires w == Idle(w.state) && Fresh(w.state) && n <= |steps| && ValidSteps(w, steps, n)
    ensures LogAgreesThroughout(w, steps, n) <==> NeverLate(w, steps, n)
  {
    if n > 0 {
      OverlapRunKeepsLogExactly(w, steps, n - 1);
      if LogAgreesThroughout(w, steps, n - 1) {
        LogStep(After(w, steps, n - 1), steps[n - 1]);
      }
    }
  }

  lemma SettledLogRebuildsRows(w: World)
    requires LogAgrees(w) && w.calls == map[]
    ensures Replay(w.state.events) == w.state.rows.Keys
  {
    forall key ensures !UnemittedBut(w, None, key) {
    }
  }

  // ----- calls for one subject that do not overlap

  /** Two changes that decide the presence of one key; two deletions agree on what is to go. */
  predicate Conflict(e: Effect, f: Effect) {
    if e.DropApp? then !f.DropApp? && Touches(e, f.key) else Touches(f, e.key)
  }

  /** No call gets past its lookup while another one for the same subject, or its application, is in progress. */
  ghost predicate OneAtATime(w: World, step: Step)
    requires StepEnabled(w, step)
  {
    step.Begin? && Lookup(w.state, step.op).Some? ==>
      forall call :: call in w.calls ==> !Conflict(w.calls[call].effect, Lookup(w.state, step.op).value.effect)
  }

  ghost predicate AllOneAtATime(w: World, steps: seq<Step>, n: nat)
    requires n <= |steps| && ValidSteps(w, steps, n)
  {
    n > 0 ==> AllOneAtATime(w, steps, n - 1) && OneAtATime(After(w, steps, n - 1), steps[n - 1])
  }

  ghost predicate NoConflicts(w: World) {
    forall a, b :: a in w.calls && b in w.calls && a != b ==> !Conflict(w.calls[a].effect, w.calls[b].effect)
  }

  /** A row that a call has changed is as the call left it until the call ends. */
  ghost predicate AllAsLeft(w: World) {
    forall call, key :: call in w.calls && w.calls[call].stage != Storing && Touches(w.calls[call].effect, key) ==>
      (key in w.state.rows <==> w.calls[call].effect.Put?)
  }

  lemma NextKeepsNoConflicts(w: World, step: Step)
    requires StepEnabled(w, step) && NoConflicts(w) && OneAtATime(w, step)
    ensures NoConflicts(Next(w, step))
  {
  }

  lemma NextKeepsAsLeft(w: World, step: Step)
    requires StepEnabled(w, step) && NoConflicts(w) && AllAsLeft(w)
    ensures AllAsLeft(Next(w, step))
  {
    var after := Next(w, step);
    forall call, key |
      call in after.calls && after.calls[call].stage != Storing && Touches(after.calls[call].effect, key)
      ensures key in after.state.rows <==> after.calls[call].effect.Put?
    {
      if step.Store? && step.call != call {
        assert !Conflict(w.calls[call].effect, w.calls[step.call].effect);
      }
    }
  }

  lemma {:induction false} SeparateCalls(w: World, steps: seq<Step>, n: nat)
    requires w == Idle(w.state) && n <= |steps| && ValidSteps(w, steps, n) && AllOneAtATime(w, steps, n)
    ensures NoConflicts(After(w, steps, n)) && AllAsLeft(After(w, steps, n)) && NoticesFit(After(w, steps, n))
  {
    if n > 0 {
      SeparateCalls(w, steps, n - 1);
      NextKeepsNoConflicts(After(w, steps, n - 1), steps[n - 1]);
      NextKeepsAsLeft(After(w, steps, n - 1), steps[n - 1]);
      NextKeepsNoticesFit(After(w, steps, n - 1), steps[n - 1]);
    }
  }

  /**
   * As long as calls for one subject or its application do not overlap, log and rows agree on every
   * key of which nothing is left to emit, whatever calls for other subjects come in between. Once no
   * call is in progress the log alone tells which assignments are stored.
   */
  lemma {:induction false} SeparateCallsKeepLog(w: World, steps: seq<Step>, n: nat)
    requires w == Idle(w.state) && Fresh(w.state)
    requires n <= |steps| && ValidSteps(w, steps, n) && AllOneAtATime(w, steps, n)
    ensures LogAgrees(After(w, steps, n))
    ensures var after := After(w, steps, n);
            after.calls == map[] ==> Replay(after.state.events) == after.state.rows.Keys
  {
    if n > 0 {
      SeparateCallsKeepLog(w, steps, n - 1);
      SeparateCalls(w, steps, n - 1);
      LogStep(After(w, steps, n - 1), steps[n - 1]);
    }
    if After(w, steps, n).calls == map[] {
      SettledLogRebuildsRows(After(w, steps, n));
    }
  }

  // ----- a run in which an event is late

  /** A call that stores at step n of a run. */
  lemma StoreAt(w0: World, steps: seq<Step>, n: nat, call: nat) returns (w': World)
    requires n < |steps| && steps[n] == Store(call) && ValidSteps(w0, steps, n)
    requires var w := After(w0, steps, n);
             call in w.calls && w.calls[call].stage == Storing && Storable(w.state, w.calls[call].effect)
    ensures ValidSteps(w0, steps, n + 1) && w' == After(w0, steps, n + 1)
    ensures var w := After(w0, steps, n);
            w' == World(Stored(w.state, w.calls[call].effect), w.calls[call := w.calls[call].(stage := Emitting)])
  {
    NextStep(w0, steps, n);
    w' := After(w0, steps, n + 1);
  }

  /** A call that emits and notifies at steps n and n + 1 of a run. */
  lemma AnnounceAt(w0: World, steps: seq<Step>, n: nat, call: nat) returns (w': World)
    requires n + 1 < |steps| && steps[n] == Emit(call) && steps[n + 1] == Notify(call) && ValidSteps(w0, steps, n)
    requires var w := After(w0, steps, n);
             call in w.calls && w.calls[call].stage == Emitting && w.calls[call].notice.Some?
    ensures ValidSteps(w0, steps, n + 2) && w' == After(w0, steps, n + 2)
    ensures var w := After(w0, steps, n);
            && w'.calls == w.calls - {call}
            && w'.state == w.state.(events := w.state.events + [EventOf(w.calls[call].effect)],
                                    notices := w.state.notices + [w.calls[call].notice.value])
  {
    NextStep(w0, steps, n);
    NextStep(w0, steps, n + 1);
    w' := After(w0, steps, n + 2);
  }

  lemma ReplayTwo(key: Key)
    ensures Replay([Unassigned(key), Assigned(key)]) == {key}
  {
    ReplayMore([], Unassigned(key));
    ReplayMore([Unassigned(key)], Assigned(key));
    assert [] + [Unassigned(key)] == [Unassigned(key)];
    assert [Unassigned(key)] + [Assigned(key)] == [Unassigned(key), Assigned(key)];
  }

  /** The run of LateEventBreaksLog: the second call begins and ends between two steps of the first. */
  function LateRun(op: Op): seq<Step>
    requires op.AssignDesiredOp?
  {
    [Begin(0, op), Store(0), Begin(1, UnassignDesiredOp(op.tenant, op.app, op.user)), Store(1),
     Emit(1), Notify(1), Emit(0), Notify(0)]
  }

  lemma LateStart(s: State, op: Op) returns (w: World, put: Effect)
    requires Fresh(s) && op.AssignDesiredOp? && Refusal(s, op).None?
    ensures var key := UserKey(op.tenant, op.app, op.user);
            && ValidSteps(Idle(s), LateRun(op), 3) && w == After(Idle(s), LateRun(op), 3)
            && put.Put? && put.key == key
            && w.calls.Keys == {0, 1}
            && w.calls[0] == Call(put, Some(Notice(key, Added)), Emitting)
            && w.calls[1] == Call(Drop(key), Some(Notice(key, Removed)), Storing)
            && w.state.rows.Keys == {key} && w.state.events == [] && w.state.notices == []
  {
    var steps, key := LateRun(op), UserKey(op.tenant, op.app, op.user);
    var assign := Lookup(s, op).value;
    put := assign.effect;
    NextStep(Idle(s), steps, 0);
    var w2 := StoreAt(Idle(s), steps, 1, 0);
    NextStep(Idle(s), steps, 2);
    w := After(Idle(s), steps, 3);
  }

  lemma LateMiddle(s: State, op: Op) returns (w: World, put: Effect)
    requires Fresh(s) && op.AssignDesiredOp? && Refusal(s, op).None?
    ensures var key := UserKey(op.tenant, op.app, op.user);
            && ValidSteps(Idle(s), LateRun(op), 6) && w == After(Idle(s), LateRun(op), 6)
            && put.Put? && put.key == key
            && w.calls == map[0 := Call(put, Some(Notice(key, Added)), Emitting)]
            && w.state.rows.Keys == {}
            && w.state.events == [Unassigned(key)] && w.state.notices == [Notice(key, Removed)]
  {
    var w3: World;
    w3, put := LateStart(s, op);
    var w4 := StoreAt(Idle(s), LateRun(op), 3, 1);
    w := AnnounceAt(Idle(s), LateRun(op), 4, 1);
  }

  /**
   * An assigning call stores its row, a withdrawing call runs from its lookup to its end, and then the
   * first call emits and notifies: no row is left, but the log and the last notice say there is one.
   */
  lemma LateEventBreaksLog(s: State, op: Op) returns (steps: seq<Step>)
    requires Fresh(s) && op.AssignDesiredOp? && Refusal(s, op).None?
    ensures |steps| == 8 && ValidSteps(Idle(s), steps, 8) && After(Idle(s), steps, 8).calls == map[]
    ensures var after, key := After(Idle(s), steps, 8).state, UserKey(op.tenant, op.app, op.user);
            && after.rows.Keys == {} && Replay(after.events) == {key}
            && Triggers(after.notices, key) == [Removed, Added]
  {
    steps := LateRun(op);
    var key := UserKey(op.tenant, op.app, op.user);
    var w6, put := LateMiddle(s, op);
    var w8 := AnnounceAt(Idle(s), steps, 6, 0);
    assert w8.state.events == [Unassigned(key), Assigned(key)];
    assert w8.state.notices == [Notice(key, Removed), Notice(key, Added)];
    ReplayTwo(key);
    TwoTriggers(Notice(key, Removed), Notice(key, Added), key);
  }
}
