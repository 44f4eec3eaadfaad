/** Whole runs of the assignment operations: rows, event log and notices stay in agreement. */
module AssignmentRuns {
  import opened GoValues
  import opened Assignments

  /** The state after the first n calls of a run. */
  ghost function Run(s: State, ops: seq<Op>, n: nat): State
    requires n <= |ops|
  {
    if n == 0 then s else Apply(Run(s, ops, n - 1), ops[n - 1])
  }

  ghost predicate Fresh(s: State) {
    s.rows == map[] && s.events == [] && s.notices == []
  }

  // ----- the event log rebuilds the rows

  ghost function Effect(keys: set<Key>, e: Event): set<Key> {
    match e
    case Assigned(key) => keys + {key}
    case Unassigned(key) => keys - {key}
    case AppDeleted(tenant, app) => set k | k in keys && !OfApp(k, tenant, app)
  }

  ghost function Replay(events: seq<Event>): set<Key> {
    if events == [] then {} else Effect(Replay(events[..|events| - 1]), events[|events| - 1])
  }

  lemma ReplayMore(events: seq<Event>, e: Event)
    ensures Replay(events + [e]) == Effect(Replay(events), e)
  {
    assert (events + [e])[..|events|] == events;
  }

  /** The event that a call emits. */
  function Emitted(s: State, op: Op): Option<Event> {
    if Refusal(s, op).Some? then None else
    match op
    case AssignOp(key, _, _) => Some(Assigned(Trim(key)))
    case UnassignOp(key) => Some(Unassigned(key))
    case AssignDesiredOp(tenant, app, user, visibility, _) =>
      if AsDesired(s.rows, UserKey(tenant, app, user), visibility) then None
      else Some(Assigned(UserKey(tenant, app, user)))
    case UnassignDesiredOp(tenant, app, user) =>
      if UserKey(tenant, app, user) in s.rows then Some(Unassigned(UserKey(tenant, app, user))) else None
    case DeleteOp(tenant, app) => Some(AppDeleted(tenant, app))
    case Elsewhere(_, _) => None
  }

  lemma EmittedIsAppended(s: State, op: Op)
    ensures Apply(s, op).events == if Emitted(s, op).Some? then s.events + [Emitted(s, op).value] else s.events
  {
  }

  /** The event of a call says what the call does to the stored keys. */
  lemma EmittedIsEffect(s: State, op: Op)
    ensures Apply(s, op).rows.Keys ==
            if Emitted(s, op).Some? then Effect(s.rows.Keys, Emitted(s, op).value) else s.rows.Keys
  {
  }

  lemma StepKeepsReplay(s: State, op: Op)
    requires Replay(s.events) == s.rows.Keys
    ensures Replay(Apply(s, op).events) == Apply(s, op).rows.Keys
  {
    EmittedIsAppended(s, op);
    EmittedIsEffect(s, op);
    if Emitted(s, op).Some? {
      ReplayMore(s.events, Emitted(s, op).value);
    }
  }

  /** After any run of any of the operations, the log alone tells which assignments are stored. */
  lemma {:induction false} EventsRebuildRows(s: State, ops: seq<Op>, n: nat)
    requires Fresh(s) && n <= |ops|
    ensures Replay(Run(s, ops, n).events) == Run(s, ops, n).rows.Keys
  {
    if n > 0 {
      EventsRebuildRows(s, ops, n - 1);
      StepKeepsReplay(Run(s, ops, n - 1), ops[n - 1]);
    }
  }

  // ----- notices

  /** The triggers that a user was announced with, for one application. */
  ghost function Triggers(notices: seq<Notice>, key: Key): seq<Trigger> {
    if notices == [] then []
    else
      var before := Triggers(notices[..|notices| - 1], key);
      var last := notices[|notices| - 1];
      if last.key == key then before + [last.trigger] else before
  }

  lemma TriggersMore(notices: seq<Notice>, n: Notice, key: Key)
    ensures Triggers(notices + [n], key) ==
            if n.key == key then Triggers(notices, key) + [n.trigger] else Triggers(notices, key)
  {
    assert (notices + [n])[..|notices|] == notices;
  }

  /** The n-th trigger of a strict alternation; it starts with Removed for a user assigned at the start. */
  function Due(n: nat, stored: bool): Trigger {
    if (n % 2 == 0) != stored then Added else Removed
  }

  ghost predicate Alternates(triggers: seq<Trigger>, stored: bool) {
    forall i :: 0 <= i < |triggers| ==> triggers[i] == Due(i, stored)
  }

  /** Notices of a key alternate strictly, and the last one tells whether the row is there. */
  ghost predicate InStepAt(s: State, start: Rows, key: Key) {
    var triggers := Triggers(s.notices, key);
    && Alternates(triggers, key in start)
    && (key in s.rows <==> Due(|triggers|, key in start) == Removed)
  }

  ghost predicate InStep(s: State, start: Rows) {
    forall key: Key :: key.subjectType == USER ==> InStepAt(s, start, key)
  }

  /** Calls that announce a change that is none, or make a change that they do not announce. */
  ghost predicate Disturbs(s: State, op: Op) {
    && Refusal(s, op).None?
    && match op
       case AssignOp(key, _, _) => key.subjectType == USER && Trim(key) in s.rows
       case UnassignOp(key) => key.subjectType == USER && key !in s.rows
       case DeleteOp(tenant, app) => exists k :: k in s.rows && k.subjectType == USER && OfApp(k, tenant, app)
       case _ => false
  }

  lemma DueAlternates(n: nat, stored: bool)
    ensures Due(n + 1, stored) != Due(n, stored)
  {
  }

  /** A notice keeps a key in step exactly when it is due and the row changes with it. */
  lemma NoticeInStep(s: State, after: State, start: Rows, key: Key, trigger: Trigger)
    requires InStepAt(s, start, key) && after.notices == s.notices + [Notice(key, trigger)]
    requires key in after.rows <==> trigger == Added
    ensures InStepAt(after, start, key) <==> (key in s.rows <==> trigger == Removed)
  {
    TriggersMore(s.notices, Notice(key, trigger), key);
    DueAlternates(|Triggers(s.notices, key)|, key in start);
  }

  lemma SilentInStep(s: State, after: State, start: Rows, key: Key)
    requires InStepAt(s, start, key) && Triggers(after.notices, key) == Triggers(s.notices, key)
    ensures InStepAt(after, start, key) <==> (key in s.rows <==> key in after.rows)
  {
  }

  /** Whether a step keeps a key in step can be told before the step. */
  ghost predicate DisturbsAt(s: State, op: Op, key: Key) {
    && Refusal(s, op).None?
    && match op
       case AssignOp(given, _, _) => Trim(given) == key && key in s.rows
       case UnassignOp(given) => given == key && key !in s.rows
       case DeleteOp(tenant, app) => OfApp(key, tenant, app) && key in s.rows
       case _ => false
  }

  lemma StepAtKey(s: State, op: Op, start: Rows, key: Key)
    requires key.subjectType == USER && InStepAt(s, start, key)
    ensures InStepAt(Apply(s, op), start, key) <==> !DisturbsAt(s, op, key)
  {
    var after := Apply(s, op);
    if after.notices == s.notices {
      SilentInStep(s, after, start, key);
    } else {
      var n := after.notices[|after.notices| - 1];
      assert after.notices == s.notices + [n];
      if n.key == key {
        assert n == Notice(key, n.trigger);
        NoticeInStep(s, after, start, key, n.trigger);
      } else {
        TriggersMore(s.notices, n, key);
        SilentInStep(s, after, start, key);
      }
    }
  }

  lemma StepInStep(s: State, op: Op, start: Rows)
    requires InStep(s, start)
    ensures InStep(Apply(s, op), start) <==> !Disturbs(s, op)
  {
    forall key: Key | key.subjectType == USER ensures InStepAt(Apply(s, op), start, key) <==> !DisturbsAt(s, op, key) {
      StepAtKey(s, op, start, key);
    }
    if Disturbs(s, op) {
      var key := match op
        case AssignOp(given, _, _) => Trim(given)
        case UnassignOp(given) => given
        case DeleteOp(tenant, app) => (var k :| k in s.rows && k.subjectType == USER && OfApp(k, tenant, app); k)
        case _ => UserKey("", "", "");
      assert DisturbsAt(s, op, key);
    }
  }

  lemma StartInStep(s: State)
    requires s.notices == []
    ensures InStep(s, s.rows)
  {
  }

  /** Notices alternate and agree with the stored rows after each of the first n calls. */
  ghost predicate StaysInStep(s: State, ops: seq<Op>, n: nat)
    requires n <= |ops|
  {
    (n > 0 ==> StaysInStep(s, ops, n - 1)) && InStep(Run(s, ops, n), s.rows)
  }

  ghost predicate NeverDisturbed(s: State, ops: seq<Op>, n: nat)
    requires n <= |ops|
  {
    n > 0 ==> NeverDisturbed(s, ops, n - 1) && !Disturbs(Run(s, ops, n - 1), ops[n - 1])
  }

  /**
   * Notices alternate and agree with the stored rows throughout a run exactly when no call of the run
   * disturbs them. Alternation alone is less: the deletion of an application breaks only the agreement.
   */
  lemma {:induction false} RunInStepExactly(s: State, ops: seq<Op>, n: nat)
    requires s.notices == [] && n <= |ops|
    ensures StaysInStep(s, ops, n) <==> NeverDisturbed(s, ops, n)
  {
    if n == 0 {
      StartInStep(s);
    } else {
      RunInStepExactly(s, ops, n - 1);
      if StaysInStep(s, ops, n - 1) {
        StepInStep(Run(s, ops, n - 1), ops[n - 1], s.rows);
      }
    }
  }

  // ----- alternation alone

  /** The notice that a call sends. */
  function Sent(s: State, op: Op): Option<Notice> {
    if Refusal(s, op).Some? then None else
    match op
    case AssignOp(key, _, _) => if key.subjectType == USER then Some(Notice(Trim(key), Added)) else None
    case UnassignOp(key) => if key.subjectType == USER then Some(Notice(key, Removed)) else None
    case AssignDesiredOp(tenant, app, user, _, _) =>
      var key := UserKey(tenant, app, user);
      if key in s.rows then None else Some(Notice(key, Added))
    case UnassignDesiredOp(tenant, app, user) =>
      var key := UserKey(tenant, app, user);
      if key in s.rows then Some(Notice(key, Removed)) else None
    case _ => None
  }

  lemma SentIsAppended(s: State, op: Op)
    ensures Apply(s, op).notices == if Sent(s, op).Some? then s.notices + [Sent(s, op).value] else s.notices
    ensures Sent(s, op).Some? ==> Sent(s, op).value.key.subjectType == USER
  {
  }

  /**
   * The users whose rows went with their application and who have not been announced again since:
   * provisioning was last told that they were added.
   */
  ghost function Orphans(s: State, ops: seq<Op>, n: nat): set<Key>
    requires n <= |ops|
  {
    if n == 0 then {} else OrphansAfter(Run(s, ops, n - 1), ops[n - 1], Orphans(s, ops, n - 1))
  }

  ghost function OrphansAfter(s: State, op: Op, orphans: set<Key>): set<Key> {
    if op.DeleteOp? && Refusal(s, op).None? then
      orphans + set k | k in s.rows && k.subjectType == USER && OfApp(k, op.tenant, op.app)
    else if Sent(s, op).Some? then orphans - {Sent(s, op).value.key}
    else orphans
  }

  /** Calls that assign a user who is stored or orphaned, or withdraw a user who is neither. */
  ghost predicate Repeats(s: State, op: Op, orphans: set<Key>) {
    && Refusal(s, op).None?
    && match op
       case AssignOp(key, _, _) => key.subjectType == USER && Trim(key) in s.rows.Keys + orphans
       case UnassignOp(key) => key.subjectType == USER && key !in s.rows.Keys + orphans
       case AssignDesiredOp(tenant, app, user, _, _) =>
         UserKey(tenant, app, user) in orphans && UserKey(tenant, app, user) !in s.rows
       case _ => false
  }

  /** The call sends of this key what provisioning was told last. */
  ghost predicate RepeatsAt(s: State, op: Op, orphans: set<Key>, key: Key) {
    && Sent(s, op).Some? && Sent(s, op).value.key == key
    && (Sent(s, op).value.trigger == Added <==> key in s.rows.Keys + orphans)
  }

  /** These calls, and no others, repeat a notice. */
  lemma RepeatsItsNotice(s: State, op: Op, orphans: set<Key>)
    ensures Repeats(s, op, orphans) <==> Sent(s, op).Some? && RepeatsAt(s, op, orphans, Sent(s, op).value.key)
  {
  }

  /** Notices of a key alternate, and the last one was of an addition exactly for the stored and the orphaned. */
  ghost predicate ToldAt(s: State, start: Rows, orphans: set<Key>, key: Key) {
    var triggers := Triggers(s.notices, key);
    && Alternates(triggers, key in start)
    && (key in s.rows.Keys + orphans <==> Due(|triggers|, key in start) == Removed)
  }

  ghost predicate AllToldOf(s: State, start: Rows, orphans: set<Key>) {
    forall key: Key :: key.subjectType == USER ==> ToldAt(s, start, orphans, key)
  }

  ghost predicate AllAlternate(s: State, start: Rows) {
    forall key: Key :: key.subjectType == USER ==> Alternates(Triggers(s.notices, key), key in start)
  }

  lemma AlternationAtKey(triggers: seq<Trigger>, stored: bool, trigger: Trigger)
    requires Alternates(triggers, stored)
    ensures Alternates(triggers + [trigger], stored) <==> trigger == Due(|triggers|, stored)
  {
    var more := triggers + [trigger];
    assert more[|triggers|] == trigger;
  }

  /** A notice of a key that is told: it alternates exactly if it tells something new. */
  lemma ToldNext(s: State, after: State, start: Rows, orphans: set<Key>, left: set<Key>, n: Notice)
    requires ToldAt(s, start, orphans, n.key) && after.notices == s.notices + [n]
    requires n.key in after.rows.Keys + left <==> n.trigger == Added
    ensures Alternates(Triggers(after.notices, n.key), n.key in start) <==>
            !(n.trigger == Added <==> n.key in s.rows.Keys + orphans)
    ensures Alternates(Triggers(after.notices, n.key), n.key in start) ==> ToldAt(after, start, left, n.key)
  {
    TriggersMore(s.notices, n, n.key);
    AlternationAtKey(Triggers(s.notices, n.key), n.key in start, n.trigger);
    DueAlternates(|Triggers(s.notices, n.key)|, n.key in start);
  }

  lemma SentChangesRow(s: State, op: Op, orphans: set<Key>)
    requires Sent(s, op).Some?
    ensures var n := Sent(s, op).value;
            n.key in Apply(s, op).rows.Keys + OrphansAfter(s, op, orphans) <==> n.trigger == Added
  {
  }

  lemma OthersStayTold(s: State, op: Op, orphans: set<Key>, key: Key)
    requires key.subjectType == USER && (Sent(s, op).Some? ==> Sent(s, op).value.key != key)
    ensures key in Apply(s, op).rows.Keys + OrphansAfter(s, op, orphans) <==> key in s.rows.Keys + orphans
  {
  }

  lemma ToldAfter(s: State, op: Op, start: Rows, orphans: set<Key>, key: Key)
    requires key.subjectType == USER && ToldAt(s, start, orphans, key)
    ensures Alternates(Triggers(Apply(s, op).notices, key), key in start) <==> !RepeatsAt(s, op, orphans, key)
    ensures !RepeatsAt(s, op, orphans, key) ==> ToldAt(Apply(s, op), start, OrphansAfter(s, op, orphans), key)
  {
    SentIsAppended(s, op);
    var sent := Sent(s, op);
    if sent.Some? && sent.value.key == key {
      SentChangesRow(s, op, orphans);
      ToldNext(s, Apply(s, op), start, orphans, OrphansAfter(s, op, orphans), sent.value);
    } else {
      OthersStayTold(s, op, orphans, key);
      if sent.Some? {
        TriggersMore(s.notices, sent.value, key);
      }
    }
  }

  lemma StepAlternates(s: State, op: Op, start: Rows, orphans: set<Key>)
    requires AllToldOf(s, start, orphans)
    ensures AllAlternate(Apply(s, op), start) <==> !Repeats(s, op, orphans)
    ensures !Repeats(s, op, orphans) ==> AllToldOf(Apply(s, op), start, OrphansAfter(s, op, orphans))
  {
    RepeatsItsNotice(s, op, orphans);
    SentIsAppended(s, op);
    forall key: Key | key.subjectType == USER
      ensures Alternates(Triggers(Apply(s, op).notices, key), key in start) <==> !RepeatsAt(s, op, orphans, key)
      ensures !RepeatsAt(s, op, orphans, key) ==> ToldAt(Apply(s, op), start, OrphansAfter(s, op, orphans), key)
    {
      ToldAfter(s, op, start, orphans, key);
    }
    if Repeats(s, op, orphans) {
      assert RepeatsAt(s, op, orphans, Sent(s, op).value.key);
    }
  }

  /** A log in which notices alternate has alternated all along. */
  lemma AlternatedBefore(s: State, op: Op, start: Rows)
    requires AllAlternate(Apply(s, op), start)
    ensures AllAlternate(s, start)
  {
    SentIsAppended(s, op);
    forall key: Key | key.subjectType == USER ensures Alternates(Triggers(s.notices, key), key in start) {
      if Sent(s, op).Some? {
        TriggersMore(s.notices, Sent(s, op).value, key);
      }
      var before, after := Triggers(s.notices, key), Triggers(Apply(s, op).notices, key);
      assert forall i :: 0 <= i < |before| ==> before[i] == after[i];
    }
  }

  ghost predicate NeverRepeats(s: State, ops: seq<Op>, n: nat)
    requires n <= |ops|
  {
    n > 0 ==> NeverRepeats(s, ops, n - 1) && !Repeats(Run(s, ops, n - 1), ops[n - 1], Orphans(s, ops, n - 1))
  }

  /**
   * In a run of any of the operations each user is announced as added and removed in strict
   * alternation exactly when no call of it assigns a user who is stored or orphaned, or withdraws a
   * user who is neither.
   */
  lemma {:induction false} RunAlternatesExactly(s: State, ops: seq<Op>, n: nat)
    requires s.notices == [] && n <= |ops|
    ensures AllAlternate(Run(s, ops, n), s.rows) <==> NeverRepeats(s, ops, n)
    ensures NeverRepeats(s, ops, n) ==> AllToldOf(Run(s, ops, n), s.rows, Orphans(s, ops, n))
  {
    if n > 0 {
      RunAlternatesExactly(s, ops, n - 1);
      var before := Run(s, ops, n - 1);
      if NeverRepeats(s, ops, n - 1) {
        StepAlternates(before, ops[n - 1], s.rows, Orphans(s, ops, n - 1));
      } else if AllAlternate(Run(s, ops, n), s.rows) {
        AlternatedBefore(before, ops[n - 1], s.rows);
      }
    }
  }

  // ----- runs in which alternation breaks

  lemma TwoCalls(s: State, first: Op, second: Op)
    ensures Run(s, [first, second], 2) == Apply(Apply(s, first), second)
  {
    assert Run(s, [first, second], 0) == s;
    assert Run(s, [first, second], 1) == Apply(s, first);
  }

  lemma TwoTriggers(a: Notice, b: Notice, key: Key)
    requires a.key == b.key == key
    ensures Triggers([a, b], key) == [a.trigger, b.trigger]
  {
    assert [a, b] == [a] + [b] && [a] == [] + [a];
    TriggersMore([], a, key);
    TriggersMore([a], b, key);
  }

  /** Assigning a user twice announces the user twice as added. */
  lemma AssigningTwiceBreaksAlternation(s: State, key: Key, now: int) returns (ops: seq<Op>)
    requires Fresh(s) && key.subjectType == USER && Trim(key) == key && key.subject != ""
    requires (key.tenant, key.app) in s.apps && SubjectExists(s, key)
    ensures |ops| == 2 && Triggers(Run(s, ops, 2).notices, key) == [Added, Added]
    ensures !AllAlternate(Run(s, ops, 2), s.rows)
  {
    var op := AssignOp(key, VISIBLE, now);
    ops := [op, op];
    TwoCalls(s, op, op);
    assert Run(s, ops, 2).notices == [Notice(key, Added), Notice(key, Added)];
    TwoTriggers(Notice(key, Added), Notice(key, Added), key);
    var triggers := Triggers(Run(s, ops, 2).notices, key);
    assert triggers[1] != Due(1, key in s.rows);
  }

  lemma SilentDisturbance(s: State, op: Op, start: Rows)
    requires InStep(s, start) && Disturbs(s, op) && Apply(s, op).notices == s.notices
    ensures AllAlternate(Apply(s, op), start) && !InStep(Apply(s, op), start)
  {
    StepInStep(s, op, start);
    forall key: Key | key.subjectType == USER
      ensures Alternates(Triggers(Apply(s, op).notices, key), key in start)
    {
      assert InStepAt(s, start, key);
    }
  }

  /** Deleting an application with an assigned user disturbs the agreement, and alternation not at all. */
  lemma DeletingDisturbsOnlyAgreement(s: State, tenant: string, app: string, user: string, now: int)
    returns (ops: seq<Op>)
    requires Fresh(s) && (tenant, app) in s.apps && SubjectExists(s, UserKey(tenant, app, user))
    ensures |ops| == 2 && AllAlternate(Run(s, ops, 2), s.rows) && !InStep(Run(s, ops, 2), s.rows)
  {
    var assign, delete := AssignDesiredOp(tenant, app, user, VISIBLE, now), DeleteOp(tenant, app);
    ops := [assign, delete];
    TwoCalls(s, assign, delete);
    StartInStep(s);
    StepInStep(s, assign, s.rows);
    assert UserKey(tenant, app, user) in Apply(s, assign).rows;
    SilentDisturbance(Apply(s, assign), delete, s.rows);
  }

  // ----- runs of the desired-state operations alone

  predicate OnlyDesired(op: Op) {
    op.AssignDesiredOp? || op.UnassignDesiredOp? || op.Elsewhere?
  }

  /** Whatever else changes in the meantime, each user is announced as added and removed in strict alternation. */
  lemma {:induction false} DesiredRunsAlternate(s: State, ops: seq<Op>, n: nat)
    requires s.notices == [] && n <= |ops| && forall i :: 0 <= i < |ops| ==> OnlyDesired(ops[i])
    ensures InStep(Run(s, ops, n), s.rows)
  {
    if n == 0 {
      StartInStep(s);
    } else {
      DesiredRunsAlternate(s, ops, n - 1);
      StepInStep(Run(s, ops, n - 1), ops[n - 1], s.rows);
    }
  }

  lemma {:induction false} DesiredRunsLeaveGroups(s: State, ops: seq<Op>, n: nat, key: Key)
    requires n <= |ops| && key.subjectType != USER && forall i :: 0 <= i < |ops| ==> OnlyDesired(ops[i])
    ensures key in Run(s, ops, n).rows <==> key in s.rows
    ensures key in s.rows ==> Run(s, ops, n).rows[key] == s.rows[key]
  {
    if n > 0 {
      DesiredRunsLeaveGroups(s, ops, n - 1, key);
    }
  }

  // ----- single calls

  /** A call that succeeded leaves nothing for a second one to do. */
  lemma DesiredIsIdempotent(
    s: State, tenant: string, app: string, user: string, visibility: string, now: int, later: int)
    ensures var once := Apply(s, AssignDesiredOp(tenant, app, user, visibility, now));
            Apply(once, AssignDesiredOp(tenant, app, user, visibility, later)) == once
    ensures var once := Apply(s, UnassignDesiredOp(tenant, app, user));
            Apply(once, UnassignDesiredOp(tenant, app, user)) == once
  {
  }

  /** Withdrawing what a call has just assigned restores the rows. */
  lemma UnassignUndoesAssign(s: State, tenant: string, app: string, user: string, visibility: string, now: int)
    requires UserKey(tenant, app, user) !in s.rows
    ensures var given := Apply(s, AssignDesiredOp(tenant, app, user, visibility, now));
            Apply(given, UnassignDesiredOp(tenant, app, user)).rows == s.rows
  {
  }

  /** The tenant that a call concerns. */
  predicate Concerns(op: Op, tenant: string) {
    match op
    case AssignOp(key, _, _) => key.tenant == tenant
    case UnassignOp(key) => key.tenant == tenant
    case AssignDesiredOp(t, _, _, _, _) => t == tenant
    case UnassignDesiredOp(t, _, _) => t == tenant
    case DeleteOp(t, _) => t == tenant
    case Elsewhere(_, _) => false
  }

  /** A row keeps its time of creation for as long as it is stored, if it has one. */
  lemma {:induction false} CreationIsKept(s: State, ops: seq<Op>, n: nat, key: Key)
    requires n <= |ops| && forall k :: 0 <= k <= n ==> key in Run(s, ops, k).rows
    ensures key in s.rows && (s.rows[key].createdAt != ZERO_TIME ==>
              Run(s, ops, n).rows[key].createdAt == s.rows[key].createdAt)
  {
    if n == 0 {
      assert Run(s, ops, 0) == s;
    } else {
      CreationIsKept(s, ops, n - 1, key);
    }
  }

  /** Calls that concern other tenants leave the rows of a tenant as they are. */
  lemma {:induction false} TenantsAreApart(s: State, ops: seq<Op>, n: nat, key: Key)
    requires n <= |ops| && forall i :: 0 <= i < n ==> !Concerns(ops[i], key.tenant)
    ensures key in Run(s, ops, n).rows <==> key in s.rows
    ensures key in s.rows ==> Run(s, ops, n).rows[key] == s.rows[key]
  {
    if n > 0 {
      TenantsAreApart(s, ops, n - 1, key);
    }
  }
}
