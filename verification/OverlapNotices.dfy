/** Calls that overlap, and what provisioning is told: alternation of the notices, and agreement with the rows. */
module OverlapNotices {
  import opened GoValues
  import opened Assignments
  import opened AssignmentRuns
  import opened AssignmentOverlaps

  // ----- what provisioning was told last

  /** The last notice of a key was of an addition, or there was none and the key was stored at the start. */
  ghost predicate Told(notices: seq<Notice>, start: Rows, key: Key) {
    var triggers := Triggers(notices, key);
    if triggers == [] then key in start else triggers[|triggers| - 1] == Added
  }

  lemma ToldMore(notices: seq<Notice>, n: Notice, start: Rows, key: Key)
    ensures Told(notices + [n], start, key) <==> if n.key == key then n.trigger == Added else Told(notices, start, key)
  {
    TriggersMore(notices, n, key);
  }

  lemma DueIsNews(triggers: seq<Trigger>, stored: bool)
    requires Alternates(triggers, stored)
    ensures Due(|triggers|, stored) == Removed <==>
            if triggers == [] then stored else triggers[|triggers| - 1] == Added
  {
    if triggers != [] {
      DueAlternates(|triggers| - 1, stored);
    }
  }

  /** Alternation and being told as stored are together what being in step is. */
  lemma InStepMeans(s: State, start: Rows)
    ensures InStep(s, start) <==>
            AllAlternate(s, start) &&
            forall key: Key :: key.subjectType == USER ==> (Told(s.notices, start, key) <==> key in s.rows)
  {
    forall key: Key | key.subjectType == USER
      ensures InStepAt(s, start, key) <==>
              Alternates(Triggers(s.notices, key), key in start) && (Told(s.notices, start, key) <==> key in s.rows)
    {
      if Alternates(Triggers(s.notices, key), key in start) {
        DueIsNews(Triggers(s.notices, key), key in start);
      }
    }
    if InStep(s, start) {
      forall key: Key | key.subjectType == USER
        ensures Alternates(Triggers(s.notices, key), key in start) && (Told(s.notices, start, key) <==> key in s.rows)
      {
        assert InStepAt(s, start, key);
      }
    }
  }

  // ----- alternation alone

  /** The notice says what its user was told last. */
  ghost predicate SaysNothingNew(w: World, step: Step, start: Rows)
    requires StepEnabled(w, step)
  {
    step.Notify? &&
    var n := w.calls[step.call].notice.value;
    n.trigger == Added <==> Told(w.state.notices, start, n.key)
  }

  lemma NoticeAlternates(notices: seq<Notice>, n: Notice, start: Rows, key: Key)
    requires Alternates(Triggers(notices, key), key in start)
    ensures Alternates(Triggers(notices + [n], key), key in start) <==>
            !(n.key == key && (n.trigger == Added <==> Told(notices, start, key)))
  {
    TriggersMore(notices, n, key);
    AlternationAtKey(Triggers(notices, key), key in start, n.trigger);
    DueIsNews(Triggers(notices, key), key in start);
  }

  lemma StepAlternatesExactly(w: World, step: Step, start: Rows)
    requires StepEnabled(w, step) && NoticesFit(w) && AllAlternate(w.state, start)
    ensures AllAlternate(Next(w, step).state, start) <==> !SaysNothingNew(w, step, start)
  {
    if step.Notify? {
      var n, after := w.calls[step.call].notice.value, Next(w, step).state;
      assert NoticeFits(w.calls[step.call]) && after.notices == w.state.notices + [n];
      forall key: Key | key.subjectType == USER
        ensures Alternates(Triggers(after.notices, key), key in start) <==>
                !(n.key == key && (n.trigger == Added <==> Told(w.state.notices, start, key)))
      {
        NoticeAlternates(w.state.notices, n, start, key);
      }
    } else {
      assert Next(w, step).state.notices == w.state.notices;
    }
  }

  lemma TriggersGrow(w: World, step: Step, key: Key)
    requires StepEnabled(w, step)
    ensures Triggers(w.state.notices, key) <= Triggers(Next(w, step).state.notices, key)
  {
    if step.Notify? {
      TriggersMore(w.state.notices, w.calls[step.call].notice.value, key);
    } else {
      assert Next(w, step).state.notices == w.state.notices;
    }
  }

  lemma PrefixAlternates(earlier: seq<Trigger>, later: seq<Trigger>, stored: bool)
    requires earlier <= later && Alternates(later, stored)
    ensures Alternates(earlier, stored)
  {
    assert forall i :: 0 <= i < |earlier| ==> earlier[i] == later[i];
  }

  lemma AlternatedEarlier(w: World, step: Step, start: Rows)
    requires StepEnabled(w, step) && AllAlternate(Next(w, step).state, start)
    ensures AllAlternate(w.state, start)
  {
    forall key: Key | key.subjectType == USER ensures Alternates(Triggers(w.state.notices, key), key in start) {
      TriggersGrow(w, step, key);
      PrefixAlternates(Triggers(w.state.notices, key), Triggers(Next(w, step).state.notices, key), key in start);
    }
  }

  ghost predicate AlwaysNews(w: World, steps: seq<Step>, n: nat)
    requires n <= |steps| && ValidSteps(w, steps, n)
  {
    n > 0 ==>
      AlwaysNews(w, steps, n - 1) && !SaysNothingNew(After(w, steps, n - 1), steps[n - 1], w.state.rows)
  }

  lemma {:induction false} NoticesStayFit(w: World, steps: seq<Step>, n: nat)
    requires w == Idle(w.state) && n <= |steps| && ValidSteps(w, steps, n)
    ensures NoticesFit(After(w, steps, n))
  {
    if n > 0 {
      NoticesStayFit(w, steps, n - 1);
      NextKeepsNoticesFit(After(w, steps, n - 1), steps[n - 1]);
    }
  }

  /**
   * However calls overlap, added and removed alternate strictly for every user exactly when no call
   * notifies of what its user was told last, by whichever call.
   */
  lemma {:induction false} OverlapRunAlternatesExactly(w: World, steps: seq<Step>, n: nat)
    requires w == Idle(w.state) && w.state.notices == [] && n <= |steps| && ValidSteps(w, steps, n)
    ensures AllAlternate(After(w, steps, n).state, w.state.rows) <==> AlwaysNews(w, steps, n)
  {
    if n > 0 {
      OverlapRunAlternatesExactly(w, steps, n - 1);
      NoticesStayFit(w, steps, n - 1);
      var before := After(w, steps, n - 1);
      if AllAlternate(before.state, w.state.rows) {
        StepAlternatesExactly(before, steps[n - 1], w.state.rows);
      } else if AllAlternate(After(w, steps, n).state, w.state.rows) {
        AlternatedEarlier(before, steps[n - 1], w.state.rows);
      }
    }
  }

  // ----- agreement with the rows

  predicate Owes(c: Call, key: Key) {
    c.stage != Storing && c.notice.Some? && c.notice.value.key == key
  }

  /** A call other than the given one has changed the row of a user and not notified yet. */
  ghost predicate UnannouncedBut(w: World, but: Option<nat>, key: Key) {
    exists call :: call in w.calls && Some(call) != but && Owes(w.calls[call], key)
  }

  /** Users of whom nothing is left to notify were last told of as they are stored. */
  ghost predicate ToldAsStored(w: World, start: Rows) {
    forall key: Key :: key.subjectType == USER ==>
      UnannouncedBut(w, None, key) || (Told(w.state.notices, start, key) <==> key in w.state.rows)
  }

  /** The change comes without a notice and changes the presence of a user's row. */
  ghost predicate ChangesSilently(w: World, call: nat, key: Key)
    requires call in w.calls
  {
    var c := w.calls[call];
    && c.notice.None? && Storable(w.state, c.effect) && Touches(c.effect, key)
    && (key in w.state.rows <==> !c.effect.Put?)
  }

  /** A notice that is not true of the row any more, or a change without one. */
  ghost predicate Misinforms(w: World, step: Step)
    requires StepEnabled(w, step)
  {
    match step
    case Store(call) =>
      exists key: Key :: key.subjectType == USER && !UnannouncedBut(w, None, key) && ChangesSilently(w, call, key)
    case Notify(call) =>
      var n := w.calls[call].notice.value;
      !UnannouncedBut(w, Some(call), n.key) && (n.trigger == Added <==> n.key !in w.state.rows)
    case _ => false
  }

  lemma NotifyAtKey(w: World, call: nat, start: Rows, key: Key)
    requires StepEnabled(w, Notify(call))
    ensures UnannouncedBut(Next(w, Notify(call)), None, key) <==> UnannouncedBut(w, Some(call), key)
    ensures UnannouncedBut(w, None, key) <==>
            UnannouncedBut(w, Some(call), key) || w.calls[call].notice.value.key == key
    ensures var n := w.calls[call].notice.value;
            Told(Next(w, Notify(call)).state.notices, start, key) <==>
            if n.key == key then n.trigger == Added else Told(w.state.notices, start, key)
  {
    var after := Next(w, Notify(call));
    ToldMore(w.state.notices, w.calls[call].notice.value, start, key);
    if UnannouncedBut(w, Some(call), key) {
      var c :| c in w.calls && Some(c) != Some(call) && Owes(w.calls[c], key);
      assert c in after.calls && after.calls[c] == w.calls[c];
    }
    if UnannouncedBut(after, None, key) {
      var c :| c in after.calls && Owes(after.calls[c], key);
      assert c != call && w.calls[c] == after.calls[c];
    }
  }

  lemma NotifyInforms(w: World, call: nat, start: Rows)
    requires StepEnabled(w, Notify(call)) && NoticesFit(w) && ToldAsStored(w, start)
    ensures ToldAsStored(Next(w, Notify(call)), start) <==> !Misinforms(w, Notify(call))
  {
    var after, n := Next(w, Notify(call)), w.calls[call].notice.value;
    assert NoticeFits(w.calls[call]);
    forall key: Key | key.subjectType == USER
      ensures (UnannouncedBut(after, None, key) || (Told(after.state.notices, start, key) <==> key in after.state.rows))
              <==> !(key == n.key && Misinforms(w, Notify(call)))
    {
      NotifyAtKey(w, call, start, key);
    }
  }

  /** Only a change without a notice can make an announced key disagree. */
  lemma StoreAnnounced(w: World, call: nat, key: Key)
    requires StepEnabled(w, Store(call)) && NoticesFit(w) && key.subjectType == USER
    ensures var after := Next(w, Store(call));
            && (UnannouncedBut(w, None, key) ==> UnannouncedBut(after, None, key))
            && (UnannouncedBut(after, None, key) <==>
                UnannouncedBut(w, None, key)
                || (w.calls[call].notice.Some? && w.calls[call].notice.value.key == key
                    && Storable(w.state, w.calls[call].effect)))
  {
    var after := Next(w, Store(call));
    if UnannouncedBut(w, None, key) {
      var c :| c in w.calls && Owes(w.calls[c], key);
      assert c in after.calls && after.calls[c] == w.calls[c];
    }
    if UnannouncedBut(after, None, key) {
      var c :| c in after.calls && Owes(after.calls[c], key);
      assert c != call ==> w.calls[c] == after.calls[c];
    }
    if Storable(w.state, w.calls[call].effect) && w.calls[call].notice.Some? && w.calls[call].notice.value.key == key {
      assert call in after.calls && Owes(after.calls[call], key);
    }
  }

  lemma StorePresence(w: World, call: nat, key: Key)
    requires StepEnabled(w, Store(call)) && NoticesFit(w)
    ensures var c, after := w.calls[call], Next(w, Store(call));
            (c.notice.Some? && c.notice.value.key == key && Storable(w.state, c.effect))
            || ((key in after.state.rows <==> key in w.state.rows) <==> !ChangesSilently(w, call, key))
  {
    assert NoticeFits(w.calls[call]);
  }

  lemma StoreInforms(w: World, call: nat, start: Rows)
    requires StepEnabled(w, Store(call)) && NoticesFit(w) && ToldAsStored(w, start)
    ensures ToldAsStored(Next(w, Store(call)), start) <==> !Misinforms(w, Store(call))
  {
    var after := Next(w, Store(call));
    assert after.state.notices == w.state.notices;
    forall key: Key | key.subjectType == USER
      ensures (UnannouncedBut(after, None, key) || (Told(after.state.notices, start, key) <==> key in after.state.rows))
              <==> !(!UnannouncedBut(w, None, key) && ChangesSilently(w, call, key))
    {
      StoreAnnounced(w, call, key);
      StorePresence(w, call, key);
      assert NoticeFits(w.calls[call]);
    }
  }

  lemma UnannouncedElsewhere(w: World, step: Step, key: Key)
    requires StepEnabled(w, step) && !step.Store? && !step.Notify?
    ensures UnannouncedBut(Next(w, step), None, key) <==> UnannouncedBut(w, None, key)
  {
    var after := Next(w, step);
    if UnannouncedBut(w, None, key) {
      var c :| c in w.calls && Owes(w.calls[c], key);
      assert c in after.calls && Owes(after.calls[c], key);
    }
    if UnannouncedBut(after, None, key) {
      var c :| c in after.calls && Owes(after.calls[c], key);
      assert c in w.calls && Owes(w.calls[c], key);
    }
  }

  lemma StepInformsExactly(w: World, step: Step, start: Rows)
    requires StepEnabled(w, step) && NoticesFit(w) && ToldAsStored(w, start)
    ensures ToldAsStored(Next(w, step), start) <==> !Misinforms(w, step)
  {
    if step.Store? {
      StoreInforms(w, step.call, start);
    } else if step.Notify? {
      NotifyInforms(w, step.call, start);
    } else {
      forall key ensures UnannouncedBut(Next(w, step), None, key) <==> UnannouncedBut(w, None, key) {
        UnannouncedElsewhere(w, step, key);
      }
    }
  }

  // ----- both together

  /** Notices alternate, and agree with the rows of users of whom nothing is left to notify. */
  ghost predicate OverlapInStep(w: World, start: Rows) {
    AllAlternate(w.state, start) && ToldAsStored(w, start)
  }

  /** Once no call is in progress this is what being in step means for calls one after another. */
  lemma IdleInStep(w: World, start: Rows)
    requires w.calls == map[]
    ensures OverlapInStep(w, start) <==> InStep(w.state, start)
  {
    InStepMeans(w.state, start);
    forall key ensures !UnannouncedBut(w, None, key) {
    }
  }

  ghost predicate StaysInStep(w: World, steps: seq<Step>, n: nat)
    requires n <= |steps| && ValidSteps(w, steps, n)
  {
    (n > 0 ==> StaysInStep(w, steps, n - 1)) && OverlapInStep(After(w, steps, n), w.state.rows)
  }

  ghost predicate NeverDisturbed(w: World, steps: seq<Step>, n: nat)
    requires n <= |steps| && ValidSteps(w, steps, n)
  {
    n > 0 ==>
      && NeverDisturbed(w, steps, n - 1)
      && !SaysNothingNew(After(w, steps, n - 1), steps[n - 1], w.state.rows)
      && !Misinforms(After(w, steps, n - 1), steps[n - 1])
  }

  /**
   * However calls overlap, notices alternate and agree with the rows throughout exactly when no notice
   * says what was told last, none is untrue of the row by then, and no row comes or goes without one.
   */
  lemma {:induction false} OverlapRunInStepExactly(w: World, steps: seq<Step>, n: nat)
    requires w == Idle(w.state) && w.state.notices == [] && n <= |steps| && ValidSteps(w, steps, n)
    ensures StaysInStep(w, steps, n) <==> NeverDisturbed(w, steps, n)
  {
    if n == 0 {
      StartInStep(w.state);
      IdleInStep(w, w.state.rows);
    } else {
      OverlapRunInStepExactly(w, steps, n - 1);
      NoticesStayFit(w, steps, n - 1);
      var before := After(w, steps, n - 1);
      if StaysInStep(w, steps, n - 1) {
        StepAlternatesExactly(before, steps[n - 1], w.state.rows);
        StepInformsExactly(before, steps[n - 1], w.state.rows);
      }
    }
  }

  // ----- desired-state calls for one user that do not overlap

  predicate OnlyDesiredSteps(steps: seq<Step>) {
    forall i :: 0 <= i < |steps| && steps[i].Begin? ==> OnlyDesired(steps[i].op)
  }

  /** What the lookup of a call found is so until the call stores. */
  ghost predicate LookupsHold(w: World) {
    forall call :: call in w.calls && w.calls[call].stage == Storing ==>
      var c := w.calls[call];
      && !c.effect.DropApp? && c.effect.key.subjectType == USER
      && (c.notice.Some? <==> (c.effect.key in w.state.rows <==> !c.effect.Put?))
  }

  /** Until a call notifies, its user was told the opposite of what it will say. */
  ghost predicate OwedIsNews(w: World, start: Rows) {
    forall call :: call in w.calls && w.calls[call].stage != Storing && w.calls[call].notice.Some? ==>
      var n := w.calls[call].notice.value;
      Told(w.state.notices, start, n.key) <==> n.trigger == Removed
  }

  lemma NextKeepsLookups(w: World, step: Step)
    requires StepEnabled(w, step) && NoConflicts(w) && LookupsHold(w)
    requires step.Begin? ==> OnlyDesired(step.op)
    ensures LookupsHold(Next(w, step))
  {
    var after := Next(w, step);
    forall call | call in after.calls && after.calls[call].stage == Storing
      ensures var c := after.calls[call];
              && !c.effect.DropApp? && c.effect.key.subjectType == USER
              && (c.notice.Some? <==> (c.effect.key in after.state.rows <==> !c.effect.Put?))
    {
      if call in w.calls {
        assert after.calls[call] == w.calls[call];
        if step.Store? {
          assert !Conflict(w.calls[call].effect, w.calls[step.call].effect);
        }
      }
    }
  }

  /** Without conflicts a call that has not stored yet is the only one to owe a notice of its user. */
  lemma NothingOwedBefore(w: World, call: nat)
    requires call in w.calls && NoConflicts(w) && NoticesFit(w) && !w.calls[call].effect.DropApp?
    ensures !UnannouncedBut(w, Some(call), w.calls[call].effect.key)
  {
    var key := w.calls[call].effect.key;
    forall c | c in w.calls && c != call ensures !Owes(w.calls[c], key) {
      assert NoticeFits(w.calls[c]) && !Conflict(w.calls[call].effect, w.calls[c].effect);
    }
  }

  lemma StoreOwesNews(w: World, call: nat, start: Rows)
    requires StepEnabled(w, Store(call)) && NoConflicts(w) && NoticesFit(w) && LookupsHold(w)
    requires ToldAsStored(w, start)
    ensures var c := w.calls[call];
            c.notice.Some? ==> (Told(w.state.notices, start, c.effect.key) <==> c.notice.value.trigger == Removed)
    ensures !Misinforms(w, Store(call))
  {
    var c := w.calls[call];
    NothingOwedBefore(w, call);
    assert NoticeFits(c) && !Owes(c, c.effect.key);
    assert !UnannouncedBut(w, None, c.effect.key);
  }

  lemma NotifyKeepsOwed(w: World, call: nat, start: Rows, other: nat)
    requires StepEnabled(w, Notify(call)) && NoConflicts(w) && NoticesFit(w)
    requires other in w.calls && other != call && w.calls[other].notice.Some?
    ensures var key := w.calls[other].notice.value.key;
            Told(Next(w, Notify(call)).state.notices, start, key) <==> Told(w.state.notices, start, key)
  {
    assert !Conflict(w.calls[other].effect, w.calls[call].effect);
    assert NoticeFits(w.calls[other]) && NoticeFits(w.calls[call]);
    ToldMore(w.state.notices, w.calls[call].notice.value, start, w.calls[other].notice.value.key);
  }

  lemma NextKeepsOwed(w: World, step: Step, start: Rows)
    requires StepEnabled(w, step) && NoConflicts(w) && NoticesFit(w) && LookupsHold(w)
    requires ToldAsStored(w, start) && OwedIsNews(w, start)
    ensures OwedIsNews(Next(w, step), start)
  {
    var after := Next(w, step);
    forall call | call in after.calls && after.calls[call].stage != Storing && after.calls[call].notice.Some?
      ensures var n := after.calls[call].notice.value;
              Told(after.state.notices, start, n.key) <==> n.trigger == Removed
    {
      assert call in w.calls && w.calls[call].notice == after.calls[call].notice;
      if step == Store(call) {
        StoreOwesNews(w, call, start);
        assert NoticeFits(w.calls[call]);
      } else if step.Notify? {
        NotifyKeepsOwed(w, step.call, start, call);
      }
    }
  }

  lemma NotifyIsTrue(w: World, call: nat, start: Rows)
    requires StepEnabled(w, Notify(call)) && NoticesFit(w) && AllAsLeft(w) && OwedIsNews(w, start)
    ensures !SaysNothingNew(w, Notify(call), start) && !Misinforms(w, Notify(call))
  {
    assert NoticeFits(w.calls[call]) && Touches(w.calls[call].effect, w.calls[call].notice.value.key);
  }

  /**
   * As long as desired-state calls for one user do not overlap, notices alternate and agree with the
   * rows, whatever calls for other users and changes of applications and subjects come in between.
   */
  lemma {:induction false} SeparateCallsAlternate(w: World, steps: seq<Step>, n: nat)
    requires w == Idle(w.state) && w.state.notices == [] && OnlyDesiredSteps(steps)
    requires n <= |steps| && ValidSteps(w, steps, n) && AllOneAtATime(w, steps, n)
    ensures OverlapInStep(After(w, steps, n), w.state.rows)
    ensures LookupsHold(After(w, steps, n)) && OwedIsNews(After(w, steps, n), w.state.rows)
    ensures After(w, steps, n).calls == map[] ==> InStep(After(w, steps, n).state, w.state.rows)
  {
    if n == 0 {
      StartInStep(w.state);
      IdleInStep(w, w.state.rows);
    } else {
      SeparateCallsAlternate(w, steps, n - 1);
      SeparateCalls(w, steps, n - 1);
      NextInStep(After(w, steps, n - 1), steps[n - 1], w.state.rows);
    }
    if After(w, steps, n).calls == map[] {
      IdleInStep(After(w, steps, n), w.state.rows);
    }
  }

  lemma NextInStep(w: World, step: Step, start: Rows)
    requires StepEnabled(w, step) && NoConflicts(w) && AllAsLeft(w) && NoticesFit(w)
    requires LookupsHold(w) && OwedIsNews(w, start) && OverlapInStep(w, start)
    requires step.Begin? ==> OnlyDesired(step.op)
    ensures LookupsHold(Next(w, step)) && OwedIsNews(Next(w, step), start) && OverlapInStep(Next(w, step), start)
  {
    NextKeepsLookups(w, step);
    NextKeepsOwed(w, step, start);
    StepAlternatesExactly(w, step, start);
    StepInformsExactly(w, step, start);
    if step.Store? {
      StoreOwesNews(w, step.call, start);
    } else if step.Notify? {
      NotifyIsTrue(w, step.call, start);
    }
  }

  // ----- a run in which alternation breaks

  function TwiceRun(op: Op): seq<Step>
    requires op.AssignDesiredOp?
  {
    [Begin(0, op), Begin(1, op), Store(0), Emit(0), Notify(0), Store(1), Emit(1), Notify(1)]
  }

  lemma TwiceStart(s: State, op: Op) returns (w: World)
    requires Fresh(s) && op.AssignDesiredOp? && Refusal(s, op).None?
    ensures ValidSteps(Idle(s), TwiceRun(op), 2) && w == After(Idle(s), TwiceRun(op), 2)
    ensures w.state == s && w.calls.Keys == {0, 1} && w.calls[0] == w.calls[1]
    ensures w.calls[0].stage == Storing && w.calls[0].effect.Put?
    ensures w.calls[0].notice == Some(Notice(UserKey(op.tenant, op.app, op.user), Added))
  {
    NextStep(Idle(s), TwiceRun(op), 0);
    NextStep(Idle(s), TwiceRun(op), 1);
    w := After(Idle(s), TwiceRun(op), 2);
  }

  lemma TwiceMiddle(s: State, op: Op) returns (w: World)
    requires Fresh(s) && op.AssignDesiredOp? && Refusal(s, op).None?
    ensures var key := UserKey(op.tenant, op.app, op.user);
            && ValidSteps(Idle(s), TwiceRun(op), 5) && w == After(Idle(s), TwiceRun(op), 5)
            && w.calls.Keys == {1} && w.calls[1].stage == Storing && w.calls[1].effect.Put?
            && w.calls[1].notice == Some(Notice(key, Added)) && w.state.notices == [Notice(key, Added)]
  {
    var w2 := TwiceStart(s, op);
    var w3 := StoreAt(Idle(s), TwiceRun(op), 2, 0);
    w := AnnounceAt(Idle(s), TwiceRun(op), 3, 0);
  }

  /** Two overlapping calls that assign one user announce the user twice as added. */
  lemma OverlapBreaksAlternation(s: State, op: Op) returns (steps: seq<Step>)
    requires Fresh(s) && op.AssignDesiredOp? && Refusal(s, op).None?
    ensures |steps| == 8 && ValidSteps(Idle(s), steps, 8)
    ensures var after, key := After(Idle(s), steps, 8).state, UserKey(op.tenant, op.app, op.user);
            Triggers(after.notices, key) == [Added, Added] && !AllAlternate(after, s.rows)
  {
    steps := TwiceRun(op);
    var key := UserKey(op.tenant, op.app, op.user);
    var w5 := TwiceMiddle(s, op);
    var w6 := StoreAt(Idle(s), steps, 5, 1);
    var w8 := AnnounceAt(Idle(s), steps, 6, 1);
    assert w8.state.notices == [Notice(key, Added), Notice(key, Added)];
    TwoTriggers(Notice(key, Added), Notice(key, Added), key);
    assert Triggers(w8.state.notices, key)[1] != Due(1, key in s.rows);
  }
}
