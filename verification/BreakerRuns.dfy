/** Whole runs of a breaker: requests begin and complete in any order, completions can be late. */
module BreakerRuns {
  import opened CircuitBreaker

  /** The breaker, the number of admitted requests, and those whose hook has been called. */
  datatype World = World(breaker: Status, admitted: nat, done: set<nat>)

  datatype Event =
    | Begin(now: int)
    | Complete(request: nat, success: bool, now: int)

  const Start := World(Initial, 0, {})

  /** The completion counts: it is the first of its request. */
  predicate Counts(w: World, e: Event) {
    e.Complete? && e.request !in w.done
  }

  function Step(s: Settings, w: World, e: Event): World
    requires Usable(s)
  {
    match e
    case Begin(now) =>
      World(Current(w.breaker, now), if Admits(w.breaker, now) then w.admitted + 1 else w.admitted, w.done)
    case Complete(request, success, now) =>
      if request in w.done then w
      else World(Completed(s, w.breaker, success, now), w.admitted, w.done + {request})
  }

  /** Only admitted requests complete. */
  predicate ValidRun(s: Settings, events: seq<Event>)
    requires Usable(s)
  {
    events == [] ||
    (var last := |events| - 1;
     && ValidRun(s, events[..last])
     && (events[last].Complete? ==> events[last].request < Reach(s, events[..last]).admitted))
  }

  function Reach(s: Settings, events: seq<Event>): World
    requires Usable(s)
  {
    var last := |events| - 1;
    if last < 0 then Start else Step(s, Reach(s, events[..last]), events[last])
  }

  // ----- what the counters mean

  /** The event changes the state, if only to change it back. */
  predicate Changes(s: Settings, b: Status, w: World, e: Event)
    requires Usable(s)
  {
    match e
    case Begin(now) => Current(b, now).state != b.state
    case Complete(_, success, now) =>
      Counts(w, e) && (Current(b, now).state != b.state || Completed(s, b, success, now).state != b.state)
  }

  /** The number of events up to the last state change. */
  function LastChange(s: Settings, events: seq<Event>): (k: nat)
    requires Usable(s)
    ensures k <= |events|
  {
    var last := |events| - 1;
    if last < 0 then 0
    else
      var before := Reach(s, events[..last]);
      if Changes(s, before.breaker, before, events[last]) then |events| else LastChange(s, events[..last])
  }

  /** The completions that count from event k on, and the failures among them. */
  function Completions(s: Settings, events: seq<Event>, k: nat): nat
    requires Usable(s)
  {
    var last := |events| - 1;
    if last < k then 0
    else Completions(s, events[..last], k) + (if Counts(Reach(s, events[..last]), events[last]) then 1 else 0)
  }

  function FailuresSince(s: Settings, events: seq<Event>, k: nat): nat
    requires Usable(s)
  {
    var last := |events| - 1;
    if last < k then 0
    else
      FailuresSince(s, events[..last], k)
      + (if Counts(Reach(s, events[..last]), events[last]) && !events[last].success then 1 else 0)
  }

  /** One event resets the counters, counts, or leaves them. */
  lemma StepCounters(s: Settings, w: World, e: Event)
    requires Usable(s)
    ensures var b, b' := w.breaker, Step(s, w, e).breaker;
            if Changes(s, b, w, e) then b'.requests == 0 && b'.failures == 0
            else if !Counts(w, e) then b'.requests == b.requests && b'.failures == b.failures
            else b'.requests == (b.requests + 1) % TWO_32
                 && b'.failures == (if e.success then b.failures else (b.failures + 1) % TWO_32)
  {
  }

  lemma ModStep(n: nat, m: nat)
    requires m == n % TWO_32
    ensures (m + 1) % TWO_32 == (n + 1) % TWO_32
  {
  }

  /** A counter that is reset, counts or rests, beside the number that it stands for. */
  lemma CounterStands(reset: bool, counts: bool, m: nat, m': nat, n: nat, n': nat)
    requires m == n % TWO_32
    requires m' == if reset then 0 else if counts then (m + 1) % TWO_32 else m
    requires n' == if reset then 0 else if counts then n + 1 else n
    ensures m' == n' % TWO_32
  {
    ModStep(n, m);
  }

  /** What one more event adds to the numbers since the last change. */
  lemma OneMoreEvent(s: Settings, events: seq<Event>)
    requires Usable(s) && events != []
    ensures var last := |events| - 1;
            var w, e, k := Reach(s, events[..last]), events[last], LastChange(s, events[..last]);
            && Reach(s, events) == Step(s, w, e)
            && Completions(s, events, LastChange(s, events)) ==
               (if Changes(s, w.breaker, w, e) then 0
                else Completions(s, events[..last], k) + (if Counts(w, e) then 1 else 0))
            && FailuresSince(s, events, LastChange(s, events)) ==
               (if Changes(s, w.breaker, w, e) then 0
                else FailuresSince(s, events[..last], k) + (if Counts(w, e) && !e.success then 1 else 0))
  {
  }

  lemma {:induction false} RequestsMatch(s: Settings, events: seq<Event>)
    requires Usable(s)
    ensures Reach(s, events).breaker.requests == Completions(s, events, LastChange(s, events)) % TWO_32
  {
    if events != [] {
      var last := |events| - 1;
      var w, e, k := Reach(s, events[..last]), events[last], LastChange(s, events[..last]);
      RequestsMatch(s, events[..last]);
      OneMoreEvent(s, events);
      StepCounters(s, w, e);
      CounterStands(Changes(s, w.breaker, w, e), Counts(w, e), w.breaker.requests, Reach(s, events).breaker.requests,
                    Completions(s, events[..last], k), Completions(s, events, LastChange(s, events)));
    }
  }

  lemma {:induction false} FailuresMatch(s: Settings, events: seq<Event>)
    requires Usable(s)
    ensures Reach(s, events).breaker.failures == FailuresSince(s, events, LastChange(s, events)) % TWO_32
  {
    if events != [] {
      var last := |events| - 1;
      var w, e, k := Reach(s, events[..last]), events[last], LastChange(s, events[..last]);
      FailuresMatch(s, events[..last]);
      OneMoreEvent(s, events);
      StepCounters(s, w, e);
      CounterStands(Changes(s, w.breaker, w, e), Counts(w, e) && !e.success,
                    w.breaker.failures, Reach(s, events).breaker.failures,
                    FailuresSince(s, events[..last], k), FailuresSince(s, events, LastChange(s, events)));
    }
  }

  /** The counters hold the completions and failures since the last state change, modulo 2^32. */
  lemma CountersMatch(s: Settings, events: seq<Event>)
    requires Usable(s)
    ensures Reach(s, events).breaker.requests == Completions(s, events, LastChange(s, events)) % 0x1_0000_0000
    ensures Reach(s, events).breaker.failures == FailuresSince(s, events, LastChange(s, events)) % 0x1_0000_0000
  {
    RequestsMatch(s, events);
    FailuresMatch(s, events);
  }

  /** The resting states of a breaker. */
  predicate Resting(s: Settings, b: Status)
    requires Usable(s)
  {
    && (b.state == HalfOpen ==> b.requests == 0 && b.failures == 0)
    && (b.state == Closed ==> !TooManyFailures(s, b))
  }

  /** Half-open rests at zero; closed never rests at or above the threshold once it has enough requests. */
  lemma {:induction false} EveryStateRests(s: Settings, events: seq<Event>)
    requires Usable(s)
    ensures Resting(s, Reach(s, events).breaker)
  {
    if events != [] {
      EveryStateRests(s, events[..|events| - 1]);
    }
  }

  lemma ClosedBelowThreshold(s: Settings, b: Status, n: nat, f: nat)
    requires Usable(s) && Resting(s, b) && b.state == Closed && b.requests == n && b.failures == f
    ensures n < s.minRequests || (n > 0 && f as real / n as real < s.failureThreshold)
  {
  }

  lemma SmallMod(n: nat)
    requires n < TWO_32
    ensures n % TWO_32 == n
  {
  }

  /** With fewer than 2^32 completions since the last change, closed means: too few, or a rate below the threshold. */
  lemma ClosedMeansBelowThreshold(s: Settings, events: seq<Event>)
    requires Usable(s) && Reach(s, events).breaker.state == Closed
    requires Completions(s, events, LastChange(s, events)) < TWO_32
    ensures var n := Completions(s, events, LastChange(s, events));
            var f := FailuresSince(s, events, LastChange(s, events));
            n < s.minRequests || (n > 0 && f as real / n as real < s.failureThreshold)
  {
    var n := Completions(s, events, LastChange(s, events));
    var f := FailuresSince(s, events, LastChange(s, events));
    CountersMatch(s, events);
    EveryStateRests(s, events);
    FailuresAmongCompletions(s, events, LastChange(s, events));
    SmallMod(n);
    SmallMod(f);
    ClosedBelowThreshold(s, Reach(s, events).breaker, n, f);
  }

  lemma {:induction false} FailuresAmongCompletions(s: Settings, events: seq<Event>, k: nat)
    requires Usable(s)
    ensures FailuresSince(s, events, k) <= Completions(s, events, k)
  {
    if |events| > k {
      FailuresAmongCompletions(s, events[..|events| - 1], k);
    }
  }

  lemma ReachNext(s: Settings, events: seq<Event>, e: Event)
    requires Usable(s)
    ensures Reach(s, events + [e]) == Step(s, Reach(s, events), e)
  {
    assert (events + [e])[..|events + [e]| - 1] == events;
  }

  lemma ClosedOpens(s: Settings, b: Status, success: bool, now: int, n: nat, f: nat)
    requires Usable(s) && b.state == Closed
    requires n == b.requests + 1 < TWO_32 && f == (if success then b.failures else b.failures + 1) < TWO_32
    ensures Completed(s, b, success, now).state == Open <==>
            n >= s.minRequests && f as real / n as real >= s.failureThreshold
  {
    SmallMod(n);
    SmallMod(f);
  }

  /** A closed breaker opens exactly at a completion that brings enough of them and a rate at the threshold. */
  lemma OpensExactlyAtThreshold(s: Settings, events: seq<Event>, e: Event)
    requires Usable(s) && Reach(s, events).breaker.state == Closed && Counts(Reach(s, events), e)
    requires Completions(s, events, LastChange(s, events)) + 1 < TWO_32
    ensures var n := Completions(s, events, LastChange(s, events)) + 1;
            var f := FailuresSince(s, events, LastChange(s, events)) + (if e.success then 0 else 1);
            Reach(s, events + [e]).breaker.state == Open <==>
            n >= s.minRequests && f as real / n as real >= s.failureThreshold
  {
    var n := Completions(s, events, LastChange(s, events));
    var f := FailuresSince(s, events, LastChange(s, events));
    CountersMatch(s, events);
    FailuresAmongCompletions(s, events, LastChange(s, events));
    SmallMod(n);
    SmallMod(f);
    ReachNext(s, events, e);
    ClosedOpens(s, Reach(s, events).breaker, e.success, e.now, n + 1, if e.success then f else f + 1);
  }

  // ----- every admitted request counts at most once

  lemma {:induction false} RequestsCountOnce(s: Settings, events: seq<Event>)
    requires Usable(s) && ValidRun(s, events)
    ensures var w := Reach(s, events);
            && Completions(s, events, 0) == |w.done| <= w.admitted
            && forall r :: r in w.done ==> r < w.admitted
  {
    if events != [] {
      var w := Reach(s, events);
      RequestsCountOnce(s, events[..|events| - 1]);
      BoundedSetSize(w.done, w.admitted);
    }
  }

  lemma {:induction false} BoundedSetSize(a: set<nat>, n: nat)
    requires forall r :: r in a ==> r < n
    ensures |a| <= n
  {
    if n == 0 {
      assert a == {};
    } else {
      BoundedSetSize(a - {n - 1}, n - 1);
    }
  }

  // ----- open means open

  /** Up to its expiry an open breaker stays open under any begins and completions, and admits nothing. */
  lemma {:induction false} OpenUntilExpiry(s: Settings, events: seq<Event>, more: seq<Event>)
    requires Usable(s) && Reach(s, events).breaker.state == Open
    requires forall e :: e in more ==> e.now <= Reach(s, events).breaker.expiry
    ensures var w, w' := Reach(s, events), Reach(s, events + more);
            && w'.breaker.state == Open && w'.breaker.expiry == w.breaker.expiry
            && w'.admitted == w.admitted
  {
    if more == [] {
      assert events + more == events;
    } else {
      var last := |more| - 1;
      assert (events + more)[..|events + more| - 1] == events + more[..last];
      assert (events + more)[|events + more| - 1] == more[last] && more[last] in more;
      OpenUntilExpiry(s, events, more[..last]);
    }
  }

  /**
   * A breaker that an event at time t opens rejects every request begun up to and including t plus
   * the cooldown, whatever completes meanwhile, and admits the first one begun after that.
   */
  lemma OpenedRejectsThroughCooldown(s: Settings, events: seq<Event>, opening: Event, more: seq<Event>, next: int)
    requires Usable(s)
    requires var before := Reach(s, events);
             Changes(s, before.breaker, before, opening) && Reach(s, events + [opening]).breaker.state == Open
    requires forall e :: e in more ==> e.now <= opening.now + s.cooldown
    ensures var run := events + [opening] + more;
            && Reach(s, run).breaker.state == Open
            && Reach(s, run).admitted == Reach(s, events + [opening]).admitted
            && (Admits(Reach(s, run).breaker, next) <==> next > opening.now + s.cooldown)
  {
    var start := events + [opening];
    assert start[..|start| - 1] == events && start[|start| - 1] == opening;
    assert Reach(s, start).breaker.expiry == opening.now + s.cooldown;
    OpenUntilExpiry(s, start, more);
  }

  /** A half-open breaker admits every request that begins. */
  lemma {:induction false} HalfOpenAdmits(s: Settings, events: seq<Event>, begins: seq<Event>)
    requires Usable(s) && Reach(s, events).breaker == Status(HalfOpen, 0, 0, 0)
    requires forall e :: e in begins ==> e.Begin?
    ensures var w, w' := Reach(s, events), Reach(s, events + begins);
            w' == World(w.breaker, w.admitted + |begins|, w.done)
    decreases |begins|
  {
    if begins == [] {
      assert events + begins == events;
    } else {
      var last := |begins| - 1;
      assert events + begins == events + begins[..last] + [begins[last]] && begins[last] in begins;
      HalfOpenAdmits(s, events, begins[..last]);
      ReachNext(s, events + begins[..last], begins[last]);
    }
  }

  /**
   * After the cooldown requests are admitted again, and the first of all admitted requests to
   * complete decides, however many have begun by then: its success closes the breaker, its failure
   * opens it anew.
   */
  lemma FirstCompletionDecides(
    s: Settings, events: seq<Event>, begin: int, begins: seq<Event>, request: nat, success: bool, end: int)
    requires Usable(s)
    requires Reach(s, events).breaker.state == Open && begin > Reach(s, events).breaker.expiry
    requires forall e :: e in begins ==> e.Begin?
    requires request !in Reach(s, events).done
    ensures var begun := events + [Begin(begin)] + begins;
            && Reach(s, begun).admitted == Reach(s, events).admitted + 1 + |begins|
            && Reach(s, begun + [Complete(request, success, end)]).breaker ==
               if success then Status(Closed, 0, 0, 0) else Status(Open, end + s.cooldown, 0, 0)
  {
    ReachNext(s, events, Begin(begin));
    HalfOpenAdmits(s, events + [Begin(begin)], begins);
    ReachNext(s, events + [Begin(begin)] + begins, Complete(request, success, end));
  }

  // ----- a breaker built from given settings

  /** Settings that need no default. */
  predicate NeedsNoDefault(given: Settings) {
    0.0 < given.failureThreshold <= 1.0 && given.cooldown != 0 && 0 < given.minRequests < TWO_32
  }

  /** It opens exactly at the threshold and the number of requests that were given. */
  lemma OpensAtGivenThreshold(given: Settings, events: seq<Event>, e: Event)
    requires NeedsNoDefault(given)
    requires var s := Effective(given);
             && Reach(s, events).breaker.state == Closed && Counts(Reach(s, events), e)
             && Completions(s, events, LastChange(s, events)) + 1 < TWO_32
    ensures var s := Effective(given);
            var n := Completions(s, events, LastChange(s, events)) + 1;
            var f := FailuresSince(s, events, LastChange(s, events)) + (if e.success then 0 else 1);
            Reach(s, events + [e]).breaker.state == Open <==>
            n >= given.minRequests && f as real / n as real >= given.failureThreshold
  {
    OpensExactlyAtThreshold(Effective(given), events, e);
  }

  /** And it rejects for the cooldown that was given. */
  lemma RejectsThroughGivenCooldown(given: Settings, events: seq<Event>, opening: Event, more: seq<Event>, next: int)
    requires NeedsNoDefault(given)
    requires var s := Effective(given);
             var before := Reach(s, events);
             && Changes(s, before.breaker, before, opening) && Reach(s, events + [opening]).breaker.state == Open
             && forall e :: e in more ==> e.now <= opening.now + given.cooldown
    ensures var s := Effective(given);
            var run := events + [opening] + more;
            && Reach(s, run).breaker.state == Open
            && Reach(s, run).admitted == Reach(s, events + [opening]).admitted
            && (Admits(Reach(s, run).breaker, next) <==> next > opening.now + given.cooldown)
  {
    OpenedRejectsThroughCooldown(Effective(given), events, opening, more, next);
  }
}
