/** A circuit breaker: closed, open until a cooldown has passed, then half-open until a completion. */
module CircuitBreaker {

  datatype State = Closed | Open | HalfOpen

  datatype Settings = Settings(failureThreshold: real, cooldown: int, minRequests: nat)

  const TWO_32 := 0x1_0000_0000

  /** The mutable part of a breaker; the counters are 32-bit and wrap around. */
  datatype Status = Status(state: State, expiry: int, requests: nat, failures: nat)

  const Initial := Status(Closed, 0, 0, 0)

  /** The settings a breaker works with, defaults filled in; durations are nanoseconds. */
  function Effective(s: Settings): (e: Settings)
    ensures e.minRequests > 0 && e.cooldown != 0 && 0.0 < e.failureThreshold <= 1.0
  {
    Settings(
      if s.failureThreshold <= 0.0 || s.failureThreshold > 1.0 then 0.5 else s.failureThreshold,
      if s.cooldown == 0 then 15_000_000_000 else s.cooldown,
      if s.minRequests == 0 then 5 else s.minRequests)
  }

  predicate Usable(s: Settings) {
    0 < s.minRequests < TWO_32 && 0.0 < s.failureThreshold <= 1.0
  }

  // ----- the transitions, on values

  function SetState(b: Status, state: State, expiry: int): Status {
    if b.state == state then b else Status(state, expiry, 0, 0)
  }

  /** currentState: an open breaker turns half-open strictly after its expiry. */
  function Current(b: Status, now: int): Status {
    if b.state == Open && now > b.expiry then SetState(b, HalfOpen, 0) else b
  }

  function Count(b: Status, success: bool): Status {
    b.(requests := (b.requests + 1) % TWO_32,
       failures := if success then b.failures else (b.failures + 1) % TWO_32)
  }

  predicate TooManyFailures(s: Settings, b: Status)
    requires Usable(s)
  {
    b.requests >= s.minRequests && b.failures as real / b.requests as real >= s.failureThreshold
  }

  /** afterRequest: one completion at a time. */
  function Completed(s: Settings, b: Status, success: bool, now: int): Status
    requires Usable(s)
  {
    var c := Count(Current(b, now), success);
    match c.state
    case Closed => if TooManyFailures(s, c) then SetState(c, Open, now + s.cooldown) else c
    case HalfOpen => if success then SetState(c, Closed, 0) else SetState(c, Open, now + s.cooldown)
    case Open => c
  }

  predicate Admits(b: Status, now: int) {
    Current(b, now).state != Open
  }

  // ----- the breaker

  datatype RunResult = Returned(failed: bool) | Panicked

  datatype ExecuteResult = Rejected | Finished(run: RunResult)

  class CircuitBreaker {
    const settings: Settings
    var state: State
    var expiry: int
    var requests: nat
    var failures: nat

    ghost function View(): Status
      reads this
    {
      Status(state, expiry, requests, failures)
    }

    constructor (settings: Settings)
      requires settings.minRequests < TWO_32
      ensures this.settings == Effective(settings) && Usable(this.settings) && View() == Initial
      ensures state == Closed && requests == 0 && failures == 0
      ensures this.settings.failureThreshold ==
              if 0.0 < settings.failureThreshold <= 1.0 then settings.failureThreshold else 0.5
      ensures this.settings.cooldown == if settings.cooldown != 0 then settings.cooldown else 15_000_000_000
      ensures this.settings.minRequests == if settings.minRequests > 0 then settings.minRequests else 5
    {
      this.settings := Effective(settings);
      state, expiry, requests, failures := Closed, 0, 0, 0;
    }

    method SetStateTo(state: State, expiry: int)
      modifies this
      ensures View() == SetState(old(View()), state, expiry)
    {
      if this.state == state {
        return;
      }
      this.state := state;
      this.expiry := expiry;
      requests, failures := 0, 0;
    }

    method CurrentState(now: int) returns (s: State)
      modifies this
      ensures View() == Current(old(View()), now) && s == state
    {
      if state == Open && now > expiry {
        SetStateTo(HalfOpen, 0);
      }
      return state;
    }

    method BeforeRequest(now: int) returns (admitted: bool)
      modifies this
      ensures View() == Current(old(View()), now) && admitted == Admits(old(View()), now)
    {
      var s := CurrentState(now);
      return s != Open;
    }

    method AfterRequest(success: bool, now: int)
      requires Usable(settings)
      modifies this
      ensures View() == Completed(settings, old(View()), success, now)
    {
      var s := CurrentState(now);
      requests := (requests + 1) % TWO_32;
      if !success {
        failures := (failures + 1) % TWO_32;
      }
      match s
      case Closed =>
        if requests >= settings.minRequests {
          var failureRate := failures as real / requests as real;
          if failureRate >= settings.failureThreshold {
            SetStateTo(Open, now + settings.cooldown);
          }
        }
      case HalfOpen =>
        if !success {
          SetStateTo(Open, now + settings.cooldown);
        } else {
          SetStateTo(Closed, 0);
        }
      case Open =>
    }

    method BeginRequest(now: int) returns (complete: Completion?)
      requires Usable(settings)
      modifies this
      ensures View() == Current(old(View()), now)
      ensures (complete != null) == Admits(old(View()), now)
      ensures complete != null ==> fresh(complete) && complete.breaker == this && !complete.done
    {
      var admitted := BeforeRequest(now);
      if !admitted {
        return null;
      }
      return new Completion(this);
    }

    /** Runs an operation whose result is given; a panic is recorded as a failure and goes on. */
    method Execute(run: RunResult, begin: int, end: int) returns (r: ExecuteResult)
      requires Usable(settings)
      modifies this
      ensures r == if Admits(old(View()), begin) then Finished(run) else Rejected
      ensures var began := Current(old(View()), begin);
              View() == if Admits(old(View()), begin)
                        then Completed(settings, began, run == Returned(false), end) else began
    {
      var complete := BeginRequest(begin);
      if complete == null {
        return Rejected;
      }
      match run {
        case Panicked => complete.Complete(false, end);
        case Returned(failed) => complete.Complete(!failed, end);
      }
      return Finished(run);
    }
  }

  /** The completion hook of one admitted request: only its first call counts. */
  class Completion {
    const breaker: CircuitBreaker
    var done: bool

    constructor (breaker: CircuitBreaker)
      ensures this.breaker == breaker && !done
    {
      this.breaker := breaker;
      done := false;
    }

    method Complete(success: bool, now: int)
      requires Usable(breaker.settings)
      modifies this, breaker
      ensures done
      ensures breaker.View() ==
              if old(done) then old(breaker.View())
              else Completed(breaker.settings, old(breaker.View()), success, now)
    {
      if !done {
        done := true;
        breaker.AfterRequest(success, now);
      }
    }
  }
}
