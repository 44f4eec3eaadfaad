/** The lifecycle of a job, the lanes of job kinds, and the delay before a retry. */
module JobLifecycle {
  import opened GoValues

  datatype Status = Queued | Running | Succeeded | Failed | Canceled {
    predicate IsTerminal() {
      Succeeded? || Failed? || Canceled?
    }
  }

  datatype Event = EventClaim | EventComplete | EventFail | EventRetry | EventCancel

  datatype Transition = Transition(from: Status, event: Event, to: Status)

  const TRANSITIONS: seq<Transition> := [
    Transition(Queued, EventClaim, Running),
    Transition(Running, EventComplete, Succeeded),
    Transition(Running, EventFail, Failed),
    Transition(Running, EventRetry, Queued),
    Transition(Queued, EventCancel, Canceled),
    Transition(Running, EventCancel, Canceled)
  ]

  /** The declared target of an event, by state. */
  function Target(from: Status, event: Event): Option<Status> {
    match (from, event)
    case (Queued, EventClaim) => Some(Running)
    case (Running, EventComplete) => Some(Succeeded)
    case (Running, EventFail) => Some(Failed)
    case (Running, EventRetry) => Some(Queued)
    case (Queued, EventCancel) => Some(Canceled)
    case (Running, EventCancel) => Some(Canceled)
    case _ => None
  }

  /** TransitionJobLifecycle searches the table in order. */
  method TransitionJobLifecycle(from: Status, event: Event) returns (to: Option<Status>)
    ensures to == Target(from, event)
  {
    for i := 0 to |TRANSITIONS|
      invariant forall j :: 0 <= j < i ==> !(TRANSITIONS[j].from == from && TRANSITIONS[j].event == event)
    {
      if TRANSITIONS[i].from == from && TRANSITIONS[i].event == event {
        return Some(TRANSITIONS[i].to);
      }
    }
    assert TRANSITIONS[0] == Transition(Queued, EventClaim, Running);
    assert TRANSITIONS[1] == Transition(Running, EventComplete, Succeeded);
    assert TRANSITIONS[2] == Transition(Running, EventFail, Failed);
    assert TRANSITIONS[3] == Transition(Running, EventRetry, Queued);
    assert TRANSITIONS[4] == Transition(Queued, EventCancel, Canceled);
    assert TRANSITIONS[5] == Transition(Running, EventCancel, Canceled);
    return None;
  }

  /** A state is terminal exactly when no event leaves it. */
  lemma TerminalExactlyWhenStuck(s: Status)
    ensures s.IsTerminal() <==> forall e :: Target(s, e).None?
  {
    if !s.IsTerminal() {
      assert Target(s, EventCancel) == Some(Canceled);
    }
  }

  // ----- lanes

  predicate ValidLane(lane: string) {
    lane == "latency_sensitive" || lane == "default" || lane == "bulk"
  }

  /** kindLanes: the lane each registered kind runs in. */
  class KindRegistry {
    var lanes: map<string, string>

    ghost predicate Valid()
      reads this
    {
      forall kind :: kind in lanes ==> kind != "" && ValidLane(lanes[kind])
    }

    constructor ()
      ensures Valid() && lanes == map[]
    {
      lanes := map[];
    }

    /** Returns false where the source panics; then nothing is registered. */
    method RegisterKind(kind: string, lane: string) returns (ok: bool)
      requires Valid()
      modifies this
      ensures Valid()
      ensures ok <==> kind == "" || (ValidLane(lane) && (kind in old(lanes) ==> old(lanes)[kind] == lane))
      ensures lane in ["latency_sensitive", "default", "bulk"] && kind !in old(lanes) ==> ok
      ensures ok && kind != "" ==> lane in ["latency_sensitive", "default", "bulk"]
      ensures lanes == if ok && kind != "" then old(lanes)[kind := lane] else old(lanes)
      ensures forall k :: k in old(lanes) ==> k in lanes && lanes[k] == old(lanes)[k]
    {
      if kind == "" {
        return true;
      }
      if !ValidLane(lane) {
        return false;
      }
      if kind in lanes {
        return lanes[kind] == lane;
      }
      lanes := lanes[kind := lane];
      return true;
    }

    method LaneFor(kind: string) returns (lane: Option<string>)
      requires Valid()
      ensures lane == if kind in lanes then Some(lanes[kind]) else None
      ensures lane.Some? ==> ValidLane(lane.value)
    {
      if kind in lanes {
        return Some(lanes[kind]);
      }
      return None;
    }
  }

  // ----- the delay before a retry

  const TWO_62 := 0x4000_0000_0000_0000

  function Pow2(n: nat): nat {
    if n == 0 then 1 else 2 * Pow2(n - 1)
  }

  /** A delay doubled n times. */
  function Doubled(delay: int, n: nat): int {
    if n == 0 then delay else 2 * Doubled(delay, n - 1)
  }

  lemma {:induction false} DoubledIsPower(delay: int, n: nat)
    ensures Doubled(delay, n) == delay * Pow2(n)
  {
    if n > 0 {
      DoubledIsPower(delay, n - 1);
    }
  }

  lemma {:induction false} DoubledInside(delay: int, n: nat)
    ensures Doubled(2 * delay, n) == 2 * Doubled(delay, n)
  {
    if n > 0 {
      DoubledInside(delay, n - 1);
    }
  }

  lemma {:induction false} DoubledGrows(delay: int, n: nat, m: nat)
    requires delay >= 0 && n <= m
    ensures delay <= Doubled(delay, n) <= Doubled(delay, m)
  {
    if n < m {
      DoubledGrows(delay, n, m - 1);
    } else if n > 0 {
      DoubledGrows(delay, n - 1, n - 1);
    }
  }

  function Min(a: int, b: int): int {
    if a <= b then a else b
  }

  /** The doublings after the first attempt. */
  function Doublings(attempts: int): nat {
    if attempts < 1 then 0 else attempts - 1
  }

  /** The documented delay: base doubled per earlier attempt, capped. */
  function CappedDelay(attempts: int, base: int, cap: int): int {
    Min(base * Pow2(Doublings(attempts)), cap)
  }

  /**
   * The loop of NextRetryRunAt in 64-bit arithmetic. For a base that is not negative and a cap of
   * at most 2^62 no doubling overflows, and the result is the documented delay.
   */
  method NextRetryRunAt(now: int, attempts: int, base: int64, cap: int64) returns (runAt: int)
    ensures base >= 0 && 0 <= cap <= TWO_62 ==> runAt == now + CappedDelay(attempts, base, cap)
    ensures base >= 0 && 0 <= cap <= TWO_62 ==>
              runAt == now + Min(base * Pow2(if attempts < 1 then 0 else attempts - 1), cap)
    ensures runAt == now + DelayFrom(base, Doublings(attempts), cap)
  {
    var n := if attempts < 1 then 1 else attempts;
    var delay: int64 := base;
    var i := 1;
    while i < n
      invariant 1 <= i <= n
      invariant DelayFrom(base, n - 1, cap) == DelayFrom(delay, n - i, cap)
      decreases n - i
    {
      if delay >= cap {
        delay := cap;
        break;
      }
      delay := Wrap64(delay * 2);
      i := i + 1;
    }
    if delay > cap {
      delay := cap;
    }
    if base >= 0 && 0 <= cap <= TWO_62 {
      DelayIsCapped(base, Doublings(attempts), cap);
      DoubledIsPower(base, Doublings(attempts));
    }
    runAt := now + delay;
  }

  /** What the loop computes with the doublings that remain. */
  function DelayFrom(delay: int64, remaining: nat, cap: int64): int64
    decreases remaining
  {
    if remaining == 0 then (if delay > cap then cap else delay)
    else if delay >= cap then cap
    else DelayFrom(Wrap64(delay * 2), remaining - 1, cap)
  }

  lemma {:induction false} DelayIsCapped(delay: int64, remaining: nat, cap: int64)
    requires delay >= 0 && 0 <= cap <= TWO_62
    ensures DelayFrom(delay, remaining, cap) == Min(Doubled(delay, remaining), cap)
    decreases remaining
  {
    if remaining > 0 {
      DoubledGrows(delay, 0, remaining);
      if delay < cap {
        assert Wrap64(delay * 2) == 2 * delay;
        DelayIsCapped(2 * delay, remaining - 1, cap);
        DoubledInside(delay, remaining - 1);
      }
    }
  }

  /** The delay never shrinks as attempts grow, neither the documented one nor, for caps up to 2^62, the loop's. */
  lemma DelayMonotone(attempts: int, more: int, base: int64, cap: int64)
    requires base >= 0 && attempts <= more
    ensures CappedDelay(attempts, base, cap) <= CappedDelay(more, base, cap)
    ensures 0 <= cap <= TWO_62 ==>
              DelayFrom(base, Doublings(attempts), cap) <= DelayFrom(base, Doublings(more), cap)
  {
    DoubledGrows(base, Doublings(attempts), Doublings(more));
    DoubledIsPower(base, Doublings(attempts));
    DoubledIsPower(base, Doublings(more));
    if 0 <= cap <= TWO_62 {
      DelayIsCapped(base, Doublings(attempts), cap);
      DelayIsCapped(base, Doublings(more), cap);
    }
  }

  /**
   * Above 2^62 a doubling can overflow: the base 2^62 turns into the most negative duration.
   * So the loop computes the documented delay for every base and every count of attempts
   * exactly when the cap is at most 2^62.
   */
  lemma DelayDocumentedExactlyForCapsUpTo2To62(cap: int64)
    requires cap >= 0
    ensures cap <= TWO_62 <==>
            forall base: int64, attempts: int | base >= 0 ::
              DelayFrom(base, Doublings(attempts), cap) == CappedDelay(attempts, base, cap)
  {
    if cap <= TWO_62 {
      forall base: int64, attempts: int | base >= 0
        ensures DelayFrom(base, Doublings(attempts), cap) == CappedDelay(attempts, base, cap)
      {
        DelayIsCapped(base, Doublings(attempts), cap);
        DoubledIsPower(base, Doublings(attempts));
      }
    } else {
      var base: int64 := TWO_62;
      assert DelayFrom(base, Doublings(2), cap) == DelayFrom(Wrap64(base * 2), 0, cap) == -MAX_INT64 - 1;
      DoubledIsPower(base, 1);
      assert Doubled(base, 1) == 2 * Doubled(base, 0);
      assert CappedDelay(2, base, cap) == cap;
    }
  }
}
