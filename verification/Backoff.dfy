/**
 The restart schedule of one supervised child, and the part of its supervision cycle that decides
 how long to wait before the next restart.
*/
module Backoff {
  import opened Common

  const INITIAL_RESTART_DELAY_MS: nat := 1_000
  const MAX_RESTART_DELAY_MS: nat := 30_000
  const HEALTHY_UPTIME_RESET_MS: nat := 30_000

  /** `saturating_mul(2).min(max)` on a `u64`. */
  function Doubled(current: nat, max: nat): nat {
    Min(Min(current * 2, U64_MAX), max)
  }

  function Pow2(k: nat): nat {
    if k == 0 then 1 else 2 * Pow2(k - 1)
  }

  class Backoff {
    var initialMs: nat
    var maxMs: nat
    var currentMs: nat
    /** Delays handed out since construction or the last reset. */
    ghost var taken: nat

    /** The schedule stands at its `taken`-th delay. */
    ghost predicate Valid()
      reads this
    {
      1 <= initialMs <= maxMs <= U64_MAX && currentMs == Min(initialMs * Pow2(taken), maxMs)
    }

    constructor (initial: nat, max: nat)
      requires initial <= U64_MAX && max <= U64_MAX
      ensures Valid() && taken == 0
      ensures initialMs == Max(initial, 1) && maxMs == Max(max, initialMs)
    {
      var first := Max(initial, 1);
      initialMs := first;
      maxMs := Max(max, first);
      currentMs := first;
      taken := 0;
    }

    constructor WithDefaults()
      ensures Valid() && taken == 0
      ensures initialMs == 1_000 && maxMs == 30_000
    {
      initialMs := INITIAL_RESTART_DELAY_MS;
      maxMs := MAX_RESTART_DELAY_MS;
      currentMs := INITIAL_RESTART_DELAY_MS;
      taken := 0;
    }

    /** The `k`-th delay since construction or reset is `min(initial * 2^k, max)`, whether or not the
        doubling has saturated. */
    method NextDelay() returns (delay: nat)
      requires Valid()
      modifies this`currentMs, this`taken
      ensures Valid() && taken == old(taken) + 1
      ensures delay == Min(initialMs * Pow2(old(taken)), maxMs)
    {
      DoublingKeepsSchedule(initialMs, maxMs, taken);
      delay := currentMs;
      currentMs := Doubled(currentMs, maxMs);
      taken := taken + 1;
    }

    method PeekDelay() returns (delay: nat)
      requires Valid()
      ensures delay == Min(initialMs * Pow2(taken), maxMs)
    {
      delay := currentMs;
    }

    method Reset()
      requires Valid()
      modifies this`currentMs, this`taken
      ensures Valid() && taken == 0
    {
      assert initialMs * Pow2(0) == initialMs;
      currentMs := initialMs;
      taken := 0;
    }
  }

  /** Doubling with saturation at the machine width and then at the maximum is the same as doubling an
      unbounded delay and capping it only when it is read. */
  lemma DoublingKeepsSchedule(initial: nat, max: nat, k: nat)
    requires max <= U64_MAX
    ensures Doubled(Min(initial * Pow2(k), max), max) == Min(initial * Pow2(k + 1), max)
  {
    assert initial * Pow2(k + 1) == 2 * (initial * Pow2(k));
  }

  /** The schedule as the machine computes it, step by step. */
  function Stepped(initial: nat, max: nat, k: nat): nat {
    if k == 0 then initial else Doubled(Stepped(initial, max, k - 1), max)
  }

  lemma {:induction false} SteppedIsCapped(initial: nat, max: nat, k: nat)
    requires 1 <= initial <= max <= U64_MAX
    ensures Stepped(initial, max, k) == Min(initial * Pow2(k), max)
  {
    if k > 0 {
      SteppedIsCapped(initial, max, k - 1);
      DoublingKeepsSchedule(initial, max, k - 1);
    }
  }

  lemma {:induction false} Pow2Exceeds(k: nat)
    ensures Pow2(k) > k
  {
    if k > 0 {
      Pow2Exceeds(k - 1);
    }
  }

  /** Delays never shrink, never leave `initial..max`, double exactly while they fit, and after at most
      `max` of them all are `max`. */
  lemma {:induction false} ScheduleClimbs(initial: nat, max: nat, k: nat)
    requires 1 <= initial <= max <= U64_MAX
    ensures initial <= Stepped(initial, max, k) <= Stepped(initial, max, k + 1) <= max
    ensures 2 * Stepped(initial, max, k) <= max ==> Stepped(initial, max, k + 1) == 2 * Stepped(initial, max, k)
    ensures k >= max ==> Stepped(initial, max, k) == max
  {
    if k > 0 {
      ScheduleClimbs(initial, max, k - 1);
    }
    if k >= max {
      SteppedIsCapped(initial, max, k);
      Pow2Exceeds(k);
      AtLeast(initial, Pow2(k));
    }
  }

  lemma AtLeast(a: nat, b: nat)
    requires a >= 1
    ensures a * b >= b
  {
  }

  // ---------- the supervision cycle ----------

  datatype ExitObservation = ExitObservation(code: Option<int>, expected: bool, nextRestartDelay: Option<nat>)

  /** Which delay of the schedule the last of these unrequested exits was given, by the uptimes before
      each: a healthy run starts the schedule over. */
  function DelayIndex(uptimes: seq<nat>): nat
    requires uptimes != []
  {
    var n := |uptimes| - 1;
    if n == 0 || uptimes[n] >= HEALTHY_UPTIME_RESET_MS then 0 else DelayIndex(uptimes[..n]) + 1
  }

  /** That is how many exits there were since the last healthy run, or since the start. */
  lemma {:induction false} DelayIndexCounts(uptimes: seq<nat>, i: nat)
    requires i < |uptimes|
    requires i == 0 || uptimes[i] >= 30_000
    requires forall j :: i < j < |uptimes| ==> uptimes[j] < 30_000
    ensures DelayIndex(uptimes) == |uptimes| - 1 - i
    decreases uptimes
  {
    if i < |uptimes| - 1 {
      DelayIndexCounts(uptimes[..|uptimes| - 1], i);
    }
  }

  /** The part of a supervisor its exit handling changes. */
  class Supervisor {
    var restartCount: nat
    var stopping: bool
    const backoff: Backoff
    /** How long the child ran before each unrequested exit so far. */
    ghost var uptimes: seq<nat>

    ghost predicate Valid()
      reads this, backoff
    {
      && restartCount == Min(|uptimes|, U32_MAX)
      && backoff.Valid()
      && backoff.taken == if uptimes == [] then 0 else DelayIndex(uptimes) + 1
    }

    constructor (schedule: Backoff)
      requires schedule.Valid() && schedule.taken == 0
      ensures Valid() && uptimes == [] && !stopping && backoff == schedule
    {
      restartCount := 0;
      stopping := false;
      backoff := schedule;
      uptimes := [];
    }

    method RequestStop()
      requires Valid()
      modifies this`stopping
      ensures Valid() && stopping
    {
      stopping := true;
    }

    /** What follows the wait: the child exited with `code` after `uptimeMs`. A requested exit changes
        nothing; an unrequested one is counted and takes its delay. */
    method OnExit(code: Option<int>, uptimeMs: nat) returns (seen: ExitObservation)
      requires Valid()
      modifies this`restartCount, this`uptimes, backoff
      ensures Valid() && seen.code == code && seen.expected == stopping
      ensures backoff.initialMs == old(backoff.initialMs) && backoff.maxMs == old(backoff.maxMs)
      ensures uptimes == old(uptimes) + if stopping then [] else [uptimeMs]
      ensures seen.nextRestartDelay ==
        if stopping then None else Some(Min(backoff.initialMs * Pow2(DelayIndex(uptimes)), backoff.maxMs))
    {
      if stopping {
        return ExitObservation(code, true, None);
      }
      restartCount := Bump(restartCount, U32_MAX);
      if uptimeMs >= HEALTHY_UPTIME_RESET_MS {
        backoff.Reset();
      }
      var delay := backoff.NextDelay();
      uptimes := uptimes + [uptimeMs];
      assert uptimes[..|uptimes| - 1] == old(uptimes);
      seen := ExitObservation(code, false, Some(delay));
    }
  }
}
