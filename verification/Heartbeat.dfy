/**
 The ping interval derived from a policy's heartbeat_duration (policy_read.go), the scheduler's
 clamp (machine.go), and what a schedule of pings may lose before the server reads DEAD.
 Times are nanoseconds; Go's time.Duration is an int64 of them.
 */
module Heartbeat {
  import opened Arithmetic
  import opened Wrappers

  type int32 = x: int | -0x8000_0000 <= x <= 0x7FFF_FFFF

  const SECOND: int := 1_000_000_000
  const FALLBACK_WINDOW: int := 600 * SECOND
  const MIN_INTERVAL: int := SECOND
  const DEFAULT_INTERVAL: int := FALLBACK_WINDOW / 3
  const MAX_DURATION: int := 0x7FFF_FFFF_FFFF_FFFF

  /** `EffectiveHeartbeatWindow`. */
  function EffectiveWindow(duration: Option<int32>): int {
    if duration.None? || duration.value <= 0 then FALLBACK_WINDOW else duration.value * SECOND
  }

  /** `HeartbeatInterval`. */
  function Interval(duration: Option<int32>): int {
    var third := EffectiveWindow(duration) / 3;
    if third > MIN_INTERVAL then third else MIN_INTERVAL
  }

  /** The clamp in NewHeartbeatScheduler. */
  function Clamp(interval: int): int {
    if interval <= 0 then DEFAULT_INTERVAL else if interval < MIN_INTERVAL then MIN_INTERVAL else interval
  }

  /** Every derived interval fits a time.Duration, is at least a second, and passes through the clamp unchanged. */
  lemma IntervalIsSound(duration: Option<int32>)
    ensures MIN_INTERVAL <= Interval(duration) <= EffectiveWindow(duration) <= MAX_DURATION
    ensures Clamp(Interval(duration)) == Interval(duration)
  {
  }

  /** The clamp is idempotent, and never lets a sub-second interval through. */
  lemma ClampIsAFloor(interval: int)
    ensures Clamp(interval) >= MIN_INTERVAL && Clamp(Clamp(interval)) == Clamp(interval)
    ensures interval >= MIN_INTERVAL ==> Clamp(interval) == interval
  {
  }

  /**
   A policy without a usable duration gets the 600 s fallback and a ping every 200 s; any other the seconds it
   asks for. An interval the scheduler is not given is 200 s as well.
   */
  lemma WindowInSeconds(duration: Option<int32>)
    ensures duration.None? || duration.value <= 0 ==>
              EffectiveWindow(duration) == 600_000_000_000 && Interval(duration) == 200_000_000_000
    ensures duration.Some? && duration.value > 0 ==> EffectiveWindow(duration) == duration.value * 1_000_000_000
    ensures forall interval :: interval <= 0 ==> Clamp(interval) == 200_000_000_000
  {
  }

  // ----- losses

  /** How many consecutive pings may be lost. */
  function Tolerated(d: int): int {
    if d >= 3 then 2 else if d == 2 then 1 else 0
  }

  /** The age at which the server, truncating to whole seconds, first reads a window of `d` seconds as over. */
  function DeadAge(d: int): int {
    (d + 1) * SECOND
  }

  lemma IntervalValue(d: int32)
    requires d >= 1
    ensures d <= 3 ==> Interval(Some(d)) == SECOND
    ensures d >= 3 ==> 3 * Interval(Some(d)) <= d * SECOND < 3 * Interval(Some(d)) + 3
  {
  }

  /** The next ping lands before DEAD is read exactly when no more than the tolerated number was lost. */
  lemma ToleratesExactly(d: int32, losses: nat)
    requires d >= 1
    ensures (losses + 1) * Interval(Some(d)) < DeadAge(d) <==> losses <= Tolerated(d)
  {
    hide Interval;
    var i := Interval(Some(d));
    IntervalValue(d);
    if losses == 0 {
    } else if losses == 1 {
    } else if losses == 2 {
    } else {
      assert i >= 1;
      Scales(i, 4, losses + 1);
    }
  }

  /** A schedule: ping `k` is sent at `k * interval`, and either lands or is lost. Ping 0 landed. */
  type Schedule = nat -> bool

  ghost predicate LandsWithin(landed: Schedule, k: nat, losses: nat) {
    exists j: nat :: k <= j <= k + losses && landed(j)
  }

  /** Among any `losses + 1` consecutive pings at least one lands. */
  ghost predicate LosesAtMost(landed: Schedule, losses: nat) {
    landed(0) && forall k: nat :: LandsWithin(landed, k, losses)
  }

  /** The last ping at or before `n` that landed. */
  function LastLanded(landed: Schedule, n: nat): (j: nat)
    requires landed(0)
    ensures j <= n && landed(j)
    ensures forall k: nat :: j < k <= n ==> !landed(k)
  {
    if landed(n) then n else LastLanded(landed, n - 1)
  }

  /** The age of the last heartbeat at time `t`, as a reader sees it: pings at `t` itself have not landed yet. */
  function Age(landed: Schedule, interval: int, t: int): int
    requires landed(0) && interval > 0 && t >= 1
  {
    t - interval * LastLanded(landed, (t - 1) / interval)
  }

  /** The server's status, computed from the age in whole seconds. */
  predicate ReadsDead(landed: Schedule, interval: int, d: int, t: int)
    requires landed(0) && interval > 0 && t >= 1 && Age(landed, interval, t) >= 0
  {
    Age(landed, interval, t) / SECOND > d
  }

  lemma AgeIsBounded(landed: Schedule, interval: int, losses: nat, t: int)
    requires LosesAtMost(landed, losses) && interval > 0 && t >= 1
    ensures 0 < Age(landed, interval, t) <= (losses + 1) * interval
  {
    var n := (t - 1) / interval;
    var j := LastLanded(landed, n);
    DivisionBounds(t - 1, interval);
    assert LandsWithin(landed, j + 1, losses);
    var k: nat :| j + 1 <= k <= j + 1 + losses && landed(k);
    assert k > n;
    ScaleBound(interval, n, j, losses);
  }

  lemma DivisionBounds(x: int, y: int)
    requires x >= 0 && y > 0
    ensures y * (x / y) <= x < y * (x / y) + y && x / y >= 0
  {
  }

  lemma ScaleBound(interval: int, n: int, j: int, losses: int)
    requires interval > 0 && j <= n && n - j <= losses
    ensures interval * j <= interval * n && interval * n + interval - interval * j <= (losses + 1) * interval
  {
    Scales(interval, j, n);
    Scales(interval, n - j, losses);
    assert interval * (n - j) == interval * n - interval * j;
    assert (losses + 1) * interval == interval * losses + interval;
  }

  /** No schedule that stays within the tolerated losses is ever read as DEAD. */
  lemma NeverDeadWithinTolerance(landed: Schedule, d: int32, t: int)
    requires d >= 1 && LosesAtMost(landed, Tolerated(d)) && t >= 1
    ensures Age(landed, Interval(Some(d)), t) >= 0 && !ReadsDead(landed, Interval(Some(d)), d, t)
  {
    AgeIsBounded(landed, Interval(Some(d)), Tolerated(d), t);
    ToleratesExactly(d, Tolerated(d));
  }

  /** One more loss, and the schedule is read as DEAD by the time the next ping is due. */
  lemma DeadBeyondTolerance(landed: Schedule, d: int32, k: nat)
    requires d >= 1 && landed(0) && landed(k)
    requires forall j: nat :: k < j <= k + Tolerated(d) + 1 ==> !landed(j)
    ensures var t := Interval(Some(d)) * (k + Tolerated(d) + 2);
            t >= 1 && Age(landed, Interval(Some(d)), t) >= 0 && ReadsDead(landed, Interval(Some(d)), d, t)
  {
    var i, n := Interval(Some(d)), k + Tolerated(d) + 1;
    var t := i * (n + 1);
    ToleratesExactly(d, Tolerated(d) + 1);
    LastTickBefore(i, n);
    assert LastLanded(landed, n) == k;
    assert t - i * k == (Tolerated(d) + 2) * i;
  }

  lemma LastTickBefore(interval: int, n: nat)
    requires interval > 0
    ensures interval * (n + 1) >= 1 && (interval * (n + 1) - 1) / interval == n
  {
    assert interval * (n + 1) == interval * n + interval;
    Scales(interval, 0, n);
    QuotientIs(interval * n + interval - 1, interval, n);
  }

  lemma QuotientIs(x: int, y: int, q: int)
    requires y > 0 && y * q <= x < y * q + y && x >= 0
    ensures x / y == q
  {
    var p := x / y;
    DivisionBounds(x, y);
    Scales(y, p + 1, q);
    Scales(y, q + 1, p);
    assert y * (p + 1) == y * p + y && y * (q + 1) == y * q + y;
  }

  /**
   A stored duration of zero is not held by any schedule, even one that loses nothing, at any interval of a
   second or more: one second after every ping the server reads DEAD.
   */
  lemma ZeroWindowIsNeverHeld(landed: Schedule, interval: int, k: nat)
    requires landed(0) && interval >= SECOND
    ensures var t := interval * k + SECOND;
            t >= 1 && Age(landed, interval, t) >= 0 && ReadsDead(landed, interval, 0, t)
  {
    var t := interval * k + SECOND;
    Scales(interval, 0, k);
    QuotientIs(t - 1, interval, k);
    Scales(interval, LastLanded(landed, k), k);
  }

  /** And the interval such a policy gets, 200 s, is one of those. */
  lemma ZeroDurationInterval()
    ensures Interval(Some(0)) == 200 * SECOND >= SECOND
  {
  }
}
