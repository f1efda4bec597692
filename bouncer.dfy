/**
  The frame-pacing deadline generator of `bouncer/src/lib.rs`.

  Instants are whole nanoseconds on the monotonic clock (`int`, so that an
  instant before the bouncer's start can be named) and durations are whole
  nanoseconds (`nat`); `Instant::now()` becomes an explicit `now` parameter.
  The bouncer itself works in whole milliseconds, as the source does with
  `Duration::as_millis`, which truncates.
*/
module Bouncer {
  import opened Wrappers

  const NANOS_PER_MILLI: nat := 1_000_000
  const U64_MAX: nat := 0xFFFF_FFFF_FFFF_FFFF

  /** `Duration::as_millis`: whole milliseconds, truncated. */
  function AsMillis(d: nat): (r: nat)
    ensures r * NANOS_PER_MILLI <= d < (r + 1) * NANOS_PER_MILLI
  {
    d / NANOS_PER_MILLI
  }

  /** `BouncerBuilder`: durations in nanoseconds; builder methods return the updated builder. */
  datatype BouncerBuilder = BouncerBuilder(timeBetweenDeadlines: nat, gracePeriod: Option<nat>)
  {
    /** `time_between_deadlines`: set the period, keep the grace period. */
    function TimeBetweenDeadlines(d: nat): (b: BouncerBuilder)
      ensures b.timeBetweenDeadlines == d && b.gracePeriod == gracePeriod
    {
      this.(timeBetweenDeadlines := d)
    }

    /** `skip_hot_deadline`: set the grace period, keep the period. */
    function SkipHotDeadline(d: nat): (b: BouncerBuilder)
      ensures b.gracePeriod == Some(d) && b.timeBetweenDeadlines == timeBetweenDeadlines
    {
      this.(gracePeriod := Some(d))
    }
  }

  /** `Bouncer::builder`: zero period, no grace period. */
  function Builder(): (b: BouncerBuilder)
    ensures b.timeBetweenDeadlines == 0 && b.gracePeriod.None?
  {
    BouncerBuilder(0, None)
  }

  /**
    Whole milliseconds since `start` modulo the period; 0 when `now` is
    before `start` (`checked_duration_since` gives None).
  */
  function MillisIn(period: nat, start: int, now: int): (r: nat)
    requires period > 0
    ensures r < period
  {
    if now >= start then AsMillis(now - start) % period else 0
  }

  /**
    Milliseconds from `now` to the deadline `mark` arms for a non-zero
    period: to the next period boundary, plus one more period when that
    boundary is closer than the grace period.
  */
  function TimeUntilNextDeadline(period: nat, grace: Option<nat>, start: int, now: int): (r: nat)
    requires period > 0
    ensures 1 <= r <= 2 * period
    ensures grace.None? ==> r <= period
  {
    var t := period - MillisIn(period, start, now);
    if grace.Some? && t < grace.value then t + period else t
  }

  /**
    The deadline `mark` arms when none is armed: 1 ns before `now` for a
    zero period, otherwise `now` plus the time until the next deadline
    (capped at `u64::MAX` milliseconds, as `Duration::from_millis` takes a u64).
  */
  function NextDeadline(period: nat, grace: Option<nat>, start: int, now: int): (r: int)
    ensures period == 0 ==> r < now
    ensures period > 0 ==> now < r
  {
    if period == 0 then now - 1
    else now + Min(TimeUntilNextDeadline(period, grace, start, now), U64_MAX) * NANOS_PER_MILLI
  }

  /** With a zero period the deadline is already in the past. */
  lemma ZeroPeriodDeadlinePassed(grace: Option<nat>, start: int, now: int)
    ensures NextDeadline(0, grace, start, now) < now
  {
  }

  /**
    The distance to the next period boundary is between 1 ms and the period;
    the grace period pushes the deadline one period further exactly when the
    distance is below it.
  */
  lemma DistanceToBoundary(period: nat, grace: Option<nat>, start: int, now: int)
    requires period > 0
    ensures var d := period - MillisIn(period, start, now);
            && 1 <= d <= period
            && TimeUntilNextDeadline(period, grace, start, now) ==
                 (if grace.Some? && d < grace.value then d + period else d)
            && (grace.None? ==> TimeUntilNextDeadline(period, grace, start, now) == d)
  {
  }

  /** For a non-zero period the deadline is strictly after `now`, by at most two periods. */
  lemma DeadlineAhead(period: nat, grace: Option<nat>, start: int, now: int)
    requires period > 0
    ensures now < NextDeadline(period, grace, start, now)
    ensures NextDeadline(period, grace, start, now) <= now + 2 * period * NANOS_PER_MILLI
  {
    var t := TimeUntilNextDeadline(period, grace, start, now);
    assert 1 <= Min(t, U64_MAX) <= 2 * period;
    MulMonotone(Min(t, U64_MAX), 2 * period, NANOS_PER_MILLI);
  }

  lemma MulMonotone(a: nat, b: nat, c: nat)
    requires a <= b
    ensures a * c <= b * c
  {
  }

  /**
    The deadline is phase-anchored to the start: in whole milliseconds it
    lies a whole number of periods after `start`, and below the millisecond
    it keeps `now`'s offset from `start`.
  */
  lemma PhaseAnchored(period: nat, grace: Option<nat>, start: int, now: int)
    requires period > 0 && start <= now
    requires TimeUntilNextDeadline(period, grace, start, now) <= U64_MAX
    ensures var e := NextDeadline(period, grace, start, now) - start;
            e >= 0 && AsMillis(e) % period == 0 && e % NANOS_PER_MILLI == (now - start) % NANOS_PER_MILLI
  {
    var elapsed: nat := now - start;
    var ms := elapsed / NANOS_PER_MILLI;
    var sub := elapsed % NANOS_PER_MILLI;
    var t := TimeUntilNextDeadline(period, grace, start, now);
    var q := ms / period;
    assert ms == q * period + ms % period;
    assert t == period - ms % period || t == 2 * period - ms % period;
    var k: nat := if t == period - ms % period then q + 1 else q + 2;
    assert ms + t == k * period;
    var e := NextDeadline(period, grace, start, now) - start;
    assert e == elapsed + t * NANOS_PER_MILLI;
    assert elapsed == ms * NANOS_PER_MILLI + sub;
    assert e == (ms + t) * NANOS_PER_MILLI + sub;
    DivModUnique(e, NANOS_PER_MILLI, ms + t, sub);
    assert AsMillis(e) == k * period;
    DivModUnique(k * period, period, k, 0);
  }

  /** Euclidean division is determined by a quotient and an in-range remainder. */
  lemma DivModUnique(x: int, d: nat, q: int, r: int)
    requires d > 0 && 0 <= r < d && x == q * d + r
    ensures x / d == q && x % d == r
  {
    var q', r' := x / d, x % d;
    assert (q - q') * d == r' - r;
    if q - q' >= 1 {
      MulAtLeast(q - q', d);
    } else if q' - q >= 1 {
      MulAtLeast(q' - q, d);
    }
  }

  lemma MulAtLeast(a: int, d: nat)
    requires a >= 1
    ensures a * d >= d
  {
    assert a * d == (a - 1) * d + d;
  }

  /**
    The example of a 10 ms period with a 1 ms grace period: marking at
    5 ms arms the 10 ms boundary; marking at 9.5 ms counts 9 whole
    milliseconds, so the boundary is 1 ms away, not closer than the grace
    period, and the deadline is 10.5 ms rather than 20 ms.
  */
  lemma TenMillisecondExample()
    ensures NextDeadline(10, Some(1), 0, 5_000_000) == 10_000_000
    ensures NextDeadline(10, Some(1), 0, 9_500_000) == 10_500_000
    ensures NextDeadline(10, Some(1), 0, 9_000_000) == 10_000_000
    ensures NextDeadline(10, Some(2), 0, 9_000_000) == 20_000_000
  {
  }

  /**
    `mark_near_hot_deadline_skips_to_next`: a 10 ms period with a grace
    period of 10 ms less 1 us (9 whole milliseconds).  Without grace the
    deadline is never more than one period away; with it, the deadline is
    more than one period away whenever the boundary is under 9 ms away.
  */
  lemma HotDeadlineSkipper(start: int, now: int)
    ensures AsMillis(10 * NANOS_PER_MILLI - 1_000) == 9
    ensures NextDeadline(10, None, start, now) - now <= 10 * NANOS_PER_MILLI
    ensures 10 - MillisIn(10, start, now) < 9 ==>
              NextDeadline(10, Some(9), start, now) - now > 10 * NANOS_PER_MILLI
  {
  }

  class Bouncer {
    var deadline: Option<int>
    var millisBudget: nat
    var startTime: int
    var hotDeadlineProximity: Option<nat>

    /** `BouncerBuilder::build` at instant `now`: durations in whole milliseconds, nothing armed. */
    constructor Build(b: BouncerBuilder, now: int)
      ensures millisBudget == AsMillis(b.timeBetweenDeadlines)
      ensures hotDeadlineProximity == (match b.gracePeriod case Some(g) => Some(AsMillis(g)) case None => None)
      ensures startTime == now && deadline == None
    {
      millisBudget := AsMillis(b.timeBetweenDeadlines);
      hotDeadlineProximity := match b.gracePeriod case Some(g) => Some(AsMillis(g)) case None => None;
      startTime := now;
      deadline := None;
    }

    /** `mark`: arm the next deadline unless one is armed already. */
    method Mark(now: int)
      modifies this`deadline
      ensures old(deadline).Some? ==> deadline == old(deadline)
      ensures old(deadline).None? ==>
                deadline == Some(NextDeadline(millisBudget, hotDeadlineProximity, startTime, now))
    {
      if deadline.Some? {
        return;
      }
      if millisBudget == 0 {
        deadline := Some(now - 1);
        return;
      }
      var millisIn := if now >= startTime then AsMillis(now - startTime) % millisBudget else 0;
      var timeUntilNextDeadline := millisBudget - millisIn;
      if hotDeadlineProximity.Some? {
        var gracePeriod := hotDeadlineProximity.value;
        if timeUntilNextDeadline < gracePeriod {
          timeUntilNextDeadline := timeUntilNextDeadline + millisBudget;
        }
      }
      deadline := Some(now + Min(timeUntilNextDeadline, U64_MAX) * NANOS_PER_MILLI);
    }

    /** `current_deadline`. */
    function CurrentDeadline(): (r: Option<int>)
      reads this
      ensures r == deadline
    {
      deadline
    }

    /** `duration_until_deadline`: None when unarmed, else the time left, never below zero. */
    function DurationUntilDeadline(now: int): (r: Option<nat>)
      reads this
      ensures r.None? <==> deadline.None?
      ensures r.Some? ==> r.value == (if deadline.value >= now then deadline.value - now else 0)
    {
      match deadline
      case Some(d) => Some(if d >= now then d - now else 0)
      case None => None
    }

    /** `clear`: disarm. */
    method Clear()
      modifies this`deadline
      ensures deadline == None
    {
      deadline := None;
    }

    /** `expired`: a deadline is armed and has been reached. */
    function Expired(now: int): (r: bool)
      reads this
      ensures r <==> deadline.Some? && deadline.value <= now
      ensures r ==> DurationUntilDeadline(now) == Some(0)
    {
      match deadline
      case Some(d) => d <= now
      case None => false
    }
  }

  /** `default_bouncer_expires_immediately`: a default bouncer has expired as soon as it is marked. */
  method DefaultBouncerExpiresImmediately(start: int, now: int) returns (expired: bool)
    ensures expired
  {
    var d := new Bouncer.Build(Builder(), start);
    d.Mark(now);
    expired := d.Expired(now);
  }

  /**
    `bouncer_with_long_deadline_is_now_expired_immediately` and
    `bouncer_gives_reasonable_time_to_expiry_after_marking`: with a 10 s
    period, a bouncer marked right after building has not expired a moment
    later, and the time left then is strictly between 9.5 s and 10 s.
  */
  method LongPeriodBouncer(start: int, now: int, later: int) returns (expired: bool, left: nat)
    requires start <= now < later < start + 500 * NANOS_PER_MILLI
    ensures !expired
    ensures 9_500 * NANOS_PER_MILLI < left < 10_000 * NANOS_PER_MILLI
  {
    var d := new Bouncer.Build(Builder().TimeBetweenDeadlines(10_000 * NANOS_PER_MILLI), start);
    d.Mark(now);
    var e := AsMillis(now - start);
    assert e < 500 && MillisIn(10_000, start, now) == e;
    assert d.deadline == Some(now + (10_000 - e) * NANOS_PER_MILLI);
    expired := d.Expired(later);
    left := d.DurationUntilDeadline(later).value;
  }
}
