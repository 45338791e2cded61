/**
 * When "expired" is emitted: the manager asks the real clock for a periodic source
 * and checks the expiry time at every tick (libeos-payg/manager.c,
 * libeos-payg/real-clock.c, libeos-payg/boottime-source.c).
 */
module ExpiryTimer {
  import opened Integers
  import opened Wrappers
  import opened UsedCodes
  import opened ManagerState
  import opened Credit
  import Codes

  const MSEC_PER_SEC: int := 1000

  /** The longest interval whose milliseconds fit in a guint, in seconds: about 49 days. */
  const LONGEST_INTERVAL: int := MAX_UINT32 / MSEC_PER_SEC

  /** epg_real_clock_source_new_seconds: clamp to what the multiplication can hold. */
  function IntervalMs(interval: uint32): uint32 {
    Min(interval, LONGEST_INTERVAL) * MSEC_PER_SEC
  }

  datatype Timespec = Timespec(sec: int, nsec: int)

  /** epg_boottime_source_new. */
  function Split(intervalMs: uint32): Timespec {
    Timespec(intervalMs / 1000, (intervalMs % 1000) * (1000 * 1000))
  }

  /** The conversions lose nothing: the kernel timer has exactly the clamped interval. */
  lemma IntervalIsExact(interval: uint32)
    ensures var t := Split(IntervalMs(interval));
            t.sec == Min(interval, LONGEST_INTERVAL) && t.nsec == 0
  {
  }

  /** Any millisecond interval is split without loss and with a valid nanosecond part. */
  lemma SplitIsExact(ms: uint32)
    ensures var t := Split(ms);
            && 0 <= t.nsec < 1_000_000_000
            && t.sec * 1_000_000_000 + t.nsec == ms * 1_000_000
  {
  }

  function Period(t: Timer): int {
    Split(IntervalMs(t.interval)).sec
  }

  /** The reading of the boot clock at the k-th tick. */
  function TickTime(t: Timer, k: nat): int {
    t.start + k * Period(t)
  }

  /** The manager after k ticks and how often it has emitted "expired". */
  function AfterTicks(m: Manager, t: Timer, k: nat): (Manager, nat)
    requires TickTime(t, k) <= MAX_INT64 && Period(t) > 0
  {
    if k == 0 then (m, 0)
    else
      TickTimesGrow(t, k - 1, k);
      var (before, emitted) := AfterTicks(m, t, k - 1);
      if before.timer.None? then (before, emitted)
      else
        var (after, expired) := CheckExpired(before, Clock(TickTime(t, k), 0));
        (after, if expired then emitted + 1 else emitted)
  }

  lemma TickTimesGrow(t: Timer, j: nat, k: nat)
    requires j <= k && Period(t) >= 0
    ensures 0 <= TickTime(t, j) <= TickTime(t, k)
    ensures TickTime(t, k) - TickTime(t, j) == (k - j) * Period(t)
  {
    assert k * Period(t) - j * Period(t) == (k - j) * Period(t);
    assert (k - j) * Period(t) >= 0;
    assert j * Period(t) >= 0;
  }

  /** The first tick at or after the expiry time. */
  function FirstTick(t: Timer, expiry: int): nat
    requires Period(t) > 0 && expiry > t.start
  {
    (expiry - t.start + Period(t) - 1) / Period(t)
  }

  lemma FirstTickIsFirst(t: Timer, expiry: int)
    requires Period(t) > 0 && expiry > t.start
    ensures var n := FirstTick(t, expiry);
            && n >= 1
            && TickTime(t, n - 1) < expiry <= TickTime(t, n) < expiry + Period(t)
            && (TickTime(t, n) == expiry <==> (expiry - t.start) % Period(t) == 0)
  {
    var p, d := Period(t), expiry - t.start;
    var n := FirstTick(t, expiry);
    DivisionFacts(d, p);
    assert (n - 1) * p == n * p - p;
  }

  lemma DivisionFacts(d: int, p: int)
    requires d > 0 && p > 0
    ensures var n := (d + p - 1) / p;
            && n >= 1 && d <= n * p < d + p
            && (n * p == d <==> d % p == 0)
  {
    var n := (d + p - 1) / p;
    var r := (d + p - 1) % p;
    assert d + p - 1 == p * n + r;
    if d % p == 0 {
      var q := d / p;
      assert d == p * q;
      assert p * n == p * q + (p - 1 - r);
      MultipleBelow(n - q, p, p - 1 - r);
    }
    if n * p == d {
      MultipleHasNoRemainder(n, p);
    }
    if n < 1 {
      NonPositiveMultiple(n, p);
    }
  }

  lemma MultipleBelow(k: int, p: int, x: int)
    requires p > 0 && 0 <= x < p && p * k == x
    ensures x == 0
  {
    assert k >= 1 ==> p * k >= p;
    assert k <= -1 ==> p * k <= -p;
  }

  lemma MultipleHasNoRemainder(n: int, p: int)
    requires p > 0
    ensures (n * p) % p == 0
  {
    var q, r := (n * p) / p, (n * p) % p;
    assert n * p == p * q + r;
    assert p * (n - q) == r;
    MultipleBelow(n - q, p, r);
  }

  lemma NonPositiveMultiple(n: int, p: int)
    requires n <= 0 && p > 0
    ensures n * p <= 0
  {
  }

  /** A manager that has just set an expiry time in the future. */
  predicate Armed(m: Manager, t: Timer) {
    && m.enabled && m.timer == Some(t)
    && m.expiry > t.start && Period(t) > 0
    && TickTime(t, FirstTick(t, m.expiry)) <= MAX_INT64
  }

  /** Until the first tick after the expiry time nothing is emitted; that tick emits once; no later one does. */
  lemma {:induction false} EmissionCount(m: Manager, t: Timer, k: nat)
    requires Armed(m, t) && TickTime(t, k) <= MAX_INT64
    ensures var (m', emitted) := AfterTicks(m, t, k);
            if k < FirstTick(t, m.expiry) then emitted == 0 && m' == m
            else emitted == 1 && m'.timer == None
  {
    FirstTickIsFirst(t, m.expiry);
    var first := FirstTick(t, m.expiry);
    if k == 0 {
    } else {
      TickTimesGrow(t, k - 1, k);
      EmissionCount(m, t, k - 1);
      if k < first {
        TickTimesGrow(t, k, first - 1);
      }
    }
  }

  /**
   * After an expiry time is set with a span that is not zero, "expired" is emitted
   * exactly once, never early, and less than one timer interval late. It is exactly
   * on time if and only if the interval divides the time that was left.
   */
  lemma ExpiredTiming(m: Manager, t: Timer, k: nat)
    requires Armed(m, t) && TickTime(t, k) <= MAX_INT64
    ensures var n := FirstTick(t, m.expiry);
            && (AfterTicks(m, t, k).1 == if k < n then 0 else 1)
            && m.expiry <= TickTime(t, n) < m.expiry + Period(t)
            && (TickTime(t, n) == m.expiry <==> (m.expiry - t.start) % Period(t) == 0)
  {
    FirstTickIsFirst(t, m.expiry);
    EmissionCount(m, t, k);
  }

  /** What set_expiry_time arms: the interval follows the span that was added, not the time that is left. */
  lemma ArmedBySettingExpiry(m: Manager, clock: Clock, base: uint64, span: uint64)
    requires m.enabled && span > 0 && base >= clock.boot && base + span < MAX_UINT64
    ensures var m' := WithExpiry(m, clock, base, span);
            && m'.timer == Some(Timer(clock.boot, Min(span, MAX_UINT32)))
            && m'.expiry == base + span > clock.boot
            && Period(m'.timer.value) == Min(span, LONGEST_INTERVAL) > 0
  {
  }

  /**
   * At code entry: the end of the credit is noticed on time if and only if the interval,
   * which is the span of the code, divides the credit that was left plus that span.
   */
  lemma CodeEntryTiming(hmac: Codes.Hmac, m: Manager, clock: Clock, text: string, x: UsedCode)
    requires IsCodeFor(hmac, m.key, text, x)
    requires AddCode(hmac, m, clock, text).1.Success? && AddCode(hmac, m, clock, text).0.expiry < MAX_UINT64
    ensures Codes.ValidPeriod(x.period)
    ensures var m', interval := AddCode(hmac, m, clock, text).0, Min(Span(x.period), LONGEST_INTERVAL);
            && m'.timer.Some? && Period(m'.timer.value) == interval > 0 && m'.expiry > m'.timer.value.start
            && (TickTime(m'.timer.value, FirstTick(m'.timer.value, m'.expiry)) == m'.expiry <==>
                  (CreditLeft(m.expiry, clock.boot) + Span(x.period)) % interval == 0)
  {
    EnteredIffIssued(hmac, m.key, text, x);
    LongerPeriodsAddMore(x.period, x.period);
    var m', base := AddCode(hmac, m, clock, text).0, ExtensionBase(m.expiry, clock.boot);
    ArmedBySettingExpiry(m, clock, base, Span(x.period));
    FirstTickIsFirst(m'.timer.value, m'.expiry);
  }

  /** After a forward change of the wall clock that leaves some credit, the end of what is left is noticed on time if that fits one interval. */
  lemma ForwardChangeTiming(m: Manager, clock: Clock, delta: int)
    requires 0 < delta < CreditLeft(m.expiry, clock.boot) <= delta + LONGEST_INTERVAL
    ensures var m', left := WallclockTimeChanged(m, clock, delta).0, CreditLeft(m.expiry, clock.boot) - delta;
            && m'.expiry == clock.boot + left && m'.timer == Some(Timer(clock.boot, left))
            && Period(m'.timer.value) == left
            && FirstTick(m'.timer.value, m'.expiry) == 1 && TickTime(m'.timer.value, 1) == m'.expiry
  {
    ClockChangeIff(m, clock, delta);
    OneInterval(CreditLeft(m.expiry, clock.boot) - delta);
  }

  /** A disabled manager never emits the signal, and its first tick removes the timer. */
  lemma {:induction false} DisabledNeverExpires(m: Manager, t: Timer, k: nat)
    requires !m.enabled && m.timer == Some(t) && Period(t) > 0 && TickTime(t, k) <= MAX_INT64
    ensures var (m', emitted) := AfterTicks(m, t, k);
            emitted == 0 && !m'.enabled && (m'.timer == None <==> k > 0)
  {
    if k == 0 {
    } else {
      TickTimesGrow(t, k - 1, k);
      DisabledNeverExpires(m, t, k - 1);
    }
  }

  /** A code entered after the credit has run out, and of at most one interval, expires exactly on time. */
  lemma OnTimeWhenSpanFits(m: Manager, clock: Clock, span: uint64)
    requires m.enabled && 0 < span <= LONGEST_INTERVAL
    ensures var m' := WithExpiry(m, clock, clock.boot, span);
            var t := m'.timer.value;
            FirstTick(t, m'.expiry) == 1 && TickTime(t, 1) == m'.expiry
  {
    ArmedBySettingExpiry(m, clock, clock.boot, span);
    OneInterval(span);
  }

  lemma OneInterval(p: int)
    requires p > 0
    ensures (p + p - 1) / p == 1
  {
    var q, r := (p + p - 1) / p, (p + p - 1) % p;
    assert p + p - 1 == p * q + r;
    assert p * (1 - q) == r - (p - 1);
    assert q >= 2 ==> p * (1 - q) <= -p;
    assert q <= 0 ==> p * (1 - q) >= p;
  }

  /**
   * A case that is late: with one hour of credit left, a code for 31 days is entered.
   * The timer ticks every 31 days, so the expiry is noticed 31 days minus one
   * hour after the credit has run out.
   */
  lemma LateExpiry(m: Manager, clock: Clock)
    requires m.enabled && m.expiry == clock.boot + HOUR_SECS
    ensures var m' := WithExpiry(m, clock, ExtensionBase(m.expiry, clock.boot), Span(25));
            var t := m'.timer.value;
            && m'.expiry == clock.boot + HOUR_SECS + 31 * DAY_SECS
            && TickTime(t, FirstTick(t, m'.expiry)) == m'.expiry + 31 * DAY_SECS - HOUR_SECS
  {
    var m' := WithExpiry(m, clock, ExtensionBase(m.expiry, clock.boot), Span(25));
    assert m'.timer == Some(Timer(clock.boot, 31 * DAY_SECS));
    assert FirstTick(m'.timer.value, m'.expiry) == 2;
  }
}
