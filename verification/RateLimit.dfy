/**
 * The sliding-window rate limiter of libeos-payg/manager.c: a ten-slot history of
 * boot-clock readings, newest first, where an empty slot holds zero.
 */
module RateLimit {
  import opened Integers

  const N_ATTEMPTS: nat := 10
  const TIME_PERIOD_SECS: int := 1800

  type History = h: seq<Seconds> | |h| == N_ATTEMPTS witness [0, 0, 0, 0, 0, 0, 0, 0, 0, 0]

  datatype Limiter = Limiter(history: History, endTime: uint64)

  const CLEARED: Limiter := Limiter([0, 0, 0, 0, 0, 0, 0, 0, 0, 0], 0)

  /** How many entries are at or after a time. */
  function CountSince(h: seq<Seconds>, since: uint64): nat {
    if h == [] then 0
    else CountSince(h[..|h| - 1], since) + (if h[|h| - 1] >= since then 1 else 0)
  }

  /** The subtraction is unsigned, so it wraps for times below the period. */
  predicate Refuses(l: Limiter, now: Seconds) {
    CountSince(l.history, WrappingSub(now, TIME_PERIOD_SECS)) >= N_ATTEMPTS
  }

  function EndTime(h: History): uint64 {
    var oldest := h[N_ATTEMPTS - 1];
    if oldest > 0 then oldest + TIME_PERIOD_SECS else 0
  }

  /** The first nine entries move up by one slot and the new one takes the first. */
  function Pushed(h: History, now: Seconds): History {
    [now] + h[..N_ATTEMPTS - 1]
  }

  /** Every attempt is recorded, whether it is refused or not. */
  function Recorded(l: Limiter, now: Seconds): Limiter {
    Limiter(Pushed(l.history, now), EndTime(Pushed(l.history, now)))
  }

  /** The limiter after a sequence of attempts on a cleared history. */
  function After(attempts: seq<Seconds>): Limiter {
    if attempts == [] then CLEARED
    else Recorded(After(attempts[..|attempts| - 1]), attempts[|attempts| - 1])
  }

  /** The clock never goes back. */
  predicate Chronological(attempts: seq<Seconds>) {
    forall i, j :: 0 <= i <= j < |attempts| ==> attempts[i] <= attempts[j]
  }

  /** An attempt above one period that comes after all the recorded ones, which may have come before it. */
  predicate Follows(attempts: seq<Seconds>, now: Seconds) {
    && Chronological(attempts)
    && now > TIME_PERIOD_SECS
    && (attempts != [] ==> attempts[|attempts| - 1] <= now)
  }

  predicate Passes(attempts: seq<Seconds>, i: nat)
    requires i < |attempts|
  {
    !Refuses(After(attempts[..i]), attempts[i])
  }

  // ----- The array -----

  lemma {:induction false} CountBounds(h: seq<Seconds>, since: uint64)
    ensures CountSince(h, since) <= |h|
    ensures CountSince(h, since) == |h| <==> forall i :: 0 <= i < |h| ==> h[i] >= since
  {
    if h == [] {
    } else {
      CountBounds(h[..|h| - 1], since);
      assert forall i :: 0 <= i < |h| - 1 ==> h[..|h| - 1][i] == h[i];
    }
  }

  /** The history holds the last ten attempts, newest first, and then zeros. */
  lemma {:induction false} HistoryHoldsLastAttempts(attempts: seq<Seconds>)
    ensures var h := After(attempts).history;
            forall i :: 0 <= i < N_ATTEMPTS ==>
              h[i] == if i < |attempts| then attempts[|attempts| - 1 - i] else 0
    ensures var tenth: int := if |attempts| >= 10 then attempts[|attempts| - 10] else 0;
            After(attempts).endTime == if tenth > 0 then tenth + 1800 else 0
  {
    if attempts == [] {
    } else {
      HistoryHoldsLastAttempts(attempts[..|attempts| - 1]);
    }
  }

  /** Sorted newest first with zeros at the tail. */
  lemma HistoryIsSorted(attempts: seq<Seconds>)
    requires Chronological(attempts)
    ensures var h := After(attempts).history;
            forall i, j :: 0 <= i <= j < N_ATTEMPTS ==> h[i] >= h[j] && (h[i] == 0 ==> h[j] == 0)
  {
    HistoryHoldsLastAttempts(attempts);
  }

  // ----- What the limiter decides -----

  predicate NewestFirst(h: History) {
    forall i :: 0 <= i < N_ATTEMPTS ==> h[i] >= h[N_ATTEMPTS - 1]
  }

  /** In a sorted history only the oldest entry matters. */
  lemma RefusesIffOldestIsRecent(l: Limiter, now: Seconds)
    requires NewestFirst(l.history) && now >= TIME_PERIOD_SECS
    ensures Refuses(l, now) <==> l.history[N_ATTEMPTS - 1] >= now - TIME_PERIOD_SECS
  {
    CountBounds(l.history, now - TIME_PERIOD_SECS);
  }

  /** The oldest slot is the tenth last attempt, or empty. */
  lemma OldestSlot(attempts: seq<Seconds>)
    requires Chronological(attempts)
    ensures var l := After(attempts);
            && NewestFirst(l.history)
            && l.endTime == EndTime(l.history)
            && l.history[N_ATTEMPTS - 1] ==
                 if |attempts| >= N_ATTEMPTS then attempts[|attempts| - N_ATTEMPTS] else 0
  {
    HistoryHoldsLastAttempts(attempts);
  }

  /** An attempt is refused if and only if the tenth last one is inside the closed window. */
  lemma RefusedIffTenthLastIsRecent(attempts: seq<Seconds>, now: Seconds)
    requires Follows(attempts, now)
    ensures Refuses(After(attempts), now) <==>
            |attempts| >= 10 && attempts[|attempts| - 10] >= now - 1800
  {
    OldestSlot(attempts);
    RefusesIffOldestIsRecent(After(attempts), now);
  }

  /** The published end time is exact: attempts are refused up to it, inclusive, and pass after it. */
  lemma EndTimeIsExact(attempts: seq<Seconds>, now: Seconds)
    requires Follows(attempts, now)
    ensures Refuses(After(attempts), now) <==> now <= After(attempts).endTime
  {
    OldestSlot(attempts);
    RefusesIffOldestIsRecent(After(attempts), now);
  }

  /**
   * Below one period the subtraction wraps and nothing is ever refused; at
   * exactly one period even empty slots count and everything is refused. The two
   * statements above therefore need an attempt above the period.
   */
  lemma EarlyClock(l: Limiter, now: Seconds)
    requires now <= TIME_PERIOD_SECS
    ensures Refuses(l, now) <==> now == 1800
  {
    var since := WrappingSub(now, TIME_PERIOD_SECS);
    CountBounds(l.history, since);
    if now < TIME_PERIOD_SECS {
      assert l.history[0] < since;
    }
  }

  /** The attempts in the closed interval that pass the limiter. */
  function PassedBetween(attempts: seq<Seconds>, from: int, to: int): set<nat> {
    set i: nat | i < |attempts| && Passes(attempts, i) && from <= attempts[i] <= to :: i
  }

  lemma SetInRange(s: set<nat>, lo: int, n: nat)
    requires forall i :: i in s ==> lo <= i < lo + n
    ensures |s| <= n
    decreases n
  {
    if n > 0 {
      SetInRange(s - {lo + n - 1}, lo, n - 1);
    } else {
      assert s == {};
    }
  }

  lemma MaxExists(s: set<nat>) returns (m: nat)
    requires s != {}
    ensures m in s && forall i :: i in s ==> i <= m
    decreases s
  {
    m :| m in s;
    if s != {m} {
      var m' := MaxExists(s - {m});
      assert forall i :: i in s ==> i == m || i in s - {m};
      m := Max(m, m');
    }
  }

  /** In any closed window of one period that starts no earlier than the period itself, at most ten attempts pass. */
  lemma AtMostTenPassInAnyWindow(attempts: seq<Seconds>, from: int)
    requires Chronological(attempts) && from >= 1800
    ensures |PassedBetween(attempts, from, from + 1800)| <= 10
  {
    var passed := PassedBetween(attempts, from, from + TIME_PERIOD_SECS);
    if passed != {} {
      var last := MaxExists(passed);
      if attempts[last] == TIME_PERIOD_SECS {
        EarlyClock(After(attempts[..last]), attempts[last]);
        assert false;
      }
      RefusedIffTenthLastIsRecent(attempts[..last], attempts[last]);
      SetInRange(passed, last - N_ATTEMPTS + 1, N_ATTEMPTS);
    }
  }

  /** Any number of attempts in one second below the period. */
  function Burst(at: Seconds, n: nat): seq<Seconds> {
    if n == 0 then [] else Burst(at, n - 1) + [at]
  }

  lemma {:induction false} BurstIsConstant(at: Seconds, n: nat)
    ensures |Burst(at, n)| == n && forall i :: 0 <= i < n ==> Burst(at, n)[i] == at
  {
    if n == 0 {
    } else {
      BurstIsConstant(at, n - 1);
    }
  }

  /** Windows that start earlier, and do not end before the clock starts, have no bound at all. */
  lemma EarlyWindowsAreUnbounded(from: int, n: nat)
    requires -TIME_PERIOD_SECS <= from < TIME_PERIOD_SECS
    ensures var attempts := Burst(Max(0, from), n);
            Chronological(attempts) && |PassedBetween(attempts, from, from + TIME_PERIOD_SECS)| == n
  {
    var attempts := Burst(Max(0, from), n);
    BurstIsConstant(Max(0, from), n);
    var passed := PassedBetween(attempts, from, from + TIME_PERIOD_SECS);
    forall i: nat
      ensures i in passed <==> i < n
    {
      if i < n {
        assert attempts[i] == Max(0, from);
        EarlyClock(After(attempts[..i]), attempts[i]);
        assert Passes(attempts, i);
      }
    }
    FirstNumbers(passed, n);
  }

  lemma {:induction false} FirstNumbers(s: set<nat>, n: nat)
    requires forall i: nat :: i in s <==> i < n
    ensures |s| == n
  {
    if n == 0 {
      assert s == {};
    } else {
      FirstNumbers(s - {n - 1}, n - 1);
    }
  }

  /** The bound of ten holds in a window for every sequence of attempts if and only if the window is empty or starts late enough. */
  lemma TenPassIffLateWindow(from: int)
    ensures (forall attempts :: Chronological(attempts) ==>
               |PassedBetween(attempts, from, from + TIME_PERIOD_SECS)| <= N_ATTEMPTS)
       <==> from >= TIME_PERIOD_SECS || from + TIME_PERIOD_SECS < 0
  {
    if from >= TIME_PERIOD_SECS {
      forall attempts | Chronological(attempts)
        ensures |PassedBetween(attempts, from, from + TIME_PERIOD_SECS)| <= N_ATTEMPTS
      {
        AtMostTenPassInAnyWindow(attempts, from);
      }
    } else if from + TIME_PERIOD_SECS < 0 {
      forall attempts | Chronological(attempts)
        ensures |PassedBetween(attempts, from, from + TIME_PERIOD_SECS)| <= N_ATTEMPTS
      {
        assert PassedBetween(attempts, from, from + TIME_PERIOD_SECS) == {};
      }
    } else {
      EarlyWindowsAreUnbounded(from, N_ATTEMPTS + 1);
    }
  }

  /** The span plus one, divided by 1801, rounded up. */
  function Stretches(span: nat): nat {
    (span + 1 + TIME_PERIOD_SECS) / (TIME_PERIOD_SECS + 1)
  }

  /** In any span of T seconds, at most ten attempts pass for each started stretch of 1801 seconds. */
  lemma {:induction false} PassesPerSpan(attempts: seq<Seconds>, from: int, span: nat)
    requires Chronological(attempts) && from >= 1800
    ensures |PassedBetween(attempts, from, from + span)| <= 10 * Stretches(span)
    decreases span
  {
    AtMostTenPassInAnyWindow(attempts, from);
    var first := PassedBetween(attempts, from, from + TIME_PERIOD_SECS);
    if span <= TIME_PERIOD_SECS {
      SubsetSize(PassedBetween(attempts, from, from + span), first);
    } else {
      var from' := from + TIME_PERIOD_SECS + 1;
      var span' := span - TIME_PERIOD_SECS - 1;
      PassesPerSpan(attempts, from', span');
      assert from' + span' == from + span;
      PassesSplit(attempts, from, from + TIME_PERIOD_SECS, from + span);
      assert Stretches(span) == Stretches(span') + 1;
    }
  }

  lemma PassesSplit(attempts: seq<Seconds>, from: int, mid: int, to: int)
    requires from <= mid <= to
    ensures |PassedBetween(attempts, from, to)| ==
            |PassedBetween(attempts, from, mid)| + |PassedBetween(attempts, mid + 1, to)|
  {
    var first, rest := PassedBetween(attempts, from, mid), PassedBetween(attempts, mid + 1, to);
    assert PassedBetween(attempts, from, to) == first + rest;
    assert first !! rest;
  }

  lemma SubsetSize(s: set<nat>, t: set<nat>)
    requires s <= t
    ensures |s| <= |t|
  {
    assert t == s + (t - s);
  }
}
