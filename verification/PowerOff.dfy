/**
 * libeos-payg/manager-service.c on top of an enabled manager: when credit runs out the
 * service starts a ten-minute timer that powers the machine off, and cancels it
 * when the expiry time moves into the future.
 */
module PowerOff {
  import opened Integers
  import opened Wrappers
  import opened ManagerState
  import opened Credit
  import Codes

  const POWEROFF_DELAY_SECS: int := 600
  const SHUTDOWN_CANCELLED: int := -1

  /** The shutdown timer, by the time it was started, and the ImpendingShutdown signals emitted so far. */
  datatype Service = Service(timer: Option<Seconds>, signals: seq<int>)

  /** What the service reads as the expiry time. */
  function ShownExpiry(m: Manager): uint64 {
    if m.enabled then m.expiry else 0
  }

  function OnExpired(s: Service, now: Seconds): Service {
    if s.timer.Some? then s
    else Service(Some(now), s.signals + [POWEROFF_DELAY_SECS])
  }

  function OnExpiryTimeNotified(s: Service, now: Seconds, expiry: uint64): Service {
    if s.timer.None? then s
    else if expiry == 0 || expiry > now then Service(None, s.signals + [SHUTDOWN_CANCELLED])
    else s
  }

  /** The object; its methods do what the functions above say. */
  class ManagerService {
    var shutdownTimer: Option<Seconds>
    var impendingShutdowns: seq<int>

    function View(): Service
      reads this
    {
      Service(shutdownTimer, impendingShutdowns)
    }

    /** Setting the provider: start the timer at once if the credit is already used up. */
    constructor (now: Seconds, expiry: uint64)
      ensures View() == if expiry <= now then OnExpired(Service(None, []), now) else Service(None, [])
    {
      shutdownTimer, impendingShutdowns := None, [];
      new;
      if expiry <= now {
        ExpiredCb(now);
      }
    }

    method ExpiredCb(now: Seconds)
      modifies this
      ensures View() == OnExpired(old(View()), now)
    {
      if shutdownTimer.None? {
        shutdownTimer := Some(now);
        impendingShutdowns := impendingShutdowns + [POWEROFF_DELAY_SECS];
      }
    }

    method NotifyExpiryTimeCb(now: Seconds, expiry: uint64)
      modifies this
      ensures View() == OnExpiryTimeNotified(old(View()), now, expiry)
    {
      if shutdownTimer.None? {
        return;
      }
      if expiry == 0 || expiry > now {
        shutdownTimer := None;
        impendingShutdowns := impendingShutdowns + [SHUTDOWN_CANCELLED];
      }
    }
  }

  // ----- Manager and service together -----

  datatype System = System(m: Manager, s: Service, clock: Clock)

  datatype Event =
    | Elapse(secs: nat)
    | ExpirySource               // the expiry timer of the manager is dispatched
    | EnterCode(text: string)
    | Clear
    | ClockChanged(wall: Seconds, delta: int)

  function Notified(sys: System, m: Manager, fx: Effects): System {
    sys.(m := m,
         s := if fx.notifiedExpiry then OnExpiryTimeNotified(sys.s, sys.clock.boot, ShownExpiry(m)) else sys.s)
  }

  function Step(hmac: Codes.Hmac, sys: System, e: Event): System {
    match e
    case Elapse(secs) =>
      if sys.clock.boot + secs > MAX_INT64 || sys.clock.wall + secs > MAX_INT64 then sys
      else sys.(clock := Clock(sys.clock.boot + secs, sys.clock.wall + secs))
    case ExpirySource =>
      if sys.m.timer.None? then sys
      else
        var (m, expired) := CheckExpired(sys.m, sys.clock);
        sys.(m := m, s := if expired then OnExpired(sys.s, sys.clock.boot) else sys.s)
    case EnterCode(text) =>
      var (m, _, fx) := AddCode(hmac, sys.m, sys.clock, text);
      Notified(sys, m, fx)
    case Clear =>
      var (m, _, fx) := ClearCode(sys.m, sys.clock);
      Notified(sys, m, fx)
    case ClockChanged(wall, delta) =>
      var clock := Clock(sys.clock.boot, wall);
      var (m, fx) := WallclockTimeChanged(sys.m, clock, delta);
      Notified(sys.(clock := clock), m, fx)
  }

  function Run(hmac: Codes.Hmac, sys: System, es: seq<Event>): System {
    if es == [] then sys else Step(hmac, Run(hmac, sys, es[..|es| - 1]), es[|es| - 1])
  }

  /** The service has just been given the provider. */
  function Start(m: Manager, clock: Clock): System {
    System(m, if ShownExpiry(m) <= clock.boot then OnExpired(Service(None, []), clock.boot) else Service(None, []), clock)
  }

  /** The signals alternate, beginning with the announcement, and the last one tells whether the timer is armed. */
  predicate Alternates(s: Service) {
    && (forall i :: 0 <= i < |s.signals| ==>
          s.signals[i] == if i % 2 == 0 then POWEROFF_DELAY_SECS else SHUTDOWN_CANCELLED)
    && (s.timer.Some? <==> |s.signals| % 2 == 1)
  }

  /** An armed timer was started when the credit had run out, and the credit has been out ever since. */
  predicate Safe(sys: System) {
    && sys.m.enabled
    && Alternates(sys.s)
    && (sys.s.timer.Some? ==> sys.m.expiry <= sys.s.timer.value <= sys.clock.boot)
  }

  lemma NotifiedSafe(sys: System, m: Manager, fx: Effects)
    requires Safe(sys) && m.enabled
    requires m.expiry != sys.m.expiry ==> fx.notifiedExpiry
    requires sys.s.timer.Some? ==> m.expiry == sys.m.expiry || m.expiry == 0 || m.expiry > sys.clock.boot
    ensures Safe(Notified(sys, m, fx))
  {
  }

  lemma StepSafe(hmac: Codes.Hmac, sys: System, e: Event)
    requires Safe(sys)
    ensures Safe(Step(hmac, sys, e))
  {
    match e
    case Elapse(_) =>
    case ExpirySource =>
    case EnterCode(text) =>
      var (m, _, fx) := AddCode(hmac, sys.m, sys.clock, text);
      NotifiedSafe(sys, m, fx);
    case Clear =>
      var (m, _, fx) := ClearCode(sys.m, sys.clock);
      NotifiedSafe(sys, m, fx);
    case ClockChanged(wall, delta) =>
      var clock := Clock(sys.clock.boot, wall);
      var (m, fx) := WallclockTimeChanged(sys.m, clock, delta);
      NotifiedSafe(sys.(clock := clock), m, fx);
  }

  /**
   * In every reachable state an armed power-off timer means that there was no
   * credit at any moment since it was started - so the machine is only powered
   * off after ten whole minutes without credit - and the signals strictly
   * alternate between 600 and -1, beginning with 600.
   */
  lemma {:induction false} PowerOffSafety(hmac: Codes.Hmac, m: Manager, clock: Clock, es: seq<Event>)
    requires m.enabled
    ensures var sys := Run(hmac, Start(m, clock), es);
            && Safe(sys)
            && (sys.s.timer.Some? ==> sys.m.expiry <= sys.s.timer.value <= sys.clock.boot)
            && (forall i :: 0 <= i < |sys.s.signals| ==> sys.s.signals[i] == if i % 2 == 0 then 600 else -1)
            && (sys.s.timer.Some? <==> |sys.s.signals| % 2 == 1)
  {
    if es == [] {
    } else {
      PowerOffSafety(hmac, m, clock, es[..|es| - 1]);
      StepSafe(hmac, Run(hmac, Start(m, clock), es[..|es| - 1]), es[|es| - 1]);
    }
  }

  /** An accepted code always leaves the power-off timer disarmed, and an armed one is disarmed with exactly one signal. */
  lemma AcceptedCodeDisarms(hmac: Codes.Hmac, sys: System, text: string)
    requires Safe(sys)
    requires AddCode(hmac, sys.m, sys.clock, text).1.Success?
    ensures var s' := Step(hmac, sys, EnterCode(text)).s;
            && s'.timer == None
            && s'.signals == sys.s.signals + (if sys.s.timer.Some? then [SHUTDOWN_CANCELLED] else [])
  {
    var (m, _, fx) := AddCode(hmac, sys.m, sys.clock, text);
    AcceptedExpiryIsInFuture(hmac, sys.m, sys.clock, text);
  }

  lemma AcceptedExpiryIsInFuture(hmac: Codes.Hmac, m: Manager, clock: Clock, text: string)
    requires AddCode(hmac, m, clock, text).1.Success?
    ensures var (m', _, fx) := AddCode(hmac, m, clock, text);
            && m'.expiry > clock.boot && m'.enabled
            && (m.expiry <= clock.boot ==> fx.notifiedExpiry)
  {
  }

  /** When the service is given the provider, it starts the timer at once if and only if the credit is already used up. */
  lemma StartArmsIff(m: Manager, clock: Clock)
    requires m.enabled
    ensures var s := Start(m, clock).s;
            && (m.expiry <= clock.boot ==> s.timer == Some(clock.boot) && s.signals == [600])
            && (m.expiry > clock.boot ==> s.timer == None && s.signals == [])
  {
  }

  // ----- Every credit is watched -----

  /** Credit that will end has a timer, which was started no later than now and ticks no later than that end. */
  predicate Watches(m: Manager, now: Seconds) {
    && (m.enabled && now < m.expiry < 0xFFFF_FFFF_FFFF_FFFF ==>
          && m.timer.Some? && m.timer.value.start <= now
          && 0 < m.timer.value.interval <= m.expiry - m.timer.value.start)
    && (m.expiry == 0xFFFF_FFFF_FFFF_FFFF ==> m.timer == None)
  }

  lemma StepWatches(hmac: Codes.Hmac, sys: System, e: Event)
    requires Watches(sys.m, sys.clock.boot)
    ensures Watches(Step(hmac, sys, e).m, Step(hmac, sys, e).clock.boot)
  {
    match e
    case EnterCode(text) => CodeWatches(hmac, sys.m, sys.clock, text);
    case ClockChanged(wall, delta) => ClockChangeIff(sys.m, Clock(sys.clock.boot, wall), delta);
    case _ =>
  }

  lemma CodeWatches(hmac: Codes.Hmac, m: Manager, clock: Clock, text: string)
    requires Watches(m, clock.boot)
    ensures Watches(AddCode(hmac, m, clock, text).0, clock.boot)
  {
    if AddCode(hmac, m, clock, text).1.Failure? {
      RefusedCodeChangesOnlyHistory(hmac, m, clock, text);
    } else {
      var x := Entered(hmac, m.key, text).value;
      LongerPeriodsAddMore(x.period, x.period);
    }
  }

  /** Over every run from a state whose credit is watched, the credit stays watched. */
  lemma {:induction false} CreditIsAlwaysWatched(hmac: Codes.Hmac, m: Manager, clock: Clock, es: seq<Event>)
    requires Watches(m, clock.boot)
    ensures var sys := Run(hmac, Start(m, clock), es); Watches(sys.m, sys.clock.boot)
  {
    if es == [] {
    } else {
      CreditIsAlwaysWatched(hmac, m, clock, es[..|es| - 1]);
      StepWatches(hmac, Run(hmac, Start(m, clock), es[..|es| - 1]), es[|es| - 1]);
    }
  }

  // ----- Clearing -----

  /** What a clear that succeeds does at once: nothing watches the credit, and an armed timer is cancelled unless the expiry time was zero already. */
  lemma ClearDisarms(hmac: Codes.Hmac, sys: System)
    requires sys.m.enabled && !sys.m.cancelled
    ensures var sys' := Step(hmac, sys, Clear);
            && sys'.m.expiry == 0 && sys'.m.timer == None
            && (sys'.s.timer == None <==> sys.s.timer == None || sys.m.expiry != 0)
            && sys'.s.signals == sys.s.signals + (if sys.s.timer.Some? && sys.m.expiry != 0 then [-1] else [])
  {
  }

  /** No code is accepted. */
  predicate Unpaid(hmac: Codes.Hmac, sys: System, es: seq<Event>) {
    es != [] ==>
      && Unpaid(hmac, sys, es[..|es| - 1])
      && var before, e := Run(hmac, sys, es[..|es| - 1]), es[|es| - 1];
         e.EnterCode? ==> AddCode(hmac, before.m, before.clock, e.text).1.Failure?
  }

  lemma ClearedStep(hmac: Codes.Hmac, sys: System, e: Event)
    requires sys.m.enabled && sys.m.expiry == 0 && sys.m.timer == None
    requires e.EnterCode? ==> AddCode(hmac, sys.m, sys.clock, e.text).1.Failure?
    ensures var sys' := Step(hmac, sys, e);
            sys'.m.enabled && sys'.m.expiry == 0 && sys'.m.timer == None && sys'.s == sys.s
  {
    if e.EnterCode? {
      RefusedCodeChangesOnlyHistory(hmac, sys.m, sys.clock, e.text);
    }
  }

  /** After a clear that succeeds, nothing is announced, armed or cancelled any more, through every run in which no code is accepted. */
  lemma {:induction false} ClearedStaysQuiet(hmac: Codes.Hmac, sys: System, es: seq<Event>)
    requires sys.m.enabled && !sys.m.cancelled
    requires Unpaid(hmac, Step(hmac, sys, Clear), es)
    ensures var cleared := Step(hmac, sys, Clear);
            var sys' := Run(hmac, cleared, es);
            sys'.m.enabled && sys'.m.expiry == 0 && sys'.m.timer == None && sys'.s == cleared.s
  {
    if es == [] {
      ClearDisarms(hmac, sys);
    } else {
      ClearedStaysQuiet(hmac, sys, es[..|es| - 1]);
      ClearedStep(hmac, Run(hmac, Step(hmac, sys, Clear), es[..|es| - 1]), es[|es| - 1]);
    }
  }
}
