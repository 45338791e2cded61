/** The end of the credit leads to the power-off timer: what ExpiryTimer says about the ticks and PowerOff about the service, together. */
module CreditEnd {
  import opened Integers
  import opened Wrappers
  import opened ManagerState
  import opened PowerOff
  import Timing = ExpiryTimer
  import Init = InitProtocol
  import Codes

  /** The event neither accepts a code nor clears nor charges credit. */
  predicate LeavesCredit(hmac: Codes.Hmac, sys: System, e: Event) {
    match e
    case EnterCode(text) => AddCode(hmac, sys.m, sys.clock, text).1.Failure?
    case Clear => ClearCode(sys.m, sys.clock).1.Failure?
    case ClockChanged(_, delta) => delta <= 0 || sys.m.expiry <= sys.clock.boot
    case _ => true
  }

  predicate Undisturbed(hmac: Codes.Hmac, sys: System, es: seq<Event>) {
    es != [] ==>
      && Undisturbed(hmac, sys, es[..|es| - 1])
      && LeavesCredit(hmac, Run(hmac, sys, es[..|es| - 1]), es[|es| - 1])
  }

  /** The end of the credit is either still watched by the timer or has armed the power-off timer. */
  predicate Watched(sys: System, t: Timer) {
    sys.m.timer == Some(t) || sys.s.timer.Some?
  }

  lemma UndisturbedStep(hmac: Codes.Hmac, sys: System, e: Event, t: Timer)
    requires Safe(sys) && LeavesCredit(hmac, sys, e)
    ensures var sys' := Step(hmac, sys, e);
            && sys'.m.expiry == sys.m.expiry
            && (Watched(sys, t) ==> Watched(sys', t))
            && (sys.s.timer.Some? ==> sys'.s == sys.s)
  {
    if e.EnterCode? {
      RefusedCodeChangesOnlyHistory(hmac, sys.m, sys.clock, e.text);
    }
  }

  lemma {:induction false} UndisturbedRun(hmac: Codes.Hmac, sys: System, es: seq<Event>, t: Timer)
    requires Safe(sys) && Undisturbed(hmac, sys, es)
    ensures var sys' := Run(hmac, sys, es);
            && Safe(sys') && sys'.m.expiry == sys.m.expiry
            && (Watched(sys, t) ==> Watched(sys', t))
            && (sys.s.timer.Some? ==> sys'.s == sys.s)
  {
    if es == [] {
    } else {
      var before := Run(hmac, sys, es[..|es| - 1]);
      UndisturbedRun(hmac, sys, es[..|es| - 1], t);
      UndisturbedStep(hmac, before, es[|es| - 1], t);
      StepSafe(hmac, before, es[|es| - 1]);
    }
  }

  /** The first tick of the timer at or after the expiry time is due. */
  predicate TickIsDue(sys: System, t: Timer, expiry: uint64)
    requires Timing.Period(t) > 0 && expiry > t.start
  {
    sys.clock.boot == Timing.TickTime(t, Timing.FirstTick(t, expiry))
  }

  /** The tick comes less than one interval after the end; it leaves the power-off timer armed; and so it stays. */
  predicate EndsInPowerOff(hmac: Codes.Hmac, due: System, t: Timer, expiry: uint64, after: seq<Event>) {
    var noticed := Step(hmac, due, ExpirySource);
    && expiry <= due.clock.boot < expiry + Timing.Period(t)
    && noticed.s.timer.Some? && expiry <= noticed.s.timer.value <= due.clock.boot
    && Run(hmac, noticed, after).s == noticed.s
  }

  /**
   * A timer watches the credit, and nothing adds to it or takes from it. When the first
   * tick at or after the expiry time has been dispatched, which is less than one
   * interval after it, the power-off timer is armed. It stays armed, and nothing more
   * is announced, until a code is accepted or the credit is cleared.
   */
  lemma CreditEndsInPowerOff(hmac: Codes.Hmac, sys: System, t: Timer, before: seq<Event>, after: seq<Event>)
    requires Safe(sys) && Timing.Armed(sys.m, t) && Undisturbed(hmac, sys, before)
    requires TickIsDue(Run(hmac, sys, before), t, sys.m.expiry)
    requires Undisturbed(hmac, Step(hmac, Run(hmac, sys, before), ExpirySource), after)
    ensures EndsInPowerOff(hmac, Run(hmac, sys, before), t, sys.m.expiry, after)
  {
    Timing.FirstTickIsFirst(t, sys.m.expiry);
    UndisturbedRun(hmac, sys, before, t);
    var due := Run(hmac, sys, before);
    StepSafe(hmac, due, ExpirySource);
    UndisturbedStep(hmac, due, ExpirySource, t);
    UndisturbedRun(hmac, Step(hmac, due, ExpirySource), after, t);
  }

  /** Once armed, only an accepted code or a successful clear disarms: any other event leaves the service as it is. */
  lemma OnlyCreditDisarms(hmac: Codes.Hmac, sys: System, e: Event)
    requires Safe(sys) && sys.s.timer.Some?
    ensures Step(hmac, sys, e).s.timer.None? <==>
            || (e.EnterCode? && AddCode(hmac, sys.m, sys.clock, e.text).1.Success?)
            || (e.Clear? && ClearCode(sys.m, sys.clock).1.Success? && sys.m.expiry != 0)
  {
    if e.EnterCode? {
      if AddCode(hmac, sys.m, sys.clock, e.text).1.Success? {
        AcceptedCodeDisarms(hmac, sys, e.text);
      } else {
        RefusedCodeChangesOnlyHistory(hmac, sys.m, sys.clock, e.text);
      }
    }
  }

  /** Credit that is watched has an armed timer, as long as its ticks can be read from the clock. */
  lemma WatchedIsArmed(m: Manager, now: Seconds)
    requires m.enabled && Watches(m, now) && now < m.expiry < MAX_UINT64
    ensures m.timer.Some? && Timing.Period(m.timer.value) > 0 && m.expiry > m.timer.value.start
    ensures Timing.TickTime(m.timer.value, Timing.FirstTick(m.timer.value, m.expiry)) <= MAX_INT64 ==>
              Timing.Armed(m, m.timer.value)
  {
  }

  /**
   * The same from every state whose credit is watched: if there is credit that will end
   * and it is then left alone, the power-off timer is armed less than one interval after
   * its end, and stays armed.
   */
  lemma WatchedCreditEndsInPowerOff(hmac: Codes.Hmac, sys: System, before: seq<Event>, after: seq<Event>)
    requires Safe(sys) && Watches(sys.m, sys.clock.boot) && sys.clock.boot < sys.m.expiry < MAX_UINT64
    requires Undisturbed(hmac, sys, before)
    ensures sys.m.timer.Some? && Timing.Period(sys.m.timer.value) > 0 && sys.m.expiry > sys.m.timer.value.start
    ensures var t, due := sys.m.timer.value, Run(hmac, sys, before);
            TickIsDue(due, t, sys.m.expiry) && Undisturbed(hmac, Step(hmac, due, ExpirySource), after) ==>
              EndsInPowerOff(hmac, due, t, sys.m.expiry, after)
  {
    WatchedIsArmed(sys.m, sys.clock.boot);
    var t, due := sys.m.timer.value, Run(hmac, sys, before);
    if TickIsDue(due, t, sys.m.expiry) && Undisturbed(hmac, Step(hmac, due, ExpirySource), after) {
      CreditEndsInPowerOff(hmac, sys, t, before, after);
    }
  }

  /** Every reachable state is such a state, whatever codes, clears and clock changes came before. */
  lemma EveryCreditEndsInPowerOff(hmac: Codes.Hmac, m: Manager, clock: Clock, es: seq<Event>, before: seq<Event>, after: seq<Event>)
    requires m.enabled && Watches(m, clock.boot)
    requires var sys := Run(hmac, Start(m, clock), es);
             sys.clock.boot < sys.m.expiry < MAX_UINT64 && Undisturbed(hmac, sys, before)
    ensures var sys := Run(hmac, Start(m, clock), es);
            && sys.m.timer.Some? && Timing.Period(sys.m.timer.value) > 0 && sys.m.expiry > sys.m.timer.value.start
            && var t, due := sys.m.timer.value, Run(hmac, sys, before);
               TickIsDue(due, t, sys.m.expiry) && Undisturbed(hmac, Step(hmac, due, ExpirySource), after) ==>
                 EndsInPowerOff(hmac, due, t, sys.m.expiry, after)
  {
    PowerOffSafety(hmac, m, clock, es);
    CreditIsAlwaysWatched(hmac, m, clock, es);
    WatchedCreditEndsInPowerOff(hmac, Run(hmac, Start(m, clock), es), before, after);
  }

  /** What was watched when it was loaded is watched whenever the service starts. */
  lemma LoadedWatches(m: Manager, read: Clock, now: Seconds)
    requires Init.Watched(m, read) && read.boot <= now
    ensures Watches(m, now)
  {
  }

  /**
   * The manager has a timer from the given reading to the end of its credit, and when the
   * first tick at or after that end is due, the power-off timer is armed by it and
   * stays armed.
   */
  predicate RunsOut(hmac: Codes.Hmac, m: Manager, read: Seconds, clock: Clock, before: seq<Event>, after: seq<Event>)
    requires read < m.expiry
  {
    var due, t := Run(hmac, Start(m, clock), before), Timer(read, Min(m.expiry - read, 0xFFFF_FFFF));
    && m.timer == Some(t)
    && Timing.Period(t) > 0
    && (TickIsDue(due, t, m.expiry) && Undisturbed(hmac, Step(hmac, due, ExpirySource), after) ==>
          EndsInPowerOff(hmac, due, t, m.expiry, after))
  }

  lemma WatchedRunsOut(hmac: Codes.Hmac, m: Manager, read: Clock, clock: Clock, before: seq<Event>, after: seq<Event>)
    requires m.enabled && Init.Watched(m, read) && read.boot <= clock.boot < m.expiry < MAX_UINT64
    requires Undisturbed(hmac, Start(m, clock), before)
    ensures RunsOut(hmac, m, read.boot, clock, before, after)
  {
    LoadedWatches(m, read, clock.boot);
    StartIsSafe(hmac, m, clock);
    WatchedCreditEndsInPowerOff(hmac, Start(m, clock), before, after);
  }

  /**
   * From the files to the power-off timer: credit that was loaded, in any order of the
   * callbacks, and is then left alone arms the power-off timer less than one interval
   * after its end, where the interval is that of the credit when its file was read.
   */
  lemma LoadedCreditEndsInPowerOff(hmac: Codes.Hmac, files: Init.Files, cs: seq<Init.Callback>, m: Manager, read: Clock,
                                   clock: Clock, before: seq<Event>, after: seq<Event>)
    requires Init.Schedule(files, true, cs) && Init.Run(files, true, cs).task.returned == [Success(true)]
    requires Init.Run(files, true, cs).m == m && Init.Run(files, true, cs).expiryReadAt == Some(read)
    requires m.enabled && read.boot <= clock.boot < m.expiry < MAX_UINT64
    requires Undisturbed(hmac, Start(m, clock), before)
    ensures RunsOut(hmac, m, read.boot, clock, before, after)
  {
    LoadedIsInitWatched(files, cs, m, read);
    WatchedRunsOut(hmac, m, read, clock, before, after);
  }

  lemma LoadedIsInitWatched(files: Init.Files, cs: seq<Init.Callback>, m: Manager, read: Clock)
    requires Init.Schedule(files, true, cs) && Init.Run(files, true, cs).task.returned == [Success(true)]
    requires Init.Run(files, true, cs).m == m && Init.Run(files, true, cs).expiryReadAt == Some(read)
    ensures Init.Watched(m, read)
  {
    Init.LoadedCreditIsWatched(files, true, cs);
  }

  lemma StartIsSafe(hmac: Codes.Hmac, m: Manager, clock: Clock)
    requires m.enabled
    ensures Safe(Start(m, clock))
  {
    PowerOffSafety(hmac, m, clock, []);
  }
}
