/**
 * The state of EpgManager (libeos-payg/manager.c) as a value, and what each entry point
 * does to it. Module Manager holds the object whose methods are verified against
 * these functions; the run theorems are about these functions.
 */
module ManagerState {
  import opened Integers
  import opened Wrappers
  import opened UsedCodes
  import opened Credit
  import opened RateLimit
  import Codes

  /** The two clocks at one instant. */
  datatype Clock = Clock(boot: Seconds, wall: Seconds)

  /** The expiry source: when it was created and its interval in seconds. */
  datatype Timer = Timer(start: Seconds, interval: uint32)

  datatype Manager = Manager(
    enabled: bool,
    cancelled: bool,
    key: seq<byte>,
    expiry: uint64,
    timer: Option<Timer>,
    used: seq<UsedCode>,
    limiter: Limiter,
    pendingSaves: nat,
    pendingShutdown: bool)

  datatype ManagerError = Disabled | TooManyAttempts | Cancelled | InvalidCode(error: Codes.CodeError) | CodeAlreadyUsed

  /** What a call makes visible: a change notification for the expiry time, and a save that was started. */
  datatype Effects = Effects(notifiedExpiry: bool, saved: Option<Record>)

  const NO_EFFECTS: Effects := Effects(false, None)

  // ----- set_expiry_time -----

  function ExpiryTimer(clock: Clock, now: uint64, expiry: uint64): Option<Timer>
    requires now <= expiry
  {
    if expiry == MAX_UINT64 then None
    else Some(Timer(clock.boot, Min(expiry - now, MAX_UINT32)))
  }

  function WithExpiry(m: Manager, clock: Clock, now: uint64, span: uint64): Manager {
    var expiry := SaturatingAdd(now, span);
    m.(expiry := expiry, timer := ExpiryTimer(clock, now, expiry))
  }

  /** The same when the clock source may not be created: without one the time is taken to be up at `now`. */
  function WithExpiryIf(m: Manager, clock: Clock, now: uint64, span: uint64, created: bool): Manager {
    if created || SaturatingAdd(now, span) == MAX_UINT64 then WithExpiry(m, clock, now, span)
    else m.(expiry := now, timer := None)
  }

  /** Then "expired" is emitted at once if `now` is no later than the clock. */
  predicate ExpiresAtOnce(m: Manager, clock: Clock, now: uint64, span: uint64, created: bool) {
    !created && SaturatingAdd(now, span) != MAX_UINT64 && m.enabled && now <= clock.boot
  }

  /**
   * An extension gives what the code is worth, up to the end of time, if and only if the
   * clock source is created or no timer is needed; a timer is left if and only if one
   * is needed and created; and the signal comes at once if and only if neither is the
   * case and no credit was left - so that without a source the end of a credit
   * that was left is never noticed.
   */
  lemma ExtensionWithoutSource(m: Manager, clock: Clock, span: uint64, created: bool)
    requires m.enabled && span > 0
    ensures var now, left := ExtensionBase(m.expiry, clock.boot), CreditLeft(m.expiry, clock.boot);
            var m', endless := WithExpiryIf(m, clock, now, span, created), left + span >= MAX_UINT64 - clock.boot;
            && (CreditLeft(m'.expiry, clock.boot) == Min(left + span, MAX_UINT64 - clock.boot) <==>
                  created || endless)
            && (m'.timer.Some? <==> created && !endless)
            && (ExpiresAtOnce(m, clock, now, span, created) <==> !created && !endless && left == 0)
            && (!created && !endless ==> CreditLeft(m'.expiry, clock.boot) == left)
            && m' == m.(expiry := m'.expiry, timer := m'.timer)
  {
  }

  predicate NotifiesExpiry(m: Manager, m': Manager) {
    m.enabled && m.expiry != m'.expiry
  }

  // ----- Saves -----

  function RecordOf(m: Manager, clock: Clock): Record {
    Record(clock.wall, CreditLeft(m.expiry, clock.boot), m.used)
  }

  /** An internal save is counted when it starts. */
  function SaveStarted(m: Manager): Manager {
    m.(pendingSaves := m.pendingSaves + 1)
  }

  // ----- Entry points -----

  /** The (counter, period) pair that a string stands for, or why it stands for none. */
  function Entered(hmac: Codes.Hmac, key: seq<byte>, s: string): Result<UsedCode, Codes.CodeError> {
    match Codes.ParseCode(s)
    case Failure(error) => Failure(error)
    case Success(code) =>
      match Codes.VerifyCode(hmac, key, code)
      case Failure(error) => Failure(error)
      case Success(message) => Success(UsedCode(message.counter, message.period))
  }

  function Accepted(m: Manager, clock: Clock, x: UsedCode): Manager
    requires Codes.ValidPeriod(x.period)
  {
    var m1 := m.(used := Appended(m.used, x));
    var m2 := WithExpiry(m1, clock, ExtensionBase(m.expiry, clock.boot), Span(x.period));
    m2.(limiter := CLEARED)
  }

  function AddCode(hmac: Codes.Hmac, m: Manager, clock: Clock, s: string)
    : (r: (Manager, Result<int64, ManagerError>, Effects))
  {
    if !m.enabled then (m, Failure(Disabled), NO_EFFECTS)
    else
      var m1 := m.(limiter := Recorded(m.limiter, clock.boot));
      if Refuses(m.limiter, clock.boot) then (m1, Failure(TooManyAttempts), NO_EFFECTS)
      else if m.cancelled then (m1, Failure(Cancelled), NO_EFFECTS)
      else
        match Entered(hmac, m.key, s)
        case Failure(error) => (m1, Failure(InvalidCode(error)), NO_EFFECTS)
        case Success(x) =>
          EnteredIsValid(hmac, m.key, s);
          if x in m.used then (m1, Failure(CodeAlreadyUsed), NO_EFFECTS)
          else
            var m2 := Accepted(m1, clock, x);
            (SaveStarted(m2), Success(Min(Span(x.period), MAX_INT64)),
             Effects(NotifiesExpiry(m, m2), Some(RecordOf(m2, clock))))
  }

  function ClearCode(m: Manager, clock: Clock): (Manager, Result<(), ManagerError>, Effects) {
    if !m.enabled then (m, Failure(Disabled), NO_EFFECTS)
    else if m.cancelled then (m, Failure(Cancelled), NO_EFFECTS)
    else
      var m1 := m.(expiry := 0, timer := None);
      (SaveStarted(m1), Success(()), Effects(m.expiry != 0, Some(RecordOf(m1, clock))))
  }

  function WallclockTimeChanged(m: Manager, clock: Clock, delta: int): (Manager, Effects) {
    if delta == 0 then (m, NO_EFFECTS)
    else
      var m1 :=
        if delta > 0 && clock.boot < m.expiry then
          WithExpiry(m, clock, clock.boot, Charged(m.expiry - clock.boot, delta))
        else m;
      (SaveStarted(m1), Effects(NotifiesExpiry(m, m1), Some(RecordOf(m1, clock))))
  }

  /** The expiry source was dispatched; the second result says that "expired" was emitted. */
  function CheckExpired(m: Manager, clock: Clock): (Manager, bool) {
    if !m.enabled then (m.(timer := None), false)
    else if m.expiry <= clock.boot then (m.(timer := None), true)
    else (m, false)
  }

  /** The second result is the outcome of a deferred shutdown that completes now. */
  function InternalSaveDone(m: Manager, ok: bool): (Manager, Option<bool>) {
    if m.pendingSaves == 0 then (m, None)
    else
      var m1 := m.(pendingSaves := m.pendingSaves - 1);
      if m1.pendingSaves == 0 && m1.pendingShutdown then (m1.(pendingShutdown := false), Some(ok))
      else (m1, None)
  }

  datatype ShutdownAction = Rejected | FinalSave(record: Record) | Deferred

  function Shutdown(m: Manager, clock: Clock): (Manager, ShutdownAction) {
    if m.cancelled then (m, Rejected)
    else
      var m1 := m.(cancelled := true);
      if m.pendingSaves == 0 then (m1, FinalSave(RecordOf(m1, clock)))
      else (m1.(pendingShutdown := true), Deferred)
  }

  // ----- Which codes are accepted -----

  lemma EnteredIsValid(hmac: Codes.Hmac, key: seq<byte>, s: string)
    ensures Entered(hmac, key, s).Success? ==> Codes.ValidPeriod(Entered(hmac, key, s).value.period)
  {
  }

  /** The text that a vendor with the key would issue for a pair. */
  predicate IsCodeFor(hmac: Codes.Hmac, key: seq<byte>, s: string, x: UsedCode) {
    var code := Codes.CalculateCode(hmac, key, x.period, x.counter);
    code.Success? && Codes.CodeValidate(code.value) && Codes.FormatCode(code.value) == s
  }

  lemma EnteredIffIssued(hmac: Codes.Hmac, key: seq<byte>, s: string, x: UsedCode)
    ensures Entered(hmac, key, s) == Success(x) <==> IsCodeFor(hmac, key, s, x)
  {
    if Entered(hmac, key, s) == Success(x) {
      var code := Codes.ParseCode(s).value;
      Codes.ParseIffFormatted(s, code);
      Codes.VerifyIffCalculated(hmac, key, code, x.period, x.counter);
    }
    if IsCodeFor(hmac, key, s, x) {
      var code := Codes.CalculateCode(hmac, key, x.period, x.counter).value;
      Codes.ParseIffFormatted(s, code);
      Codes.VerifyIffCalculated(hmac, key, code, x.period, x.counter);
    }
  }

  /**
   * A string is accepted exactly when the provider is enabled and not shut down,
   * the limiter lets it pass, and it is the issued text of an unused pair.
   */
  lemma CodeAcceptedIff(hmac: Codes.Hmac, m: Manager, clock: Clock, s: string)
    ensures AddCode(hmac, m, clock, s).1.Success? <==>
            && m.enabled && !m.cancelled
            && !Refuses(m.limiter, clock.boot)
            && exists x :: IsCodeFor(hmac, m.key, s, x) && x !in m.used
  {
    var entered := Entered(hmac, m.key, s);
    if entered.Success? {
      EnteredIffIssued(hmac, m.key, s, entered.value);
    }
    forall x | IsCodeFor(hmac, m.key, s, x)
      ensures entered == Success(x)
    {
      EnteredIffIssued(hmac, m.key, s, x);
    }
  }

  /**
   * Accepting a code uses up exactly its pair, adds exactly its span to the credit
   * (capped at the end of time), clears the history, and starts a save of the
   * resulting state.
   */
  lemma AcceptedCodeEffect(hmac: Codes.Hmac, m: Manager, clock: Clock, s: string, x: UsedCode)
    requires WellFormed(m.used) && IsCodeFor(hmac, m.key, s, x)
    requires AddCode(hmac, m, clock, s).1.Success?
    ensures var (m', outcome, fx) := AddCode(hmac, m, clock, s);
            && WellFormed(m'.used)
            && multiset(m'.used) == multiset(m.used) + multiset{x}
            && CreditLeft(m'.expiry, clock.boot) ==
                 Min(CreditLeft(m.expiry, clock.boot) + Span(x.period), MAX_UINT64 - clock.boot)
            && outcome == Success(Min(Span(x.period), MAX_INT64))
            && m'.limiter == CLEARED
            && fx.saved == Some(Record(clock.wall, CreditLeft(m'.expiry, clock.boot), m'.used))
            && m'.pendingSaves == m.pendingSaves + 1
  {
    EnteredIffIssued(hmac, m.key, s, x);
    AppendKeepsOrder(m.used, x);
  }

  /** Nothing else changes. */
  lemma AcceptedCodeFrame(hmac: Codes.Hmac, m: Manager, clock: Clock, s: string)
    requires AddCode(hmac, m, clock, s).1.Success?
    ensures var m' := AddCode(hmac, m, clock, s).0;
            m' == m.(used := m'.used, expiry := m'.expiry, timer := m'.timer, limiter := m'.limiter,
                     pendingSaves := m'.pendingSaves)
  {
  }

  /** The accepted code is reported to be worth the given seconds, and adds them unless that goes past the end of time. */
  predicate Adds(hmac: Codes.Hmac, m: Manager, clock: Clock, s: string, secs: int) {
    var (m', outcome, _) := AddCode(hmac, m, clock, s);
    && outcome == Success(secs)
    && CreditLeft(m'.expiry, clock.boot) == Min(CreditLeft(m.expiry, clock.boot) + secs, 0xFFFF_FFFF_FFFF_FFFF - clock.boot)
  }

  /** What each of the 27 periods is worth, in seconds. */
  lemma WorthOfCodes(hmac: Codes.Hmac, m: Manager, clock: Clock, s: string, x: UsedCode)
    requires IsCodeFor(hmac, m.key, s, x) && AddCode(hmac, m, clock, s).1.Success?
    ensures x.period == 0 ==> Adds(hmac, m, clock, s, 5)
    ensures x.period == 1 ==> Adds(hmac, m, clock, s, 60)
    ensures x.period == 2 ==> Adds(hmac, m, clock, s, 300)
    ensures x.period == 3 ==> Adds(hmac, m, clock, s, 3600)
    ensures 4 <= x.period <= 17 ==> Adds(hmac, m, clock, s, 86_400 * (x.period - 3))
    ensures x.period == 18 ==> Adds(hmac, m, clock, s, 2_592_000)
    ensures x.period == 19 ==> Adds(hmac, m, clock, s, 5_184_000)
    ensures x.period == 20 ==> Adds(hmac, m, clock, s, 7_776_000)
    ensures x.period == 21 ==> Adds(hmac, m, clock, s, 10_368_000)
    ensures x.period == 22 ==> Adds(hmac, m, clock, s, 31_536_000)
    ensures x.period == 23 ==> Adds(hmac, m, clock, s, 1800)
    ensures x.period == 24 ==> Adds(hmac, m, clock, s, 28_800)
    ensures x.period == 25 ==> Adds(hmac, m, clock, s, 2_678_400)
    ensures x.period == 31 ==>
              var (m', outcome, _) := AddCode(hmac, m, clock, s);
              m'.expiry == 0xFFFF_FFFF_FFFF_FFFF && m'.timer == None && outcome == Success(0x7FFF_FFFF_FFFF_FFFF)
    ensures x.period <= 25 || x.period == 31
  {
    EnteredIffIssued(hmac, m.key, s, x);
    CreditOfAccepted(hmac, m, clock, s, x);
    if x.period != 31 {
      FiniteSpansFit(x.period);
    }
  }

  lemma CreditOfAccepted(hmac: Codes.Hmac, m: Manager, clock: Clock, s: string, x: UsedCode)
    requires Entered(hmac, m.key, s) == Success(x) && AddCode(hmac, m, clock, s).1.Success?
    ensures Codes.ValidPeriod(x.period)
    ensures var (m', outcome, _) := AddCode(hmac, m, clock, s);
            && outcome == Success(Min(Span(x.period), MAX_INT64))
            && CreditLeft(m'.expiry, clock.boot) == Min(CreditLeft(m.expiry, clock.boot) + Span(x.period), MAX_UINT64 - clock.boot)
            && (Span(x.period) == MAX_UINT64 ==> m'.expiry == MAX_UINT64 && m'.timer == None)
  {
  }

  lemma FiniteSpansFit(period: int)
    requires Codes.ValidPeriod(period) && period != 31
    ensures Span(period) <= MAX_INT64
  {
  }

  /** Which refusal is returned: the first that applies, in this order. */
  lemma RefusalIff(hmac: Codes.Hmac, m: Manager, clock: Clock, s: string)
    ensures var outcome, refused := AddCode(hmac, m, clock, s).1, Refuses(m.limiter, clock.boot);
            var free := m.enabled && !refused && !m.cancelled;
            && (outcome == Failure(Disabled) <==> !m.enabled)
            && (outcome == Failure(TooManyAttempts) <==> m.enabled && refused)
            && (outcome == Failure(Cancelled) <==> m.enabled && !refused && m.cancelled)
            && (outcome.Failure? && outcome.error.InvalidCode? <==> free && forall x :: !IsCodeFor(hmac, m.key, s, x))
            && (outcome == Failure(CodeAlreadyUsed) <==> free && exists x :: IsCodeFor(hmac, m.key, s, x) && x in m.used)
  {
    var entered := Entered(hmac, m.key, s);
    if entered.Success? {
      EnteredIffIssued(hmac, m.key, s, entered.value);
    }
    forall x | IsCodeFor(hmac, m.key, s, x)
      ensures entered == Success(x)
    {
      EnteredIffIssued(hmac, m.key, s, x);
    }
  }

  /** What a save writes, in plain terms: the wall clock, the time to the expiry if that is ahead, and the list. */
  lemma SaveIsExact(m: Manager, clock: Clock)
    ensures var r := RecordOf(m, clock);
            && r.wall == clock.wall && r.used == m.used
            && (clock.boot <= m.expiry ==> clock.boot + r.credit == m.expiry)
            && (clock.boot > m.expiry ==> r.credit == 0)
  {
  }

  /** The expiry source emits the signal if and only if an enabled manager has reached its expiry time, and is kept if and only if it has not. */
  lemma ExpiredIff(m: Manager, clock: Clock)
    ensures var (m', expired) := CheckExpired(m, clock);
            && (expired <==> m.enabled && m.expiry <= clock.boot)
            && m' == m.(timer := if m.enabled && clock.boot < m.expiry then m.timer else None)
  {
  }

  /** Clearing succeeds if and only if the manager is enabled and not shut down; then credit and timer are gone, and nothing else. */
  lemma ClearIff(m: Manager, clock: Clock)
    ensures var (m', outcome, fx) := ClearCode(m, clock);
            && (outcome == Failure(Disabled) <==> !m.enabled)
            && (outcome == Failure(Cancelled) <==> m.enabled && m.cancelled)
            && (outcome == Success(()) <==> m.enabled && !m.cancelled)
            && (outcome.Success? ==>
                  && m' == m.(expiry := 0, timer := None, pendingSaves := m.pendingSaves + 1)
                  && fx == Effects(m.expiry != 0, Some(Record(clock.wall, 0, m.used))))
            && (outcome.Failure? ==> m' == m && fx == NO_EFFECTS)
  {
  }

  /** Shutting down changes nothing but what is waited for, and a final save holds the state as it is. */
  lemma ShutdownIff(m: Manager, clock: Clock)
    ensures var (m', action) := Shutdown(m, clock);
            && (action == Rejected <==> m.cancelled)
            && (action == Deferred <==> !m.cancelled && m.pendingSaves > 0)
            && (action == FinalSave(RecordOf(m, clock)) <==> !m.cancelled && m.pendingSaves == 0)
            && m' == m.(cancelled := true, pendingShutdown := m.pendingShutdown || action == Deferred)
  {
  }

  /** The end of an internal save changes nothing but the count and what waits for it. */
  lemma SaveDoneIff(m: Manager, ok: bool)
    ensures var (m', completed) := InternalSaveDone(m, ok);
            && m' == m.(pendingSaves := Max(0, m.pendingSaves - 1), pendingShutdown := m'.pendingShutdown)
            && (completed == Some(ok) <==> m.pendingSaves == 1 && m.pendingShutdown)
            && (completed == None <==> !(m.pendingSaves == 1 && m.pendingShutdown))
            && (m'.pendingShutdown <==> m.pendingShutdown && m.pendingSaves != 1)
  {
  }

  /** A change of the wall clock: nothing at zero, a save without a charge below it, and above it the charge against what is left. */
  lemma ClockChangeIff(m: Manager, clock: Clock, delta: int)
    ensures var (m', fx) := WallclockTimeChanged(m, clock, delta);
            var left := CreditLeft(m.expiry, clock.boot);
            && (delta == 0 ==> m' == m && fx == NO_EFFECTS)
            && (delta != 0 ==> fx.saved == Some(RecordOf(m', clock)) && m'.pendingSaves == m.pendingSaves + 1)
            && (delta < 0 || left == 0 ==> m'.expiry == m.expiry && m'.timer == m.timer)
            && (delta > 0 && left > 0 ==>
                  && m'.expiry == clock.boot + Max(0, left - delta)
                  && m'.timer == Some(Timer(clock.boot, Min(Max(0, left - delta), 0xFFFF_FFFF))))
            && m' == m.(expiry := m'.expiry, timer := m'.timer, pendingSaves := m'.pendingSaves)
  {
  }

  /** The expiry time is announced by an enabled manager if and only if it changes. */
  lemma AnnouncedIffChanged(hmac: Codes.Hmac, m: Manager, clock: Clock, s: string, delta: int)
    ensures var (m', _, fx) := AddCode(hmac, m, clock, s);
            fx.notifiedExpiry <==> m.enabled && m'.expiry != m.expiry
    ensures var (m', _, fx) := ClearCode(m, clock);
            fx.notifiedExpiry <==> m.enabled && m'.expiry != m.expiry
    ensures var (m', fx) := WallclockTimeChanged(m, clock, delta);
            fx.notifiedExpiry <==> m.enabled && m'.expiry != m.expiry
  {
  }

  /** A string that is not accepted changes nothing but the attempt history. */
  lemma RefusedCodeChangesOnlyHistory(hmac: Codes.Hmac, m: Manager, clock: Clock, s: string)
    requires AddCode(hmac, m, clock, s).1.Failure?
    ensures var (m', outcome, fx) := AddCode(hmac, m, clock, s);
            && fx == NO_EFFECTS
            && m' == m.(limiter := if m.enabled then Recorded(m.limiter, clock.boot) else m.limiter)
            && (outcome == Failure(TooManyAttempts) <==> m.enabled && Refuses(m.limiter, clock.boot))
            && (outcome == Failure(CodeAlreadyUsed) ==> exists x :: IsCodeFor(hmac, m.key, s, x) && x in m.used)
  {
    if AddCode(hmac, m, clock, s).1 == Failure(CodeAlreadyUsed) {
      EnteredIffIssued(hmac, m.key, s, Entered(hmac, m.key, s).value);
    }
  }

  /** The limiter always holds the attempts since the last accepted code. */
  lemma LimiterTracksAttempts(hmac: Codes.Hmac, m: Manager, clock: Clock, s: string, attempts: seq<Seconds>)
    requires m.enabled && m.limiter == After(attempts)
    ensures var (m', outcome, _) := AddCode(hmac, m, clock, s);
            m'.limiter == if outcome.Success? then After([]) else After(attempts + [clock.boot])
  {
    assert (attempts + [clock.boot])[..|attempts|] == attempts;
  }
}
