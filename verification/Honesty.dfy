/**
 * Credit is paid for in wall-clock time: no sequence of reboots and clock changes
 * makes a second of credit last longer, as long as nothing is saved while a
 * forward jump waits to be reported.
 */
module Honesty {
  import opened Integers
  import opened Credit
  import opened ManagerState
  import opened World
  import opened ClockJump
  import Codes

  /** Some credit at some wall-clock time, and the codes added since. */
  datatype Account = Account(credit: uint64, since: int, granted: nat)

  /** What may be left when the wall clock shows a time. */
  function Allowance(a: Account, wall: int): nat {
    Max(0, a.credit - (wall - a.since)) + a.granted
  }

  /** The wall clock as far as its jumps have been reported. */
  function ReportedWall(w: World): int {
    w.clock.wall - Pending(w)
  }

  /** In memory jumps that wait for their report are still owed; a save must not owe anything. */
  predicate Honest(a: Account, w: World) {
    && CreditOf(w) <= Allowance(a, ReportedWall(w))
    && forall i :: 0 <= i < |w.saves| ==> w.saves[i].credit <= Allowance(a, w.saves[i].wall)
  }

  /** While a forward jump waits, no code is accepted, no shutdown saves, and detection does not start over. */
  predicate Timely(hmac: Codes.Hmac, w: World, e: Event) {
    e.FinalSave? || (e.StartDetection? && !w.detecting) || AcceptedBy(hmac, w, e).Some? ==> Pending(w) <= 0
  }

  predicate TimelyRun(hmac: Codes.Hmac, w: World, es: seq<Event>) {
    es != [] ==>
      && TimelyRun(hmac, w, es[..|es| - 1])
      && Timely(hmac, Run(hmac, w, es[..|es| - 1]), es[|es| - 1])
  }

  // ----- One event -----

  lemma StepCredit(hmac: Codes.Hmac, a: Account, w: World, e: Event)
    requires Honest(a, w) && Timely(hmac, w, e)
    ensures var w' := Step(hmac, w, e);
            CreditOf(w') <= Allowance(a.(granted := a.granted + GrantedBy(hmac, w, e)), ReportedWall(w'))
  {
    if Possible(w, e) {
      match e
      case Elapse(secs) => ElapseCredit(hmac, w, secs);
      case SetWallClock(_) =>
      case StartDetection =>
      case ReportJump => ReportCredit(hmac, w);
      case EnterCode(text) => CodeCredit(hmac, w, text);
      case Clear =>
      case FinalSave =>
      case Reboot(source, clock, early) =>
        RebootCredit(hmac, w, source, clock, early);
        var r := w.saves[source];
        ReloadNeverIncreases(r.credit, r.wall, clock.boot, clock.wall);
    }
  }

  /** What a timely event saves owes nothing. */
  lemma StepSaves(hmac: Codes.Hmac, a: Account, w: World, e: Event)
    requires Honest(a, w) && Timely(hmac, w, e)
    ensures var w' := Step(hmac, w, e);
            |w'.saves| > |w.saves| ==>
              CreditOf(w') <= Allowance(a.(granted := a.granted + GrantedBy(hmac, w, e)), w'.clock.wall)
  {
    StepCredit(hmac, a, w, e);
  }

  lemma StepHonest(hmac: Codes.Hmac, a: Account, w: World, e: Event)
    requires Honest(a, w) && Timely(hmac, w, e)
    ensures Honest(a.(granted := a.granted + GrantedBy(hmac, w, e)), Step(hmac, w, e))
  {
    StepCredit(hmac, a, w, e);
    StepSaves(hmac, a, w, e);
    NewSavesAreCurrent(hmac, w, e);
  }

  /** Exactly the credit at hand, counted from the wall-clock time that has been reported. */
  function Tight(w: World): Account {
    Account(CreditOf(w), ReportedWall(w), 0)
  }

  /** A code is accepted that goes past the end of time even once the waiting jump is charged. */
  predicate Capped(hmac: Codes.Hmac, w: World, e: Event) {
    && AcceptedBy(hmac, w, e).Some?
    && MAX_UINT64 - w.clock.boot <= Max(0, CreditOf(w) - Pending(w)) + GrantedBy(hmac, w, e)
  }

  /**
   * The condition is exact: an event keeps the account honest if and only if it is
   * timely, or there is no credit to lose, or the jump makes no difference because
   * the code that is accepted reaches the end of time anyway.
   */
  lemma HonestIffTimely(hmac: Codes.Hmac, w: World, e: Event)
    requires Honest(Tight(w), w)
    ensures Honest(Tight(w).(granted := GrantedBy(hmac, w, e)), Step(hmac, w, e)) <==>
            Timely(hmac, w, e) || CreditOf(w) == 0 || Capped(hmac, w, e)
  {
    if Timely(hmac, w, e) {
      StepHonest(hmac, Tight(w), w, e);
    } else {
      UntimelyStep(hmac, w, e);
    }
  }

  lemma UntimelyStep(hmac: Codes.Hmac, w: World, e: Event)
    requires Honest(Tight(w), w) && !Timely(hmac, w, e)
    ensures Honest(Tight(w).(granted := GrantedBy(hmac, w, e)), Step(hmac, w, e)) <==>
            CreditOf(w) == 0 || Capped(hmac, w, e)
  {
    var w' := Step(hmac, w, e);
    if e.EnterCode? {
      CodeCredit(hmac, w, e.text);
    }
    NewSavesAreCurrent(hmac, w, e);
    if |w'.saves| > |w.saves| {
      assert w'.saves[|w.saves|].credit == CreditOf(w') && w'.saves[|w.saves|].wall == w'.clock.wall;
    }
  }

  // ----- Runs -----

  /**
   * Start anywhere, with any credit and any saves that record no more than it. After
   * any timely sequence of events over any number of boots, including reboots that
   * load an old save and wall clocks that were set back, the credit left is at most
   * the original credit less the wall-clock time that has passed as far as it was
   * reported, plus what the accepted codes added; and every save is worth no more
   * than that at its own wall-clock time.
   */
  lemma {:induction false} CreditIsPaidInWallClockTime(hmac: Codes.Hmac, w: World, es: seq<Event>)
    requires Honest(Tight(w), w) && TimelyRun(hmac, w, es)
    ensures Honest(Tight(w).(granted := GrantedIn(hmac, w, es)), Run(hmac, w, es))
  {
    if es == [] {
    } else {
      var init := es[..|es| - 1];
      CreditIsPaidInWallClockTime(hmac, w, init);
      GrantedStep(hmac, w, es);
      StepHonest(hmac, Tight(w).(granted := GrantedIn(hmac, w, init)), Run(hmac, w, init), es[|es| - 1]);
    }
  }

  /** The credit that is left is paid for on the reported wall clock, and on the wall clock itself unless a forward jump waits. */
  predicate PaidFor(a: Account, w: World) {
    && CreditOf(w) <= Max(0, a.credit - (ReportedWall(w) - a.since))
    && (Pending(w) <= 0 ==> CreditOf(w) <= Max(0, a.credit - (w.clock.wall - a.since)))
  }

  lemma HonestIsPaidFor(a: Account, w: World)
    requires Honest(a, w) && a.granted == 0
    ensures PaidFor(a, w)
  {
  }

  lemma HonestWithoutCodes(hmac: Codes.Hmac, w: World, es: seq<Event>)
    requires Honest(Tight(w), w) && TimelyRun(hmac, w, es) && AcceptedIn(hmac, w, es) == []
    ensures PaidFor(Tight(w), Run(hmac, w, es))
  {
    CreditIsPaidInWallClockTime(hmac, w, es);
    HonestIsPaidFor(Tight(w).(granted := GrantedIn(hmac, w, es)), Run(hmac, w, es));
  }

  lemma SavedStateIsHonest(w: World, saved: Record)
    requires saved == RecordOf(w.m, w.clock) && w.saves == [saved] && Pending(w) == 0
    ensures Honest(Tight(w), w) && Tight(w) == Account(saved.credit, saved.wall, 0)
  {
  }

  /** Without codes: save credit e at wall-clock time w, and once all jumps are reported and the clock shows T at most e - (T - w) is left. */
  lemma ClockHonesty(hmac: Codes.Hmac, w: World, es: seq<Event>, saved: Record)
    requires saved == RecordOf(w.m, w.clock) && w.saves == [saved] && Pending(w) == 0
    requires TimelyRun(hmac, w, es) && AcceptedIn(hmac, w, es) == []
    ensures PaidFor(Account(saved.credit, saved.wall, 0), Run(hmac, w, es))
  {
    SavedStateIsHonest(w, saved);
    HonestWithoutCodes(hmac, w, es);
  }

  /**
   * A run that is not timely: the wall clock jumps forward, the shutdown saves before
   * the jump is reported, and the machine boots again at once. All the credit is
   * still there although the wall clock has moved on.
   */
  lemma UnreportedJumpIsFree(hmac: Codes.Hmac, w: World, jump: nat, clock: Clock)
    requires w.clock.wall + jump == clock.wall && clock.boot <= w.clock.boot
    requires !BogusCredit(CreditOf(w))
    ensures var es := [SetWallClock(clock.wall), Event.FinalSave, Reboot(|w.saves|, clock, false)];
            CreditOf(Run(hmac, w, es)) == CreditOf(w)
  {
    var w1 := Step(hmac, w, SetWallClock(clock.wall));
    var w2 := Step(hmac, w1, Event.FinalSave);
    ThreeEvents(hmac, w, SetWallClock(clock.wall), Event.FinalSave, Reboot(|w.saves|, clock, false));
    RebootCredit(hmac, w2, |w.saves|, clock, false);
  }

  lemma ThreeEvents(hmac: Codes.Hmac, w: World, a: Event, b: Event, c: Event)
    ensures Run(hmac, w, [a, b, c]) == Step(hmac, Step(hmac, Step(hmac, w, a), b), c)
  {
    assert [a, b, c][..2] == [a, b] && [a, b][..1] == [a] && [a][..0] == [];
    assert Run(hmac, w, [a]) == Step(hmac, Run(hmac, w, []), a);
    assert Run(hmac, w, [a, b]) == Step(hmac, Run(hmac, w, [a]), b);
    assert Run(hmac, w, [a, b, c]) == Step(hmac, Run(hmac, w, [a, b]), c);
  }

  // ----- The exact charge within one boot -----

  /** The readings of the detector: the one it holds, then one for every report. */
  function ReadingsIn(hmac: Codes.Hmac, w: World, es: seq<Event>): (readings: seq<Clock>)
    ensures readings != []
  {
    if es == [] then [w.detector]
    else
      var init, e := es[..|es| - 1], es[|es| - 1];
      var before := Run(hmac, w, init);
      ReadingsIn(hmac, w, init) + if e.ReportJump? && Possible(before, e) then [before.clock] else []
  }

  /** The part of the reported jumps that goes forward. */
  function ForwardJumps(readings: seq<Clock>): nat {
    if |readings| < 2 then 0
    else ForwardJumps(readings[..|readings| - 1]) + Max(0, Delta(readings[|readings| - 2], readings[|readings| - 1]))
  }

  lemma ForwardJumpsAppend(readings: seq<Clock>, next: Clock)
    requires readings != []
    ensures ForwardJumps(readings + [next]) == ForwardJumps(readings) + Max(0, Delta(readings[|readings| - 1], next))
  {
    assert (readings + [next])[..|readings|] == readings;
  }

  /** The forward part is all of it exactly if no reported jump went back. */
  lemma {:induction false} ForwardCoversAll(readings: seq<Clock>)
    ensures ForwardJumps(readings) >= SumOfDeltas(readings)
    ensures ForwardJumps(readings) == SumOfDeltas(readings) <==>
            forall i :: 1 <= i < |readings| ==> Delta(readings[i - 1], readings[i]) >= 0
  {
    if |readings| < 2 {
    } else {
      var init, n := readings[..|readings| - 1], |readings|;
      ForwardCoversAll(init);
      assert forall i :: 1 <= i < n - 1 ==> Delta(readings[i - 1], readings[i]) == Delta(init[i - 1], init[i]);
      assert Delta(readings[n - 2], readings[n - 1]) >= 0 || ForwardJumps(readings) > SumOfDeltas(readings);
    }
  }

  /** No code is accepted, nothing is cleared, and detection has already started. */
  predicate OnlyClocks(hmac: Codes.Hmac, w: World, es: seq<Event>) {
    && w.detecting && WithinOneBoot(es) && AcceptedIn(hmac, w, es) == []
    && forall i :: 0 <= i < |es| ==> !es[i].Clear?
  }

  lemma OnlyClocksBefore(hmac: Codes.Hmac, w: World, es: seq<Event>)
    requires OnlyClocks(hmac, w, es) && es != []
    ensures var init, e := es[..|es| - 1], es[|es| - 1];
            && OnlyClocks(hmac, w, init)
            && !e.Reboot? && !e.Clear? && AcceptedBy(hmac, Run(hmac, w, init), e).None?
  {
    var init := es[..|es| - 1];
    assert forall i :: 0 <= i < |init| ==> init[i] == es[i];
  }

  lemma {:induction false} ChargeOfRun(hmac: Codes.Hmac, w: World, es: seq<Event>)
    requires OnlyClocks(hmac, w, es)
    ensures var w', readings := Run(hmac, w, es), ReadingsIn(hmac, w, es);
            && w'.detecting && w'.clock.boot >= w.clock.boot
            && readings[0] == w.detector && readings[|readings| - 1] == w'.detector
            && CreditOf(w') == Charged(CreditOf(w), w'.clock.boot - w.clock.boot + ForwardJumps(readings))
  {
    if es == [] {
    } else {
      var init, e := es[..|es| - 1], es[|es| - 1];
      OnlyClocksBefore(hmac, w, es);
      ChargeOfRun(hmac, w, init);
      ChargeOfEvent(hmac, Run(hmac, w, init), e);
      ReadingsStep(hmac, w, es);
    }
  }

  /** A report adds a reading, and nothing else does. */
  lemma ReadingsStep(hmac: Codes.Hmac, w: World, es: seq<Event>)
    requires es != [] && Run(hmac, w, es[..|es| - 1]).detecting
    ensures var init, e := es[..|es| - 1], es[|es| - 1];
            var before, readings := Run(hmac, w, init), ReadingsIn(hmac, w, init);
            var readings' := ReadingsIn(hmac, w, es);
            if e.ReportJump? then
              && readings' == readings + [before.clock]
              && ForwardJumps(readings') == ForwardJumps(readings) + Max(0, Delta(readings[|readings| - 1], before.clock))
            else readings' == readings
  {
    var init := es[..|es| - 1];
    var before, readings := Run(hmac, w, init), ReadingsIn(hmac, w, init);
    ForwardJumpsAppend(readings, before.clock);
    assert readings + [] == readings;
  }

  lemma ChargeOfEvent(hmac: Codes.Hmac, w: World, e: Event)
    requires w.detecting && !e.Reboot? && !e.Clear? && AcceptedBy(hmac, w, e).None?
    ensures var w' := Step(hmac, w, e);
            && w'.detecting && w'.clock.boot >= w.clock.boot
            && w'.detector == (if e.ReportJump? then w.clock else w.detector)
            && CreditOf(w') ==
                 Charged(CreditOf(w), w'.clock.boot - w.clock.boot + if e.ReportJump? then Max(0, Pending(w)) else 0)
  {
    match e
    case ReportJump => ReportCredit(hmac, w);
    case EnterCode(text) => CodeCredit(hmac, w, text);
    case _ =>
  }

  /**
   * Within one boot, time that passes and reported jumps are charged exactly once: the
   * credit goes down by the time on the boot clock plus all forward jumps. Because
   * the reported jumps add up to the change of the offset between the clocks,
   * that is at least the reported wall-clock time, and exactly that if and only if
   * no reported jump went back.
   */
  lemma ChargedExactlyOnce(hmac: Codes.Hmac, w: World, es: seq<Event>)
    requires OnlyClocks(hmac, w, es)
    ensures var w', readings := Run(hmac, w, es), ReadingsIn(hmac, w, es);
            var charge := w'.clock.boot - w.clock.boot + ForwardJumps(readings);
            && charge >= 0 && CreditOf(w') == Charged(CreditOf(w), charge)
            && charge >= ReportedWall(w') - ReportedWall(w)
            && (charge == ReportedWall(w') - ReportedWall(w) <==>
                  forall i :: 1 <= i < |readings| ==> Delta(readings[i - 1], readings[i]) >= 0)
  {
    ChargeOfRun(hmac, w, es);
    DeltasTelescope(ReadingsIn(hmac, w, es));
    ForwardCoversAll(ReadingsIn(hmac, w, es));
  }
}
