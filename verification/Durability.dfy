/**
 * Every change is saved: when the power is cut, the newest save gives back the used
 * codes and the credit - unless it is one that loading started too early.
 */
module Durability {
  import opened Integers
  import opened UsedCodes
  import opened Credit
  import opened ManagerState
  import opened World
  import opened Wrappers
  import Lifetime
  import ClockJump
  import RateLimit
  import Codes

  function Newest(w: World): Record
    requires w.saves != []
  {
    w.saves[|w.saves| - 1]
  }

  /** The newest save was started at the given readings, and only time has passed since. */
  predicate Durable(w: World, at: Clock) {
    && w.saves != []
    && Newest(w).used == w.m.used
    && Newest(w).wall == at.wall && at.boot <= w.clock.boot
    && CreditOf(w) == Charged(Newest(w).credit, w.clock.boot - at.boot)
  }

  /** The readings at which the newest save of a run was started. */
  function SavedAt(hmac: Codes.Hmac, w: World, at: Clock, es: seq<Event>): Clock {
    if es == [] then at
    else
      var init := es[..|es| - 1];
      if |Run(hmac, w, es).saves| > |Run(hmac, w, init).saves| then Run(hmac, w, es).clock
      else SavedAt(hmac, w, at, init)
  }

  // ----- One event -----

  lemma UsedStaysWellFormed(hmac: Codes.Hmac, w: World, e: Event)
    requires WellFormed(w.m.used) && !e.Reboot?
    ensures WellFormed(Step(hmac, w, e).m.used)
  {
    Lifetime.StepUsed(hmac, w, e);
    if AcceptedBy(hmac, w, e).Some? {
      AppendKeepsOrder(w.m.used, AcceptedBy(hmac, w, e).value);
    }
  }

  /** Only time passes from one state to the other. */
  predicate OnlyTimePasses(w: World, w': World) {
    && w'.saves == w.saves && w'.m.used == w.m.used && w'.clock.boot >= w.clock.boot
    && CreditOf(w') == Charged(CreditOf(w), w'.clock.boot - w.clock.boot)
  }

  /** An event either starts a save of the state it leaves behind or changes nothing that a save would hold, except by time passing. */
  lemma ChangesAreSaved(hmac: Codes.Hmac, w: World, e: Event)
    requires !e.Reboot?
    ensures var w' := Step(hmac, w, e);
            w'.saves == w.saves + [RecordOf(w'.m, w'.clock)] || OnlyTimePasses(w, w')
  {
  }

  // ----- Runs within one boot -----

  /** Either only time has passed since the start, or the newest save is durable. */
  predicate Since(start: World, w: World, started: Clock, at: Clock) {
    && start.saves <= w.saves
    && if |w.saves| == |start.saves| then OnlyTimePasses(start, w) && at == started else Durable(w, at)
  }

  lemma StepSince(start: World, w: World, w': World, started: Clock, at: Clock)
    requires Since(start, w, started, at)
    requires w'.saves == w.saves + [RecordOf(w'.m, w'.clock)] || OnlyTimePasses(w, w')
    ensures Since(start, w', started, if |w'.saves| > |w.saves| then w'.clock else at)
  {
  }

  lemma {:induction false} RunSince(hmac: Codes.Hmac, w: World, at: Clock, es: seq<Event>)
    requires WellFormed(w.m.used) && WithinOneBoot(es)
    ensures WellFormed(Run(hmac, w, es).m.used)
    ensures Since(w, Run(hmac, w, es), at, SavedAt(hmac, w, at, es))
  {
    if es == [] {
    } else {
      var init, e := es[..|es| - 1], es[|es| - 1];
      var before := Run(hmac, w, init);
      assert forall i :: 0 <= i < |init| ==> init[i] == es[i];
      RunSince(hmac, w, at, init);
      UsedStaysWellFormed(hmac, before, e);
      ChangesAreSaved(hmac, before, e);
      StepSince(w, before, Step(hmac, before, e), at, SavedAt(hmac, w, at, init));
    }
  }

  // ----- Power cuts -----

  /** What the wall clock would show if it had not been set since the given readings. */
  function UnsetWall(at: Clock, clock: Clock): int {
    clock.wall - ClockJump.Delta(at, clock)
  }

  /** The credit with which a boot starts that loads the given numbers. */
  function CreditAfterBoot(credit: uint64, savedAt: uint64, clock: Clock): uint64 {
    Min(ReloadedCredit(credit, savedAt, clock.wall), MAX_UINT64 - clock.boot)
  }

  /**
   * When a save from some time ago is worth as much after the cut as one at the cut
   * would be. The first line is the usual case; behind it the clock is taken to have
   * stood still, so that the time between save and cut is not charged, unless there is
   * none, or nothing is left to charge, or the result is the same for another reason.
   */
  predicate SaveIsUpToDate(credit: uint64, at: Clock, cut: Clock, clock: Clock)
    requires at.boot <= cut.boot
  {
    var off := Max(0, clock.wall - at.wall);
    var left := Charged(credit, cut.boot - at.boot);
    || UnsetWall(at, cut) <= clock.wall
    || cut.boot == at.boot
    || credit <= off
    || left >= MAX_UINT64 - clock.boot
    || (at.wall <= clock.wall && BogusCredit(credit - off) && left == RESET_CREDIT_SECS)
  }

  lemma UpToDateIff(credit: uint64, at: Clock, cut: Clock, clock: Clock)
    requires at.boot <= cut.boot
    ensures 0 <= UnsetWall(at, cut) <= MAX_UINT64
    ensures CreditAfterBoot(credit, at.wall, clock) ==
            CreditAfterBoot(Charged(credit, cut.boot - at.boot), UnsetWall(at, cut), clock)
       <==> SaveIsUpToDate(credit, at, cut, clock)
  {
    if UnsetWall(at, cut) <= clock.wall {
      ReloadComposes(credit, at.wall, UnsetWall(at, cut), clock.wall);
    } else if clock.wall < at.wall {
      BehindTheSave(credit, at, cut, clock);
    } else {
      BehindTheCut(credit, at, cut, clock);
    }
  }

  /** Charging for one stretch of time and then for the next is charging for both at once. */
  lemma ReloadComposes(credit: uint64, savedAt: Seconds, cut: uint64, wall: Seconds)
    requires savedAt <= cut <= wall
    ensures ReloadedCredit(credit, savedAt, wall) == ReloadedCredit(Charged(credit, cut - savedAt), cut, wall)
  {
  }

  lemma BehindTheSave(credit: uint64, at: Clock, cut: Clock, clock: Clock)
    requires at.boot <= cut.boot && clock.wall < at.wall
    ensures CreditAfterBoot(credit, at.wall, clock) ==
            CreditAfterBoot(Charged(credit, cut.boot - at.boot), UnsetWall(at, cut), clock)
       <==> SaveIsUpToDate(credit, at, cut, clock)
  {
  }

  lemma BehindTheCut(credit: uint64, at: Clock, cut: Clock, clock: Clock)
    requires at.boot <= cut.boot && at.wall <= clock.wall < UnsetWall(at, cut)
    ensures CreditAfterBoot(credit, at.wall, clock) ==
            CreditAfterBoot(Charged(credit, cut.boot - at.boot), UnsetWall(at, cut), clock)
       <==> SaveIsUpToDate(credit, at, cut, clock)
  {
  }

  /** The boot after the power cut loads the newest save; the list is whole, and the credit is that of a save at the cut. */
  predicate LosesNothing(w: World, at: Clock, clock: Clock)
    requires w.saves != [] && 0 <= UnsetWall(at, w.clock) <= MAX_UINT64
  {
    var booted := Booted(w, Newest(w), clock, false);
    && booted.m.used == w.m.used
    && CreditOf(booted) == CreditAfterBoot(CreditOf(w), UnsetWall(at, w.clock), clock)
  }

  // ----- The save that loading starts -----

  /** Setting the expiry time while loading starts a save. */
  predicate SavesWhileLoading(w: World, r: Record, clock: Clock) {
    NotifiesExpiry(Unloaded(w.m), Booted(w, r, clock, false).m)
  }

  /** A boot that starts a save leaves a durable state if and only if that save came after the list was read, or the list is empty. */
  lemma BootIsDurable(w: World, r: Record, clock: Clock, early: bool)
    requires WellFormed(r.used) && SavesWhileLoading(w, r, clock)
    ensures Durable(Booted(w, r, clock, early), clock) <==> !early || r.used == []
  {
    SavedListReloads(r.used);
  }

  /** What the disk holds when the power is cut during a boot from a record: the newest save since, or still that record. */
  function OnDisk(before: World, r: Record, w: World): Record
    requires |before.saves| <= |w.saves|
  {
    if |w.saves| > |before.saves| then Newest(w) else r
  }

  /**
   * After any run of a boot from any record, a power cut keeps the list of used codes
   * if and only if the newest save is not the one that loading started before it
   * had read the list.
   */
  lemma PowerCutKeepsCodesIff(hmac: Codes.Hmac, w: World, r: Record, loaded: Clock, early: bool, es: seq<Event>, clock: Clock)
    requires WellFormed(r.used) && WithinOneBoot(es)
    ensures var boot := Booted(w, r, loaded, early);
            var w' := Run(hmac, boot, es);
            && |w.saves| <= |w'.saves|
            && (Booted(w', OnDisk(w, r, w'), clock, false).m.used == w'.m.used <==>
                  !(early && SavesWhileLoading(w, r, loaded) && w'.saves == boot.saves && r.used != []))
  {
    var boot := Booted(w, r, loaded, early);
    var w' := Run(hmac, boot, es);
    SavedListReloads(r.used);
    RunSince(hmac, boot, loaded, es);
    SavedListReloads(w'.m.used);
  }

  /**
   * If anything was saved since the boot, the credit survives a power cut - it is that of
   * a save at the cut, had the wall clock not been set since the newest save - if
   * and only if that save is still up to date on the clock of the next boot.
   */
  lemma PowerCutKeepsCredit(hmac: Codes.Hmac, w: World, r: Record, loaded: Clock, early: bool, es: seq<Event>, clock: Clock)
    requires WellFormed(r.used) && WithinOneBoot(es)
    requires |Run(hmac, Booted(w, r, loaded, early), es).saves| > |w.saves|
    ensures var boot := Booted(w, r, loaded, early);
            var w', at := Run(hmac, boot, es), SavedAt(hmac, boot, loaded, es);
            && at.boot <= w'.clock.boot && 0 <= UnsetWall(at, w'.clock) <= MAX_UINT64
            && (CreditOf(Booted(w', Newest(w'), clock, false)) ==
                  CreditAfterBoot(CreditOf(w'), UnsetWall(at, w'.clock), clock)
                <==> SaveIsUpToDate(Newest(w').credit, at, w'.clock, clock))
  {
    var boot := Booted(w, r, loaded, early);
    var w', at := Run(hmac, boot, es), SavedAt(hmac, boot, loaded, es);
    SavedListReloads(r.used);
    RunSince(hmac, boot, loaded, es);
    CreditDurable(boot, w', at, loaded);
    UpToDateIff(Newest(w').credit, at, w'.clock, clock);
  }

  /** Whatever the newest save holds of the list, its credit differs from the current one only by the time since. */
  lemma CreditDurable(boot: World, w: World, at: Clock, loaded: Clock)
    requires || Durable(w, at)
             || (OnlyTimePasses(boot, w) && at == loaded == boot.clock && boot.saves != []
                 && Newest(boot).wall == loaded.wall && Newest(boot).credit == CreditOf(boot))
    ensures w.saves != [] && Newest(w).wall == at.wall && at.boot <= w.clock.boot
    ensures CreditOf(w) == Charged(Newest(w).credit, w.clock.boot - at.boot)
  {
  }

  /**
   * If nothing was saved since the boot of an enabled machine, there was no credit, and
   * there is none after a power cut if and only if the record that was loaded is
   * used up on the clock of the next boot.
   */
  lemma PowerCutBeforeAnySave(hmac: Codes.Hmac, w: World, r: Record, loaded: Clock, early: bool, es: seq<Event>, clock: Clock)
    requires WellFormed(r.used) && WithinOneBoot(es) && w.m.enabled
    requires Run(hmac, Booted(w, r, loaded, early), es).saves == w.saves
    ensures var w' := Run(hmac, Booted(w, r, loaded, early), es);
            && CreditOf(w') == 0
            && (CreditOf(Booted(w', r, clock, false)) == 0 <==> r.credit <= Max(0, clock.wall - r.wall))
  {
    SavedListReloads(r.used);
    RunSince(hmac, Booted(w, r, loaded, early), loaded, es);
  }

  /**
   * After any run of a boot from any record in which something was saved, cut the power
   * and boot again: the newest save gives back the whole list of used codes and
   * exactly the credit that a save at the very moment of the cut would have given,
   * had the wall clock not been set since the newest save, if and only if that
   * save is not the one that loading started before it had read the list, and is
   * still up to date on the clock of the next boot.
   */
  lemma PowerCutIsFree(hmac: Codes.Hmac, w: World, r: Record, loaded: Clock, early: bool, es: seq<Event>, clock: Clock)
    requires WellFormed(r.used) && WithinOneBoot(es)
    requires |Run(hmac, Booted(w, r, loaded, early), es).saves| > |w.saves|
    ensures var boot := Booted(w, r, loaded, early);
            var w', at := Run(hmac, boot, es), SavedAt(hmac, boot, loaded, es);
            && at.boot <= w'.clock.boot && 0 <= UnsetWall(at, w'.clock) <= MAX_UINT64
            && (LosesNothing(w', at, clock) <==>
                  && !(early && r.used != [] && w'.saves == boot.saves)
                  && SaveIsUpToDate(Newest(w').credit, at, w'.clock, clock))
  {
    PowerCutKeepsCodesIff(hmac, w, r, loaded, early, es, clock);
    PowerCutKeepsCredit(hmac, w, r, loaded, early, es, clock);
  }

  /**
   * A failing case: some time after a save the power is cut, and the wall clock of the
   * next boot is behind that save. The time since the save is refunded.
   */
  lemma ClockBehindRefunds(hmac: Codes.Hmac, w: World, secs: nat, clock: Clock)
    requires Durable(w, w.clock) && Possible(w, Elapse(secs)) && secs > 0
    requires clock.wall < w.clock.wall && 0 < CreditOf(w) <= MAX_UINT64 - clock.boot
    ensures var w' := Step(hmac, w, Elapse(secs));
            CreditOf(Booted(w', Newest(w'), clock, false)) == CreditOf(w) > CreditOf(w')
  {
    ElapseCredit(hmac, w, secs);
  }

  /**
   * Another: the save that loading starts runs before the list has been read,
   * the power is cut before anything else is saved, and a code that was used long
   * ago is accepted again.
   */
  lemma EarlySaveForgetsCodes(hmac: Codes.Hmac, w: World, source: nat, first: Clock, second: Clock, text: string, x: UsedCode)
    requires w.m.enabled && source < |w.saves| && first.boot > 0 && second.boot != RateLimit.TIME_PERIOD_SECS
    requires WellFormed(w.saves[source].used) && x in w.saves[source].used
    requires IsCodeFor(hmac, w.m.key, text, x)
    ensures var w1 := Step(hmac, w, Reboot(source, first, true));
            var w2 := Step(hmac, w1, Reboot(|w.saves|, second, false));
            && x in w1.m.used && AcceptedBy(hmac, w1, EnterCode(text)).None?
            && w2.m.used == [] && AcceptedBy(hmac, w2, EnterCode(text)) == Some(x)
  {
    SavedListReloads(w.saves[source].used);
    EnteredIffIssued(hmac, w.m.key, text, x);
    FreshLimiterPasses(second.boot);
  }

  lemma FreshLimiterPasses(now: Seconds)
    requires now != RateLimit.TIME_PERIOD_SECS
    ensures !RateLimit.Refuses(RateLimit.CLEARED, now)
  {
    if now < RateLimit.TIME_PERIOD_SECS {
      RateLimit.EarlyClock(RateLimit.CLEARED, now);
    } else {
      RateLimit.RefusesIffOldestIsRecent(RateLimit.CLEARED, now);
    }
  }
}
