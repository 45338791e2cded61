/** An infinite code unlocks the machine for good. */
module Unlock {
  import opened Integers
  import opened Credit
  import opened World
  import Codes

  /** The time that an event charges: time that passes, forward clock changes that are reported, and time spent switched off. */
  function ChargeOf(w: World, e: Event): nat {
    if !Possible(w, e) then 0
    else
      match e
      case Elapse(secs) => secs
      case ReportJump => Max(0, Pending(w))
      case Reboot(source, clock, _) => Max(0, clock.wall - w.saves[source].wall)
      case _ => 0
  }

  function ChargedIn(hmac: Codes.Hmac, w: World, es: seq<Event>): nat {
    if es == [] then 0
    else ChargedIn(hmac, w, es[..|es| - 1]) + ChargeOf(Run(hmac, w, es[..|es| - 1]), es[|es| - 1])
  }

  /** The largest boot-clock reading. */
  function TopBoot(hmac: Codes.Hmac, w: World, es: seq<Event>): nat {
    if es == [] then w.clock.boot
    else Max(TopBoot(hmac, w, es[..|es| - 1]), Run(hmac, w, es).clock.boot)
  }

  /** No clearing, and no reboot that loads a save from before the given one. */
  predicate Keeps(first: nat, es: seq<Event>) {
    forall i :: 0 <= i < |es| ==> !es[i].Clear? && (es[i].Reboot? ==> es[i].source >= first)
  }

  predicate AtLeast(w: World, first: nat, credit: int) {
    && CreditOf(w) >= credit
    && forall i :: first <= i < |w.saves| ==> w.saves[i].credit >= credit
  }

  lemma StepAtLeast(hmac: Codes.Hmac, w: World, e: Event, first: nat, charged: nat, top: nat)
    requires AtLeast(w, first, MAX_UINT64 - charged - top)
    requires Keeps(first, [e])
    requires top >= w.clock.boot && top >= Step(hmac, w, e).clock.boot
    requires charged + ChargeOf(w, e) + top < MAX_UINT64 - BOGUS_CREDIT_UPPER_LIMIT_SECS
    ensures AtLeast(Step(hmac, w, e), first, MAX_UINT64 - charged - ChargeOf(w, e) - top)
  {
    assert [e][0] == e;
    NewSavesAreCurrent(hmac, w, e);
    if Possible(w, e) {
      match e
      case Elapse(secs) => ElapseCredit(hmac, w, secs);
      case SetWallClock(_) =>
      case StartDetection =>
      case ReportJump => ReportCredit(hmac, w);
      case EnterCode(text) => CodeCredit(hmac, w, text);
      case FinalSave =>
      case Reboot(source, clock, early) =>
        RebootCredit(hmac, w, source, clock, early);
    }
  }

  lemma {:induction false} StaysUnlocked(hmac: Codes.Hmac, w: World, es: seq<Event>, first: nat)
    requires AtLeast(w, first, MAX_UINT64 - w.clock.boot)
    requires Keeps(first, es)
    requires ChargedIn(hmac, w, es) + TopBoot(hmac, w, es) < MAX_UINT64 - BOGUS_CREDIT_UPPER_LIMIT_SECS
    ensures TopBoot(hmac, w, es) >= Run(hmac, w, es).clock.boot
    ensures AtLeast(Run(hmac, w, es), first, MAX_UINT64 - ChargedIn(hmac, w, es) - TopBoot(hmac, w, es))
  {
    if es == [] {
    } else {
      var init, e := es[..|es| - 1], es[|es| - 1];
      StaysUnlocked(hmac, w, init, first);
      StepAtLeast(hmac, Run(hmac, w, init), e, first, ChargedIn(hmac, w, init), TopBoot(hmac, w, es));
    }
  }

  /**
   * Once an infinite code is accepted and nothing is cleared, through any further
   * codes, clock changes, saves and reboots, more than 100 years of credit remain
   * in memory and in every later save - so loading never takes the credit for a
   * mistake and the machine never expires - as long as the time charged plus the
   * largest boot-clock reading stays 100 years short of the end of time.
   */
  lemma PermanentUnlock(hmac: Codes.Hmac, w: World, text: string, es: seq<Event>)
    requires AcceptedBy(hmac, w, EnterCode(text)).Some?
    requires AcceptedBy(hmac, w, EnterCode(text)).value.period == Codes.PERIOD_INFINITE
    requires Keeps(|w.saves|, es)
    requires var unlocked := Step(hmac, w, EnterCode(text));
             ChargedIn(hmac, unlocked, es) + TopBoot(hmac, unlocked, es) < MAX_UINT64 - BOGUS_CREDIT_UPPER_LIMIT_SECS
    ensures var w' := Run(hmac, Step(hmac, w, EnterCode(text)), es);
            && AtLeast(w', |w.saves|, BOGUS_CREDIT_UPPER_LIMIT_SECS + 1)
            && w'.m.expiry > w'.clock.boot
  {
    var unlocked := Step(hmac, w, EnterCode(text));
    CodeCredit(hmac, w, text);
    NewSavesAreCurrent(hmac, w, EnterCode(text));
    StaysUnlocked(hmac, unlocked, es, |w.saves|);
  }
}
