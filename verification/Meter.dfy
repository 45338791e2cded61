/** Within one boot the manager is a credit meter. */
module Meter {
  import opened Integers
  import opened Credit
  import opened ManagerState
  import opened World
  import Codes

  /** What happens to a meter. */
  datatype Input = Pass(secs: nat) | Add(span: nat) | Take(secs: nat) | Empty

  /** A counter with a floor at zero and a ceiling. */
  function Tick(credit: nat, input: Input, ceiling: int): nat {
    match input
    case Pass(secs) => Max(0, credit - secs)
    case Add(span) => Max(0, Min(credit + span, ceiling))
    case Take(secs) => Max(0, credit - secs)
    case Empty => 0
  }

  /** The same counter without a ceiling. */
  function Unbounded(credit: nat, input: Input): nat {
    match input
    case Pass(secs) => Max(0, credit - secs)
    case Add(span) => credit + span
    case Take(secs) => Max(0, credit - secs)
    case Empty => 0
  }

  /** How an outside observer sees an event: codes by the span they add, reported clock changes by how far they go forward. */
  function Observed(hmac: Codes.Hmac, w: World, e: Event): Input {
    if !Possible(w, e) then Pass(0)
    else
      match e
      case Elapse(secs) => Pass(secs)
      case ReportJump => Take(Max(0, Pending(w)))
      case EnterCode(_) =>
        (match AcceptedBy(hmac, w, e)
         case Some(x) => Add(Span(x.period))
         case None => Pass(0))
      case Clear => if ClearCode(w.m, w.clock).1.Success? then Empty else Pass(0)
      case _ => Pass(0)
  }

  function MeterRun(hmac: Codes.Hmac, w: World, es: seq<Event>): nat {
    if es == [] then CreditOf(w)
    else
      var before := Run(hmac, w, es[..|es| - 1]);
      Tick(MeterRun(hmac, w, es[..|es| - 1]), Observed(hmac, before, es[|es| - 1]), MAX_UINT64 - before.clock.boot)
  }

  function UnboundedRun(hmac: Codes.Hmac, w: World, es: seq<Event>): nat {
    if es == [] then CreditOf(w)
    else
      var before := Run(hmac, w, es[..|es| - 1]);
      Unbounded(UnboundedRun(hmac, w, es[..|es| - 1]), Observed(hmac, before, es[|es| - 1]))
  }

  lemma StepIsTick(hmac: Codes.Hmac, w: World, e: Event)
    requires !e.Reboot?
    ensures CreditOf(Step(hmac, w, e)) == Tick(CreditOf(w), Observed(hmac, w, e), MAX_UINT64 - w.clock.boot)
  {
    if Possible(w, e) {
      match e
      case Elapse(secs) => ElapseCredit(hmac, w, secs);
      case ReportJump => ReportCredit(hmac, w);
      case EnterCode(text) => CodeCredit(hmac, w, text);
      case _ =>
    }
  }

  /** Over every interleaving of events, the credit equals the reading of the meter with its ceiling at the end of time. */
  lemma {:induction false} ManagerRefinesMeter(hmac: Codes.Hmac, w: World, es: seq<Event>)
    requires WithinOneBoot(es)
    ensures CreditOf(Run(hmac, w, es)) == MeterRun(hmac, w, es)
  {
    if es == [] {
    } else {
      ManagerRefinesMeter(hmac, w, es[..|es| - 1]);
      StepIsTick(hmac, Run(hmac, w, es[..|es| - 1]), es[|es| - 1]);
    }
  }

  /** No accepted code so far would have gone past the end of time. */
  predicate NeverCapped(hmac: Codes.Hmac, w: World, es: seq<Event>) {
    forall i :: 0 <= i < |es| ==>
      var before := Run(hmac, w, es[..i]);
      var added := Observed(hmac, before, es[i]);
      added.Add? ==> CreditOf(before) + added.span <= MAX_UINT64 - before.clock.boot
  }

  /** The ceiling is the only deviation: until a code hits it, the credit is the plain counter. */
  lemma {:induction false} ExactUntilCapped(hmac: Codes.Hmac, w: World, es: seq<Event>)
    requires WithinOneBoot(es) && NeverCapped(hmac, w, es)
    ensures CreditOf(Run(hmac, w, es)) == UnboundedRun(hmac, w, es)
  {
    if es == [] {
    } else {
      var init := es[..|es| - 1];
      assert forall i :: 0 <= i < |init| ==> init[..i] == es[..i] && init[i] == es[i];
      ExactUntilCapped(hmac, w, init);
      StepIsTick(hmac, Run(hmac, w, init), es[|es| - 1]);
    }
  }
}
