/** What a machine can be granted in its whole life, over any number of boots joined by clean shutdowns. */
module Lifetime {
  import opened Integers
  import opened UsedCodes
  import opened Credit
  import opened World
  import Codes

  /** One code of every finite period. */
  const FINITE_SPANS: nat := 69_240_965
  const LIFETIME_CREDIT: nat := 256 * FINITE_SPANS  // 17,725,687,040 s

  /** An empty state directory. */
  predicate Factory(w: World) {
    w.m.used == [] && w.saves == [] && CreditOf(w) == 0
  }

  /**
   * Every reboot loads a save that holds the used codes of the manager it
   * replaces. ShutdownProtocol proves that a clean shutdown leaves such a save.
   */
  predicate Clean(hmac: Codes.Hmac, w: World, es: seq<Event>) {
    forall i :: 0 <= i < |es| && es[i].Reboot? ==> CleanStep(Run(hmac, w, es[..i]), es[i])
  }

  predicate CleanStep(w: World, e: Event) {
    e.Reboot? && e.source < |w.saves| ==> w.saves[e.source].used == w.m.used
  }

  predicate NoRepeats(s: seq<UsedCode>) {
    forall i, j :: 0 <= i < j < |s| ==> s[i] != s[j]
  }

  predicate NoInfinite(s: seq<UsedCode>) {
    forall i :: 0 <= i < |s| ==> s[i].period != Codes.PERIOD_INFINITE
  }

  function FiniteSpan(x: UsedCode): nat
    requires Codes.ValidPeriod(x.period)
  {
    if x.period == Codes.PERIOD_INFINITE then 0 else Span(x.period)
  }

  /** The finite credit that a sequence of codes stands for. */
  function FiniteTotal(s: seq<UsedCode>): nat
    requires ValidPeriods(s)
  {
    if s == [] then 0 else FiniteTotal(s[..|s| - 1]) + FiniteSpan(s[|s| - 1])
  }

  // ----- The list of used codes is the set of accepted ones -----

  lemma StepUsed(hmac: Codes.Hmac, w: World, e: Event)
    requires WellFormed(w.m.used) && CleanStep(w, e)
    ensures var used := Step(hmac, w, e).m.used;
            match AcceptedBy(hmac, w, e) {
              case None => used == w.m.used
              case Some(x) => x !in w.m.used && used == Appended(w.m.used, x)
            }
  {
    if e.Reboot? {
      SavedListReloads(w.m.used);
    }
  }

  lemma {:induction false} UsedIsAccepted(hmac: Codes.Hmac, w: World, es: seq<Event>)
    requires Factory(w) && Clean(hmac, w, es)
    ensures var used := Run(hmac, w, es).m.used;
            WellFormed(used) && multiset(used) == multiset(AcceptedIn(hmac, w, es))
  {
    if es == [] {
    } else {
      var init, e := es[..|es| - 1], es[|es| - 1];
      assert forall i :: 0 <= i < |init| ==> init[..i] == es[..i] && init[i] == es[i];
      UsedIsAccepted(hmac, w, init);
      var before := Run(hmac, w, init);
      assert init == es[..|es| - 1];
      StepUsed(hmac, before, e);
      if AcceptedBy(hmac, before, e).Some? {
        AppendKeepsOrder(before.m.used, AcceptedBy(hmac, before, e).value);
      }
    }
  }

  /** What a well-formed list holds was accepted once each. */
  lemma AcceptedOnce(used: seq<UsedCode>, accepted: seq<UsedCode>)
    requires WellFormed(used) && multiset(used) == multiset(accepted)
    ensures NoRepeats(accepted)
  {
    StrictlySortedCountsOnce(used);
    forall i, j | 0 <= i < j < |accepted|
      ensures accepted[i] != accepted[j]
    {
      if accepted[i] == accepted[j] {
        TwiceCounted(accepted, i, j);
        assert false;
      }
    }
  }

  /** No (counter, period) pair is ever accepted twice. */
  lemma EachPairAcceptedOnce(hmac: Codes.Hmac, w: World, es: seq<Event>)
    requires Factory(w) && Clean(hmac, w, es)
    ensures NoRepeats(AcceptedIn(hmac, w, es))
  {
    UsedIsAccepted(hmac, w, es);
    AcceptedOnce(Run(hmac, w, es).m.used, AcceptedIn(hmac, w, es));
  }

  // ----- Sums over the list -----

  lemma {:induction false} FiniteTotalConcat(s: seq<UsedCode>, t: seq<UsedCode>)
    requires ValidPeriods(s) && ValidPeriods(t)
    ensures ValidPeriods(s + t) && FiniteTotal(s + t) == FiniteTotal(s) + FiniteTotal(t)
  {
    if t == [] {
      assert s + t == s;
    } else {
      FiniteTotalConcat(s, t[..|t| - 1]);
      assert (s + t)[..|s + t| - 1] == s + t[..|t| - 1];
    }
  }

  lemma TakeOut(t: seq<UsedCode>, j: nat) returns (rest: seq<UsedCode>)
    requires ValidPeriods(t) && j < |t|
    ensures ValidPeriods(rest) && multiset(t) == multiset(rest) + multiset{t[j]}
    ensures FiniteTotal(t) == FiniteTotal(rest) + FiniteSpan(t[j])
  {
    var left, right := t[..j], t[j + 1..];
    rest := left + right;
    assert t == left + ([t[j]] + right);
    FiniteTotalConcat(left, [t[j]] + right);
    FiniteTotalConcat([t[j]], right);
    FiniteTotalConcat(left, right);
    assert [t[j]][..0] == [];
  }

  lemma {:induction false} FiniteTotalOfPermutation(s: seq<UsedCode>, t: seq<UsedCode>)
    requires ValidPeriods(s) && ValidPeriods(t) && multiset(s) == multiset(t)
    ensures FiniteTotal(s) == FiniteTotal(t)
  {
    if s == [] {
      assert |multiset(t)| == |t|;
    } else {
      var init, last := s[..|s| - 1], s[|s| - 1];
      assert s == init + [last];
      assert last in multiset(t);
      var j :| 0 <= j < |t| && t[j] == last;
      var rest := TakeOut(t, j);
      CancelOne(multiset(init), multiset(rest), last);
      FiniteTotalOfPermutation(init, rest);
    }
  }

  lemma CancelOne(a: multiset<UsedCode>, b: multiset<UsedCode>, x: UsedCode)
    requires a + multiset{x} == b + multiset{x}
    ensures a == b
  {
    assert a == (a + multiset{x}) - multiset{x};
    assert b == (b + multiset{x}) - multiset{x};
  }

  lemma {:induction false} TotalsAgree(s: seq<UsedCode>)
    requires ValidPeriods(s) && NoInfinite(s)
    ensures TotalSpan(s) == FiniteTotal(s)
  {
    if s == [] {
    } else {
      TotalsAgree(s[..|s| - 1]);
    }
  }

  // ----- All pairs together -----

  function SpanAt(period: nat): nat {
    if Codes.ValidPeriod(period) && period != Codes.PERIOD_INFINITE then Span(period) else 0
  }

  /** One code of every finite period below the given one. */
  function SpansBelow(period: nat): nat {
    if period == 0 then 0 else SpansBelow(period - 1) + SpanAt(period - 1)
  }

  lemma {:induction false} SpansBelowGrows(p: nat, p': nat)
    requires p <= p'
    ensures SpansBelow(p) <= SpansBelow(p')
    decreases p'
  {
    if p == p' {
    } else {
      SpansBelowGrows(p, p' - 1);
    }
  }

  lemma NextFour(p: nat)
    ensures SpansBelow(p + 4) == SpansBelow(p) + FourSpans(p)
  {
    assert SpansBelow(p + 3) == SpansBelow(p + 2) + SpanAt(p + 2);
    assert SpansBelow(p + 2) == SpansBelow(p + 1) + SpanAt(p + 1);
  }

  /** The seconds of the next four periods. */
  function FourSpans(p: nat): nat {
    SpanAt(p) + SpanAt(p + 1) + SpanAt(p + 2) + SpanAt(p + 3)
  }

  lemma NextSixteen(p: nat)
    ensures SpansBelow(p + 16) == SpansBelow(p) + FourSpans(p) + FourSpans(p + 4) + FourSpans(p + 8) + FourSpans(p + 12)
  {
    NextFour(p);
    NextFour(p + 4);
    NextFour(p + 8);
    NextFour(p + 12);
  }

  lemma SpansOfOneCounter(periods: nat)
    requires periods == 32
    ensures SpansBelow(periods) == FINITE_SPANS
  {
    var none := periods - 32;
    NextSixteen(none);
    NextSixteen(none + 16);
    FourSpansTable();
  }

  lemma FourSpansTable()
    ensures FourSpans(0) == 3_965
    ensures FourSpans(4) == 10 * DAY_SECS && FourSpans(8) == 26 * DAY_SECS && FourSpans(12) == 42 * DAY_SECS
    ensures FourSpans(16) == 117 * DAY_SECS && FourSpans(20) == 575 * DAY_SECS + 1800
    ensures FourSpans(24) == 31 * DAY_SECS + 8 * HOUR_SECS && FourSpans(28) == 0
  {
  }

  /** A strictly sorted list below (counter, period) is worth no more than all the pairs below it. */
  lemma {:induction false} StrictListBelowAllPairs(s: seq<UsedCode>, counter: nat, period: nat)
    requires WellFormed(s)
    requires forall i :: 0 <= i < |s| ==>
               s[i].counter < counter || (s[i].counter == counter && s[i].period < period)
    ensures FiniteTotal(s) <= counter * FINITE_SPANS + SpansBelow(period)
  {
    if s == [] {
    } else {
      var init, last := s[..|s| - 1], s[|s| - 1];
      forall i | 0 <= i < |init|
        ensures init[i].counter < last.counter || (init[i].counter == last.counter && init[i].period < last.period)
      {
        assert Compare(s[i], last) < 0;
      }
      StrictListBelowAllPairs(init, last.counter, last.period);
      NextPair(last, counter, period);
    }
  }

  /** What is worth the pairs below one pair, and that pair, is worth no more than the pairs below a later one. */
  lemma NextPair(x: UsedCode, counter: nat, period: nat)
    requires Codes.ValidPeriod(x.period)
    requires x.counter < counter || (x.counter == counter && x.period < period)
    ensures x.counter * FINITE_SPANS + SpansBelow(x.period) + FiniteSpan(x) <= counter * FINITE_SPANS + SpansBelow(period)
  {
    var periods := 32;
    SpansOfOneCounter(periods);
    assert SpansBelow(x.period + 1) == SpansBelow(x.period) + FiniteSpan(x);
    if x.counter < counter {
      SpansBelowGrows(x.period + 1, periods);
      assert (x.counter + 1) * FINITE_SPANS <= counter * FINITE_SPANS;
    } else {
      SpansBelowGrows(x.period + 1, period);
    }
  }

  /** What a well-formed list holds is worth no more than all the pairs together. */
  lemma ListBound(used: seq<UsedCode>, accepted: seq<UsedCode>)
    requires WellFormed(used) && ValidPeriods(accepted) && multiset(used) == multiset(accepted)
    ensures FiniteTotal(accepted) <= LIFETIME_CREDIT
  {
    FiniteTotalOfPermutation(used, accepted);
    StrictListBelowAllPairs(used, 256, 0);
  }

  /** All the finite credit that is ever granted is at most one code of each counter and finite period. */
  lemma LifetimeBound(hmac: Codes.Hmac, w: World, es: seq<Event>)
    requires Factory(w) && Clean(hmac, w, es)
    ensures FiniteTotal(AcceptedIn(hmac, w, es)) <= LIFETIME_CREDIT
  {
    UsedIsAccepted(hmac, w, es);
    ListBound(Run(hmac, w, es).m.used, AcceptedIn(hmac, w, es));
  }

  // ----- The expiry time -----

  predicate WithinGrants(w: World, granted: nat) {
    && CreditOf(w) <= granted
    && forall i :: 0 <= i < |w.saves| ==> w.saves[i].credit <= granted
  }

  lemma StepWithinGrants(hmac: Codes.Hmac, w: World, e: Event, granted: nat)
    requires WithinGrants(w, granted)
    ensures WithinGrants(Step(hmac, w, e), granted + GrantedBy(hmac, w, e))
  {
    NewSavesAreCurrent(hmac, w, e);
    if Possible(w, e) {
      match e
      case Elapse(secs) => ElapseCredit(hmac, w, secs);
      case SetWallClock(_) =>
      case StartDetection =>
      case ReportJump => ReportCredit(hmac, w);
      case EnterCode(text) => CodeCredit(hmac, w, text);
      case Clear =>
      case FinalSave =>
      case Reboot(source, clock, early) =>
        RebootCredit(hmac, w, source, clock, early);
        ReloadNeverIncreases(w.saves[source].credit, w.saves[source].wall, clock.boot, clock.wall);
    }
  }

  lemma {:induction false} CreditWithinGrants(hmac: Codes.Hmac, w: World, es: seq<Event>)
    requires Factory(w)
    ensures WithinGrants(Run(hmac, w, es), GrantedIn(hmac, w, es))
  {
    if es == [] {
    } else {
      CreditWithinGrants(hmac, w, es[..|es| - 1]);
      GrantedStep(hmac, w, es);
      StepWithinGrants(hmac, Run(hmac, w, es[..|es| - 1]), es[|es| - 1], GrantedIn(hmac, w, es[..|es| - 1]));
    }
  }

  /**
   * Until an infinite code is accepted, the expiry time stays far below the end of
   * time: the saturating addition has never saturated.
   */
  lemma NeverSaturates(hmac: Codes.Hmac, w: World, es: seq<Event>)
    requires Factory(w) && Clean(hmac, w, es) && NoInfinite(AcceptedIn(hmac, w, es))
    ensures var w' := Run(hmac, w, es);
            w'.m.expiry <= w'.clock.boot + LIFETIME_CREDIT < MAX_UINT64
  {
    CreditWithinGrants(hmac, w, es);
    LifetimeBound(hmac, w, es);
    TotalsAgree(AcceptedIn(hmac, w, es));
  }
}
