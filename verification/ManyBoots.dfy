/**
 * The whole life of a machine as alternating runs of the two protocols: every boot is a
 * run of ShutdownProtocol that ends in a clean shutdown, and a run of InitProtocol
 * that succeeds on the files it left.
 */
module ManyBoots {
  import opened Wrappers
  import opened UsedCodes
  import opened Credit
  import opened ManagerState
  import opened ShutdownProtocol
  import opened PowerCycle
  import Lifetime
  import Init = InitProtocol
  import Codes

  /** One boot, and the initialisation of the next one. Loading may save, so the disk after it is any record. */
  datatype Boot = Boot(es: seq<Event>, files: Init.Files, enabled: bool, cs: seq<Init.Callback>, disk: Record)

  function Next(b: Boot): System {
    System(Init.Run(b.files, b.enabled, b.cs).m, [], b.disk, false, [])
  }

  /** The shutdown has completed, no write has failed, and initialising from what is on disk succeeds. */
  predicate CleanBoot(hmac: Codes.Hmac, s: System, b: Boot) {
    var t := Run(hmac, s, b.es);
    && t.completions != [] && !t.failed && Hold(b.files, t.disk)
    && Init.Schedule(b.files, b.enabled, b.cs)
    && Init.Run(b.files, b.enabled, b.cs).task.returned == [Success(true)]
  }

  function After(hmac: Codes.Hmac, s: System, boots: seq<Boot>): System {
    if boots == [] then s else Next(boots[|boots| - 1])
  }

  predicate CleanBoots(hmac: Codes.Hmac, s: System, boots: seq<Boot>) {
    boots != [] ==>
      && CleanBoots(hmac, s, boots[..|boots| - 1])
      && CleanBoot(hmac, After(hmac, s, boots[..|boots| - 1]), boots[|boots| - 1])
  }

  // ----- The pairs that are accepted -----

  function AcceptedBy(hmac: Codes.Hmac, s: System, e: Event): (accepted: seq<UsedCode>)
    ensures ValidPeriods(accepted)
  {
    if e.AddCode? && ManagerState.AddCode(hmac, s.m, e.clock, e.text).1.Success? then
      EnteredIsValid(hmac, s.m.key, e.text);
      [Entered(hmac, s.m.key, e.text).value]
    else []
  }

  function AcceptedInRun(hmac: Codes.Hmac, s: System, es: seq<Event>): (accepted: seq<UsedCode>)
    ensures ValidPeriods(accepted)
  {
    if es == [] then []
    else
      var init := es[..|es| - 1];
      AcceptedInRun(hmac, s, init) + AcceptedBy(hmac, Run(hmac, s, init), es[|es| - 1])
  }

  function AcceptedInBoots(hmac: Codes.Hmac, s: System, boots: seq<Boot>): (accepted: seq<UsedCode>)
    ensures ValidPeriods(accepted)
  {
    if boots == [] then []
    else
      var init := boots[..|boots| - 1];
      AcceptedInBoots(hmac, s, init) + AcceptedInRun(hmac, After(hmac, s, init), boots[|boots| - 1].es)
  }

  /** The list is well-formed and holds exactly the pairs. */
  predicate ListHolds(s: System, accepted: seq<UsedCode>) {
    WellFormed(s.m.used) && multiset(s.m.used) == multiset(accepted)
  }

  // ----- Within one boot -----

  lemma StepHolds(hmac: Codes.Hmac, s: System, e: Event, accepted: seq<UsedCode>)
    requires ListHolds(s, accepted)
    ensures ListHolds(Step(hmac, s, e), accepted + AcceptedBy(hmac, s, e))
  {
    if AcceptedBy(hmac, s, e) == [] {
      SameList(hmac, s, e);
    } else {
      var x := Entered(hmac, s.m.key, e.text).value;
      AppendKeepsOrder(s.m.used, x);
      assert Step(hmac, s, e).m.used == Appended(s.m.used, x);
    }
  }

  lemma SameList(hmac: Codes.Hmac, s: System, e: Event)
    requires AcceptedBy(hmac, s, e) == []
    ensures Step(hmac, s, e).m.used == s.m.used
  {
    if e.AddCode? {
      RefusedCodeChangesOnlyHistory(hmac, s.m, e.clock, e.text);
    }
  }

  lemma {:induction false} RunHolds(hmac: Codes.Hmac, s: System, es: seq<Event>, accepted: seq<UsedCode>)
    requires ListHolds(s, accepted)
    ensures ListHolds(Run(hmac, s, es), accepted + AcceptedInRun(hmac, s, es))
  {
    if es == [] {
      assert accepted + [] == accepted;
    } else {
      var init, e := es[..|es| - 1], es[|es| - 1];
      RunHolds(hmac, s, init, accepted);
      StepHolds(hmac, Run(hmac, s, init), e, accepted + AcceptedInRun(hmac, s, init));
      Regroup(accepted, AcceptedInRun(hmac, s, init), AcceptedBy(hmac, Run(hmac, s, init), e));
    }
  }

  lemma Regroup(a: seq<UsedCode>, b: seq<UsedCode>, c: seq<UsedCode>)
    ensures a + (b + c) == a + b + c
  {
  }

  // ----- From boot to boot -----

  /** A clean boot starts the next one with the list it ended with. */
  lemma BootKeepsList(hmac: Codes.Hmac, s: System, b: Boot)
    requires Initialised(s) && WellFormed(s.m.used) && CleanBoot(hmac, s, b)
    ensures Initialised(Next(b)) && Next(b).m.used == Run(hmac, s, b.es).m.used
  {
    Init.InitCompletesExactlyOnce(b.files, b.enabled, b.cs);
    Init.RunInvariant(b.files, b.enabled, b.cs);
    UsedCodesSurvivePowerCycle(hmac, s, b.es, b.files, b.enabled, b.cs, Clock(0, 0), "");
  }

  lemma {:induction false} BootsHold(hmac: Codes.Hmac, s: System, boots: seq<Boot>)
    requires Initialised(s) && s.m.used == [] && CleanBoots(hmac, s, boots)
    ensures Initialised(After(hmac, s, boots)) && ListHolds(After(hmac, s, boots), AcceptedInBoots(hmac, s, boots))
  {
    if boots == [] {
    } else {
      var init, b := boots[..|boots| - 1], boots[|boots| - 1];
      BootsHold(hmac, s, init);
      RunHolds(hmac, After(hmac, s, init), b.es, AcceptedInBoots(hmac, s, init));
      BootKeepsList(hmac, After(hmac, s, init), b);
    }
  }

  /**
   * Start from an initialised manager without used codes. Over any number of clean boots
   * and any run of the current one, for every interleaving of calls, file operations
   * and callbacks: the list holds exactly the accepted pairs, no pair is accepted
   * twice, and all the finite credit that was granted is within the bound.
   */
  lemma EachPairAcceptedOnce(hmac: Codes.Hmac, s: System, boots: seq<Boot>, es: seq<Event>)
    requires Initialised(s) && s.m.used == [] && CleanBoots(hmac, s, boots)
    ensures var current := After(hmac, s, boots);
            var accepted := AcceptedInBoots(hmac, s, boots) + AcceptedInRun(hmac, current, es);
            && ListHolds(Run(hmac, current, es), accepted)
            && Lifetime.NoRepeats(accepted)
            && ValidPeriods(accepted) && Lifetime.FiniteTotal(accepted) <= Lifetime.LIFETIME_CREDIT
  {
    var current := After(hmac, s, boots);
    var accepted := AcceptedInBoots(hmac, s, boots) + AcceptedInRun(hmac, current, es);
    BootsHold(hmac, s, boots);
    RunHolds(hmac, current, es, AcceptedInBoots(hmac, s, boots));
    Lifetime.AcceptedOnce(Run(hmac, current, es).m.used, accepted);
    Lifetime.ListBound(Run(hmac, current, es).m.used, accepted);
  }
}
