/**
 * libeos-payg/provider-loader.c: the first enabled provider is taken out of the list and
 * returned once all the others have been shut down.
 */
module ProviderLoader {
  import opened Integers
  import opened Wrappers
  import opened MultiTask

  datatype Provider = Provider(id: nat, enabled: bool)

  /** g_ptr_array_remove_index_fast: the last element takes the place of the removed one. */
  function RemoveIndexFast<T>(s: seq<T>, i: nat): seq<T>
    requires i < |s|
  {
    s[i := s[|s| - 1]][..|s| - 1]
  }

  lemma RemovalKeepsTheRest<T>(s: seq<T>, i: nat)
    requires i < |s|
    ensures multiset(RemoveIndexFast(s, i)) + multiset{s[i]} == multiset(s)
  {
    var last := |s| - 1;
    if i == last {
      assert s == RemoveIndexFast(s, i) + [s[i]];
    } else {
      assert RemoveIndexFast(s, i) == s[..i] + ([s[last]] + s[i + 1..last]);
      assert s == s[..i] + ([s[i]] + (s[i + 1..last] + [s[last]]));
    }
  }

  function OneOrNone<T>(x: Option<T>): multiset<T> {
    if x.Some? then multiset{x.value} else multiset{}
  }

  /** What a selection must be: an enabled member, the first one, and all the others; nobody is lost or doubled. */
  ghost predicate Selected(providers: seq<Provider>, chosen: Option<Provider>, others: seq<Provider>) {
    && multiset(others) + OneOrNone(chosen) == multiset(providers)
    && (chosen.None? <==> forall p :: p in providers ==> !p.enabled)
    && (chosen.Some? ==>
          && chosen.value.enabled
          && exists i :: 0 <= i < |providers| && providers[i] == chosen.value && forall j :: 0 <= j < i ==> !providers[j].enabled)
  }

  /** The loop of get_first_enabled_load_cb. */
  method SelectFirstEnabled(providers: seq<Provider>) returns (chosen: Option<Provider>, others: seq<Provider>)
    ensures Selected(providers, chosen, others)
  {
    others := providers;
    chosen := None;
    var i := 0;
    while i < |others|
      invariant i <= |others| && others == providers
      invariant forall j :: 0 <= j < i ==> !providers[j].enabled
    {
      if others[i].enabled {
        chosen := Some(others[i]);
        RemovalKeepsTheRest(others, i);
        others := RemoveIndexFast(others, i);
        break;
      }
      i := i + 1;
    }
  }

  /** One operation for each provider and one for starting them. */
  method ShutdownProvidersAsync(providers: seq<Provider>)
    returns (task: MultiTask<bool, ()>, started: seq<Provider>)
    requires |providers| < MAX_UINT32
    ensures fresh(task) && task.Valid()
    ensures started == providers
    ensures task.View() == AllStarted(|providers|)
  {
    task := new MultiTask<bool, ()>.Attach(|providers| + 1);
    started := [];
    for i := 0 to |providers|
      invariant started == providers[..i]
    {
      started := started + [providers[i]];
    }
    task.ReturnBoolean(true);
  }

  function AllStarted(n: nat): Task<bool, ()>
    requires n < MAX_UINT32
  {
    ReturnedValue(Attached(n + 1), true)
  }

  // ----- Waiting for the shutdowns -----

  datatype Waiting = Waiting(
    chosen: Option<Provider>,
    left: set<nat>,                   // positions of the providers that are still shutting down
    task: Task<bool, ()>,
    results: seq<Option<Provider>>)   // what the caller has been given

  datatype Event =
    | ShutdownOne(i: nat, ok: bool)  // shutdown_one_cb
    | AllShutDown                    // get_first_enabled_shutdown_cb

  /** The positions of a list. */
  function Positions(n: nat): (s: set<nat>)
    ensures |s| == n && forall i: nat :: i in s <==> i < n
  {
    if n == 0 then {} else Positions(n - 1) + {n - 1}
  }

  function Start(chosen: Option<Provider>, others: seq<Provider>): Waiting
    requires |others| < MAX_UINT32
  {
    Waiting(chosen, Positions(|others|), AllStarted(|others|), [])
  }

  /** A failed shutdown is only logged; it counts like a successful one. */
  function Step(w: Waiting, e: Event): Waiting {
    match e
    case ShutdownOne(i, _) =>
      if i !in w.left then w else w.(left := w.left - {i}, task := ReturnedValue(w.task, true))
    case AllShutDown =>
      if w.task.returned == [] || w.results != [] then w else w.(results := [w.chosen])
  }

  function Run(w: Waiting, es: seq<Event>): Waiting {
    if es == [] then w else Step(Run(w, es[..|es| - 1]), es[|es| - 1])
  }

  predicate Invariant(w: Waiting) {
    && w.task.pending == |w.left|
    && Sound(w.task) && !w.task.HadError()
    && (w.results != [] ==> w.left == {} && w.results == [w.chosen])
  }

  lemma StepKeepsInvariant(w: Waiting, e: Event)
    requires Invariant(w)
    ensures Invariant(Step(w, e)) && Step(w, e).chosen == w.chosen
  {
    match e
    case ShutdownOne(i, _) =>
      if i in w.left {
        assert |w.left - {i}| == |w.left| - 1;
        ReturnsKeepSound(w.task, ());
      }
    case AllShutDown =>
      ErrorIsFirst(w.task);
      if w.task.returned != [] {
        assert |w.left| == 0;
      }
  }

  /**
   * For every order and outcome of the shutdowns, the caller is given the chosen
   * provider at most once, never before every other provider has finished, and
   * the task that waits for them has returned as soon as they all have.
   */
  lemma {:induction false} ReturnedAfterAllShutdowns(chosen: Option<Provider>, others: seq<Provider>, es: seq<Event>)
    requires |others| < MAX_UINT32
    ensures var w := Run(Start(chosen, others), es);
            && Invariant(w)
            && w.results <= [chosen]
            && (w.results != [] ==> w.left == {})
            && (w.task.returned == [Success(true)] <==> w.left == {})
  {
    RunInvariant(chosen, others, es);
    var w := Run(Start(chosen, others), es);
    ErrorIsFirst(w.task);
    if w.left != {} {
      assert |w.left| > 0;
    }
  }

  lemma {:induction false} RunInvariant(chosen: Option<Provider>, others: seq<Provider>, es: seq<Event>)
    requires |others| < MAX_UINT32
    ensures Invariant(Run(Start(chosen, others), es)) && Run(Start(chosen, others), es).chosen == chosen
  {
    if es == [] {
      assert |Positions(|others|)| == |others|;
    } else {
      RunInvariant(chosen, others, es[..|es| - 1]);
      StepKeepsInvariant(Run(Start(chosen, others), es[..|es| - 1]), es[|es| - 1]);
    }
  }

  // ----- From the list to the provider -----

  /** The first enabled provider of a list. */
  function FirstEnabled(providers: seq<Provider>): Option<Provider> {
    if providers == [] then None
    else if providers[0].enabled then Some(providers[0])
    else FirstEnabled(providers[1..])
  }

  /** There is only one selection. */
  lemma {:induction false} SelectionIsFirstEnabled(providers: seq<Provider>, i: nat)
    requires i <= |providers| && forall j :: 0 <= j < i ==> !providers[j].enabled
    requires i < |providers| ==> providers[i].enabled
    ensures FirstEnabled(providers) == if i < |providers| then Some(providers[i]) else None
  {
    if i == 0 {
    } else {
      SelectionIsFirstEnabled(providers[1..], i - 1);
    }
  }

  lemma SelectedIsFirstEnabled(providers: seq<Provider>, chosen: Option<Provider>, others: seq<Provider>)
    requires Selected(providers, chosen, others)
    ensures chosen == FirstEnabled(providers)
    ensures |others| + (if chosen.Some? then 1 else 0) == |providers|
  {
    assert |multiset(others) + OneOrNone(chosen)| == |others| + |OneOrNone(chosen)|;
    assert |multiset(others)| == |others| && |multiset(providers)| == |providers|;
    if chosen.Some? {
      var i :| 0 <= i < |providers| && providers[i] == chosen.value && forall j :: 0 <= j < i ==> !providers[j].enabled;
      SelectionIsFirstEnabled(providers, i);
    } else {
      SelectionIsFirstEnabled(providers, |providers|);
    }
  }

  /** Selects a provider and starts shutting the others down; what is left to do is the waiting. */
  method GetFirstEnabledAsync(providers: seq<Provider>) returns (w: Waiting, others: seq<Provider>)
    requires |providers| < MAX_UINT32
    ensures Selected(providers, w.chosen, others) && |others| <= |providers|
    ensures w == Start(FirstEnabled(providers), others)
  {
    var chosen;
    chosen, others := SelectFirstEnabled(providers);
    SelectedIsFirstEnabled(providers, chosen, others);
    var task, started := ShutdownProvidersAsync(others);
    w := Waiting(chosen, Positions(|others|), Task(task.pending, task.returned), []);
  }

  /**
   * From the list to the provider, for every order and outcome of the shutdowns: the
   * caller is given the first enabled provider, or none if and only if none is
   * enabled; at most once; and the callback that gives it does so if and only if all
   * the other providers have finished shutting down.
   */
  lemma FirstEnabledIsReturned(providers: seq<Provider>, others: seq<Provider>, es: seq<Event>)
    requires |providers| < MAX_UINT32 && Selected(providers, FirstEnabled(providers), others)
    ensures |others| <= |providers|
    ensures var w := Run(Start(FirstEnabled(providers), others), es);
            && w.results <= [FirstEnabled(providers)]
            && (w.results != [] ==> w.left == {})
            && (Step(w, AllShutDown).results == [FirstEnabled(providers)] <==> w.left == {})
    ensures match FirstEnabled(providers) {
              case Some(p) => p in providers && p.enabled
              case None => forall p :: p in providers ==> !p.enabled
            }
  {
    SelectedIsFirstEnabled(providers, FirstEnabled(providers), others);
    ReturnedAfterAllShutdowns(FirstEnabled(providers), others, es);
    var w := Run(Start(FirstEnabled(providers), others), es);
    RunInvariant(FirstEnabled(providers), others, es);
    ErrorIsFirst(w.task);
  }

  /** The shutdown of a provider has ended, however it ended. */
  predicate HasEnded(es: seq<Event>, i: nat) {
    exists k :: 0 <= k < |es| && es[k].ShutdownOne? && es[k].i == i
  }

  lemma {:induction false} LeftIffNotEnded(w: Waiting, es: seq<Event>, i: nat)
    ensures i in Run(w, es).left <==> i in w.left && !HasEnded(es, i)
  {
    if es == [] {
    } else {
      var init, e := es[..|es| - 1], es[|es| - 1];
      LeftIffNotEnded(w, init, i);
      assert HasEnded(es, i) <==> HasEnded(init, i) || (e.ShutdownOne? && e.i == i) by {
        assert forall k :: 0 <= k < |init| ==> init[k] == es[k];
      }
    }
  }

  /** Once every other provider has ended its shutdown, with success or not, and not before, the callback gives the result. */
  lemma EveryoneEndedGivesResult(providers: seq<Provider>, others: seq<Provider>, es: seq<Event>)
    requires |providers| < MAX_UINT32 && Selected(providers, FirstEnabled(providers), others)
    ensures |others| <= |providers|
    ensures var w := Run(Start(FirstEnabled(providers), others), es);
            Step(w, AllShutDown).results == [FirstEnabled(providers)] <==>
            forall i :: 0 <= i < |others| ==> HasEnded(es, i)
  {
    FirstEnabledIsReturned(providers, others, es);
    var start := Start(FirstEnabled(providers), others);
    forall i: nat
      ensures i in Run(start, es).left <==> i < |others| && !HasEnded(es, i)
    {
      LeftIffNotEnded(start, es, i);
    }
  }
}
