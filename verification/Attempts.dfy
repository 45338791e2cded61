/** The rate limiter over whole lives of the machine: any boots, any codes, any clock changes. */
module Attempts {
  import opened Integers
  import opened Wrappers
  import opened RateLimit
  import opened World
  import M = ManagerState
  import Codes

  /** One call of add_code on an enabled manager: when, whether it got past the limiter, and whether the code was good. */
  datatype Call = Call(at: Seconds, passed: bool, accepted: bool)

  function CallOf(hmac: Codes.Hmac, w: World, text: string): Call {
    var outcome := M.AddCode(hmac, w.m, w.clock, text).1;
    Call(w.clock.boot, outcome != Failure(M.TooManyAttempts), outcome.Success?)
  }

  /** The calls since the boot or, if that is later, since the last accepted code; an accepted code ends its stretch. */
  function Stretch(hmac: Codes.Hmac, w: World, es: seq<Event>): seq<Call> {
    if es == [] then []
    else
      var init, e := es[..|es| - 1], es[|es| - 1];
      var before, calls := Run(hmac, w, init), Stretch(hmac, w, init);
      if e.Reboot? && Possible(before, e) then []
      else if e.EnterCode? && before.m.enabled then
        (if Ended(calls) then [] else calls) + [CallOf(hmac, before, e.text)]
      else calls
  }

  predicate Ended(calls: seq<Call>) {
    calls != [] && calls[|calls| - 1].accepted
  }

  function Times(calls: seq<Call>): (times: seq<Seconds>)
    ensures |times| == |calls| && forall i :: 0 <= i < |calls| ==> times[i] == calls[i].at
  {
    if calls == [] then [] else Times(calls[..|calls| - 1]) + [calls[|calls| - 1].at]
  }

  /** The limiter of the manager is that of the stretch, and decides as the theory of RateLimit says. */
  predicate Tracks(w: World, calls: seq<Call>) {
    && w.m.limiter == (if Ended(calls) then CLEARED else After(Times(calls)))
    && (calls != [] ==> calls[|calls| - 1].at <= w.clock.boot)
    && Decided(calls)
  }

  predicate Decided(calls: seq<Call>) {
    && Chronological(Times(calls))
    && forall i :: 0 <= i < |calls| ==> (calls[i].passed <==> Passes(Times(calls), i))
  }

  lemma OtherEventTracks(hmac: Codes.Hmac, w: World, e: Event, calls: seq<Call>)
    requires Tracks(w, calls) && !e.Reboot? && !(e.EnterCode? && w.m.enabled)
    ensures Tracks(Step(hmac, w, e), calls)
  {
    var w' := Step(hmac, w, e);
    assert w'.m.limiter == w.m.limiter && w'.clock.boot >= w.clock.boot;
  }

  lemma CallEffect(hmac: Codes.Hmac, w: World, text: string, times: seq<Seconds>)
    requires w.m.limiter == After(times) && w.m.enabled
    ensures var w', call := Step(hmac, w, EnterCode(text)), CallOf(hmac, w, text);
            && w'.m.limiter == (if call.accepted then CLEARED else After(times + [call.at]))
            && w'.clock == w.clock && call.at == w.clock.boot
            && (call.passed <==> !Refuses(After(times), call.at))
  {
    M.LimiterTracksAttempts(hmac, w.m, w.clock, text, times);
    if M.AddCode(hmac, w.m, w.clock, text).1.Failure? {
      M.RefusedCodeChangesOnlyHistory(hmac, w.m, w.clock, text);
    }
  }

  lemma TimesAppend(calls: seq<Call>, call: Call)
    ensures Times(calls + [call]) == Times(calls) + [call.at]
  {
    assert (calls + [call])[..|calls|] == calls;
  }

  /** One more call on a stretch that has not ended. */
  lemma CallTracks(hmac: Codes.Hmac, w: World, text: string, calls: seq<Call>)
    requires Tracks(w, calls) && !Ended(calls) && w.m.enabled
    ensures Tracks(Step(hmac, w, EnterCode(text)), calls + [CallOf(hmac, w, text)])
  {
    CallEffect(hmac, w, text, Times(calls));
    TracksOneMore(w, Step(hmac, w, EnterCode(text)), calls, CallOf(hmac, w, text));
  }

  lemma TracksOneMore(w: World, w': World, calls: seq<Call>, call: Call)
    requires Tracks(w, calls) && !Ended(calls)
    requires w'.m.limiter == if call.accepted then CLEARED else After(Times(calls) + [call.at])
    requires call.at == w.clock.boot == w'.clock.boot
    requires call.passed <==> !Refuses(After(Times(calls)), call.at)
    ensures Tracks(w', calls + [call])
  {
    var times := Times(calls);
    TimesAppend(calls, call);
    PassesAppend(calls, call);
    ChronologicalAppend(times, call.at);
    assert Ended(calls + [call]) <==> call.accepted;
    assert Times(calls + [call]) == times + [call.at];
  }

  lemma ChronologicalAppend(times: seq<Seconds>, next: Seconds)
    requires Chronological(times) && (times != [] ==> times[|times| - 1] <= next)
    ensures Chronological(times + [next])
  {
    forall i, j | 0 <= i <= j < |times| + 1
      ensures (times + [next])[i] <= (times + [next])[j]
    {
      if times != [] && i < |times| {
        assert times[i] <= times[|times| - 1];
      }
    }
  }

  lemma PassesAppend(calls: seq<Call>, call: Call)
    requires forall i :: 0 <= i < |calls| ==> (calls[i].passed <==> Passes(Times(calls), i))
    requires call.passed <==> !Refuses(After(Times(calls)), call.at)
    ensures var more := calls + [call];
            forall i :: 0 <= i < |more| ==> (more[i].passed <==> Passes(Times(more), i))
  {
    var more := calls + [call];
    TimesAppend(calls, call);
    forall i | 0 <= i < |more|
      ensures more[i].passed <==> Passes(Times(more), i)
    {
      assert Times(more)[..i] == Times(calls)[..i];
      assert i == |calls| ==> Times(calls)[..i] == Times(calls);
    }
  }

  lemma {:induction false} RunTracks(hmac: Codes.Hmac, w: World, es: seq<Event>)
    requires w.m.limiter == CLEARED
    ensures Tracks(Run(hmac, w, es), Stretch(hmac, w, es))
  {
    if es == [] {
    } else {
      var init, e := es[..|es| - 1], es[|es| - 1];
      RunTracks(hmac, w, init);
      var before, calls := Run(hmac, w, init), Stretch(hmac, w, init);
      if e.Reboot? {
      } else if e.EnterCode? && before.m.enabled {
        CallTracks(hmac, before, e.text, if Ended(calls) then [] else calls);
      } else {
        OtherEventTracks(hmac, before, e, calls);
      }
    }
  }

  /** The calls of a stretch in the closed interval that got past the limiter. */
  function PassedCalls(calls: seq<Call>, from: int, to: int): set<nat> {
    set i: nat | i < |calls| && calls[i].passed && from <= calls[i].at <= to :: i
  }

  /**
   * At any moment of any life of the machine: of the calls since the boot or the last
   * accepted code, that one included, at most ten get past the limiter in any closed
   * window of half an hour that starts half an hour after the boot or later.
   */
  lemma AtMostTenCallsPass(hmac: Codes.Hmac, w: World, es: seq<Event>, from: int)
    requires w.m.limiter == CLEARED && from >= 1800
    ensures |PassedCalls(Stretch(hmac, w, es), from, from + 1800)| <= 10
  {
    RunTracks(hmac, w, es);
    PassedCallsAreAttempts(Stretch(hmac, w, es), from, from + 1800);
    AtMostTenOf(Stretch(hmac, w, es), from);
  }

  lemma AtMostTenOf(calls: seq<Call>, from: int)
    requires Chronological(Times(calls)) && from >= 1800
    requires PassedCalls(calls, from, from + 1800) == PassedBetween(Times(calls), from, from + 1800)
    ensures |PassedCalls(calls, from, from + 1800)| <= 10
  {
    AtMostTenPassInAnyWindow(Times(calls), from);
  }

  lemma SpanOf(calls: seq<Call>, from: int, span: nat)
    requires Chronological(Times(calls)) && from >= 1800
    requires PassedCalls(calls, from, from + span) == PassedBetween(Times(calls), from, from + span)
    ensures |PassedCalls(calls, from, from + span)| <= 10 * Stretches(span)
  {
    PassesPerSpan(Times(calls), from, span);
  }

  lemma PassedCallsAreAttempts(calls: seq<Call>, from: int, to: int)
    requires Decided(calls)
    ensures PassedCalls(calls, from, to) == PassedBetween(Times(calls), from, to)
  {
  }

  /** Over any number of seconds: ten for each started stretch of 1801. */
  lemma CallsPassPerSpan(hmac: Codes.Hmac, w: World, es: seq<Event>, from: int, span: nat)
    requires w.m.limiter == CLEARED && from >= 1800
    ensures |PassedCalls(Stretch(hmac, w, es), from, from + span)| <= 10 * Stretches(span)
  {
    RunTracks(hmac, w, es);
    PassedCallsAreAttempts(Stretch(hmac, w, es), from, from + span);
    SpanOf(Stretch(hmac, w, es), from, span);
  }
}
