/**
 * What a shutdown that reports success is worth when some write has failed: it reports
 * the result of the internal save that finished last, which need not be the newest.
 */
module FailedWrites {
  import opened Wrappers
  import opened UsedCodes
  import opened Credit
  import opened ManagerState
  import MultiTask
  import opened ShutdownProtocol
  import Codes

  /** The write of a file by a save has succeeded. */
  predicate Wrote(save: Save, file: StateFile) {
    file !in save.left && file !in save.bad
  }

  /** The record of the newest save that has written a file. */
  function LastWritten(start: Record, saves: seq<Save>, file: StateFile): Record {
    if saves == [] then start
    else if Wrote(saves[|saves| - 1], file) then saves[|saves| - 1].record
    else LastWritten(start, saves[..|saves| - 1], file)
  }

  lemma {:induction false} LastWrittenIs(start: Record, saves: seq<Save>, file: StateFile, k: nat)
    requires k < |saves| && Wrote(saves[k], file)
    requires forall j :: k < j < |saves| ==> !Wrote(saves[j], file)
    ensures LastWritten(start, saves, file) == saves[k].record
  {
    if k == |saves| - 1 {
    } else {
      LastWrittenIs(start, saves[..|saves| - 1], file, k);
    }
  }

  lemma {:induction false} SameWritten(start: Record, saves: seq<Save>, saves': seq<Save>, file: StateFile)
    requires |saves| == |saves'|
    requires forall j :: 0 <= j < |saves| ==> saves[j].record == saves'[j].record && (Wrote(saves[j], file) <==> Wrote(saves'[j], file))
    ensures LastWritten(start, saves, file) == LastWritten(start, saves', file)
  {
    if saves == [] {
    } else {
      var n := |saves| - 1;
      assert forall j :: 0 <= j < n ==> saves[..n][j] == saves[j] && saves'[..n][j] == saves'[j];
      SameWritten(start, saves[..n], saves'[..n], file);
    }
  }

  /** Either nothing has written the file, or some save is the newest that has. */
  lemma {:induction false} LastWrittenFrom(start: Record, saves: seq<Save>, file: StateFile) returns (k: int)
    ensures -1 <= k < |saves|
    ensures forall j :: k < j < |saves| ==> !Wrote(saves[j], file)
    ensures LastWritten(start, saves, file) == if k == -1 then start else saves[k].record
    ensures k >= 0 ==> Wrote(saves[k], file)
  {
    if saves == [] {
      k := -1;
    } else if Wrote(saves[|saves| - 1], file) {
      k := |saves| - 1;
    } else {
      var init := saves[..|saves| - 1];
      k := LastWrittenFrom(start, init, file);
      assert forall j :: 0 <= j < |init| ==> init[j] == saves[j];
    }
  }

  // ----- The invariant -----

  /** Every file holds what the newest successful write put there. */
  predicate DiskWritten(start: Record, s: System) {
    forall file: StateFile :: OnDisk(s.disk, file, LastWritten(start, s.saves, file))
  }

  /** Lists only grow, and two of the same length are the same. */
  predicate NoLonger(a: seq<UsedCode>, b: seq<UsedCode>) {
    |a| <= |b| && (|a| == |b| ==> a == b)
  }

  predicate ListsGrow(s: System) {
    && (forall k :: 0 <= k < |s.saves| ==> NoLonger(s.saves[k].record.used, s.m.used))
    && (forall j, k :: 0 <= j < k < |s.saves| ==> NoLonger(s.saves[j].record.used, s.saves[k].record.used))
  }

  predicate FailuresReported(s: System) {
    forall k :: 0 <= k < |s.saves| ==>
      && s.saves[k].bad !! s.saves[k].left
      && (s.saves[k].bad != {} ==> s.saves[k].task.HadError())
  }

  /** A shutdown has reported success only after some save had written its list. */
  predicate SuccessWrote(s: System) {
    true in s.completions ==> exists k :: 0 <= k < |s.saves| && Wrote(s.saves[k], UsedCodesFile)
  }

  predicate WriteLog(start: Record, s: System) {
    DiskWritten(start, s) && ListsGrow(s) && FailuresReported(s) && SuccessWrote(s)
  }

  // ----- Calls -----

  lemma UsedGrows(hmac: Codes.Hmac, m: Manager, clock: Clock, text: string)
    ensures NoLonger(m.used, ManagerState.AddCode(hmac, m, clock, text).0.used)
  {
    var outcome := ManagerState.AddCode(hmac, m, clock, text).1;
    if outcome.Success? {
      var x := Entered(hmac, m.key, text).value;
      SortSorts(m.used + [x]);
      assert |multiset(Sort(m.used + [x]))| == |multiset(m.used + [x])|;
    }
  }

  lemma AppendedLog(start: Record, s: System, m: Manager, save: Save)
    requires WriteLog(start, s) && NoLonger(s.m.used, m.used)
    requires save.record.used == m.used && save.left == ALL_FILES && save.bad == {}
    ensures WriteLog(start, s.(m := m, saves := s.saves + [save]))
  {
    var t := s.(m := m, saves := s.saves + [save]);
    assert t.saves[..|s.saves|] == s.saves;
    forall file: StateFile
      ensures LastWritten(start, t.saves, file) == LastWritten(start, s.saves, file)
    {
      EveryFile(file);
    }
    if true in s.completions {
      var k :| 0 <= k < |s.saves| && Wrote(s.saves[k], UsedCodesFile);
      assert Wrote(t.saves[k], UsedCodesFile);
    }
  }

  lemma CallLog(start: Record, s: System, m: Manager, fx: Effects)
    requires WriteLog(start, s) && CallResult(s.m, m, fx) && NoLonger(s.m.used, m.used)
    ensures WriteLog(start, WithEffects(s, m, fx))
  {
    if fx.saved.Some? {
      AppendedLog(start, s, m, NewSave(fx.saved.value, true));
    }
  }

  lemma ShutDownLog(start: Record, s: System, clock: Clock)
    requires WriteLog(start, s)
    ensures WriteLog(start, ShutDownCalled(s, clock))
  {
    var m := s.m.(cancelled := true);
    if !s.m.cancelled && s.m.pendingSaves == 0 {
      AppendedLog(start, s, m, NewSave(RecordOf(m, clock), false));
    }
  }

  // ----- File operations -----

  lemma FileDoneWritten(start: Record, s: System, k: nat, file: StateFile, ok: bool, f: StateFile)
    requires DiskCurrent(s) && DiskWritten(start, s) && FailuresReported(s) && Possible(s, FileDone(k, file, ok))
    ensures var saves := s.saves[k := OperationDone(s.saves[k], file, ok)];
            OnDisk(if ok then Written(s.disk, file, s.saves[k].record) else s.disk, f, LastWritten(start, saves, f))
  {
    var saves := s.saves[k := OperationDone(s.saves[k], file, ok)];
    assert OnDisk(s.disk, f, LastWritten(start, s.saves, f));
    if f == file && ok {
      assert forall j :: k < j < |saves| ==> saves[j] == s.saves[j] && file in s.saves[j].left;
      LastWrittenIs(start, saves, file, k);
    } else {
      assert f == file ==> file in s.saves[k].left;
      SameWritten(start, s.saves, saves, f);
    }
  }

  lemma FileDoneLists(s: System, t: System, k: nat, file: StateFile, ok: bool)
    requires DiskCurrent(s) && ListsGrow(s) && FailuresReported(s) && SuccessWrote(s)
    requires Possible(s, FileDone(k, file, ok))
    requires t.m == s.m && t.completions == s.completions
    requires t.saves == s.saves[k := OperationDone(s.saves[k], file, ok)]
    ensures ListsGrow(t) && FailuresReported(t) && SuccessWrote(t)
  {
    assert forall j :: 0 <= j < |t.saves| ==> t.saves[j].record == s.saves[j].record;
    MultiTask.ReturnsKeepSound(s.saves[k].task, WriteFailed);
    if true in s.completions {
      var j :| 0 <= j < |s.saves| && Wrote(s.saves[j], UsedCodesFile);
      assert Wrote(t.saves[j], UsedCodesFile);
    }
  }

  lemma FileDoneLog(hmac: Codes.Hmac, start: Record, s: System, k: nat, file: StateFile, ok: bool)
    requires DiskCurrent(s) && WriteLog(start, s) && Possible(s, FileDone(k, file, ok))
    ensures WriteLog(start, Step(hmac, s, FileDone(k, file, ok)))
  {
    var t := Step(hmac, s, FileDone(k, file, ok));
    FileDoneLists(s, t, k, file, ok);
    forall f: StateFile
      ensures OnDisk(t.disk, f, LastWritten(start, t.saves, f))
    {
      FileDoneWritten(start, s, k, file, ok, f);
    }
  }

  // ----- Delivery -----

  /** A save that reports success has written everything. */
  lemma SuccessHasWritten(s: System, k: nat)
    requires DiskCurrent(s) && FailuresReported(s) && k < |s.saves|
    requires s.saves[k].task.returned != [] && s.saves[k].task.returned[0].Success?
    ensures forall file: StateFile :: Wrote(s.saves[k], file)
  {
    var save := s.saves[k];
    MultiTask.ErrorIsFirst(save.task);
    assert save.bad == {};
    assert |save.left| == 0;
  }

  /** A delivery touches no write. */
  predicate SameWrites(s: System, t: System) {
    && |t.saves| == |s.saves| && t.m.used == s.m.used && t.disk == s.disk
    && forall j :: 0 <= j < |t.saves| ==>
         && t.saves[j].record == s.saves[j].record && t.saves[j].task == s.saves[j].task
         && t.saves[j].left == s.saves[j].left && t.saves[j].bad == s.saves[j].bad
  }

  lemma DeliveredSameWrites(s: System, k: nat)
    requires Possible(s, Deliver(k))
    ensures SameWrites(s, Delivered(s, k))
    ensures true in Delivered(s, k).completions ==> true in s.completions || s.saves[k].task.returned[0].Success?
  {
  }

  lemma SameWritesLog(start: Record, s: System, t: System)
    requires DiskWritten(start, s) && ListsGrow(s) && FailuresReported(s) && SameWrites(s, t)
    ensures DiskWritten(start, t) && ListsGrow(t) && FailuresReported(t)
  {
    forall file: StateFile
      ensures LastWritten(start, t.saves, file) == LastWritten(start, s.saves, file)
    {
      SameWritten(start, s.saves, t.saves, file);
    }
  }

  lemma DeliveredLog(start: Record, s: System, k: nat)
    requires DiskCurrent(s) && WriteLog(start, s) && Possible(s, Deliver(k))
    ensures WriteLog(start, Delivered(s, k))
  {
    var t := Delivered(s, k);
    DeliveredSameWrites(s, k);
    SameWritesLog(start, s, t);
    if true in t.completions {
      var j := k;
      if true in s.completions {
        j :| 0 <= j < |s.saves| && Wrote(s.saves[j], UsedCodesFile);
      } else {
        SuccessHasWritten(s, k);
      }
      assert Wrote(t.saves[j], UsedCodesFile);
    }
  }

  // ----- Runs -----

  lemma StepLog(hmac: Codes.Hmac, start: Record, s: System, e: Event)
    requires DiskCurrent(s) && WriteLog(start, s)
    ensures WriteLog(start, Step(hmac, s, e))
  {
    if Possible(s, e) {
      match e
      case AddCode(clock, text) =>
        AddCodeResult(hmac, s.m, clock, text);
        UsedGrows(hmac, s.m, clock, text);
        var (m, _, fx) := ManagerState.AddCode(hmac, s.m, clock, text);
        CallLog(start, s, m, fx);
      case ClearCode(clock) =>
        OtherCallResults(s.m, clock, 0);
        var (m, _, fx) := ManagerState.ClearCode(s.m, clock);
        CallLog(start, s, m, fx);
      case ClockChanged(clock, delta) =>
        OtherCallResults(s.m, clock, delta);
        var (m, fx) := WallclockTimeChanged(s.m, clock, delta);
        CallLog(start, s, m, fx);
      case ShutDown(clock) => ShutDownLog(start, s, clock);
      case FileDone(k, file, ok) => FileDoneLog(hmac, start, s, k, file, ok);
      case Deliver(k) => DeliveredLog(start, s, k);
    }
  }

  lemma {:induction false} RunLog(hmac: Codes.Hmac, s: System, es: seq<Event>)
    requires Initialised(s)
    ensures WriteLog(s.disk, Run(hmac, s, es))
  {
    if es == [] {
    } else {
      var init := es[..|es| - 1];
      RunLog(hmac, s, init);
      RunKeepsInvariant(hmac, s, init);
      StepLog(hmac, s.disk, Run(hmac, s, init), es[|es| - 1]);
    }
  }

  /** Some save that holds the current list has written it. */
  predicate CurrentListWritten(s: System) {
    exists k :: 0 <= k < |s.saves| && s.saves[k].record.used == s.m.used && Wrote(s.saves[k], UsedCodesFile)
  }

  /** At any time and whatever has failed: the disk holds the current list if and only if it was written, or was there and nothing replaced it. */
  lemma ListOnDiskIff(hmac: Codes.Hmac, s: System, es: seq<Event>)
    requires Initialised(s)
    ensures var t := Run(hmac, s, es);
            t.disk.used == t.m.used <==>
              || CurrentListWritten(t)
              || (s.disk.used == t.m.used && forall k :: 0 <= k < |t.saves| ==> !Wrote(t.saves[k], UsedCodesFile))
  {
    RunLog(hmac, s, es);
    var t := Run(hmac, s, es);
    var k := LastWrittenFrom(s.disk, t.saves, UsedCodesFile);
    assert OnDisk(t.disk, UsedCodesFile, LastWritten(s.disk, t.saves, UsedCodesFile));
    if CurrentListWritten(t) {
      var j :| 0 <= j < |t.saves| && t.saves[j].record.used == t.m.used && Wrote(t.saves[j], UsedCodesFile);
      assert j <= k && NoLonger(t.saves[k].record.used, t.m.used);
    }
  }

  /**
   * Whatever has failed: after a shutdown that reported success, the disk holds the
   * current list if and only if some save started since the list last changed has
   * written its list.
   */
  lemma ReportedSuccessIff(hmac: Codes.Hmac, s: System, es: seq<Event>)
    requires Initialised(s) && Run(hmac, s, es).completions == [true]
    ensures var t := Run(hmac, s, es);
            t.disk.used == t.m.used <==> CurrentListWritten(t)
  {
    ListOnDiskIff(hmac, s, es);
    RunLog(hmac, s, es);
  }

  /** A shutdown that made a final save of its own never reports success in vain. */
  lemma FinalSaveIsEnough(hmac: Codes.Hmac, s: System, es: seq<Event>, k: nat)
    requires Initialised(s) && k < |Run(hmac, s, es).saves|
    requires var save := Run(hmac, s, es).saves[k];
             !save.internal && save.task.returned != [] && save.task.returned[0].Success?
    ensures Run(hmac, s, es).disk.used == Run(hmac, s, es).m.used
  {
    RunLog(hmac, s, es);
    RunKeepsInvariant(hmac, s, es);
    SuccessHasWritten(Run(hmac, s, es), k);
    ListOnDiskIff(hmac, s, es);
  }

  // ----- A success that is not one -----

  lemma ThreeEvents(hmac: Codes.Hmac, s: System, a: Event, b: Event, c: Event)
    ensures Run(hmac, s, [a, b, c]) == Step(hmac, Step(hmac, Step(hmac, s, a), b), c)
  {
    RunAppend(hmac, s, [], a);
    RunAppend(hmac, s, [a], b);
    RunAppend(hmac, s, [a, b], c);
    assert [] + [a] == [a] && [a] + [b] == [a, b] && [a, b] + [c] == [a, b, c];
  }

  lemma RunAppend(hmac: Codes.Hmac, s: System, es: seq<Event>, e: Event)
    ensures Run(hmac, s, es + [e]) == Step(hmac, Run(hmac, s, es), e)
  {
    assert (es + [e])[..|es|] == es;
  }

  const NEWER_FAILS: seq<Event> := [FileDone(0, UsedCodesFile, true), FileDone(1, UsedCodesFile, false), Deliver(1)]
  const OLDER_COMPLETES: seq<Event> := [FileDone(0, ClockTime, true), FileDone(0, ExpirySeconds, true), Deliver(0)]

  function Calls(clock: Clock, text: string): seq<Event> {
    [ClockChanged(clock, -1), Event.AddCode(clock, text), ShutDown(clock)]
  }

  /** Two saves in flight and a shutdown that waits for them. */
  predicate TwoInFlight(s: System, older: Record, newer: Record) {
    && s.saves == [NewSave(older, true), NewSave(newer, true)]
    && s.m.pendingSaves == 2 && s.m.pendingShutdown && s.m.cancelled && s.completions == []
    && s.m.used == newer.used
  }

  lemma AfterClockChange(hmac: Codes.Hmac, s: System, clock: Clock)
    requires Initialised(s)
    ensures var t := Step(hmac, s, ClockChanged(clock, -1));
            t.m == SaveStarted(s.m) && t.saves == [NewSave(RecordOf(t.m, clock), true)] && t.completions == []
  {
  }

  lemma AfterCode(hmac: Codes.Hmac, s: System, clock: Clock, text: string)
    requires ManagerState.AddCode(hmac, s.m, clock, text).1.Success?
    ensures var t := Step(hmac, s, Event.AddCode(clock, text));
            && t.saves == s.saves + [NewSave(RecordOf(t.m, clock), true)] && t.completions == s.completions
            && |t.m.used| == |s.m.used| + 1 && t.m.pendingSaves == s.m.pendingSaves + 1
            && t.m.cancelled == s.m.cancelled && t.m.pendingShutdown == s.m.pendingShutdown
  {
    var x := Entered(hmac, s.m.key, text).value;
    SortSorts(s.m.used + [x]);
    assert |multiset(Sort(s.m.used + [x]))| == |multiset(s.m.used + [x])|;
  }

  lemma SameAcceptance(hmac: Codes.Hmac, m: Manager, clock: Clock, text: string)
    ensures ManagerState.AddCode(hmac, SaveStarted(m), clock, text).1 == ManagerState.AddCode(hmac, m, clock, text).1
  {
  }

  lemma AfterCalls(hmac: Codes.Hmac, s: System, clock: Clock, text: string) returns (older: Record, newer: Record)
    requires Initialised(s) && ManagerState.AddCode(hmac, s.m, clock, text).1.Success?
    ensures TwoInFlight(Run(hmac, s, Calls(clock, text)), older, newer)
    ensures older.used == s.m.used && |newer.used| == |s.m.used| + 1
  {
    ThreeEvents(hmac, s, ClockChanged(clock, -1), Event.AddCode(clock, text), ShutDown(clock));
    var s1 := Step(hmac, s, ClockChanged(clock, -1));
    var s2 := Step(hmac, s1, Event.AddCode(clock, text));
    AfterClockChange(hmac, s, clock);
    SameAcceptance(hmac, s.m, clock, text);
    AfterCode(hmac, s1, clock, text);
    older, newer := RecordOf(s1.m, clock), RecordOf(s2.m, clock);
    AfterShutDown(hmac, s2, clock, older, newer);
  }

  lemma AfterShutDown(hmac: Codes.Hmac, s: System, clock: Clock, older: Record, newer: Record)
    requires s.saves == [NewSave(older, true), NewSave(newer, true)] && s.completions == []
    requires s.m.pendingSaves == 2 && !s.m.cancelled && s.m.used == newer.used
    ensures TwoInFlight(Step(hmac, s, ShutDown(clock)), older, newer)
  {
  }

  lemma AfterNewerFails(hmac: Codes.Hmac, s: System, older: Record, newer: Record)
    requires TwoInFlight(s, older, newer)
    ensures var t := Run(hmac, s, NEWER_FAILS);
            && t.m == s.m.(pendingSaves := 1) && t.completions == [] && t.disk.used == older.used
            && |t.saves| == 2 && !t.saves[0].delivered && t.saves[0].internal
            && t.saves[0].left == {ClockTime, ExpirySeconds} && t.saves[0].task == MultiTask.Task(2, [])
  {
    ThreeEvents(hmac, s, NEWER_FAILS[0], NEWER_FAILS[1], NEWER_FAILS[2]);
    var s1 := Step(hmac, s, NEWER_FAILS[0]);
    assert s1.saves[0].left == {ClockTime, ExpirySeconds};
    assert s1.saves[1] == s.saves[1];
    var s2 := Step(hmac, s1, NEWER_FAILS[1]);
    assert s2.saves[1].task.returned == [Failure(WriteFailed)];
  }

  lemma AfterOlderCompletes(hmac: Codes.Hmac, s: System)
    requires |s.saves| == 2 && !s.saves[0].delivered && s.saves[0].internal
    requires s.saves[0].left == {ClockTime, ExpirySeconds} && s.saves[0].task == MultiTask.Task(2, [])
    requires s.m.pendingSaves == 1 && s.m.pendingShutdown && s.completions == []
    ensures var t := Run(hmac, s, OLDER_COMPLETES);
            t.completions == [true] && t.disk.used == s.disk.used && t.m.used == s.m.used
  {
    ThreeEvents(hmac, s, OLDER_COMPLETES[0], OLDER_COMPLETES[1], OLDER_COMPLETES[2]);
    var s1 := Step(hmac, s, OLDER_COMPLETES[0]);
    assert s1.saves[0].left == {ExpirySeconds} && s1.saves[0].task == MultiTask.Task(1, []);
    var s2 := Step(hmac, s1, OLDER_COMPLETES[1]);
    assert s2.saves[0].task.returned == [Success(true)];
  }

  lemma {:induction false} RunSplit(hmac: Codes.Hmac, s: System, es: seq<Event>, more: seq<Event>)
    ensures Run(hmac, s, es + more) == Run(hmac, Run(hmac, s, es), more)
  {
    if more == [] {
      assert es + more == es;
    } else {
      var init := more[..|more| - 1];
      RunSplit(hmac, s, es, init);
      assert (es + more)[..|es + more| - 1] == es + init;
    }
  }

  /**
   * A clock change and then a code are saved; shutting down waits for both saves. The
   * write of the newer list fails, and that save is delivered first; then the older
   * save completes. The shutdown reports its success, and the code is not on the disk.
   */
  lemma SuccessWithoutTheCode(hmac: Codes.Hmac, s: System, clock: Clock, text: string)
    requires Initialised(s) && ManagerState.AddCode(hmac, s.m, clock, text).1.Success?
    ensures var t := Run(hmac, s, Calls(clock, text) + NEWER_FAILS + OLDER_COMPLETES);
            t.completions == [true] && t.disk.used == s.m.used && |t.m.used| == |s.m.used| + 1
  {
    var older, newer := AfterCalls(hmac, s, clock, text);
    var s1 := Run(hmac, s, Calls(clock, text));
    AfterNewerFails(hmac, s1, older, newer);
    AfterOlderCompletes(hmac, Run(hmac, s1, NEWER_FAILS));
    RunSplit(hmac, s, Calls(clock, text), NEWER_FAILS);
    RunSplit(hmac, s, Calls(clock, text) + NEWER_FAILS, OLDER_COMPLETES);
  }
}
