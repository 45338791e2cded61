/**
 * Saving and shutting down (libeos-payg/manager.c): saves overlap, each writes three
 * files through a task of its own, and a shutdown waits for the internal ones.
 * Writes to one file land in the order in which they were issued.
 */
module ShutdownProtocol {
  import opened Wrappers
  import opened Credit
  import opened ManagerState
  import opened MultiTask
  import Codes

  datatype SaveError = WriteFailed

  /** One call of epg_manager_save_state_async. */
  datatype Save = Save(
    record: Record,
    internal: bool,                  // counted by the manager, as opposed to the save of a shutdown
    left: set<StateFile>,            // operations that have not completed
    bad: set<StateFile>,             // operations that have failed
    task: Task<bool, SaveError>,
    delivered: bool)                 // its callback has run

  datatype System = System(
    m: Manager,
    saves: seq<Save>,                // every save since the object was created
    disk: Record,
    failed: bool,                    // some operation on a file has failed
    completions: seq<bool>)          // results of the shutdown task

  const ALL_FILES: set<StateFile> := {ClockTime, ExpirySeconds, UsedCodesFile}

  /** Four operations are pending, of which starting the other three is one. */
  function NewSave(r: Record, internal: bool): Save {
    Save(r, internal, ALL_FILES, {}, ReturnedValue(Attached(4), true), false)
  }

  datatype Event =
    | AddCode(clock: Clock, text: string)
    | ClearCode(clock: Clock)
    | ClockChanged(clock: Clock, delta: int)
    | ShutDown(clock: Clock)
    | FileDone(save: nat, file: StateFile, ok: bool)  // file_replace_cb or file_save_delete_cb
    | Deliver(save: nat)                         // internal_save_state_cb or shutdown_save_state_cb

  /** Deleting the file of used codes, when there are none, is one way to write it. */
  function Written(disk: Record, file: StateFile, r: Record): Record {
    match file
    case ClockTime => disk.(wall := r.wall)
    case ExpirySeconds => disk.(credit := r.credit)
    case UsedCodesFile => disk.(used := r.used)
  }

  predicate Possible(s: System, e: Event) {
    match e
    case FileDone(k, file, _) =>
      && k < |s.saves| && file in s.saves[k].left
      && forall j :: 0 <= j < k ==> file !in s.saves[j].left
    case Deliver(k) => k < |s.saves| && s.saves[k].task.returned != [] && !s.saves[k].delivered
    case _ => true
  }

  function WithEffects(s: System, m: Manager, fx: Effects): System {
    match fx.saved
    case Some(r) => s.(m := m, saves := s.saves + [NewSave(r, true)])
    case None => s.(m := m)
  }

  function ShutDownCalled(s: System, clock: Clock): System {
    var (m, action) := Shutdown(s.m, clock);
    match action
    case Rejected => s.(m := m)
    case FinalSave(r) => s.(m := m, saves := s.saves + [NewSave(r, false)])
    case Deferred => s.(m := m)
  }

  function OperationDone(save: Save, file: StateFile, ok: bool): Save {
    save.(left := save.left - {file},
          bad := if ok then save.bad else save.bad + {file},
          task := if ok then ReturnedValue(save.task, true) else ReturnedError(save.task, WriteFailed))
  }

  function Delivered(s: System, k: nat): System
    requires k < |s.saves| && s.saves[k].task.returned != []
  {
    var save := s.saves[k];
    var ok := save.task.returned[0].Success?;
    var s1 := s.(saves := s.saves[k := save.(delivered := true)]);
    if !save.internal then s1.(completions := s.completions + [ok])
    else
      var (m, completed) := InternalSaveDone(s.m, ok);
      match completed
      case Some(result) => s1.(m := m, completions := s.completions + [result])
      case None => s1.(m := m)
  }

  function Step(hmac: Codes.Hmac, s: System, e: Event): System {
    if !Possible(s, e) then s
    else
      match e
      case AddCode(clock, text) =>
        var (m, _, fx) := ManagerState.AddCode(hmac, s.m, clock, text);
        WithEffects(s, m, fx)
      case ClearCode(clock) =>
        var (m, _, fx) := ManagerState.ClearCode(s.m, clock);
        WithEffects(s, m, fx)
      case ClockChanged(clock, delta) =>
        var (m, fx) := WallclockTimeChanged(s.m, clock, delta);
        WithEffects(s, m, fx)
      case ShutDown(clock) => ShutDownCalled(s, clock)
      case FileDone(k, file, ok) =>
        s.(saves := s.saves[k := OperationDone(s.saves[k], file, ok)],
           disk := if ok then Written(s.disk, file, s.saves[k].record) else s.disk,
           failed := s.failed || !ok)
      case Deliver(k) => Delivered(s, k)
  }

  function Run(hmac: Codes.Hmac, s: System, es: seq<Event>): System {
    if es == [] then s else Step(hmac, Run(hmac, s, es[..|es| - 1]), es[|es| - 1])
  }

  /** The manager when its initialisation has succeeded: no save in flight, whatever the disk holds. */
  predicate Initialised(s: System) {
    && s.saves == [] && s.completions == [] && !s.failed
    && !s.m.cancelled && !s.m.pendingShutdown && s.m.pendingSaves == 0
  }

  // ----- Counting saves -----

  predicate InFlight(save: Save) {
    save.internal && !save.delivered
  }

  function CountInFlight(saves: seq<Save>): nat {
    if saves == [] then 0
    else CountInFlight(saves[..|saves| - 1]) + (if InFlight(saves[|saves| - 1]) then 1 else 0)
  }

  predicate FinalPending(save: Save) {
    !save.internal && !save.delivered
  }

  function CountFinal(saves: seq<Save>): nat {
    if saves == [] then 0
    else CountFinal(saves[..|saves| - 1]) + (if FinalPending(saves[|saves| - 1]) then 1 else 0)
  }

  lemma CountAppend(saves: seq<Save>, save: Save)
    ensures CountInFlight(saves + [save]) == CountInFlight(saves) + (if InFlight(save) then 1 else 0)
    ensures CountFinal(saves + [save]) == CountFinal(saves) + (if FinalPending(save) then 1 else 0)
  {
    assert (saves + [save])[..|saves|] == saves;
  }

  lemma {:induction false} CountUpdate(saves: seq<Save>, k: nat, save: Save)
    requires k < |saves|
    ensures CountInFlight(saves[k := save]) + (if InFlight(saves[k]) then 1 else 0) ==
            CountInFlight(saves) + (if InFlight(save) then 1 else 0)
    ensures CountFinal(saves[k := save]) + (if FinalPending(saves[k]) then 1 else 0) ==
            CountFinal(saves) + (if FinalPending(save) then 1 else 0)
  {
    var init := saves[..|saves| - 1];
    if k == |saves| - 1 {
      assert saves[k := save][..k] == init;
    } else {
      assert saves[k := save][..|saves| - 1] == init[k := save];
      CountUpdate(init, k, save);
    }
  }

  lemma {:induction false} NoneInFlight(saves: seq<Save>, k: nat)
    requires CountInFlight(saves) == 0 && k < |saves|
    ensures !InFlight(saves[k])
  {
    if k == |saves| - 1 {
    } else {
      NoneInFlight(saves[..|saves| - 1], k);
    }
  }

  // ----- The count and the completions -----

  /**
   * The counter is the number of internal saves in flight, and a shutdown that was
   * requested is in exactly one place: waiting for that count, waiting for its
   * own save, or completed.
   */
  predicate CountsMatch(s: System) {
    && s.m.pendingSaves == CountInFlight(s.saves)
    && (if s.m.cancelled then 1 else 0) ==
       (if s.m.pendingShutdown then 1 else 0) + CountFinal(s.saves) + |s.completions|
    && (s.m.pendingShutdown ==> s.m.pendingSaves > 0)
  }

  /** Every call that starts a save counts it, and saves the state it leaves behind. */
  predicate CallResult(m: Manager, m': Manager, fx: Effects) {
    && m'.cancelled == m.cancelled && m'.pendingShutdown == m.pendingShutdown
    && m'.pendingSaves == m.pendingSaves + (if fx.saved.Some? then 1 else 0)
    && (fx.saved.Some? ==> fx.saved.value.used == m'.used)
    && (m.cancelled || fx.saved.None? ==> m'.used == m.used)
  }

  lemma AddCodeResult(hmac: Codes.Hmac, m: Manager, clock: Clock, text: string)
    ensures var (m', _, fx) := ManagerState.AddCode(hmac, m, clock, text); CallResult(m, m', fx)
  {
  }

  lemma OtherCallResults(m: Manager, clock: Clock, delta: int)
    ensures var (m', _, fx) := ManagerState.ClearCode(m, clock); CallResult(m, m', fx)
    ensures var (m', fx) := WallclockTimeChanged(m, clock, delta); CallResult(m, m', fx)
  {
  }

  lemma CallCounts(s: System, m: Manager, fx: Effects)
    requires CountsMatch(s) && CallResult(s.m, m, fx)
    ensures CountsMatch(WithEffects(s, m, fx))
  {
    if fx.saved.Some? {
      CountAppend(s.saves, NewSave(fx.saved.value, true));
    }
  }

  lemma DeliveredCounts(s: System, k: nat)
    requires CountsMatch(s) && k < |s.saves| && s.saves[k].task.returned != [] && !s.saves[k].delivered
    ensures CountsMatch(Delivered(s, k))
  {
    CountUpdate(s.saves, k, s.saves[k].(delivered := true));
  }

  lemma ShutDownCounts(s: System, clock: Clock)
    requires CountsMatch(s)
    ensures CountsMatch(ShutDownCalled(s, clock))
  {
    CountAppend(s.saves, NewSave(RecordOf(s.m.(cancelled := true), clock), false));
  }

  lemma FileDoneCounts(hmac: Codes.Hmac, s: System, k: nat, file: StateFile, ok: bool)
    requires CountsMatch(s) && Possible(s, FileDone(k, file, ok))
    ensures CountsMatch(Step(hmac, s, FileDone(k, file, ok)))
  {
    CountUpdate(s.saves, k, OperationDone(s.saves[k], file, ok));
  }

  lemma StepCounts(hmac: Codes.Hmac, s: System, e: Event)
    requires CountsMatch(s)
    ensures CountsMatch(Step(hmac, s, e))
  {
    if Possible(s, e) {
      match e
      case AddCode(clock, text) =>
        AddCodeResult(hmac, s.m, clock, text);
        var (m, _, fx) := ManagerState.AddCode(hmac, s.m, clock, text);
        CallCounts(s, m, fx);
      case ClearCode(clock) =>
        OtherCallResults(s.m, clock, 0);
        var (m, _, fx) := ManagerState.ClearCode(s.m, clock);
        CallCounts(s, m, fx);
      case ClockChanged(clock, delta) =>
        OtherCallResults(s.m, clock, delta);
        var (m, fx) := WallclockTimeChanged(s.m, clock, delta);
        CallCounts(s, m, fx);
      case ShutDown(clock) => ShutDownCounts(s, clock);
      case FileDone(k, file, ok) => FileDoneCounts(hmac, s, k, file, ok);
      case Deliver(k) => DeliveredCounts(s, k);
    }
  }

  lemma {:induction false} RunCounts(hmac: Codes.Hmac, s: System, es: seq<Event>)
    requires Initialised(s)
    ensures CountsMatch(Run(hmac, s, es))
  {
    if es == [] {
    } else {
      RunCounts(hmac, s, es[..|es| - 1]);
      StepCounts(hmac, Run(hmac, s, es[..|es| - 1]), es[|es| - 1]);
    }
  }

  /**
   * For every interleaving of calls, file operations and callbacks: the counter is
   * the number of internal saves in flight; the shutdown task completes at most
   * once and only after a request; a deferred one has not completed as long as
   * the counter is positive; and once every save has been delivered, a requested
   * shutdown has completed exactly once.
   */
  lemma ShutdownCompletesExactlyOnce(hmac: Codes.Hmac, s: System, es: seq<Event>)
    requires Initialised(s)
    ensures var t := Run(hmac, s, es);
            && t.m.pendingSaves == CountInFlight(t.saves)
            && |t.completions| <= 1
            && (t.completions != [] ==> t.m.cancelled)
            && (t.m.pendingShutdown ==> t.completions == [] && t.m.pendingSaves > 0)
            && (t.m.cancelled && (forall k :: 0 <= k < |t.saves| ==> t.saves[k].delivered) ==>
                  |t.completions| == 1)
  {
    RunCounts(hmac, s, es);
    var t := Run(hmac, s, es);
    if forall k :: 0 <= k < |t.saves| ==> t.saves[k].delivered {
      AllDelivered(t.saves);
    }
  }

  lemma {:induction false} AllDelivered(saves: seq<Save>)
    requires forall k :: 0 <= k < |saves| ==> saves[k].delivered
    ensures CountInFlight(saves) == 0 && CountFinal(saves) == 0
  {
    if saves == [] {
    } else {
      AllDelivered(saves[..|saves| - 1]);
    }
  }

  /** After a shutdown was requested no code is accepted or cleared any more. */
  lemma {:induction false} NothingAcceptedAfterShutdown(hmac: Codes.Hmac, s: System, es: seq<Event>)
    requires s.m.cancelled
    ensures var t := Run(hmac, s, es);
            && t.m.cancelled && t.m.used == s.m.used
            && (forall clock, text :: ManagerState.AddCode(hmac, t.m, clock, text).1.Failure?)
            && (forall clock :: ManagerState.ClearCode(t.m, clock).1.Failure?)
  {
    if es == [] {
    } else {
      NothingAcceptedAfterShutdown(hmac, s, es[..|es| - 1]);
    }
  }

  // ----- The disk -----

  /** The task of a save: pending once for every operation that is left, and never successful early. */
  predicate SaveSound(save: Save, failed: bool) {
    && save.task.pending == |save.left|
    && Sound(save.task)
    && (save.delivered ==> save.task.returned != [])
    && (!failed ==> !save.task.HadError())
  }

  lemma NewSaveSound(r: Record, internal: bool, failed: bool)
    ensures SaveSound(NewSave(r, internal), failed)
  {
    assert |ALL_FILES| == 3;
  }

  lemma OperationDoneSound(save: Save, file: StateFile, ok: bool, failed: bool)
    requires SaveSound(save, failed) && file in save.left
    ensures SaveSound(OperationDone(save, file, ok), failed || !ok)
  {
    assert |save.left - {file}| == |save.left| - 1;
    ReturnsKeepSound(save.task, WriteFailed);
  }

  /** What a file holds after its writes landed: the record of the last save whose write landed. */
  predicate OnDisk(disk: Record, file: StateFile, r: Record) {
    match file
    case ClockTime => disk.wall == r.wall
    case ExpirySeconds => disk.credit == r.credit
    case UsedCodesFile => disk.used == r.used
  }

  predicate LastLanded(saves: seq<Save>, file: StateFile, k: nat)
    requires k < |saves|
  {
    file !in saves[k].left && forall j :: k < j < |saves| ==> file in saves[j].left
  }

  predicate DiskCurrent(s: System) {
    && (forall k :: 0 <= k < |s.saves| ==> SaveSound(s.saves[k], s.failed))
    && (forall file: StateFile, j, k :: 0 <= j < k < |s.saves| && file in s.saves[j].left ==> file in s.saves[k].left)
    && (!s.failed ==>
          forall file: StateFile, k :: 0 <= k < |s.saves| && LastLanded(s.saves, file, k) ==> OnDisk(s.disk, file, s.saves[k].record))
  }

  lemma AppendDisk(s: System, m: Manager, save: Save)
    requires DiskCurrent(s) && SaveSound(save, s.failed) && save.left == ALL_FILES
    ensures DiskCurrent(s.(m := m, saves := s.saves + [save]))
  {
    var saves := s.saves + [save];
    forall file: StateFile
      ensures file in save.left
    {
      EveryFile(file);
    }
    forall file: StateFile, k | 0 <= k < |saves| && LastLanded(saves, file, k)
      ensures k < |s.saves| && LastLanded(s.saves, file, k)
    {
      assert forall j :: k < j < |s.saves| ==> saves[j] == s.saves[j];
    }
  }

  lemma EveryFile(file: StateFile)
    ensures file in ALL_FILES
  {
    match file
    case ClockTime =>
    case ExpirySeconds =>
    case UsedCodesFile =>
  }

  lemma FileDoneDisk(s: System, k: nat, file: StateFile, ok: bool)
    requires DiskCurrent(s) && Possible(s, FileDone(k, file, ok))
    ensures DiskCurrent(s.(saves := s.saves[k := OperationDone(s.saves[k], file, ok)],
                           disk := if ok then Written(s.disk, file, s.saves[k].record) else s.disk,
                           failed := s.failed || !ok))
  {
    OperationDoneSound(s.saves[k], file, ok, s.failed);
    var t := s.(saves := s.saves[k := OperationDone(s.saves[k], file, ok)],
                disk := if ok then Written(s.disk, file, s.saves[k].record) else s.disk,
                failed := s.failed || !ok);
    if !t.failed {
      forall f: StateFile, i | 0 <= i < |t.saves| && LastLanded(t.saves, f, i)
        ensures OnDisk(t.disk, f, t.saves[i].record)
      {
        if f == file {
          LandsInOrder(s, k, file, ok, i);
        } else {
          assert forall j :: 0 <= j < |s.saves| ==> (f in s.saves[j].left <==> f in t.saves[j].left);
          assert LastLanded(s.saves, f, i);
        }
      }
    }
  }

  /** The write that lands now is the last one that has landed. */
  lemma LandsInOrder(s: System, k: nat, file: StateFile, ok: bool, i: nat)
    requires DiskCurrent(s) && Possible(s, FileDone(k, file, ok))
    requires i < |s.saves| && LastLanded(s.saves[k := OperationDone(s.saves[k], file, ok)], file, i)
    ensures i == k
  {
    var saves := s.saves[k := OperationDone(s.saves[k], file, ok)];
    forall j | k < j < |saves|
      ensures file in saves[j].left
    {
      assert file in s.saves[k].left && saves[j] == s.saves[j];
    }
    assert file !in saves[k].left;
  }

  // ----- The used codes on disk -----

  predicate UsedFresh(s: System) {
    && (s.saves != [] ==> s.saves[|s.saves| - 1].record.used == s.m.used)
    && (forall j, k :: 0 <= j <= k < |s.saves| && !s.saves[j].internal ==>
          s.saves[k].record.used == s.m.used && s.m.cancelled)
  }

  /** Once a shutdown has stopped waiting, no older list can reach the disk any more. */
  predicate UsedSafe(s: System) {
    !s.failed ==>
      && (s.m.cancelled && !s.m.pendingShutdown ==>
            forall k :: 0 <= k < |s.saves| && UsedCodesFile in s.saves[k].left ==> s.saves[k].record.used == s.m.used)
      && (s.completions != [] ==> s.disk.used == s.m.used && s.completions == [true])
  }

  predicate Invariant(s: System) {
    CountsMatch(s) && DiskCurrent(s) && UsedFresh(s) && UsedSafe(s)
  }

  lemma DeliveredHasLanded(s: System, k: nat)
    requires DiskCurrent(s) && !s.failed && k < |s.saves| && s.saves[k].task.returned != []
    ensures s.saves[k].left == {} && s.saves[k].task.returned[0].Success?
  {
    ErrorIsFirst(s.saves[k].task);
    assert |s.saves[k].left| == 0;
  }

  lemma {:induction false} NoFinalPending(saves: seq<Save>, k: nat)
    requires CountFinal(saves) == 0 && k < |saves|
    ensures !FinalPending(saves[k])
  {
    if k == |saves| - 1 {
    } else {
      NoFinalPending(saves[..|saves| - 1], k);
    }
  }

  /** When no save is in flight at all, everything has landed. */
  lemma EverythingLanded(s: System)
    requires DiskCurrent(s) && !s.failed && CountInFlight(s.saves) == 0 && CountFinal(s.saves) == 0
    ensures forall k :: 0 <= k < |s.saves| ==> s.saves[k].left == {}
    ensures s.saves != [] ==> s.disk == s.saves[|s.saves| - 1].record
  {
    forall k | 0 <= k < |s.saves|
      ensures s.saves[k].left == {}
    {
      NoneInFlight(s.saves, k);
      NoFinalPending(s.saves, k);
      DeliveredHasLanded(s, k);
    }
    if s.saves != [] {
      var last := |s.saves| - 1;
      assert LastLanded(s.saves, ClockTime, last);
      assert LastLanded(s.saves, ExpirySeconds, last);
      assert LastLanded(s.saves, UsedCodesFile, last);
    }
  }

  lemma LastLandedFrom(saves: seq<Save>, file: StateFile, k: nat) returns (i: nat)
    requires k < |saves| && file !in saves[k].left
    ensures k <= i < |saves| && LastLanded(saves, file, i)
    decreases |saves| - k
  {
    if j :| k < j < |saves| && file !in saves[j].left {
      i := LastLandedFrom(saves, file, j);
    } else {
      i := k;
    }
  }

  lemma CallKeeps(s: System, m: Manager, fx: Effects)
    requires Invariant(s) && CallResult(s.m, m, fx)
    ensures Invariant(WithEffects(s, m, fx))
  {
    CallCounts(s, m, fx);
    CallDisk(s, m, fx);
    CallUsedFresh(s, m, fx);
    CallUsedSafe(s, m, fx);
  }

  lemma CallDisk(s: System, m: Manager, fx: Effects)
    requires DiskCurrent(s)
    ensures DiskCurrent(WithEffects(s, m, fx))
  {
    if fx.saved.Some? {
      NewSaveSound(fx.saved.value, true, s.failed);
      AppendDisk(s, m, NewSave(fx.saved.value, true));
    }
  }

  lemma CallUsedFresh(s: System, m: Manager, fx: Effects)
    requires UsedFresh(s) && CallResult(s.m, m, fx)
    ensures UsedFresh(WithEffects(s, m, fx))
  {
  }

  lemma CallUsedSafe(s: System, m: Manager, fx: Effects)
    requires CountsMatch(s) && UsedSafe(s) && CallResult(s.m, m, fx)
    ensures UsedSafe(WithEffects(s, m, fx))
  {
    assert s.completions != [] ==> s.m.cancelled;
  }

  lemma ShutDownKeeps(s: System, clock: Clock)
    requires Invariant(s)
    ensures Invariant(ShutDownCalled(s, clock))
  {
    if !s.m.cancelled {
      if s.m.pendingSaves == 0 {
        FinalSaveKeeps(s, clock);
      } else {
        assert |s.completions| == 0;
      }
    }
  }

  lemma FinalSaveKeeps(s: System, clock: Clock)
    requires Invariant(s) && !s.m.cancelled && s.m.pendingSaves == 0
    ensures Invariant(ShutDownCalled(s, clock))
  {
    var m := s.m.(cancelled := true);
    var save := NewSave(RecordOf(m, clock), false);
    CountAppend(s.saves, save);
    NewSaveSound(save.record, false, s.failed);
    AppendDisk(s, m, save);
    FinalSaveUsed(s, clock);
  }

  lemma FinalSaveUsed(s: System, clock: Clock)
    requires Invariant(s) && !s.m.cancelled && s.m.pendingSaves == 0
    ensures UsedFresh(ShutDownCalled(s, clock)) && UsedSafe(ShutDownCalled(s, clock))
  {
    assert s.completions == [];
    if !s.failed {
      EverythingLanded(s);
    }
  }

  lemma FileDoneUsed(s: System, t: System, k: nat, file: StateFile, ok: bool)
    requires Invariant(s) && Possible(s, FileDone(k, file, ok))
    requires t == s.(saves := s.saves[k := OperationDone(s.saves[k], file, ok)],
                     disk := if ok then Written(s.disk, file, s.saves[k].record) else s.disk,
                     failed := s.failed || !ok)
    ensures UsedFresh(t) && UsedSafe(t)
  {
    assert forall j :: 0 <= j < |t.saves| ==>
        t.saves[j].record == s.saves[j].record && t.saves[j].internal == s.saves[j].internal
        && t.saves[j].left <= s.saves[j].left;
  }

  lemma FileDoneKeeps(hmac: Codes.Hmac, s: System, k: nat, file: StateFile, ok: bool)
    requires Invariant(s) && Possible(s, FileDone(k, file, ok))
    ensures Invariant(Step(hmac, s, FileDone(k, file, ok)))
  {
    CountUpdate(s.saves, k, OperationDone(s.saves[k], file, ok));
    FileDoneDisk(s, k, file, ok);
    FileDoneUsed(s, Step(hmac, s, FileDone(k, file, ok)), k, file, ok);
  }

  lemma DeliverDisk(s: System, k: nat)
    requires DiskCurrent(s) && Possible(s, Deliver(k))
    ensures DiskCurrent(Delivered(s, k))
  {
    var t := Delivered(s, k);
    assert forall j :: 0 <= j < |s.saves| ==> t.saves[j].left == s.saves[j].left && t.saves[j].record == s.saves[j].record;
    forall file: StateFile, i | 0 <= i < |t.saves| && LastLanded(t.saves, file, i)
      ensures LastLanded(s.saves, file, i)
    {
    }
  }

  lemma DeliverUsed(s: System, k: nat)
    requires Invariant(s) && Possible(s, Deliver(k)) && !s.failed
    requires CountsMatch(Delivered(s, k)) && DiskCurrent(Delivered(s, k))
    ensures UsedSafe(Delivered(s, k))
  {
    var t := Delivered(s, k);
    DeliveredHasLanded(s, k);
    if !s.saves[k].internal {
      var i := LastLandedFrom(s.saves, UsedCodesFile, k);
    } else if t.completions != s.completions {
      EverythingLanded(t);
    }
  }

  lemma DeliverKeeps(s: System, k: nat)
    requires Invariant(s) && Possible(s, Deliver(k))
    ensures Invariant(Delivered(s, k))
  {
    DeliveredCounts(s, k);
    DeliverDisk(s, k);
    if !s.failed {
      DeliverUsed(s, k);
    }
  }

  lemma StepKeepsInvariant(hmac: Codes.Hmac, s: System, e: Event)
    requires Invariant(s)
    ensures Invariant(Step(hmac, s, e))
  {
    if Possible(s, e) {
      match e
      case AddCode(clock, text) =>
        AddCodeResult(hmac, s.m, clock, text);
        var (m, _, fx) := ManagerState.AddCode(hmac, s.m, clock, text);
        CallKeeps(s, m, fx);
      case ClearCode(clock) =>
        OtherCallResults(s.m, clock, 0);
        var (m, _, fx) := ManagerState.ClearCode(s.m, clock);
        CallKeeps(s, m, fx);
      case ClockChanged(clock, delta) =>
        OtherCallResults(s.m, clock, delta);
        var (m, fx) := WallclockTimeChanged(s.m, clock, delta);
        CallKeeps(s, m, fx);
      case ShutDown(clock) => ShutDownKeeps(s, clock);
      case FileDone(k, file, ok) => FileDoneKeeps(hmac, s, k, file, ok);
      case Deliver(k) => DeliverKeeps(s, k);
    }
  }

  lemma {:induction false} RunKeepsInvariant(hmac: Codes.Hmac, s: System, es: seq<Event>)
    requires Initialised(s)
    ensures Invariant(Run(hmac, s, es))
  {
    if es == [] {
    } else {
      RunKeepsInvariant(hmac, s, es[..|es| - 1]);
      StepKeepsInvariant(hmac, Run(hmac, s, es[..|es| - 1]), es[|es| - 1]);
    }
  }

  /**
   * If no file operation failed, a completed shutdown has succeeded and the list of
   * used codes on disk is the one in memory, for every interleaving and even if
   * clock changes are still reported during and after the shutdown. Once all
   * saves are delivered, all three files come from the last save.
   */
  lemma CleanShutdownKeepsUsedCodes(hmac: Codes.Hmac, s: System, es: seq<Event>)
    requires Initialised(s)
    ensures var t := Run(hmac, s, es);
            !t.failed && t.completions != [] ==>
              && t.completions == [true]
              && t.disk.used == t.m.used
              && (t.saves != [] && (forall k :: 0 <= k < |t.saves| ==> t.saves[k].delivered) ==>
                    t.disk == t.saves[|t.saves| - 1].record)
  {
    RunKeepsInvariant(hmac, s, es);
    var t := Run(hmac, s, es);
    if !t.failed && forall k :: 0 <= k < |t.saves| ==> t.saves[k].delivered {
      AllDelivered(t.saves);
      EverythingLanded(t);
    }
  }

  // ----- What is saved -----

  function ClockOf(e: Event): Clock {
    match e
    case AddCode(clock, _) => clock
    case ClearCode(clock) => clock
    case ClockChanged(clock, _) => clock
    case ShutDown(clock) => clock
    case _ => Clock(0, 0)
  }

  /** The record holds the clocks, the credit and the list of a moment, in plain terms. */
  predicate Snapshot(r: Record, m: Manager, clock: Clock) {
    && r.wall == clock.wall && r.used == m.used
    && (clock.boot <= m.expiry ==> clock.boot + r.credit == m.expiry)
    && (clock.boot > m.expiry ==> r.credit == 0)
  }

  /** Every save that an event starts is a snapshot of the state it leaves behind, still has its three files to write, and is counted unless it is that of a shutdown. */
  lemma SavesAreSnapshots(hmac: Codes.Hmac, s: System, e: Event)
    ensures var t := Step(hmac, s, e);
            || |t.saves| == |s.saves|
            || (&& |t.saves| == |s.saves| + 1 && t.saves[..|s.saves|] == s.saves
                && var save := t.saves[|s.saves|];
                   && Snapshot(save.record, t.m, ClockOf(e))
                   && save.left == {ClockTime, ExpirySeconds, UsedCodesFile} && save.bad == {} && !save.delivered
                   && (save.internal <==> !e.ShutDown?))
  {
    if Possible(s, e) {
      match e
      case AddCode(clock, text) => AddCodeSnapshot(hmac, s, clock, text);
      case ClearCode(clock) => SaveIsExact(ManagerState.ClearCode(s.m, clock).0, clock);
      case ClockChanged(clock, delta) => SaveIsExact(WallclockTimeChanged(s.m, clock, delta).0, clock);
      case ShutDown(clock) => SaveIsExact(Shutdown(s.m, clock).0, clock);
      case _ =>
    }
  }

  lemma AddCodeSnapshot(hmac: Codes.Hmac, s: System, clock: Clock, text: string)
    ensures var (m, _, fx) := ManagerState.AddCode(hmac, s.m, clock, text);
            fx.saved.Some? ==> Snapshot(fx.saved.value, m, clock)
  {
    SaveIsExact(ManagerState.AddCode(hmac, s.m, clock, text).0, clock);
  }
}
