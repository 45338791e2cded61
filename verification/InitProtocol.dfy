/**
 * Asynchronous initialisation of libeos-payg/manager.c: four files are read at once,
 * the callbacks start further reads, deletions and saves, and everything is
 * counted by one task. Callbacks run one at a time, in any order.
 */
module InitProtocol {
  import opened Integers
  import opened Wrappers
  import opened UsedCodes
  import opened Credit
  import opened ManagerState
  import opened MultiTask
  import RateLimit
  import Codes

  datatype Operation = Load(file: File) | Delete(file: File) | SaveState

  datatype ReadResult = NotFound | Unreadable | Contents(data: seq<byte>)

  /** The contents of every file; a read returns what the file held when it was started. */
  type Files = File -> ReadResult

  datatype InitError = AlreadyFailed | ReadFailed | InvalidData | DeleteFailed | SaveFailed

  datatype Loading = Loading(
    m: Manager,
    accountId: seq<byte>,
    lastSaveTime: Option<uint64>,
    lastSaveExpiry: Option<uint64>,
    task: Task<bool, InitError>,
    dataError: bool,                   // the task data: an error kept for the deletion callbacks
    outstanding: multiset<Operation>,
    malformed: nat,                    // malformed files seen so far
    failed: bool,                      // some operation has failed
    expiryReadAt: Option<Clock>)       // when the callback for the expiry file ran

  // ----- The pieces of the callbacks -----

  function Data(result: ReadResult): seq<byte> {
    if result.Contents? then result.data else []
  }

  /** Counts one more operation and starts it. */
  function Launched(s: Loading, op: Operation): Loading {
    s.(task := Incremented(s.task), outstanding := s.outstanding + multiset{op})
  }

  function Finished(s: Loading): Loading {
    s.(task := ReturnedValue(s.task, true))
  }

  function Failed(s: Loading, error: InitError): Loading {
    s.(task := ReturnedError(s.task, error))
  }

  /** A malformed file is deleted. The callback that saw it does not return its own count. */
  function SeenMalformed(s: Loading, file: File): Loading {
    Launched(s, Delete(file)).(dataError := true, malformed := s.malformed + 1)
  }

  /** set_expiry_time with the init task: a change is saved, and the save is counted too. */
  function WithInitialExpiry(s: Loading, clock: Clock, span: uint64): Loading {
    var m := WithExpiry(s.m, clock, clock.boot, span);
    if NotifiesExpiry(s.m, m) then Launched(s.(m := SaveStarted(m)), SaveState)
    else s.(m := m)
  }

  /** Once both numbers are known, the expiry time follows from them. */
  function Deduced(s: Loading, clock: Clock): Loading {
    if s.lastSaveTime.Some? && s.lastSaveExpiry.Some? then
      WithInitialExpiry(s, clock, ReloadedCredit(s.lastSaveExpiry.value, s.lastSaveTime.value, clock.wall))
    else s
  }

  function ClockTimeLoaded(s: Loading, result: ReadResult, clock: Clock): Loading {
    var op := Load(if result.NotFound? then ExpiryTime else ExpirySeconds);
    ClockTimeKnown(Launched(s, op), Data(result), clock)
  }

  function ClockTimeKnown(s: Loading, data: seq<byte>, clock: Clock): Loading {
    if data == [] then Finished(Deduced(s, clock))
    else if |data| != 8 then SeenMalformed(s, ClockTime)
    else Finished(Deduced(s.(lastSaveTime := Some(DecodeUint64(data))), clock))
  }

  function ExpiryTimeLoaded(s: Loading, result: ReadResult, clock: Clock): Loading {
    var data := Data(result);
    if data == [] then Finished(WithInitialExpiry(s, clock, 0))
    else if |data| != 8 then SeenMalformed(s, ExpiryTime)
    else ExpiryTimeConverted(s, DecodeUint64(data), clock)
  }

  function ExpiryTimeConverted(s: Loading, wallExpiry: uint64, clock: Clock): Loading {
    Finished(Launched(WithInitialExpiry(s, clock, LegacyCredit(wallExpiry, clock.wall)), Delete(ExpiryTime)))
  }

  function ExpirySecondsLoaded(s: Loading, result: ReadResult, clock: Clock): Loading {
    var data := Data(result);
    if data == [] then Finished(Deduced(WithInitialExpiry(s, clock, 0), clock))
    else if |data| != 8 then SeenMalformed(s, ExpirySeconds)
    else Finished(Deduced(s.(lastSaveExpiry := Some(DecodeUint64(data))), clock))
  }

  function UsedCodesLoaded(s: Loading, result: ReadResult): Loading {
    var data := Data(result);
    if data == [] then Finished(s.(m := s.m.(used := [])))
    else
      match Decode(data)
      case Failure(_) => SeenMalformed(s, UsedCodesFile)
      case Success(used) => Finished(s.(m := s.m.(used := used)))
  }

  /** A missing key disables the provider; a key of zeros stands in. */
  function KeyLoaded(s: Loading, result: ReadResult): Loading {
    if result.NotFound? then
      Finished(s.(m := s.m.(enabled := false, key := seq(Codes.KEY_LENGTH_BYTES_MINIMUM, _ => 0))))
    else
      Finished(s.(m := s.m.(key := Data(result))))
  }

  function AccountIdLoaded(s: Loading, result: ReadResult): Loading {
    if result.NotFound? then Finished(s) else Finished(s.(accountId := CString(Data(result))))
  }

  /** The bytes that a C string copied from the data has: those before the first zero. */
  function CString(data: seq<byte>): seq<byte> {
    if data == [] || data[0] == 0 then [] else [data[0]] + CString(data[1..])
  }

  lemma {:induction false} CStringIsPrefix(data: seq<byte>)
    ensures var s := CString(data);
            && s <= data && 0 !in s
            && (|s| < |data| ==> data[|s|] == 0)
  {
    if data == [] || data[0] == 0 {
    } else {
      CStringIsPrefix(data[1..]);
    }
  }

  /** file_load_cb. */
  function FileLoaded(s: Loading, file: File, result: ReadResult, clock: Clock): Loading {
    var s0 := s.(outstanding := s.outstanding - multiset{Load(file)}, failed := s.failed || result.Unreadable?);
    if s.task.HadError() then Failed(s0, AlreadyFailed)
    else if result.Unreadable? then Failed(s0, ReadFailed)
    else FileRead(s0, file, result, clock)
  }

  function FileRead(s: Loading, file: File, result: ReadResult, clock: Clock): Loading {
    match file
    case ClockTime => ClockTimeLoaded(s, result, clock)
    case ExpiryTime => ExpiryTimeLoaded(s.(expiryReadAt := Some(clock)), result, clock)
    case ExpirySeconds => ExpirySecondsLoaded(s.(expiryReadAt := Some(clock)), result, clock)
    case UsedCodesFile => UsedCodesLoaded(s, result)
    case KeyFile => KeyLoaded(s, result)
    case AccountIdFile => AccountIdLoaded(s, result)
  }

  /** file_load_delete_cb; a file that is already gone counts as deleted. */
  function FileDeleted(s: Loading, file: File, ok: bool): Loading {
    var s0 := s.(outstanding := s.outstanding - multiset{Delete(file)}, failed := s.failed || !ok);
    if s.dataError then Failed(s0, InvalidData)
    else if !ok then Failed(s0, DeleteFailed)
    else Finished(s0)
  }

  /** internal_save_state_cb with the init task. */
  function StateSaved(s: Loading, ok: bool): Loading {
    var s0 := s.(outstanding := s.outstanding - multiset{SaveState}, failed := s.failed || !ok,
                 m := InternalSaveDone(s.m, ok).0);
    if ok then Finished(s0) else Failed(s0, SaveFailed)
  }

  // ----- Runs -----

  /** epg_manager_init_async on a new object: five operations, of which starting the loads is one. */
  function Started(enabled: bool): Loading {
    Loading(Manager(enabled, false, [], 0, None, [], RateLimit.CLEARED, 0, false), [], None, None,
            ReturnedValue(Attached(5), true), false,
            multiset{Load(ClockTime), Load(UsedCodesFile), Load(KeyFile), Load(AccountIdFile)}, 0, false, None)
  }

  datatype Callback = OnLoad(file: File, clock: Clock) | OnDelete(file: File, ok: bool) | OnSave(ok: bool)

  function OperationOf(c: Callback): Operation {
    match c
    case OnLoad(file, _) => Load(file)
    case OnDelete(file, _) => Delete(file)
    case OnSave(_) => SaveState
  }

  function Step(files: Files, s: Loading, c: Callback): Loading {
    match c
    case OnLoad(file, clock) => FileLoaded(s, file, files(file), clock)
    case OnDelete(file, ok) => FileDeleted(s, file, ok)
    case OnSave(ok) => StateSaved(s, ok)
  }

  function Run(files: Files, enabled: bool, cs: seq<Callback>): Loading {
    if cs == [] then Started(enabled)
    else Step(files, Run(files, enabled, cs[..|cs| - 1]), cs[|cs| - 1])
  }

  /** Every callback belongs to an operation that is outstanding when it runs. */
  predicate Schedule(files: Files, enabled: bool, cs: seq<Callback>) {
    cs != [] ==>
      && Schedule(files, enabled, cs[..|cs| - 1])
      && OperationOf(cs[|cs| - 1]) in Run(files, enabled, cs[..|cs| - 1]).outstanding
  }

  // ----- The count -----

  /** Every operation that is running is counted, and so is every malformed file seen; `own` is the callback's own count. */
  predicate Counted(s: Loading, own: nat) {
    s.task.pending == |s.outstanding| + s.malformed + own && Sound(s.task)
  }

  /** How many callbacks an operation can still lead to. */
  function WeightOf(op: Operation): nat {
    match op
    case Load(file) =>
      (match file
       case ClockTime => 6
       case ExpiryTime => 3
       case ExpirySeconds => 3
       case UsedCodesFile => 2
       case _ => 1)
    case _ => 1
  }

  function Weight(o: multiset<Operation>): nat {
    6 * o[Load(ClockTime)] + 3 * o[Load(ExpiryTime)] + 3 * o[Load(ExpirySeconds)] + 2 * o[Load(UsedCodesFile)] +
    o[Load(KeyFile)] + o[Load(AccountIdFile)] + o[SaveState] + Deletions(o)
  }

  function Deletions(o: multiset<Operation>): nat {
    o[Delete(ClockTime)] + o[Delete(ExpiryTime)] + o[Delete(ExpirySeconds)] + o[Delete(UsedCodesFile)] +
    o[Delete(KeyFile)] + o[Delete(AccountIdFile)]
  }

  lemma WeightAdds(o: multiset<Operation>, op: Operation)
    ensures Weight(o + multiset{op}) == Weight(o) + WeightOf(op)
    ensures op in o ==> Weight(o - multiset{op}) == Weight(o) - WeightOf(op)
    ensures Deletions(o + multiset{op}) == Deletions(o) + (if op.Delete? then 1 else 0)
    ensures op in o && !op.Delete? ==> Deletions(o - multiset{op}) == Deletions(o)
  {
    var one := multiset{op};
    assert forall k :: (o + one)[k] == o[k] + one[k];
    if op in o {
      assert forall k :: (o - one)[k] == o[k] - one[k];
    }
    OneWeighs(op);
  }

  lemma OneWeighs(op: Operation)
    ensures Weight(multiset{op}) == WeightOf(op)
    ensures Deletions(multiset{op}) == if op.Delete? then 1 else 0
  {
    match op
    case Load(_) =>
    case Delete(file) => EachDeletion(file);
    case SaveState =>
  }

  lemma EachDeletion(file: File)
    ensures Deletions(multiset{Delete(file)}) == 1
  {
    match file
    case ClockTime =>
    case ExpirySeconds =>
    case ExpiryTime =>
    case UsedCodesFile =>
    case KeyFile =>
    case AccountIdFile =>
  }

  const BUDGET: nat := 24

  predicate Invariant(s: Loading) {
    && Counted(s, 0)
    && |s.outstanding| + s.malformed + 2 * Weight(s.outstanding) <= BUDGET
    && Errors(s)
    && s.m.pendingSaves == s.outstanding[SaveState]
    && Untouched(s.m)
  }

  /** What loading never changes. */
  predicate Untouched(m: Manager) {
    !m.pendingShutdown && !m.cancelled && m.limiter == RateLimit.CLEARED
  }

  predicate Errors(s: Loading) {
    && (s.dataError <==> s.malformed > 0)
    && (s.dataError ==> s.task.HadError() || Deletions(s.outstanding) > 0)
    && (s.failed ==> s.task.HadError())
    && (s.task.HadError() ==> s.failed || s.dataError)
  }

  /** What holds between the pieces of one callback that started with less than `weight` to spare. */
  predicate Midway(s: Loading, s0: Loading, launched: nat, weight: nat) {
    && Counted(s, 1)
    && Errors(s)
    && |s.outstanding| == |s0.outstanding| + launched
    && s.malformed == s0.malformed
    && Weight(s.outstanding) <= Weight(s0.outstanding) + weight
    && s.m.pendingSaves == s.outstanding[SaveState]
    && Untouched(s.m)
  }

  lemma LaunchedMidway(s: Loading, s0: Loading, launched: nat, weight: nat, op: Operation)
    requires Midway(s, s0, launched, weight) && op != SaveState
    requires s.task.pending < MAX_UINT32
    ensures Midway(Launched(s, op), s0, launched + 1, weight + WeightOf(op))
  {
    WeightAdds(s.outstanding, op);
  }

  lemma InitialExpiryMidway(s: Loading, s0: Loading, launched: nat, weight: nat, clock: Clock, span: uint64) returns (more: nat)
    requires Midway(s, s0, launched, weight)
    requires s.task.pending < MAX_UINT32
    ensures more <= 1 && Midway(WithInitialExpiry(s, clock, span), s0, launched + more, weight + more)
  {
    WeightAdds(s.outstanding, SaveState);
    more := if NotifiesExpiry(s.m, WithExpiry(s.m, clock, clock.boot, span)) then 1 else 0;
  }

  lemma DeducedMidway(s: Loading, s0: Loading, launched: nat, weight: nat, clock: Clock) returns (more: nat)
    requires Midway(s, s0, launched, weight)
    requires s.task.pending < MAX_UINT32
    ensures more <= 1 && Midway(Deduced(s, clock), s0, launched + more, weight + more)
  {
    more := 0;
    if s.lastSaveTime.Some? && s.lastSaveExpiry.Some? {
      more := InitialExpiryMidway(s, s0, launched, weight, clock,
                                  ReloadedCredit(s.lastSaveExpiry.value, s.lastSaveTime.value, clock.wall));
    }
  }

  /** Where a callback must end that started at s0, with its own operation removed and of the given weight. */
  predicate Ended(s: Loading, s0: Loading, weight: nat) {
    && Counted(s, 0)
    && Errors(s)
    && |s.outstanding| + s.malformed <= |s0.outstanding| + s0.malformed + 3
    && Weight(s.outstanding) < Weight(s0.outstanding) + weight
    && s.m.pendingSaves == s.outstanding[SaveState]
    && Untouched(s.m)
  }

  lemma FinishedEnds(s: Loading, s0: Loading, launched: nat, weight: nat)
    requires Midway(s, s0, launched, weight) && launched <= 3
    requires !s.task.HadError() ==> !s.failed
    ensures Ended(Finished(s), s0, weight + 1)
  {
    ReturnsKeepSound(s.task, ReadFailed);
  }

  lemma MalformedEnds(s: Loading, s0: Loading, launched: nat, weight: nat, file: File)
    requires Midway(s, s0, launched, weight) && launched <= 1
    requires s.task.pending < MAX_UINT32
    ensures Ended(SeenMalformed(s, file), s0, weight + 2)
  {
    WeightAdds(s.outstanding, Delete(file));
  }

  /** A callback whose read succeeded, on a task without an error. */
  predicate Ready(s0: Loading) {
    Midway(s0, s0, 0, 0) && s0.task.pending <= BUDGET && !s0.failed
  }

  lemma ClockTimeEnds(s0: Loading, result: ReadResult, clock: Clock)
    requires Ready(s0)
    ensures Ended(ClockTimeLoaded(s0, result, clock), s0, 6)
  {
    var op := Load(if result.NotFound? then ExpiryTime else ExpirySeconds);
    LaunchedMidway(s0, s0, 0, 0, op);
    assert s0.task.pending < MAX_UINT32 - 1;
    ClockTimeKnownEnds(Launched(s0, op), s0, Data(result), clock);
  }

  lemma ClockTimeKnownEnds(s: Loading, s0: Loading, data: seq<byte>, clock: Clock)
    requires Midway(s, s0, 1, 3) && s.task.pending < MAX_UINT32 && !s.failed
    ensures Ended(ClockTimeKnown(s, data, clock), s0, 6)
  {
    if data != [] && |data| != 8 {
      MalformedEnds(s, s0, 1, 3, ClockTime);
    } else {
      var s1 := if data == [] then s else s.(lastSaveTime := Some(DecodeUint64(data)));
      var more := DeducedMidway(s1, s0, 1, 3, clock);
      DeducedNotFailed(s1, clock);
      FinishedEnds(Deduced(s1, clock), s0, 1 + more, 3 + more);
    }
  }

  lemma DeducedNotFailed(s: Loading, clock: Clock)
    ensures Deduced(s, clock).failed == s.failed
  {
  }

  lemma ExpiryTimeEnds(s0: Loading, result: ReadResult, clock: Clock)
    requires Ready(s0)
    ensures Ended(ExpiryTimeLoaded(s0, result, clock), s0, 3)
  {
    var data := Data(result);
    if data == [] {
      var more := InitialExpiryMidway(s0, s0, 0, 0, clock, 0);
      FinishedEnds(WithInitialExpiry(s0, clock, 0), s0, more, more);
    } else if |data| != 8 {
      MalformedEnds(s0, s0, 0, 0, ExpiryTime);
    } else {
      var span := LegacyCredit(DecodeUint64(data), clock.wall);
      var more := InitialExpiryMidway(s0, s0, 0, 0, clock, span);
      var s1 := WithInitialExpiry(s0, clock, span);
      LaunchedMidway(s1, s0, more, more, Delete(ExpiryTime));
      FinishedEnds(Launched(s1, Delete(ExpiryTime)), s0, more + 1, more + 1);
    }
  }

  lemma ExpirySecondsEnds(s0: Loading, result: ReadResult, clock: Clock)
    requires Ready(s0)
    ensures Ended(ExpirySecondsLoaded(s0, result, clock), s0, 3)
  {
    var data := Data(result);
    if data == [] {
      var more := InitialExpiryMidway(s0, s0, 0, 0, clock, 0);
      var s1 := WithInitialExpiry(s0, clock, 0);
      var more' := DeducedMidway(s1, s0, more, more, clock);
      FinishedEnds(Deduced(s1, clock), s0, more + more', more + more');
    } else if |data| != 8 {
      MalformedEnds(s0, s0, 0, 0, ExpirySeconds);
    } else {
      var s1 := s0.(lastSaveExpiry := Some(DecodeUint64(data)));
      var more := DeducedMidway(s1, s0, 0, 0, clock);
      FinishedEnds(Deduced(s1, clock), s0, more, more);
    }
  }

  lemma UsedCodesEnds(s0: Loading, result: ReadResult)
    requires Ready(s0)
    ensures Ended(UsedCodesLoaded(s0, result), s0, 2)
  {
    var data := Data(result);
    if data != [] && Decode(data).Failure? {
      MalformedEnds(s0, s0, 0, 0, UsedCodesFile);
    } else {
      var used := if data == [] then [] else Decode(data).value;
      FinishedEnds(s0.(m := s0.m.(used := used)), s0, 0, 0);
    }
  }

  lemma KeyEnds(s0: Loading, result: ReadResult)
    requires Ready(s0)
    ensures Ended(KeyLoaded(s0, result), s0, 1)
  {
    ReturnsKeepSound(s0.task, ReadFailed);
  }

  lemma AccountIdEnds(s0: Loading, result: ReadResult)
    requires Ready(s0)
    ensures Ended(AccountIdLoaded(s0, result), s0, 1)
  {
    ReturnsKeepSound(s0.task, ReadFailed);
  }

  /** Every callback keeps the count exact and uses up some of the work. */
  lemma StepKeepsInvariant(files: Files, s: Loading, c: Callback)
    requires Invariant(s) && OperationOf(c) in s.outstanding
    ensures Invariant(Step(files, s, c))
    ensures Weight(Step(files, s, c).outstanding) < Weight(s.outstanding)
  {
    match c
    case OnLoad(file, clock) => LoadKeepsInvariant(s, file, files(file), clock);
    case OnDelete(file, ok) => DeleteKeepsInvariant(s, file, ok);
    case OnSave(ok) => SaveKeepsInvariant(s, ok);
  }

  lemma SaveKeepsInvariant(s: Loading, ok: bool)
    requires Invariant(s) && SaveState in s.outstanding
    ensures Invariant(StateSaved(s, ok))
    ensures Weight(StateSaved(s, ok).outstanding) < Weight(s.outstanding)
  {
    RemovedOne(s.outstanding, SaveState);
    ReturnsKeepSound(s.task, SaveFailed);
  }

  lemma LoadKeepsInvariant(s: Loading, file: File, result: ReadResult, clock: Clock)
    requires Invariant(s) && Load(file) in s.outstanding
    ensures Invariant(FileLoaded(s, file, result, clock))
    ensures Weight(FileLoaded(s, file, result, clock).outstanding) < Weight(s.outstanding)
  {
    var s0 := s.(outstanding := s.outstanding - multiset{Load(file)}, failed := s.failed || result.Unreadable?);
    RemovedOne(s.outstanding, Load(file));
    if s.task.HadError() {
      FailureKeepsInvariant(s, s0, file, AlreadyFailed);
    } else if result.Unreadable? {
      FailureKeepsInvariant(s, s0, file, ReadFailed);
    } else {
      ReadKeepsInvariant(s, s0, file, result, clock);
    }
  }

  lemma FailureKeepsInvariant(s: Loading, s0: Loading, file: File, error: InitError)
    requires Invariant(s) && Load(file) in s.outstanding && (s.task.HadError() || s0.failed)
    requires s0 == s.(outstanding := s.outstanding - multiset{Load(file)}, failed := s0.failed) && (s.failed ==> s0.failed)
    ensures Invariant(Failed(s0, error)) && Weight(s0.outstanding) < Weight(s.outstanding)
  {
    RemovedOne(s.outstanding, Load(file));
    ReturnsKeepSound(s.task, error);
  }

  lemma RemovedOne(o: multiset<Operation>, op: Operation)
    requires op in o
    ensures |o - multiset{op}| == |o| - 1
    ensures Weight(o - multiset{op}) == Weight(o) - WeightOf(op) < Weight(o)
    ensures !op.Delete? ==> Deletions(o - multiset{op}) == Deletions(o)
    ensures (o - multiset{op})[SaveState] == o[SaveState] - if op == SaveState then 1 else 0
  {
    WeightAdds(o, op);
  }

  lemma ReadyToRead(s: Loading, s0: Loading, file: File, clock: Clock)
    requires Invariant(s) && Load(file) in s.outstanding && !s.task.HadError()
    requires s0 == s.(outstanding := s.outstanding - multiset{Load(file)})
    ensures Ready(s0) && Ready(s0.(expiryReadAt := Some(clock)))
  {
    RemovedOne(s.outstanding, Load(file));
  }

  lemma ReadKeepsInvariant(s: Loading, s0: Loading, file: File, result: ReadResult, clock: Clock)
    requires Invariant(s) && Load(file) in s.outstanding && !s.task.HadError() && !result.Unreadable?
    requires s0 == s.(outstanding := s.outstanding - multiset{Load(file)})
    requires |s0.outstanding| == |s.outstanding| - 1
    requires Weight(s0.outstanding) == Weight(s.outstanding) - WeightOf(Load(file))
    requires Deletions(s0.outstanding) == Deletions(s.outstanding)
    ensures Ended(FileLoaded(s, file, result, clock), s0, WeightOf(Load(file)))
  {
    var s1 := s0.(expiryReadAt := Some(clock));
    ReadyToRead(s, s0, file, clock);
    match file
    case ClockTime => ClockTimeEnds(s0, result, clock);
    case ExpiryTime => ExpiryTimeEnds(s1, result, clock);
    case ExpirySeconds => ExpirySecondsEnds(s1, result, clock);
    case UsedCodesFile => UsedCodesEnds(s0, result);
    case KeyFile => KeyEnds(s0, result);
    case AccountIdFile => AccountIdEnds(s0, result);
  }

  lemma DeleteKeepsInvariant(s: Loading, file: File, ok: bool)
    requires Invariant(s) && Delete(file) in s.outstanding
    ensures Invariant(FileDeleted(s, file, ok))
    ensures Weight(FileDeleted(s, file, ok).outstanding) < Weight(s.outstanding)
  {
    RemovedOne(s.outstanding, Delete(file));
    ReturnsKeepSound(s.task, if s.dataError then InvalidData else DeleteFailed);
  }

  lemma StartedInvariant(enabled: bool)
    ensures Invariant(Started(enabled)) && Weight(Started(enabled).outstanding) == 10
  {
    assert |Started(enabled).outstanding| == 4;
  }

  lemma {:induction false} RunInvariant(files: Files, enabled: bool, cs: seq<Callback>)
    requires Schedule(files, enabled, cs)
    ensures Invariant(Run(files, enabled, cs))
    ensures |cs| + Weight(Run(files, enabled, cs).outstanding) <= 10
  {
    if cs == [] {
      StartedInvariant(enabled);
    } else {
      RunInvariant(files, enabled, cs[..|cs| - 1]);
      StepKeepsInvariant(files, Run(files, enabled, cs[..|cs| - 1]), cs[|cs| - 1]);
    }
  }

  /**
   * For every order of the callbacks: the pending count is exactly the number of
   * running operations plus the malformed files seen; initialisation ends after
   * at most ten callbacks, with exactly one result; and that is success if and
   * only if every read, deletion and save succeeded and no file was malformed.
   */
  lemma InitCompletesExactlyOnce(files: Files, enabled: bool, cs: seq<Callback>)
    requires Schedule(files, enabled, cs)
    ensures var s := Run(files, enabled, cs);
            && s.task.pending == |s.outstanding| + s.malformed
            && |cs| <= 10
            && |s.task.returned| <= 1
            && (s.outstanding == multiset{} ==> |s.task.returned| == 1)
            && (s.task.returned == [Success(true)] <==> s.outstanding == multiset{} && !s.failed && s.malformed == 0)
            && (s.task.returned == [Success(true)] ==> s.m.pendingSaves == 0)
  {
    RunInvariant(files, enabled, cs);
    var s := Run(files, enabled, cs);
    ErrorIsFirst(s.task);
    if s.outstanding == multiset{} {
      assert Deletions(s.outstanding) == 0;
    }
    if s.task.pending == 0 {
      assert |s.outstanding| == 0;
    }
  }

  // ----- What is loaded -----

  function UsedFrom(files: Files): Result<seq<UsedCode>, FileError> {
    var data := Data(files(UsedCodesFile));
    if data == [] then Success([]) else Decode(data)
  }

  /** The file that holds the expiry time: the old one if there is no clock-time file. */
  function ExpiryFile(files: Files): File {
    if files(ClockTime).NotFound? then ExpiryTime else ExpirySeconds
  }

  /** The expiry time after a successful initialisation whose expiry file was read at the given instant. */
  function InitialExpiry(files: Files, clock: Clock): uint64 {
    var clockTime, expiry := Data(files(ClockTime)), Data(files(ExpiryFile(files)));
    if expiry == [] then clock.boot
    else if |expiry| != 8 then 0
    else if files(ClockTime).NotFound? then ExpiryFromLegacyFile(expiry, clock.boot, clock.wall)
    else if |clockTime| != 8 then 0
    else ExpiryFromFiles(clockTime, expiry, clock.boot, clock.wall)
  }

  function NumberFrom(data: seq<byte>): Option<uint64> {
    if |data| == 8 then Some(DecodeUint64(data)) else None
  }

  predicate Distinct(o: multiset<Operation>) {
    && o[Load(ClockTime)] <= 1 && o[Load(ExpiryTime)] <= 1 && o[Load(ExpirySeconds)] <= 1
    && o[Load(UsedCodesFile)] <= 1 && o[Load(KeyFile)] <= 1 && o[Load(AccountIdFile)] <= 1
    && (Load(ClockTime) in o ==> Load(ExpiryTime) !in o && Load(ExpirySeconds) !in o)
  }

  predicate Good(s: Loading) {
    !s.task.HadError() && s.malformed == 0
  }

  predicate UsedProgress(files: Files, s: Loading) {
    Load(UsedCodesFile) !in s.outstanding ==> UsedFrom(files) == Success(s.m.used)
  }

  /** The key of the file, or 64 zero bytes. */
  function KeyFrom(files: Files): seq<byte> {
    if files(KeyFile).NotFound? then seq(64, _ => 0) else Data(files(KeyFile))
  }

  predicate KeyProgress(files: Files, enabled: bool, s: Loading) {
    if Load(KeyFile) in s.outstanding then s.m.enabled == enabled
    else
      && s.m.enabled == (enabled && !files(KeyFile).NotFound?)
      && s.m.key == KeyFrom(files)
  }

  predicate AccountProgress(files: Files, s: Loading) {
    s.accountId == if Load(AccountIdFile) in s.outstanding then [] else CString(Data(files(AccountIdFile)))
  }

  predicate OtherProgress(files: Files, enabled: bool, s: Loading) {
    UsedProgress(files, s) && KeyProgress(files, enabled, s) && AccountProgress(files, s)
  }

  /** The two states agree on everything but the expiry time. */
  predicate SameOthers(s: Loading, t: Loading) {
    && s.m.used == t.m.used && s.m.enabled == t.m.enabled && s.m.key == t.m.key && s.accountId == t.accountId
    && s.outstanding[Load(UsedCodesFile)] == t.outstanding[Load(UsedCodesFile)]
    && s.outstanding[Load(KeyFile)] == t.outstanding[Load(KeyFile)]
    && s.outstanding[Load(AccountIdFile)] == t.outstanding[Load(AccountIdFile)]
  }

  /** The two states agree on everything about the expiry time. */
  predicate SameExpiry(s: Loading, t: Loading) {
    && s.lastSaveTime == t.lastSaveTime && s.lastSaveExpiry == t.lastSaveExpiry
    && s.expiryReadAt == t.expiryReadAt && s.m.expiry == t.m.expiry && s.m.timer == t.m.timer
    && s.outstanding[Load(ClockTime)] == t.outstanding[Load(ClockTime)]
    && s.outstanding[Load(ExpiryTime)] == t.outstanding[Load(ExpiryTime)]
    && s.outstanding[Load(ExpirySeconds)] == t.outstanding[Load(ExpirySeconds)]
  }

  /** Credit that was loaded at the given instant has the timer for its end, or none if it has no end. */
  predicate WatchedFrom(m: Manager, clock: Clock) {
    clock.boot < m.expiry ==>
      m.timer == if m.expiry == 0xFFFF_FFFF_FFFF_FFFF then None
                 else Some(Timer(clock.boot, Min(m.expiry - clock.boot, 0xFFFF_FFFF)))
  }

  predicate ExpiryProgress(files: Files, s: Loading) {
    if Load(ClockTime) in s.outstanding then
      s.lastSaveTime == None && s.lastSaveExpiry == None && s.expiryReadAt == None && s.m.expiry == 0 && s.m.timer == None
    else
      && s.lastSaveTime == NumberFrom(Data(files(ClockTime)))
      && (forall f :: (f == ExpiryTime || f == ExpirySeconds) && Load(f) in s.outstanding ==> f == ExpiryFile(files))
      && match s.expiryReadAt {
           case None =>
             Load(ExpiryFile(files)) in s.outstanding && s.m.expiry == 0 && s.m.timer == None && s.lastSaveExpiry == None
           case Some(clock) =>
             Load(ExpiryFile(files)) !in s.outstanding && s.m.expiry == InitialExpiry(files, clock) && WatchedFrom(s.m, clock)
         }
  }

  predicate Progress(files: Files, enabled: bool, s: Loading) {
    && Distinct(s.outstanding)
    && (Good(s) ==> OtherProgress(files, enabled, s) && ExpiryProgress(files, s))
  }

  lemma SameProgress(files: Files, enabled: bool, s: Loading, t: Loading)
    ensures SameOthers(s, t) && OtherProgress(files, enabled, s) ==> OtherProgress(files, enabled, t)
    ensures SameExpiry(s, t) && ExpiryProgress(files, s) ==> ExpiryProgress(files, t)
  {
  }

  /** One read is no longer outstanding. */
  predicate Without(s: Loading, file: File, s0: Loading) {
    s0 == s.(outstanding := s.outstanding - multiset{Load(file)}) && Load(file) in s.outstanding
  }

  /** Setting the expiry time changes nothing else that loading depends on. */
  lemma InitialExpiryEffect(s: Loading, clock: Clock, span: uint64)
    ensures var t := WithInitialExpiry(s, clock, span);
            && SameOthers(s, t)
            && SameExpiry(s, t.(m := t.m.(expiry := s.m.expiry, timer := s.m.timer)))
            && t.m.expiry == SaturatingAdd(clock.boot, span) && WatchedFrom(t.m, clock)
            && t.malformed == s.malformed
  {
  }

  lemma LaunchEffect(s: Loading, file: File)
    ensures var t := Launched(s, Load(file));
            && t.m == s.m && t.accountId == s.accountId && t.malformed == s.malformed
            && t.outstanding[Load(file)] == s.outstanding[Load(file)] + 1
            && forall f | f != file :: t.outstanding[Load(f)] == s.outstanding[Load(f)]
  {
  }

  predicate SameLoads(s: Loading, t: Loading) {
    forall f :: s.outstanding[Load(f)] == t.outstanding[Load(f)]
  }

  lemma OtherLaunchEffect(s: Loading, op: Operation)
    requires !op.Load?
    ensures SameLoads(s, Launched(s, op))
    ensures SameOthers(s, Launched(s, op)) && SameExpiry(s, Launched(s, op))
  {
  }

  lemma InitialExpiryLoads(s: Loading, clock: Clock, span: uint64)
    ensures SameLoads(s, WithInitialExpiry(s, clock, span))
    ensures SameLoads(s, Deduced(s, clock))
  {
  }

  lemma ClockTimeResult(s0: Loading, result: ReadResult, clock: Clock)
    requires s0.lastSaveExpiry == None
    ensures var data, t := Data(result), ClockTimeLoaded(s0, result, clock);
            && SameOthers(s0, t)
            && t.lastSaveTime == (if |data| == 8 then NumberFrom(data) else s0.lastSaveTime)
            && t.lastSaveExpiry == None && t.expiryReadAt == s0.expiryReadAt
            && t.m.expiry == s0.m.expiry && t.m.timer == s0.m.timer
            && (t.malformed == s0.malformed <==> data == [] || |data| == 8)
  {
    var op := Load(if result.NotFound? then ExpiryTime else ExpirySeconds);
    LaunchEffect(s0, op.file);
    OtherLaunchEffect(Launched(s0, op), Delete(ClockTime));
  }

  lemma ClockTimeProgress(files: Files, s: Loading, s0: Loading, clock: Clock)
    requires Without(s, ClockTime, s0) && Distinct(s.outstanding) && s.malformed == 0
    requires !files(ClockTime).Unreadable? && ExpiryProgress(files, s)
    ensures var t := ClockTimeLoaded(s0, files(ClockTime), clock);
            SameOthers(s, t) && (t.malformed == 0 ==> ExpiryProgress(files, t))
  {
    ClockTimeResult(s0, files(ClockTime), clock);
    ClockTimeLoads(s0, files(ClockTime), clock);
    LaunchEffect(s0, ExpiryFile(files));
    assert s0.outstanding[Load(ClockTime)] == 0;
    assert s0.outstanding[Load(ExpiryTime)] == 0 && s0.outstanding[Load(ExpirySeconds)] == 0;
  }

  lemma ExpirySecondsResult(s1: Loading, result: ReadResult, clock: Clock)
    requires s1.lastSaveExpiry == None
    ensures var data, t := Data(result), ExpirySecondsLoaded(s1, result, clock);
            && SameOthers(s1, t)
            && t.lastSaveTime == s1.lastSaveTime && t.expiryReadAt == s1.expiryReadAt
            && (t.malformed == s1.malformed <==> data == [] || |data| == 8)
            && (data == [] ==> t.m.expiry == clock.boot)
            && (|data| == 8 && s1.lastSaveTime.None? ==> t.m.expiry == s1.m.expiry)
            && (|data| == 8 && s1.lastSaveTime.Some? ==> WatchedFrom(t.m, clock))
            && (|data| == 8 && s1.lastSaveTime.Some? ==>
                  t.m.expiry == SaturatingAdd(clock.boot, ReloadedCredit(DecodeUint64(data), s1.lastSaveTime.value, clock.wall)))
  {
    var data := Data(result);
    OtherLaunchEffect(s1, Delete(ExpirySeconds));
    if data == [] {
      InitialExpiryEffect(s1, clock, 0);
    } else if |data| == 8 {
      var s2 := s1.(lastSaveExpiry := Some(DecodeUint64(data)));
      if s2.lastSaveTime.Some? {
        InitialExpiryEffect(s2, clock, ReloadedCredit(s2.lastSaveExpiry.value, s2.lastSaveTime.value, clock.wall));
      }
    }
  }

  lemma ExpirySecondsProgress(files: Files, s: Loading, s0: Loading, clock: Clock)
    requires Without(s, ExpirySeconds, s0) && Distinct(s.outstanding) && s.malformed == 0
    requires !files(ExpirySeconds).Unreadable? && ExpiryProgress(files, s)
    ensures var t := ExpirySecondsLoaded(s0.(expiryReadAt := Some(clock)), files(ExpirySeconds), clock);
            SameOthers(s, t) && (t.malformed == 0 ==> ExpiryProgress(files, t))
  {
    var s1 := s0.(expiryReadAt := Some(clock));
    assert s0.outstanding[Load(ExpirySeconds)] == 0;
    ExpirySecondsResult(s1, files(ExpirySeconds), clock);
    ExpirySecondsLoads(s1, files(ExpirySeconds), clock);
  }

  lemma UsedCodesProgress(files: Files, enabled: bool, s: Loading, s0: Loading)
    requires Without(s, UsedCodesFile, s0) && Distinct(s.outstanding) && s.malformed == 0
    requires OtherProgress(files, enabled, s)
    ensures var t := UsedCodesLoaded(s0, files(UsedCodesFile));
            SameExpiry(s, t) && (t.malformed == 0 ==> OtherProgress(files, enabled, t))
  {
    var result := files(UsedCodesFile);
    var t := UsedCodesLoaded(s0, result);
    UsedCodesLoads(s0, result);
    if t.malformed == 0 {
      assert t == Finished(s0.(m := s0.m.(used := UsedFrom(files).value)));
      assert Load(UsedCodesFile) !in t.outstanding;
    }
  }

  lemma KeyProgresses(files: Files, enabled: bool, s: Loading, s0: Loading)
    requires Without(s, KeyFile, s0) && Distinct(s.outstanding)
    requires OtherProgress(files, enabled, s)
    ensures var t := KeyLoaded(s0, files(KeyFile));
            SameExpiry(s, t) && OtherProgress(files, enabled, t)
  {
  }

  lemma AccountProgresses(files: Files, enabled: bool, s: Loading, s0: Loading)
    requires Without(s, AccountIdFile, s0) && Distinct(s.outstanding) && !files(AccountIdFile).Unreadable?
    requires OtherProgress(files, enabled, s)
    ensures var t := AccountIdLoaded(s0, files(AccountIdFile));
            SameExpiry(s, t) && OtherProgress(files, enabled, t)
  {
  }

  lemma ClockTimeLoads(s0: Loading, result: ReadResult, clock: Clock)
    ensures var next := if result.NotFound? then ExpiryTime else ExpirySeconds;
            SameLoads(Launched(s0, Load(next)), ClockTimeLoaded(s0, result, clock))
  {
    var s1 := Launched(s0, Load(if result.NotFound? then ExpiryTime else ExpirySeconds));
    var data := Data(result);
    if data != [] && |data| != 8 {
      OtherLaunchEffect(s1, Delete(ClockTime));
    } else {
      InitialExpiryLoads(if data == [] then s1 else s1.(lastSaveTime := Some(DecodeUint64(data))), clock, 0);
    }
  }

  lemma ExpiryTimeLoads(s0: Loading, result: ReadResult, clock: Clock)
    ensures SameLoads(s0, ExpiryTimeLoaded(s0, result, clock))
  {
    var data := Data(result);
    OtherLaunchEffect(s0, Delete(ExpiryTime));
    InitialExpiryLoads(s0, clock, 0);
    if |data| == 8 {
      var span := LegacyCredit(DecodeUint64(data), clock.wall);
      InitialExpiryLoads(s0, clock, span);
      OtherLaunchEffect(WithInitialExpiry(s0, clock, span), Delete(ExpiryTime));
    }
  }

  lemma ExpiryTimeResult(s1: Loading, result: ReadResult, clock: Clock)
    ensures var data, t := Data(result), ExpiryTimeLoaded(s1, result, clock);
            && SameOthers(s1, t)
            && t.lastSaveTime == s1.lastSaveTime && t.expiryReadAt == s1.expiryReadAt
            && (t.malformed == s1.malformed <==> data == [] || |data| == 8)
            && (data == [] ==> t.m.expiry == clock.boot)
            && (|data| == 8 ==> t.m.expiry == ExpiryFromLegacyFile(data, clock.boot, clock.wall) && WatchedFrom(t.m, clock))
  {
    var data := Data(result);
    OtherLaunchEffect(s1, Delete(ExpiryTime));
    InitialExpiryEffect(s1, clock, 0);
    if |data| == 8 {
      var span := LegacyCredit(DecodeUint64(data), clock.wall);
      InitialExpiryEffect(s1, clock, span);
      OtherLaunchEffect(WithInitialExpiry(s1, clock, span), Delete(ExpiryTime));
    }
  }

  lemma ExpiryTimeProgress(files: Files, s: Loading, s0: Loading, clock: Clock)
    requires Without(s, ExpiryTime, s0) && Distinct(s.outstanding) && s.malformed == 0
    requires !files(ExpiryTime).Unreadable? && ExpiryProgress(files, s)
    ensures var t := ExpiryTimeLoaded(s0.(expiryReadAt := Some(clock)), files(ExpiryTime), clock);
            SameOthers(s, t) && (t.malformed == 0 ==> ExpiryProgress(files, t))
  {
    var s1 := s0.(expiryReadAt := Some(clock));
    ExpiryTimeResult(s1, files(ExpiryTime), clock);
    ExpiryTimeLoads(s1, files(ExpiryTime), clock);
    assert s0.outstanding[Load(ExpiryTime)] == 0;
  }

  lemma ExpirySecondsLoads(s0: Loading, result: ReadResult, clock: Clock)
    ensures SameLoads(s0, ExpirySecondsLoaded(s0, result, clock))
  {
    var data := Data(result);
    OtherLaunchEffect(s0, Delete(ExpirySeconds));
    InitialExpiryLoads(s0, clock, 0);
    InitialExpiryLoads(WithInitialExpiry(s0, clock, 0), clock, 0);
    if |data| == 8 {
      InitialExpiryLoads(s0.(lastSaveExpiry := Some(DecodeUint64(data))), clock, 0);
    }
  }

  lemma UsedCodesLoads(s0: Loading, result: ReadResult)
    ensures SameLoads(s0, UsedCodesLoaded(s0, result))
  {
    OtherLaunchEffect(s0, Delete(UsedCodesFile));
  }

  lemma LoadDistinct(s: Loading, file: File, result: ReadResult, clock: Clock)
    requires Distinct(s.outstanding) && Load(file) in s.outstanding
    ensures Distinct(FileLoaded(s, file, result, clock).outstanding)
  {
    var s0 := s.(outstanding := s.outstanding - multiset{Load(file)}, failed := s.failed || result.Unreadable?);
    assert Distinct(s0.outstanding);
    if !s.task.HadError() && !result.Unreadable? {
      if file == ClockTime {
        ClockTimeDistinct(s0, result, clock);
      } else {
        ReadDistinct(s0, file, result, clock);
      }
    }
  }

  lemma ClockTimeDistinct(s0: Loading, result: ReadResult, clock: Clock)
    requires Distinct(s0.outstanding) && Load(ClockTime) !in s0.outstanding
    requires Load(ExpiryTime) !in s0.outstanding && Load(ExpirySeconds) !in s0.outstanding
    ensures Distinct(ClockTimeLoaded(s0, result, clock).outstanding)
  {
    var next := if result.NotFound? then ExpiryTime else ExpirySeconds;
    ClockTimeLoads(s0, result, clock);
    LaunchEffect(s0, next);
    SameLoadsDistinct(Launched(s0, Load(next)), ClockTimeLoaded(s0, result, clock));
  }

  lemma SameLoadsDistinct(s: Loading, t: Loading)
    requires SameLoads(s, t) && Distinct(s.outstanding)
    ensures Distinct(t.outstanding)
  {
  }

  lemma ReadDistinct(s0: Loading, file: File, result: ReadResult, clock: Clock)
    requires Distinct(s0.outstanding) && file != ClockTime
    ensures Distinct(FileRead(s0, file, result, clock).outstanding)
  {
    var s1 := s0.(expiryReadAt := Some(clock));
    match file {
      case ExpiryTime => ExpiryTimeLoads(s1, result, clock);
      case ExpirySeconds => ExpirySecondsLoads(s1, result, clock);
      case UsedCodesFile => UsedCodesLoads(s0, result);
      case _ =>
    }
    SameLoadsDistinct(s1, FileRead(s0, file, result, clock));
  }

  lemma ReadProgress(files: Files, enabled: bool, s: Loading, file: File, clock: Clock)
    requires Progress(files, enabled, s) && Good(s) && Load(file) in s.outstanding && !files(file).Unreadable?
    ensures Progress(files, enabled, FileLoaded(s, file, files(file), clock))
  {
    var s0 := s.(outstanding := s.outstanding - multiset{Load(file)});
    var t := FileLoaded(s, file, files(file), clock);
    SameProgress(files, enabled, s, t);
    LoadDistinct(s, file, files(file), clock);
    match file
    case ClockTime => ClockTimeProgress(files, s, s0, clock);
    case ExpiryTime => ExpiryTimeProgress(files, s, s0, clock);
    case ExpirySeconds => ExpirySecondsProgress(files, s, s0, clock);
    case UsedCodesFile => UsedCodesProgress(files, enabled, s, s0);
    case KeyFile => KeyProgresses(files, enabled, s, s0);
    case AccountIdFile => AccountProgresses(files, enabled, s, s0);
  }

  lemma LoadProgress(files: Files, enabled: bool, s: Loading, file: File, clock: Clock)
    requires Progress(files, enabled, s) && Invariant(s) && Load(file) in s.outstanding
    ensures Progress(files, enabled, FileLoaded(s, file, files(file), clock))
  {
    LoadDistinct(s, file, files(file), clock);
    LoadKeepsInvariant(s, file, files(file), clock);
    if Good(s) && !files(file).Unreadable? {
      ReadProgress(files, enabled, s, file, clock);
    } else {
      LoadStaysBad(s, file, files(file), clock);
    }
  }

  /** Neither an error nor a malformed file is ever forgotten. */
  lemma LoadStaysBad(s: Loading, file: File, result: ReadResult, clock: Clock)
    requires Invariant(s) && Load(file) in s.outstanding && (!Good(s) || result.Unreadable?)
    ensures !Good(FileLoaded(s, file, result, clock))
  {
    var s0 := s.(outstanding := s.outstanding - multiset{Load(file)}, failed := s.failed || result.Unreadable?);
    if s.task.HadError() {
      ReturnsKeepSound(s.task, AlreadyFailed);
    } else if result.Unreadable? {
      ReturnsKeepSound(s.task, ReadFailed);
    } else {
      MalformedNeverForgotten(s0, file, result, clock);
    }
  }

  lemma MalformedNeverForgotten(s: Loading, file: File, result: ReadResult, clock: Clock)
    requires !result.Unreadable?
    ensures FileRead(s, file, result, clock).malformed >= s.malformed
  {
    match file
    case ClockTime =>
    case ExpirySeconds =>
    case ExpiryTime =>
    case UsedCodesFile =>
    case KeyFile =>
    case AccountIdFile =>
  }

  /** Deletions and saves change nothing that loading depends on. */
  lemma OtherCallbackEffect(s: Loading, t: Loading, op: Operation)
    requires !op.Load? && t.outstanding == s.outstanding - multiset{op}
    requires t.m == s.m || t.m == InternalSaveDone(s.m, true).0 || t.m == InternalSaveDone(s.m, false).0
    requires t.accountId == s.accountId && t.lastSaveTime == s.lastSaveTime
    requires t.lastSaveExpiry == s.lastSaveExpiry && t.expiryReadAt == s.expiryReadAt
    ensures SameOthers(s, t) && SameExpiry(s, t)
    ensures Distinct(s.outstanding) ==> Distinct(t.outstanding)
  {
  }

  lemma DeleteProgress(files: Files, enabled: bool, s: Loading, file: File, ok: bool)
    requires Progress(files, enabled, s) && Sound(s.task) && s.task.pending > 0
    ensures Progress(files, enabled, FileDeleted(s, file, ok))
  {
    var t := FileDeleted(s, file, ok);
    ReturnsKeepSound(s.task, if s.dataError then InvalidData else DeleteFailed);
    OtherCallbackEffect(s, t, Delete(file));
    SameProgress(files, enabled, s, t);
  }

  lemma SaveProgress(files: Files, enabled: bool, s: Loading, ok: bool)
    requires Progress(files, enabled, s) && Sound(s.task) && s.task.pending > 0
    ensures Progress(files, enabled, StateSaved(s, ok))
  {
    var t := StateSaved(s, ok);
    ReturnsKeepSound(s.task, SaveFailed);
    OtherCallbackEffect(s, t, SaveState);
    SameProgress(files, enabled, s, t);
  }

  lemma {:induction false} RunProgress(files: Files, enabled: bool, cs: seq<Callback>)
    requires Schedule(files, enabled, cs)
    ensures Progress(files, enabled, Run(files, enabled, cs))
  {
    if cs == [] {
    } else {
      var init, c := cs[..|cs| - 1], cs[|cs| - 1];
      RunProgress(files, enabled, init);
      RunInvariant(files, enabled, init);
      match c
      case OnLoad(file, clock) => LoadProgress(files, enabled, Run(files, enabled, init), file, clock);
      case OnDelete(file, ok) => DeleteProgress(files, enabled, Run(files, enabled, init), file, ok);
      case OnSave(ok) => SaveProgress(files, enabled, Run(files, enabled, init), ok);
    }
  }

  /**
   * Whatever the order of the callbacks, a successful initialisation loads the same
   * state: the used codes, the key and the account of their files, and the expiry
   * time that the state files stand for at the instant the expiry file was read.
   */
  lemma InitLoadsTheFiles(files: Files, enabled: bool, cs: seq<Callback>)
    requires Schedule(files, enabled, cs)
    requires Run(files, enabled, cs).task.returned == [Success(true)]
    ensures var s := Run(files, enabled, cs);
            && UsedFrom(files) == Success(s.m.used)
            && s.m.enabled == (enabled && !files(KeyFile).NotFound?)
            && s.m.key == KeyFrom(files)
            && s.accountId == CString(Data(files(AccountIdFile)))
            && s.expiryReadAt.Some?
            && s.m.expiry == InitialExpiry(files, s.expiryReadAt.value)
  {
    InitCompletesExactlyOnce(files, enabled, cs);
    RunProgress(files, enabled, cs);
  }

  /**
   * Credit that will end has a timer that was started when its file was read and whose
   * interval is the time from then to the end, clamped to 32 bits; credit without an
   * end has none.
   */
  predicate Watched(m: Manager, read: Clock) {
    && (read.boot < m.expiry < 0xFFFF_FFFF_FFFF_FFFF ==>
          && m.timer.Some? && m.timer.value.start == read.boot
          && m.timer.value.interval == Min(m.expiry - read.boot, 0xFFFF_FFFF))
    && (m.expiry == 0xFFFF_FFFF_FFFF_FFFF ==> m.timer == None)
  }

  /** Whatever the order of the callbacks, the credit is watched after a successful initialisation. */
  lemma LoadedCreditIsWatched(files: Files, enabled: bool, cs: seq<Callback>)
    requires Schedule(files, enabled, cs)
    requires Run(files, enabled, cs).task.returned == [Success(true)]
    ensures var s := Run(files, enabled, cs);
            s.expiryReadAt.Some? && Watched(s.m, s.expiryReadAt.value)
  {
    InitCompletesExactlyOnce(files, enabled, cs);
    RunProgress(files, enabled, cs);
    FinishedIsWatched(files, enabled, Run(files, enabled, cs));
  }

  lemma FinishedIsWatched(files: Files, enabled: bool, s: Loading)
    requires Progress(files, enabled, s) && s.outstanding == multiset{}
    requires s.malformed == 0 && s.task.returned == [Success(true)]
    ensures s.expiryReadAt.Some? && Watched(s.m, s.expiryReadAt.value)
  {
    assert !s.task.HadError();
    assert Good(s) && Load(ClockTime) !in s.outstanding;
  }

  // ----- Which error is returned -----

  /** The error says what happened: a malformed file, or an operation that failed. */
  predicate ErrorIsTrue(s: Loading) {
    s.task.returned != [] && s.task.returned[0].Failure? ==>
      && s.task.returned[0].error != AlreadyFailed
      && (s.task.returned[0].error == InvalidData ==> s.malformed > 0)
      && (s.task.returned[0].error != InvalidData ==> s.failed)
  }

  lemma StepKeepsErrorTrue(files: Files, s: Loading, c: Callback)
    requires Invariant(s) && ErrorIsTrue(s) && OperationOf(c) in s.outstanding
    ensures ErrorIsTrue(Step(files, s, c))
  {
    ErrorIsFirst(s.task);
    RemovedOne(s.outstanding, OperationOf(c));
    match c
    case OnLoad(file, clock) => LoadKeepsErrorTrue(s, file, files(file), clock);
    case OnDelete(_, _) =>
    case OnSave(_) =>
  }

  lemma LoadKeepsErrorTrue(s: Loading, file: File, result: ReadResult, clock: Clock)
    requires Sound(s.task) && s.task.pending > 0 && ErrorIsTrue(s)
    ensures ErrorIsTrue(FileLoaded(s, file, result, clock))
  {
    ErrorIsFirst(s.task);
    if !s.task.HadError() && !result.Unreadable? {
      ReadReturnsNoError(s.(outstanding := s.outstanding - multiset{Load(file)}), file, result, clock);
    }
  }

  predicate NoErrorYet(s: Loading) {
    s.task.returned == [] || s.task.returned == [Success(true)]
  }

  lemma SettingReturnsNothing(s: Loading, clock: Clock, span: uint64)
    ensures WithInitialExpiry(s, clock, span).task.returned == s.task.returned
    ensures Deduced(s, clock).task.returned == s.task.returned
  {
  }

  lemma FinishingReturnsNoError(s: Loading)
    requires s.task.returned == []
    ensures NoErrorYet(Finished(s))
  {
  }

  /** A file that could be read never makes its callback return an error. */
  lemma ReadReturnsNoError(s: Loading, file: File, result: ReadResult, clock: Clock)
    requires !result.Unreadable? && s.task.returned == []
    ensures NoErrorYet(FileRead(s, file, result, clock))
  {
    match file
    case ClockTime => ClockTimeReturnsNoError(s, result, clock);
    case ExpirySeconds => ExpirySecondsReturnsNoError(s.(expiryReadAt := Some(clock)), result, clock);
    case ExpiryTime => ExpiryTimeReturnsNoError(s.(expiryReadAt := Some(clock)), result, clock);
    case UsedCodesFile => OthersReturnNoError(s, result);
    case KeyFile => OthersReturnNoError(s, result);
    case AccountIdFile => OthersReturnNoError(s, result);
  }

  lemma OthersReturnNoError(s: Loading, result: ReadResult)
    requires s.task.returned == []
    ensures NoErrorYet(UsedCodesLoaded(s, result)) && NoErrorYet(KeyLoaded(s, result)) && NoErrorYet(AccountIdLoaded(s, result))
  {
  }

  lemma ExpiryTimeReturnsNoError(s: Loading, result: ReadResult, clock: Clock)
    requires s.task.returned == []
    ensures NoErrorYet(ExpiryTimeLoaded(s, result, clock))
  {
    var data := Data(result);
    var span := if |data| == 8 then LegacyCredit(DecodeUint64(data), clock.wall) else 0;
    SettingReturnsNothing(s, clock, span);
    if data == [] {
      FinishingReturnsNoError(WithInitialExpiry(s, clock, 0));
    } else if |data| == 8 {
      FinishingReturnsNoError(Launched(WithInitialExpiry(s, clock, span), Delete(ExpiryTime)));
    }
  }

  lemma ClockTimeReturnsNoError(s: Loading, result: ReadResult, clock: Clock)
    requires s.task.returned == []
    ensures NoErrorYet(ClockTimeLoaded(s, result, clock))
  {
    var s1 := Launched(s, Load(if result.NotFound? then ExpiryTime else ExpirySeconds));
    var data := Data(result);
    if data == [] || |data| == 8 {
      var s2 := if data == [] then s1 else s1.(lastSaveTime := Some(DecodeUint64(data)));
      SettingReturnsNothing(s2, clock, 0);
      FinishingReturnsNoError(Deduced(s2, clock));
    }
  }

  lemma ExpirySecondsReturnsNoError(s: Loading, result: ReadResult, clock: Clock)
    requires s.task.returned == []
    ensures NoErrorYet(ExpirySecondsLoaded(s, result, clock))
  {
    var data := Data(result);
    if data == [] || |data| == 8 {
      var s1 := if data == [] then WithInitialExpiry(s, clock, 0) else s.(lastSaveExpiry := Some(DecodeUint64(data)));
      SettingReturnsNothing(s, clock, 0);
      SettingReturnsNothing(s1, clock, 0);
      FinishingReturnsNoError(Deduced(s1, clock));
    }
  }

  /** For every order: an error that is returned is a true one. */
  lemma {:induction false} ErrorIsNeverMade(files: Files, enabled: bool, cs: seq<Callback>)
    requires Schedule(files, enabled, cs)
    ensures ErrorIsTrue(Run(files, enabled, cs))
  {
    if cs == [] {
    } else {
      ErrorIsNeverMade(files, enabled, cs[..|cs| - 1]);
      RunInvariant(files, enabled, cs[..|cs| - 1]);
      StepKeepsErrorTrue(files, Run(files, enabled, cs[..|cs| - 1]), cs[|cs| - 1]);
    }
  }

  // ----- The old expiry file -----

  predicate Legacy(files: Files) {
    files(ClockTime).NotFound? && |Data(files(ExpiryTime))| == 8
  }

  predicate DeletesLegacy(c: Callback) {
    c.OnDelete? && c.file == ExpiryTime
  }

  /** The deletion of the old file has run. */
  predicate LegacyDeleted(cs: seq<Callback>) {
    cs != [] && (LegacyDeleted(cs[..|cs| - 1]) || DeletesLegacy(cs[|cs| - 1]))
  }

  predicate DeletionDue(deleted: bool, s: Loading) {
    Good(s) && s.expiryReadAt.Some? ==> Delete(ExpiryTime) in s.outstanding || deleted
  }

  lemma SettingKeepsDeletion(s: Loading, clock: Clock, span: uint64)
    requires Delete(ExpiryTime) in s.outstanding
    ensures Delete(ExpiryTime) in WithInitialExpiry(s, clock, span).outstanding
    ensures Delete(ExpiryTime) in Deduced(s, clock).outstanding
  {
  }

  /** Reading another file takes back no deletion. */
  lemma DeletionsKept(s: Loading, file: File, result: ReadResult, clock: Clock)
    requires file != ExpiryTime && file != ExpirySeconds
    requires !result.Unreadable? && Delete(ExpiryTime) in s.outstanding
    ensures Delete(ExpiryTime) in FileRead(s, file, result, clock).outstanding
  {
    if file == ClockTime {
      var s1 := Launched(s, Load(if result.NotFound? then ExpiryTime else ExpirySeconds));
      var data := Data(result);
      SettingKeepsDeletion(s1, clock, 0);
      if |data| == 8 {
        SettingKeepsDeletion(s1.(lastSaveTime := Some(DecodeUint64(data))), clock, 0);
      }
    } else {
      SmallFilesKeepDeletion(s, result);
    }
  }

  lemma SmallFilesKeepDeletion(s: Loading, result: ReadResult)
    requires Delete(ExpiryTime) in s.outstanding
    ensures Delete(ExpiryTime) in UsedCodesLoaded(s, result).outstanding
    ensures Delete(ExpiryTime) in KeyLoaded(s, result).outstanding
    ensures Delete(ExpiryTime) in AccountIdLoaded(s, result).outstanding
  {
  }

  lemma ConvertingDeletes(s: Loading, result: ReadResult, clock: Clock)
    requires |Data(result)| == 8
    ensures Delete(ExpiryTime) in ExpiryTimeLoaded(s, result, clock).outstanding
  {
  }

  lemma ReadsExpiryOnlyThere(s: Loading, file: File, result: ReadResult, clock: Clock)
    requires file != ExpiryTime && file != ExpirySeconds
    ensures FileRead(s, file, result, clock).expiryReadAt == s.expiryReadAt
  {
    match file
    case ClockTime => LaunchEffect(s, ExpiryTime);
    case UsedCodesFile =>
    case KeyFile =>
    case AccountIdFile =>
  }

  lemma LoadKeepsDeletionDue(files: Files, enabled: bool, deleted: bool, s: Loading, file: File, clock: Clock)
    requires Legacy(files) && Invariant(s) && Progress(files, enabled, s) && Load(file) in s.outstanding
    requires DeletionDue(deleted, s)
    ensures DeletionDue(deleted, FileLoaded(s, file, files(file), clock))
  {
    if !Good(s) || files(file).Unreadable? {
      LoadStaysBad(s, file, files(file), clock);
    } else {
      var s0 := s.(outstanding := s.outstanding - multiset{Load(file)});
      if file == ExpiryTime {
        ConvertingDeletes(s0.(expiryReadAt := Some(clock)), files(file), clock);
      } else {
        assert file != ExpirySeconds;
        ReadsExpiryOnlyThere(s0, file, files(file), clock);
        if Delete(ExpiryTime) in s.outstanding {
          DeletionsKept(s0, file, files(file), clock);
        }
      }
    }
  }

  lemma DeleteKeepsDeletionDue(deleted: bool, s: Loading, file: File, ok: bool)
    requires Sound(s.task) && s.task.pending > 0 && Delete(file) in s.outstanding && DeletionDue(deleted, s)
    ensures DeletionDue(deleted || file == ExpiryTime, FileDeleted(s, file, ok))
  {
    ReturnsKeepSound(s.task, if s.dataError then InvalidData else DeleteFailed);
  }

  lemma SaveKeepsDeletionDue(deleted: bool, s: Loading, ok: bool)
    requires Sound(s.task) && s.task.pending > 0 && DeletionDue(deleted, s)
    ensures DeletionDue(deleted, StateSaved(s, ok))
  {
    ReturnsKeepSound(s.task, SaveFailed);
  }

  lemma StepKeepsDeletionDue(files: Files, enabled: bool, deleted: bool, s: Loading, c: Callback)
    requires Legacy(files) && Invariant(s) && Progress(files, enabled, s)
    requires OperationOf(c) in s.outstanding && DeletionDue(deleted, s)
    ensures DeletionDue(deleted || DeletesLegacy(c), Step(files, s, c))
  {
    RemovedOne(s.outstanding, OperationOf(c));
    match c
    case OnLoad(file, clock) => LoadKeepsDeletionDue(files, enabled, deleted, s, file, clock);
    case OnDelete(file, ok) => DeleteKeepsDeletionDue(deleted, s, file, ok);
    case OnSave(ok) => SaveKeepsDeletionDue(deleted, s, ok);
  }

  lemma {:induction false} RunKeepsDeletionDue(files: Files, enabled: bool, cs: seq<Callback>)
    requires Schedule(files, enabled, cs) && Legacy(files)
    ensures DeletionDue(LegacyDeleted(cs), Run(files, enabled, cs))
  {
    if cs == [] {
    } else {
      var init := cs[..|cs| - 1];
      RunKeepsDeletionDue(files, enabled, init);
      RunInvariant(files, enabled, init);
      RunProgress(files, enabled, init);
      StepKeepsDeletionDue(files, enabled, LegacyDeleted(init), Run(files, enabled, init), cs[|cs| - 1]);
    }
  }

  /** For every order: a successful initialisation that converts an old file has deleted it. */
  lemma LegacyFileIsDeleted(files: Files, enabled: bool, cs: seq<Callback>)
    requires Schedule(files, enabled, cs) && Legacy(files)
    requires Run(files, enabled, cs).task.returned == [Success(true)]
    ensures LegacyDeleted(cs)
  {
    InitCompletesExactlyOnce(files, enabled, cs);
    RunProgress(files, enabled, cs);
    RunKeepsDeletionDue(files, enabled, cs);
    FinishedIsWatched(files, enabled, Run(files, enabled, cs));
    FinishedIsGood(Run(files, enabled, cs));
  }

  lemma FinishedIsGood(s: Loading)
    requires s.malformed == 0 && s.task.returned == [Success(true)]
    ensures Good(s)
  {
  }
}
