/**
 * EpgManager of libeos-payg/manager.c as an object: its fields, and the methods that update
 * them, verified against the functions of ManagerState and InitProtocol.
 */
module Manager {
  import opened Integers
  import opened Wrappers
  import opened UsedCodes
  import opened Credit
  import opened RateLimit
  import opened MultiTask
  import opened InitProtocol
  import M = ManagerState
  import Codes

  class EpgManager {
    var usedCodes: seq<UsedCode>
    var expiryTimeSecs: uint64
    var enabled: bool
    var keyBytes: seq<byte>
    var accountId: seq<byte>
    var expiry: Option<M.Timer>
    var lastSaveTimeSecs: Option<uint64>
    var lastSaveExpirySecs: Option<uint64>
    const rateLimitingHistory: array<Seconds>
    var rateLimitEndTimeSecs: uint64
    var pendingInternalSaveStateCalls: nat
    var pendingShutdown: bool
    var cancelled: bool

    ghost predicate Valid()
      reads this
    {
      rateLimitingHistory.Length == N_ATTEMPTS
    }

    ghost function View(): M.Manager
      requires Valid()
      reads this, rateLimitingHistory
    {
      M.Manager(enabled, cancelled, keyBytes, expiryTimeSecs, expiry, usedCodes,
                Limiter(rateLimitingHistory[..], rateLimitEndTimeSecs),
                pendingInternalSaveStateCalls, pendingShutdown)
    }

    constructor (enabled: bool)
      ensures Valid() && fresh(rateLimitingHistory)
      ensures View() == Started(enabled).m
      ensures accountId == [] && lastSaveTimeSecs == None && lastSaveExpirySecs == None
    {
      usedCodes, expiryTimeSecs, this.enabled, keyBytes, accountId := [], 0, enabled, [], [];
      expiry, lastSaveTimeSecs, lastSaveExpirySecs := None, None, None;
      rateLimitingHistory := new Seconds[N_ATTEMPTS](_ => 0);
      rateLimitEndTimeSecs, pendingInternalSaveStateCalls := 0, 0;
      pendingShutdown, cancelled := false, false;
      new;
      assert rateLimitingHistory[..] == CLEARED.history;
    }

    // ----- Rate limiting -----

    method CheckRateLimiting(now: Seconds) returns (ok: bool)
      requires Valid()
      modifies this`rateLimitEndTimeSecs, rateLimitingHistory
      ensures Valid()
      ensures ok <==> !Refuses(old(View()).limiter, now)
      ensures View() == old(View()).(limiter := Recorded(old(View()).limiter, now))
    {
      ghost var before: History := rateLimitingHistory[..];
      var attempts := 0;
      for i := 0 to N_ATTEMPTS
        invariant rateLimitingHistory[..] == before
        invariant attempts == CountSince(before[..i], WrappingSub(now, TIME_PERIOD_SECS))
      {
        assert before[..i + 1][..i] == before[..i];
        if rateLimitingHistory[i] >= WrappingSub(now, TIME_PERIOD_SECS) {
          attempts := attempts + 1;
        }
      }
      assert before[..N_ATTEMPTS] == before;

      // Shift the first nine entries up by one and put the new one in front.
      var k := N_ATTEMPTS - 1;
      while k > 0
        invariant 0 <= k < N_ATTEMPTS
        invariant forall j :: 0 <= j <= k ==> rateLimitingHistory[j] == before[j]
        invariant forall j :: k < j < N_ATTEMPTS ==> rateLimitingHistory[j] == before[j - 1]
      {
        rateLimitingHistory[k] := rateLimitingHistory[k - 1];
        k := k - 1;
      }
      rateLimitingHistory[0] := now;
      assert rateLimitingHistory[..] == Pushed(before, now);

      var oldest := rateLimitingHistory[N_ATTEMPTS - 1];
      rateLimitEndTimeSecs := if oldest > 0 then oldest + TIME_PERIOD_SECS else 0;
      ok := attempts < N_ATTEMPTS;
    }

    method ClearRateLimiting()
      requires Valid()
      modifies this`rateLimitEndTimeSecs, rateLimitingHistory
      ensures Valid() && View() == old(View()).(limiter := CLEARED)
    {
      for i := 0 to N_ATTEMPTS
        invariant forall j :: 0 <= j < i ==> rateLimitingHistory[j] == 0
      {
        rateLimitingHistory[i] := 0;
      }
      rateLimitEndTimeSecs := 0;
      assert rateLimitingHistory[..] == CLEARED.history;
    }

    // ----- Used codes -----

    method CheckIsCounterUnused(period: byte, counter: byte) returns (unused: bool)
      ensures unused <==> UsedCode(counter, period) !in usedCodes
    {
      for i := 0 to |usedCodes|
        invariant UsedCode(counter, period) !in usedCodes[..i]
      {
        if counter == usedCodes[i].counter && period == usedCodes[i].period {
          return false;
        }
      }
      return true;
    }

    // ----- Expiry time -----

    /**
     * Sets the expiry time and its timer, if a clock source can be created; if asked to,
     * saves a changed expiry time, counted by the task.
     */
    method SetExpiryTime(task: MultiTask?<bool, InitError>, saveState: bool, clock: M.Clock, now: uint64, span: uint64, created: bool)
      returns (notified: bool, saved: bool, expired: bool)
      requires Valid() && (task != null ==> task.Valid())
      modifies this`expiryTimeSecs, this`expiry, this`pendingInternalSaveStateCalls
      modifies if task == null then {} else {task}
      ensures Valid() && (task != null ==> task.Valid())
      ensures expired == M.ExpiresAtOnce(old(View()), clock, now, span, created)
      ensures var m := M.WithExpiryIf(old(View()), clock, now, span, created);
              && notified == M.NotifiesExpiry(old(View()), m)
              && saved == (notified && saveState)
              && View() == if saved then M.SaveStarted(m) else m
      ensures task != null ==> task.View() == if saved then Incremented(old(task.View())) else old(task.View())
    {
      var oldExpiryTimeSecs := expiryTimeSecs;
      expiryTimeSecs := if now + span > MAX_UINT64 then MAX_UINT64 else now + span;
      expiry := None;
      expired := false;
      if expiryTimeSecs != MAX_UINT64 {
        if created {
          expiry := Some(M.Timer(clock.boot, Min(expiryTimeSecs - now, MAX_UINT32)));
        } else {
          expiryTimeSecs := now;
          expired := CheckExpiredCb(clock);
        }
      }
      notified := oldExpiryTimeSecs != expiryTimeSecs && enabled;
      saved := notified && saveState;
      if saved {
        pendingInternalSaveStateCalls := pendingInternalSaveStateCalls + 1;
        if task != null {
          task.Increment();
        }
      }
    }

    method ExtendExpiryTime(clock: M.Clock, period: byte) returns (notified: bool, added: int64)
      requires Valid() && Codes.ValidPeriod(period)
      modifies this`expiryTimeSecs, this`expiry, this`pendingInternalSaveStateCalls
      ensures Valid()
      ensures var m := M.WithExpiry(old(View()), clock, ExtensionBase(old(expiryTimeSecs), clock.boot), Span(period));
              View() == m && notified == M.NotifiesExpiry(old(View()), m)
      ensures added == Min(Span(period), MAX_INT64)
    {
      var span := Span(period);
      var base := if clock.boot < expiryTimeSecs then expiryTimeSecs else clock.boot;
      var saved, expired;
      notified, saved, expired := SetExpiryTime(null, false, clock, base, span, true);
      added := Min(span, MAX_INT64);
    }

    // ----- Provider methods -----

    /** What a save started now writes. */
    method SaveStateAsync(clock: M.Clock) returns (record: Record)
      requires Valid()
      ensures record == M.RecordOf(View(), clock)
    {
      var credit := if clock.boot > expiryTimeSecs then 0 else expiryTimeSecs - clock.boot;
      record := Record(clock.wall, credit, usedCodes);
    }

    method AddCode(hmac: Codes.Hmac, codeStr: string, clock: M.Clock)
      returns (outcome: Result<int64, M.ManagerError>, fx: M.Effects)
      requires Valid()
      modifies this`usedCodes, this`expiryTimeSecs, this`expiry, this`rateLimitEndTimeSecs
      modifies this`pendingInternalSaveStateCalls, rateLimitingHistory
      ensures Valid()
      ensures (View(), outcome, fx) == M.AddCode(hmac, old(View()), clock, codeStr)
    {
      fx := M.NO_EFFECTS;
      if !enabled {
        return Failure(M.Disabled), fx;
      }
      var ok := CheckRateLimiting(clock.boot);
      if !ok {
        return Failure(M.TooManyAttempts), fx;
      }
      if cancelled {
        return Failure(M.Cancelled), fx;
      }
      var code := Codes.ParseCode(codeStr);
      if code.Failure? {
        return Failure(M.InvalidCode(code.error)), fx;
      }
      var message := Codes.VerifyCode(hmac, keyBytes, code.value);
      if message.Failure? {
        return Failure(M.InvalidCode(message.error)), fx;
      }
      var period, counter := message.value.period, message.value.counter;
      var unused := CheckIsCounterUnused(period, counter);
      if !unused {
        return Failure(M.CodeAlreadyUsed), fx;
      }
      outcome, fx := AcceptCode(period, counter, clock);
    }

    /** The code is good: use it up, add its span, forget the attempts and save. */
    method AcceptCode(period: byte, counter: byte, clock: M.Clock)
      returns (outcome: Result<int64, M.ManagerError>, fx: M.Effects)
      requires Valid() && Codes.ValidPeriod(period)
      modifies this`usedCodes, this`expiryTimeSecs, this`expiry, this`rateLimitEndTimeSecs
      modifies this`pendingInternalSaveStateCalls, rateLimitingHistory
      ensures Valid()
      ensures var m := M.Accepted(old(View()), clock, UsedCode(counter, period));
              && View() == M.SaveStarted(m)
              && outcome == Success(Min(Span(period), MAX_INT64))
              && fx == M.Effects(M.NotifiesExpiry(old(View()), m), Some(M.RecordOf(m, clock)))
    {
      usedCodes := usedCodes + [UsedCode(counter, period)];
      usedCodes := Sort(usedCodes);
      var notified, added := ExtendExpiryTime(clock, period);
      ClearRateLimiting();
      pendingInternalSaveStateCalls := pendingInternalSaveStateCalls + 1;
      var record := SaveStateAsync(clock);
      return Success(added), M.Effects(notified, Some(record));
    }

    method ClearCode(clock: M.Clock) returns (outcome: Result<(), M.ManagerError>, fx: M.Effects)
      requires Valid()
      modifies this`expiryTimeSecs, this`expiry, this`pendingInternalSaveStateCalls
      ensures Valid()
      ensures (View(), outcome, fx) == M.ClearCode(old(View()), clock)
    {
      if !enabled {
        return Failure(M.Disabled), M.NO_EFFECTS;
      }
      if cancelled {
        return Failure(M.Cancelled), M.NO_EFFECTS;
      }
      var notified := expiryTimeSecs != 0;
      expiryTimeSecs := 0;
      expiry := None;
      pendingInternalSaveStateCalls := pendingInternalSaveStateCalls + 1;
      var record := SaveStateAsync(clock);
      return Success(()), M.Effects(notified, Some(record));
    }

    method WallclockTimeChanged(delta: int, clock: M.Clock) returns (fx: M.Effects)
      requires Valid()
      modifies this`expiryTimeSecs, this`expiry, this`pendingInternalSaveStateCalls
      ensures Valid()
      ensures (View(), fx) == M.WallclockTimeChanged(old(View()), clock, delta)
    {
      if delta == 0 {
        return M.NO_EFFECTS;
      }
      var notified := false;
      if delta > 0 && clock.boot < expiryTimeSecs {
        var credit := expiryTimeSecs - clock.boot;
        var saved, expired;
        if delta > credit {
          notified, saved, expired := SetExpiryTime(null, false, clock, clock.boot, 0, true);
        } else {
          notified, saved, expired := SetExpiryTime(null, false, clock, clock.boot, credit - delta, true);
        }
      }
      pendingInternalSaveStateCalls := pendingInternalSaveStateCalls + 1;
      var record := SaveStateAsync(clock);
      return M.Effects(notified, Some(record));
    }

    method CheckExpiredCb(clock: M.Clock) returns (expired: bool)
      requires Valid()
      modifies this`expiry
      ensures Valid()
      ensures (View(), expired) == M.CheckExpired(old(View()), clock)
    {
      if !enabled {
        expiry := None;
        return false;
      }
      expired := expiryTimeSecs <= clock.boot;
      if expired {
        expiry := None;
      }
    }

    /** The outcome is that of a shutdown which waited for this save. */
    method InternalSaveStateCb(task: MultiTask?<bool, InitError>, ok: bool) returns (shutdown: Option<bool>)
      requires Valid() && (task != null ==> task.Valid())
      modifies this`pendingInternalSaveStateCalls, this`pendingShutdown
      modifies if task == null then {} else {task}
      ensures Valid() && (task != null ==> task.Valid())
      ensures (View(), shutdown) == M.InternalSaveDone(old(View()), ok)
      ensures task != null ==>
                task.View() == if ok then ReturnedValue(old(task.View()), true)
                               else ReturnedError(old(task.View()), SaveFailed)
    {
      shutdown := None;
      if task != null {
        if ok {
          task.ReturnBoolean(true);
        } else {
          task.ReturnError(SaveFailed);
        }
      }
      if pendingInternalSaveStateCalls == 0 {
        return;
      }
      pendingInternalSaveStateCalls := pendingInternalSaveStateCalls - 1;
      if pendingInternalSaveStateCalls == 0 && pendingShutdown {
        shutdown := Some(ok);
        pendingShutdown := false;
      }
    }

    method ShutdownAsync(clock: M.Clock) returns (action: M.ShutdownAction)
      requires Valid()
      modifies this`cancelled, this`pendingShutdown
      ensures Valid()
      ensures (View(), action) == M.Shutdown(old(View()), clock)
    {
      if cancelled {
        return M.Rejected;
      }
      cancelled := true;
      if pendingInternalSaveStateCalls == 0 {
        var record := SaveStateAsync(clock);
        return M.FinalSave(record);
      }
      pendingShutdown := true;
      return M.Deferred;
    }

    // ----- Loading -----

    /** The fields that loading works on agree with a state of the initialisation. */
    ghost predicate At(s: Loading, task: MultiTask<bool, InitError>)
      requires Valid()
      reads this, rateLimitingHistory, task
    {
      && View() == s.m && accountId == s.accountId
      && lastSaveTimeSecs == s.lastSaveTime && lastSaveExpirySecs == s.lastSaveExpiry
      && task.View() == s.task
    }

    /** The operations that the callback starts, and whether it leaves an error for the deletion callbacks. */
    method FileLoadCb(ghost s: Loading, task: MultiTask<bool, InitError>, file: File, result: ReadResult, clock: M.Clock)
      returns (launched: seq<Operation>, dataError: bool)
      requires Valid() && task.Valid() && At(s, task)
      modifies this, task
      ensures Valid() && task.Valid()
      ensures At(FileLoaded(s, file, result, clock), task)
      ensures FileLoaded(s, file, result, clock).outstanding ==
              s.outstanding - multiset{Load(file)} + multiset(launched)
      ensures FileLoaded(s, file, result, clock).dataError == (s.dataError || dataError)
    {
      LoadedCases(s, file, result, clock);
      launched, dataError := [], false;
      if task.HadError() {
        task.ReturnError(AlreadyFailed);
        return;
      }
      if result.Unreadable? {
        task.ReturnError(ReadFailed);
        return;
      }
      launched, dataError := FileRead(s.(outstanding := s.outstanding - multiset{Load(file)}), task, file, result, clock);
    }

    /** The part of the callback that depends on the file. */
    method FileRead(ghost s: Loading, task: MultiTask<bool, InitError>, file: File, result: ReadResult, clock: M.Clock)
      returns (launched: seq<Operation>, dataError: bool)
      requires Valid() && task.Valid() && At(s, task) && !result.Unreadable?
      modifies this, task
      ensures Valid() && task.Valid()
      ensures At(InitProtocol.FileRead(s, file, result, clock), task)
      ensures InitProtocol.FileRead(s, file, result, clock).outstanding == s.outstanding + multiset(launched)
      ensures InitProtocol.FileRead(s, file, result, clock).dataError == (s.dataError || dataError)
    {
      launched, dataError := [], false;
      ghost var s1 := s.(expiryReadAt := Some(clock));
      match file {
        case ClockTime => launched, dataError := ClockTimeCb(s, task, result, clock);
        case ExpiryTime => launched, dataError := ExpiryTimeCb(s1, task, result, clock);
        case ExpirySeconds => launched, dataError := ExpirySecondsCb(s1, task, result, clock);
        case UsedCodesFile => launched, dataError := UsedCodesCb(s, task, result);
        case KeyFile => KeyCb(s, task, result);
        case AccountIdFile => AccountIdCb(s, task, result);
      }
    }

    method KeyCb(ghost s: Loading, task: MultiTask<bool, InitError>, result: ReadResult)
      requires Valid() && task.Valid() && At(s, task) && !result.Unreadable?
      modifies this`enabled, this`keyBytes, task
      ensures Valid() && task.Valid() && At(KeyLoaded(s, result), task)
    {
      if result.NotFound? {
        enabled := false;
        keyBytes := seq(Codes.KEY_LENGTH_BYTES_MINIMUM, _ => 0);
      } else {
        keyBytes := result.data;
      }
      task.ReturnBoolean(true);
    }

    method AccountIdCb(ghost s: Loading, task: MultiTask<bool, InitError>, result: ReadResult)
      requires Valid() && task.Valid() && At(s, task) && !result.Unreadable?
      modifies this`accountId, task
      ensures Valid() && task.Valid() && At(AccountIdLoaded(s, result), task)
    {
      if !result.NotFound? {
        accountId := CString(result.data);
      }
      task.ReturnBoolean(true);
    }

    method ClockTimeCb(ghost s: Loading, task: MultiTask<bool, InitError>, result: ReadResult, clock: M.Clock)
      returns (launched: seq<Operation>, dataError: bool)
      requires Valid() && task.Valid() && At(s, task)
      modifies this, task
      ensures Valid() && task.Valid()
      ensures At(ClockTimeLoaded(s, result, clock), task)
      ensures ClockTimeLoaded(s, result, clock).outstanding == s.outstanding + multiset(launched)
      ensures ClockTimeLoaded(s, result, clock).dataError == (s.dataError || dataError)
    {
      var op := Load(if result.NotFound? then ExpiryTime else ExpirySeconds);
      task.Increment();
      ghost var s1 := Launched(s, op);
      launched, dataError := ClockTimeRead(s1, task, if result.Contents? then result.data else [], clock);
      Compose(s.outstanding, [op], launched);
      launched := [op] + launched;
    }

    /** The rest of the callback, once the next read has been started. */
    method ClockTimeRead(ghost s: Loading, task: MultiTask<bool, InitError>, data: seq<byte>, clock: M.Clock)
      returns (launched: seq<Operation>, dataError: bool)
      requires Valid() && task.Valid() && At(s, task)
      modifies this, task
      ensures Valid() && task.Valid()
      ensures At(ClockTimeKnown(s, data, clock), task)
      ensures ClockTimeKnown(s, data, clock).outstanding == s.outstanding + multiset(launched)
      ensures ClockTimeKnown(s, data, clock).dataError == (s.dataError || dataError)
    {
      dataError := false;
      if data == [] {
        launched := FinishDeduction(s, task, clock);
      } else if |data| != 8 {
        task.Increment();
        launched, dataError := [Delete(ClockTime)], true;
      } else {
        lastSaveTimeSecs := Some(DecodeUint64(data));
        launched := FinishDeduction(s.(lastSaveTime := Some(DecodeUint64(data))), task, clock);
      }
    }

    method ExpiryTimeCb(ghost s: Loading, task: MultiTask<bool, InitError>, result: ReadResult, clock: M.Clock)
      returns (launched: seq<Operation>, dataError: bool)
      requires Valid() && task.Valid() && At(s, task)
      modifies this, task
      ensures Valid() && task.Valid()
      ensures At(ExpiryTimeLoaded(s, result, clock), task)
      ensures ExpiryTimeLoaded(s, result, clock).outstanding == s.outstanding + multiset(launched)
      ensures ExpiryTimeLoaded(s, result, clock).dataError == (s.dataError || dataError)
    {
      var data := if result.Contents? then result.data else [];
      dataError := false;
      if data == [] {
        launched := SetInitialExpiry(s, task, clock, 0);
        task.ReturnBoolean(true);
      } else if |data| != 8 {
        task.Increment();
        launched, dataError := [Delete(ExpiryTime)], true;
      } else {
        launched := ConvertExpiryTime(s, task, DecodeUint64(data), clock);
      }
    }

    /** An expiry time in the legacy format becomes credit, and its file is deleted. */
    method ConvertExpiryTime(ghost s: Loading, task: MultiTask<bool, InitError>, wallExpiry: uint64, clock: M.Clock)
      returns (launched: seq<Operation>)
      requires Valid() && task.Valid() && At(s, task)
      modifies this`expiryTimeSecs, this`expiry, this`pendingInternalSaveStateCalls, task
      ensures Valid() && task.Valid()
      ensures At(ExpiryTimeConverted(s, wallExpiry, clock), task)
      ensures ExpiryTimeConverted(s, wallExpiry, clock).outstanding == s.outstanding + multiset(launched)
      ensures ExpiryTimeConverted(s, wallExpiry, clock).dataError == s.dataError
    {
      var span := if wallExpiry > clock.wall then wallExpiry - clock.wall else 0;
      launched := SetInitialExpiry(s, task, clock, span);
      task.Increment();
      Compose(s.outstanding, launched, [Delete(ExpiryTime)]);
      launched := launched + [Delete(ExpiryTime)];
      task.ReturnBoolean(true);
    }

    method ExpirySecondsCb(ghost s: Loading, task: MultiTask<bool, InitError>, result: ReadResult, clock: M.Clock)
      returns (launched: seq<Operation>, dataError: bool)
      requires Valid() && task.Valid() && At(s, task)
      modifies this, task
      ensures Valid() && task.Valid()
      ensures At(ExpirySecondsLoaded(s, result, clock), task)
      ensures ExpirySecondsLoaded(s, result, clock).outstanding == s.outstanding + multiset(launched)
      ensures ExpirySecondsLoaded(s, result, clock).dataError == (s.dataError || dataError)
    {
      var data := if result.Contents? then result.data else [];
      dataError := false;
      if data == [] {
        launched := SetInitialExpiry(s, task, clock, 0);
        var saves := FinishDeduction(WithInitialExpiry(s, clock, 0), task, clock);
        Compose(s.outstanding, launched, saves);
        launched := launched + saves;
      } else if |data| != 8 {
        task.Increment();
        launched, dataError := [Delete(ExpirySeconds)], true;
      } else {
        lastSaveExpirySecs := Some(DecodeUint64(data));
        launched := FinishDeduction(s.(lastSaveExpiry := Some(DecodeUint64(data))), task, clock);
      }
    }

    method UsedCodesCb(ghost s: Loading, task: MultiTask<bool, InitError>, result: ReadResult)
      returns (launched: seq<Operation>, dataError: bool)
      requires Valid() && task.Valid() && At(s, task)
      modifies this, task
      ensures Valid() && task.Valid()
      ensures At(UsedCodesLoaded(s, result), task)
      ensures UsedCodesLoaded(s, result).outstanding == s.outstanding + multiset(launched)
      ensures UsedCodesLoaded(s, result).dataError == (s.dataError || dataError)
    {
      var data := if result.Contents? then result.data else [];
      launched, dataError := [], false;
      if data == [] {
        usedCodes := [];
      } else {
        var valid := ValidateUsedCodes(data);
        if !valid {
          task.Increment();
          return [Delete(UsedCodesFile)], true;
        }
        usedCodes := Sort(Entries(data));
      }
      task.ReturnBoolean(true);
    }

    /** Setting the expiry time during initialisation. */
    method SetInitialExpiry(ghost s: Loading, task: MultiTask<bool, InitError>, clock: M.Clock, span: uint64)
      returns (launched: seq<Operation>)
      requires Valid() && task.Valid() && At(s, task)
      modifies this`expiryTimeSecs, this`expiry, this`pendingInternalSaveStateCalls, task
      ensures Valid() && task.Valid()
      ensures At(WithInitialExpiry(s, clock, span), task)
      ensures WithInitialExpiry(s, clock, span).outstanding == s.outstanding + multiset(launched)
    {
      var _, saved, _ := SetExpiryTime(task, true, clock, clock.boot, span, true);
      launched := if saved then [SaveState] else [];
    }

    /** Once both numbers have been loaded: consume the credit for the time the machine was off. */
    method DeduceExpiryTime(ghost s: Loading, task: MultiTask<bool, InitError>, clock: M.Clock)
      returns (launched: seq<Operation>)
      requires Valid() && task.Valid() && At(s, task)
      modifies this`expiryTimeSecs, this`expiry, this`pendingInternalSaveStateCalls, task
      ensures Valid() && task.Valid()
      ensures At(Deduced(s, clock), task)
      ensures Deduced(s, clock).outstanding == s.outstanding + multiset(launched)
    {
      launched := [];
      if lastSaveTimeSecs.None? || lastSaveExpirySecs.None? {
        return;
      }
      var credit := CreditAfter(lastSaveExpirySecs.value, lastSaveTimeSecs.value, clock.wall);
      launched := SetInitialExpiry(s, task, clock, credit);
    }

    /** What is left of the saved credit once the time since the save has been charged. */
    method CreditAfter(saved: uint64, savedAt: uint64, wall: Seconds) returns (credit: uint64)
      ensures credit == ReloadedCredit(saved, savedAt, wall)
    {
      credit := saved;
      if savedAt <= wall {
        var unaccounted := wall - savedAt;
        if unaccounted > credit {
          credit := 0;
        } else {
          credit := credit - unaccounted;
          if BOGUS_CREDIT_LOWER_LIMIT_SECS < credit && credit < BOGUS_CREDIT_UPPER_LIMIT_SECS {
            credit := 31 * 24 * 60 * 60;
          }
        }
      }
    }

    /** Every callback that may have been the last to know a number ends like this. */
    method FinishDeduction(ghost s: Loading, task: MultiTask<bool, InitError>, clock: M.Clock)
      returns (launched: seq<Operation>)
      requires Valid() && task.Valid() && At(s, task)
      modifies this`expiryTimeSecs, this`expiry, this`pendingInternalSaveStateCalls, task
      ensures Valid() && task.Valid()
      ensures At(Finished(Deduced(s, clock)), task)
      ensures Finished(Deduced(s, clock)).outstanding == s.outstanding + multiset(launched)
      ensures Finished(Deduced(s, clock)).dataError == s.dataError
    {
      launched := DeduceExpiryTime(s, task, clock);
      task.ReturnBoolean(true);
    }

    /** The length check and the loop over the periods. */
    method ValidateUsedCodes(data: seq<byte>) returns (valid: bool)
      ensures valid <==> Decode(data).Success?
    {
      if |data| % 2 != 0 {
        return false;
      }
      for i := 0 to |data| / 2
        invariant forall j :: 0 <= j < i ==> Codes.ValidPeriod(data[2 * j + 1])
      {
        EntryAt(data, i);
        if !Codes.ValidPeriod(data[2 * i + 1]) {
          return false;
        }
      }
      forall j | 0 <= j < |Entries(data)|
        ensures Codes.ValidPeriod(Entries(data)[j].period)
      {
        EntriesLength(data);
        EntryAt(data, j);
      }
      return true;
    }
  }

  lemma LoadedCases(s: Loading, file: File, result: ReadResult, clock: M.Clock)
    ensures var s0 := s.(outstanding := s.outstanding - multiset{Load(file)}, failed := s.failed || result.Unreadable?);
            FileLoaded(s, file, result, clock) ==
            if s.task.HadError() then Failed(s0, AlreadyFailed)
            else if result.Unreadable? then Failed(s0, ReadFailed)
            else InitProtocol.FileRead(s0, file, result, clock)
  {
  }

  lemma Compose(o: multiset<Operation>, first: seq<Operation>, second: seq<Operation>)
    ensures o + multiset(first) + multiset(second) == o + multiset(first + second)
  {
  }
}
