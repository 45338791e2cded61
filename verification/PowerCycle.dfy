/**
 * Switching off and on again: a shutdown of ShutdownProtocol followed by an
 * initialisation of InitProtocol on the files that it left.
 */
module PowerCycle {
  import opened Integers
  import opened Wrappers
  import opened UsedCodes
  import opened Credit
  import opened ManagerState
  import opened InitProtocol
  import ShutdownProtocol
  import World
  import Codes

  /** The three state files hold a record; a save of an empty list deletes its file. */
  predicate Hold(files: Files, r: Record) {
    && files(ClockTime) == Contents(EncodeUint64(r.wall))
    && files(ExpirySeconds) == Contents(EncodeUint64(r.credit))
    && files(UsedCodesFile) == if r.used == [] then NotFound else Contents(Encode(r.used))
  }

  // ----- A saved state always loads -----

  lemma UsedCodesLoad(files: Files, r: Record)
    requires Hold(files, r) && WellFormed(r.used)
    ensures UsedFrom(files) == Success(r.used)
  {
    SavedListReloads(r.used);
    if r.used != [] {
      EntriesOfEncoding(r.used);
      assert |Encode(r.used)| == 2 * |r.used|;
    }
  }

  /** No malformed file, and the old expiry file is left alone. */
  predicate Clean(s: Loading) {
    s.malformed == 0 && Load(ExpiryTime) !in s.outstanding
  }

  lemma LoadStaysClean(files: Files, r: Record, s: Loading, file: File, clock: Clock)
    requires Hold(files, r) && WellFormed(r.used)
    requires Clean(s) && Load(file) in s.outstanding && !s.task.HadError() && !files(file).Unreadable?
    ensures Clean(FileLoaded(s, file, files(file), clock))
  {
    var s0 := s.(outstanding := s.outstanding - multiset{Load(file)});
    var s1 := s0.(expiryReadAt := Some(clock));
    match file
    case ClockTime =>
      ClockTimeLoads(s0, files(file), clock);
      LaunchEffect(s0, ExpirySeconds);
    case ExpirySeconds => ExpirySecondsLoads(s1, files(file), clock);
    case UsedCodesFile =>
      UsedCodesLoad(files, r);
      UsedCodesLoads(s0, files(file));
    case KeyFile =>
    case AccountIdFile =>
  }

  lemma StepStaysClean(files: Files, r: Record, s: Loading, c: Callback)
    requires Hold(files, r) && WellFormed(r.used) && Clean(s) && OperationOf(c) in s.outstanding
    ensures Clean(InitProtocol.Step(files, s, c))
  {
    match c
    case OnLoad(file, clock) =>
      if !s.task.HadError() && !files(file).Unreadable? {
        LoadStaysClean(files, r, s, file, clock);
      }
    case OnDelete(_, _) =>
    case OnSave(_) =>
  }

  lemma {:induction false} RunStaysClean(files: Files, r: Record, enabled: bool, cs: seq<Callback>)
    requires Hold(files, r) && WellFormed(r.used) && Schedule(files, enabled, cs)
    ensures Clean(InitProtocol.Run(files, enabled, cs))
  {
    if cs == [] {
    } else {
      var init, c := cs[..|cs| - 1], cs[|cs| - 1];
      RunStaysClean(files, r, enabled, init);
      StepStaysClean(files, r, InitProtocol.Run(files, enabled, init), c);
    }
  }

  /** Two managers have the same list, expiry time and, if there is credit, timer. */
  predicate SameCredit(m: Manager, booted: Manager, read: Clock) {
    && m.used == booted.used && m.expiry == booted.expiry
    && (read.boot < m.expiry ==> m.timer == booted.timer)
  }

  lemma LoadedAsBooted(files: Files, r: Record, w: World.World, early: bool, m: Manager, read: Clock)
    requires Hold(files, r) && WellFormed(r.used)
    requires m.used == r.used && m.expiry == InitialExpiry(files, read) && Watched(m, read)
    ensures SameCredit(m, World.Booted(w, r, read, early).m, read)
  {
    SavedListReloads(r.used);
    Uint64RoundTrip(r.wall);
    Uint64RoundTrip(r.credit);
  }

  /**
   * Whatever the order of the callbacks, initialising from a saved state succeeds
   * once everything has finished and no file operation has failed. It then has
   * the saved list of used codes, and the expiry time and timer that World.Booted
   * predicts.
   */
  lemma SavedStateLoads(files: Files, r: Record, w: World.World, early: bool, enabled: bool, cs: seq<Callback>)
    requires Hold(files, r) && WellFormed(r.used) && Schedule(files, enabled, cs)
    ensures var s := InitProtocol.Run(files, enabled, cs);
            && (s.task.returned == [Success(true)] <==> s.outstanding == multiset{} && !s.failed)
            && (s.task.returned == [Success(true)] ==>
                  && s.m.used == r.used && s.expiryReadAt.Some?
                  && SameCredit(s.m, World.Booted(w, r, s.expiryReadAt.value, early).m, s.expiryReadAt.value))
  {
    RunStaysClean(files, r, enabled, cs);
    InitCompletesExactlyOnce(files, enabled, cs);
    if InitProtocol.Run(files, enabled, cs).task.returned == [Success(true)] {
      LoadedFrom(files, r, w, early, enabled, cs);
    }
  }

  lemma LoadedFrom(files: Files, r: Record, w: World.World, early: bool, enabled: bool, cs: seq<Callback>)
    requires Hold(files, r) && WellFormed(r.used) && Schedule(files, enabled, cs)
    requires InitProtocol.Run(files, enabled, cs).task.returned == [Success(true)]
    ensures var s := InitProtocol.Run(files, enabled, cs);
            && s.m.used == r.used && s.expiryReadAt.Some?
            && SameCredit(s.m, World.Booted(w, r, s.expiryReadAt.value, early).m, s.expiryReadAt.value)
  {
    var s := InitProtocol.Run(files, enabled, cs);
    InitLoadsTheFiles(files, enabled, cs);
    LoadedCreditIsWatched(files, enabled, cs);
    UsedCodesLoad(files, r);
    LoadedAsBooted(files, r, w, early, s.m, s.expiryReadAt.value);
  }

  // ----- A save that loading starts too early -----

  /**
   * If the two files of the credit are loaded first, a save of the expiry time starts
   * while the list of used codes is still empty: what it writes deletes the list.
   * This is the early boot of World.
   */
  lemma LoadingMaySaveEarly(files: Files, r: Record, clock: Clock)
    requires Hold(files, r) && SaturatingAdd(clock.boot, ReloadedCredit(r.credit, r.wall, clock.wall)) != 0
    ensures var cs := [OnLoad(ClockTime, clock), OnLoad(ExpirySeconds, clock)];
            var s := InitProtocol.Run(files, true, cs);
            && Schedule(files, true, cs)
            && SaveState in s.outstanding && Load(UsedCodesFile) in s.outstanding
            && RecordOf(s.m, clock).used == []
  {
    TwoCallbacks(files, true, OnLoad(ClockTime, clock), OnLoad(ExpirySeconds, clock));
    ClockTimeFirst(files, r, clock);
    ExpirySecondsSecond(files, r, FileLoaded(Started(true), ClockTime, files(ClockTime), clock), clock);
  }

  lemma TwoCallbacks(files: Files, enabled: bool, c1: Callback, c2: Callback)
    ensures var s1 := InitProtocol.Step(files, Started(enabled), c1);
            && InitProtocol.Run(files, enabled, [c1, c2]) == InitProtocol.Step(files, s1, c2)
            && (Schedule(files, enabled, [c1, c2]) <==>
                  OperationOf(c1) in Started(enabled).outstanding && OperationOf(c2) in s1.outstanding)
  {
    assert [c1, c2][..1] == [c1] && [c1][..0] == [];
    assert InitProtocol.Run(files, enabled, [c1]) == InitProtocol.Step(files, Started(enabled), c1);
    assert Schedule(files, enabled, [c1]) <==> OperationOf(c1) in Started(enabled).outstanding;
  }

  lemma ClockTimeFirst(files: Files, r: Record, clock: Clock)
    requires Hold(files, r)
    ensures var s := FileLoaded(Started(true), ClockTime, files(ClockTime), clock);
            && s.lastSaveTime == Some(r.wall) && !s.task.HadError() && s.task.pending > 0
            && s.m.enabled && s.m.expiry == 0 && s.m.used == []
            && Load(ExpirySeconds) in s.outstanding && Load(UsedCodesFile) in s.outstanding
  {
    Uint64RoundTrip(r.wall);
  }

  lemma ExpirySecondsSecond(files: Files, r: Record, s: Loading, clock: Clock)
    requires Hold(files, r) && SaturatingAdd(clock.boot, ReloadedCredit(r.credit, r.wall, clock.wall)) != 0
    requires s.lastSaveTime == Some(r.wall) && !s.task.HadError() && s.m.enabled && s.m.expiry == 0 && s.m.used == []
    requires Load(UsedCodesFile) in s.outstanding
    ensures var t := FileLoaded(s, ExpirySeconds, files(ExpirySeconds), clock);
            SaveState in t.outstanding && Load(UsedCodesFile) in t.outstanding && RecordOf(t.m, clock).used == []
  {
    Uint64RoundTrip(r.credit);
  }

  // ----- Shutdown, then initialisation -----

  lemma {:induction false} UsedStaysWellFormed(hmac: Codes.Hmac, s: ShutdownProtocol.System, es: seq<ShutdownProtocol.Event>)
    requires WellFormed(s.m.used)
    ensures WellFormed(ShutdownProtocol.Run(hmac, s, es).m.used)
    ensures forall x :: x in s.m.used ==> x in ShutdownProtocol.Run(hmac, s, es).m.used
  {
    if es == [] {
    } else {
      UsedStaysWellFormed(hmac, s, es[..|es| - 1]);
      StepKeepsUsed(hmac, ShutdownProtocol.Run(hmac, s, es[..|es| - 1]), es[|es| - 1]);
    }
  }

  lemma StepKeepsUsed(hmac: Codes.Hmac, s: ShutdownProtocol.System, e: ShutdownProtocol.Event)
    requires WellFormed(s.m.used)
    ensures WellFormed(ShutdownProtocol.Step(hmac, s, e).m.used)
    ensures forall x :: x in s.m.used ==> x in ShutdownProtocol.Step(hmac, s, e).m.used
  {
    if e.AddCode? && AddCode(hmac, s.m, e.clock, e.text).1.Success? {
      AppendKeepsOrder(s.m.used, Entered(hmac, s.m.key, e.text).value);
    }
  }

  /**
   * Over a power cycle no used code becomes usable again: after any run that ends in
   * a completed shutdown without a failed file operation, and any successful
   * initialisation from the files it left, the list of used codes is the same, and
   * every code whose pair is on it is refused, at any time and in any state of the
   * limiter.
   */
  lemma UsedCodesSurvivePowerCycle(hmac: Codes.Hmac, s: ShutdownProtocol.System, es: seq<ShutdownProtocol.Event>,
                                   files: Files, enabled: bool, cs: seq<Callback>, clock: Clock, text: string)
    requires ShutdownProtocol.Initialised(s) && WellFormed(s.m.used)
    requires var t := ShutdownProtocol.Run(hmac, s, es);
             !t.failed && t.completions != [] && Hold(files, t.disk)
    requires Schedule(files, enabled, cs) && InitProtocol.Run(files, enabled, cs).task.returned == [Success(true)]
    ensures var t, loaded := ShutdownProtocol.Run(hmac, s, es).m, InitProtocol.Run(files, enabled, cs).m;
            && loaded.used == t.used && WellFormed(loaded.used)
            && forall x :: IsCodeFor(hmac, loaded.key, text, x) && (x in s.m.used || x in t.used) ==>
                 AddCode(hmac, loaded, clock, text).1.Failure?
  {
    var t := ShutdownProtocol.Run(hmac, s, es);
    ShutdownProtocol.CleanShutdownKeepsUsedCodes(hmac, s, es);
    UsedStaysWellFormed(hmac, s, es);
    InitLoadsTheFiles(files, enabled, cs);
    UsedCodesLoad(files, t.disk);
    var loaded := InitProtocol.Run(files, enabled, cs).m;
    forall x | IsCodeFor(hmac, loaded.key, text, x) && (x in s.m.used || x in t.m.used)
      ensures AddCode(hmac, loaded, clock, text).1.Failure?
    {
      EnteredIffIssued(hmac, loaded.key, text, x);
    }
  }
}
