/**
 * One machine over many boots: the manager, both clocks, the readings kept by the
 * clock-jump detector, and every save that was ever started. The wall clock may
 * be set at any moment; the manager only hears of it when the detector reports.
 */
module World {
  import opened Integers
  import opened Wrappers
  import opened UsedCodes
  import opened Credit
  import opened ManagerState
  import RateLimit
  import ClockJump
  import Codes

  /** Before detection starts, `detector` is the pair of readings at which the expiry time was loaded. */
  datatype World = World(m: Manager, clock: Clock, detector: Clock, detecting: bool, saves: seq<Record>)

  datatype Event =
    | Elapse(secs: nat)
    | SetWallClock(wall: Seconds)
    | StartDetection                // once per boot, after the files were loaded
    | ReportJump                    // the clock-jump callback
    | EnterCode(text: string)
    | Clear
    | FinalSave                     // the save of a shutdown with no other save in flight
    // Load the files of the given save; a save started by the load may run
    // before the list of used codes has been read.
    | Reboot(source: nat, clock: Clock, early: bool)

  /** How far the wall clock has jumped since the readings of the detector. */
  function Pending(w: World): int {
    ClockJump.Delta(w.detector, w.clock)
  }

  function CreditOf(w: World): uint64 {
    CreditLeft(w.m.expiry, w.clock.boot)
  }

  /** A manager before any of its files is loaded. */
  function Unloaded(m: Manager): Manager {
    Manager(m.enabled, false, m.key, 0, None, [], RateLimit.CLEARED, 0, false)
  }

  /** What loading a saved list gives; a list that does not load leaves the manager without one. */
  function LoadedUsed(r: Record): seq<UsedCode> {
    match Decode(Encode(r.used))
    case Success(s) => s
    case Failure(_) => []
  }

  function WithSave(saves: seq<Record>, fx: Effects): seq<Record> {
    match fx.saved
    case Some(r) => saves + [r]
    case None => saves
  }

  predicate Possible(w: World, e: Event) {
    match e
    case Elapse(secs) => w.clock.boot + secs <= MAX_INT64 && w.clock.wall + secs <= MAX_INT64
    case StartDetection => !w.detecting
    case ReportJump => w.detecting
    case Reboot(source, _, _) => source < |w.saves|
    case _ => true
  }

  function Booted(w: World, r: Record, clock: Clock, early: bool): World {
    var m := WithExpiry(Unloaded(w.m), clock, clock.boot, ReloadedCredit(r.credit, r.wall, clock.wall));
    var atSave := if early then m else m.(used := LoadedUsed(r));
    var saves := if NotifiesExpiry(Unloaded(w.m), m) then w.saves + [RecordOf(atSave, clock)] else w.saves;
    World(m.(used := LoadedUsed(r)), clock, clock, false, saves)
  }

  /** An event that is not possible changes nothing. */
  function Step(hmac: Codes.Hmac, w: World, e: Event): World {
    if !Possible(w, e) then w
    else
      match e
      case Elapse(secs) =>
        w.(clock := Clock(w.clock.boot + secs, w.clock.wall + secs))
      case SetWallClock(wall) =>
        w.(clock := Clock(w.clock.boot, wall))
      case StartDetection =>
        w.(detector := w.clock, detecting := true)
      case ReportJump =>
        var (m, fx) := WallclockTimeChanged(w.m, w.clock, Pending(w));
        w.(m := m, detector := w.clock, saves := WithSave(w.saves, fx))
      case EnterCode(text) =>
        var (m, _, fx) := AddCode(hmac, w.m, w.clock, text);
        w.(m := m, saves := WithSave(w.saves, fx))
      case Clear =>
        var (m, _, fx) := ClearCode(w.m, w.clock);
        w.(m := m, saves := WithSave(w.saves, fx))
      case FinalSave =>
        w.(saves := w.saves + [RecordOf(w.m, w.clock)])
      case Reboot(source, clock, early) =>
        Booted(w, w.saves[source], clock, early)
  }

  function Run(hmac: Codes.Hmac, w: World, es: seq<Event>): World {
    if es == [] then w else Step(hmac, Run(hmac, w, es[..|es| - 1]), es[|es| - 1])
  }

  predicate WithinOneBoot(es: seq<Event>) {
    forall i :: 0 <= i < |es| ==> !es[i].Reboot?
  }

  // ----- What a run adds up to -----

  /** The pair accepted by an event, if any. */
  function AcceptedBy(hmac: Codes.Hmac, w: World, e: Event): Option<UsedCode>
    ensures AcceptedBy(hmac, w, e).Some? ==> Codes.ValidPeriod(AcceptedBy(hmac, w, e).value.period)
  {
    if e.EnterCode? && AddCode(hmac, w.m, w.clock, e.text).1.Success? then
      EnteredIsValid(hmac, w.m.key, e.text);
      Some(Entered(hmac, w.m.key, e.text).value)
    else None
  }

  /** The pairs accepted in a run, in order. */
  function AcceptedIn(hmac: Codes.Hmac, w: World, es: seq<Event>): seq<UsedCode>
    ensures ValidPeriods(AcceptedIn(hmac, w, es))
  {
    if es == [] then []
    else
      var init := es[..|es| - 1];
      AcceptedIn(hmac, w, init) +
      match AcceptedBy(hmac, Run(hmac, w, init), es[|es| - 1]) {
        case Some(x) => [x]
        case None => []
      }
  }

  /** All the seconds that a sequence of codes stands for. */
  function TotalSpan(s: seq<UsedCode>): nat
    requires ValidPeriods(s)
  {
    if s == [] then 0 else TotalSpan(s[..|s| - 1]) + Span(s[|s| - 1].period)
  }

  /** The span added by an event. */
  function GrantedBy(hmac: Codes.Hmac, w: World, e: Event): nat {
    match AcceptedBy(hmac, w, e)
    case Some(x) => Span(x.period)
    case None => 0
  }

  function GrantedIn(hmac: Codes.Hmac, w: World, es: seq<Event>): nat {
    TotalSpan(AcceptedIn(hmac, w, es))
  }

  lemma GrantedStep(hmac: Codes.Hmac, w: World, es: seq<Event>)
    requires es != []
    ensures var init := es[..|es| - 1];
            GrantedIn(hmac, w, es) == GrantedIn(hmac, w, init) + GrantedBy(hmac, Run(hmac, w, init), es[|es| - 1])
  {
    var init := es[..|es| - 1];
    match AcceptedBy(hmac, Run(hmac, w, init), es[|es| - 1])
    case Some(x) =>
      TotalSpanAppend(AcceptedIn(hmac, w, init), x);
    case None =>
      assert AcceptedIn(hmac, w, es) == AcceptedIn(hmac, w, init);
  }

  lemma TotalSpanAppend(s: seq<UsedCode>, x: UsedCode)
    requires ValidPeriods(s) && Codes.ValidPeriod(x.period)
    ensures ValidPeriods(s + [x]) && TotalSpan(s + [x]) == TotalSpan(s) + Span(x.period)
  {
    assert (s + [x])[..|s|] == s;
  }

  // ----- What each event does to the credit -----

  lemma ElapseCredit(hmac: Codes.Hmac, w: World, secs: nat)
    requires Possible(w, Elapse(secs))
    ensures CreditOf(Step(hmac, w, Elapse(secs))) == Charged(CreditOf(w), secs)
  {
  }

  lemma ReportCredit(hmac: Codes.Hmac, w: World)
    requires w.detecting
    ensures CreditOf(Step(hmac, w, ReportJump)) == Charged(CreditOf(w), Max(0, Pending(w)))
  {
  }

  lemma CodeCredit(hmac: Codes.Hmac, w: World, text: string)
    ensures CreditOf(Step(hmac, w, EnterCode(text))) ==
            match AcceptedBy(hmac, w, EnterCode(text)) {
              case None => CreditOf(w)
              case Some(x) => Min(CreditOf(w) + Span(x.period), MAX_UINT64 - w.clock.boot)
            }
  {
  }

  lemma RebootCredit(hmac: Codes.Hmac, w: World, source: nat, clock: Clock, early: bool)
    requires source < |w.saves|
    ensures var r := w.saves[source];
            CreditOf(Step(hmac, w, Reboot(source, clock, early))) ==
            Min(ReloadedCredit(r.credit, r.wall, clock.wall), MAX_UINT64 - clock.boot)
  {
  }

  /** Every new save records the credit and the wall clock of the state it leaves behind. */
  lemma NewSavesAreCurrent(hmac: Codes.Hmac, w: World, e: Event)
    ensures var w' := Step(hmac, w, e);
            && w.saves <= w'.saves
            && |w'.saves| <= |w.saves| + 1
            && forall i :: |w.saves| <= i < |w'.saves| ==>
                 w'.saves[i].credit == CreditOf(w') && w'.saves[i].wall == w'.clock.wall
  {
  }
}
