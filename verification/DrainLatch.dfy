/**
 * The drain coordinator: concurrent `run_drain` callers sharing one drain state, interleaved at
 * every atomic operation.  Each may also be dropped wherever the code awaits, and the coordinator may
 * panic in any code it is given to run.
 */
module DrainLatch {
  import opened Basics

  datatype Outcome = Clean | TimedOut

  datatype XdpOutcome = XdpClean | XdpTimedOut | XdpFailed | NotAttempted

  /** A root handle, or a child handle with a connection token of its own. */
  datatype Handle = Root | Child(id: nat)

  /**
   * What a caller asks for: a readiness settle, a listener cancel, a jitter before connections are
   * cancelled, a bounded in-flight wait, an XDP detach closure and a detach deadline.
   */
  datatype Spec = Spec(
    settles: bool, cancelListeners: bool, jitters: bool, waitsInFlight: bool, detach: bool, detachDeadline: bool)

  /** Per-phase durations and outcomes. */
  datatype Report = Report(
    mark: nat, settle: nat, listener: nat,
    inFlight: (nat, Outcome), remaining: nat, xdp: (nat, XdpOutcome), total: (nat, Outcome))

  const EMPTY_REPORT := Report(0, 0, 0, (0, Clean), 0, (0, NotAttempted), (0, Clean))

  /** What the coordinator does, in source order. */
  datatype Action =
    | MarkDraining
    | ReadinessSettle
    | ListenerCancel(fired: bool)
    | CloseTracker
    | TokenCancel(handle: Handle)
    | InFlightWait
    | XdpDetach(attempted: bool)
    | Summarise
    | Publish
    | Complete

  /** `Running(n, r)`: the winner with n actions done; `Stopped`: a winner dropped or panicked there. */
  datatype Pc =
    | Enter
    | Waiting
    | Reading
    | Got(report: Report)
    | GotStub
    | Gone
    | Running(done: nat, building: Report)
    | Won(report: Report)
    | Stopped(done: nat, building: Report)

  datatype Caller = Caller(handle: Handle, spec: Spec, pc: Pc)

  /** The shared drain state, the callers, and the history of actions with who did them. */
  datatype World = World(
    started: bool, completed: bool, report: Option<Report>,
    callers: seq<Caller>, log: seq<(nat, Action)>)

  /** What the environment contributes to a step: a measured duration and the observed outcomes. */
  datatype Measured = Measured(duration: nat, inFlight: Outcome, remaining: nat, xdp: XdpOutcome)

  datatype Event =
    | Arrive(handle: Handle, spec: Spec)
    | Act(who: nat, measured: Measured)
    | Drop(who: nat)
    | Panic(who: nat)

  function ActionAt(c: Caller, n: nat): Action
    requires n < 10
  {
    match n
    case 0 => MarkDraining
    case 1 => ReadinessSettle
    case 2 => ListenerCancel(c.spec.cancelListeners)
    case 3 => CloseTracker
    case 4 => TokenCancel(c.handle)
    case 5 => InFlightWait
    case 6 => XdpDetach(c.spec.detach && c.spec.detachDeadline)
    case 7 => Summarise
    case 8 => Publish
    case 9 => Complete
  }

  /** The report after action `n`. */
  function Recorded(c: Caller, n: nat, r: Report, m: Measured): Report {
    match n
    case 0 => r.(mark := m.duration)
    case 1 => r.(settle := m.duration)
    case 2 => r.(listener := m.duration)
    case 5 => r.(inFlight := (m.duration, m.inFlight), remaining := m.remaining)
    case 6 => r.(xdp := (m.duration, if c.spec.detach && c.spec.detachDeadline then m.xdp else NotAttempted))
    case 7 => r.(total := (m.duration, Overall(r)))
    case _ => r
  }

  /** Clean overall exactly when the in-flight drain and the detach were. */
  function Overall(r: Report): Outcome {
    if r.inFlight.1.Clean? && (r.xdp.1.XdpClean? || r.xdp.1.NotAttempted?) then Clean else TimedOut
  }

  function Moved(w: World, who: nat, pc: Pc): World
    requires who < |w.callers|
  {
    w.(callers := w.callers[who := w.callers[who].(pc := pc)])
  }

  function CallerStep(w: World, who: nat, m: Measured): World
    requires who < |w.callers|
  {
    var c := w.callers[who];
    match c.pc
    case Enter =>
      if w.started then Moved(w, who, Waiting)
      else Moved(w, who, Running(0, EMPTY_REPORT)).(started := true)
    case Waiting => if w.completed then Moved(w, who, Reading) else w
    case Reading => Moved(w, who, if w.report.Some? then Got(w.report.value) else GotStub)
    case Running(n, r) =>
      if n >= 10 then Moved(w, who, Won(r))
      else
        var next := Moved(w, who, Running(n + 1, Recorded(c, n, r, m))).(log := w.log + [(who, ActionAt(c, n))]);
        next.(report := if n == 8 then Some(r) else w.report, completed := n == 9 || w.completed)
    case _ => w
  }

  /** The winner is at an await before its action `n`: the settle, the jitter, the in-flight wait, the detach. */
  predicate Awaits(spec: Spec, n: nat) {
    || (n == 1 && spec.settles)
    || (n == 3 && spec.jitters)
    || (n == 5 && spec.waitsInFlight)
    || (n == 6 && spec.detach && spec.detachDeadline)
  }

  /** A future is dropped before its first poll or at an await; anywhere else it runs on. */
  function Dropped(c: Caller): Pc {
    match c.pc
    case Enter => Gone
    case Waiting => Gone
    case Running(n, r) => if Awaits(c.spec, n) then Stopped(n, r) else c.pc
    case _ => c.pc
  }

  /** The mark closure, the observers and the detach future run before the report is published. */
  function Panicked(pc: Pc): Pc {
    match pc
    case Running(n, r) => if n <= 8 then Stopped(n, r) else pc
    case _ => pc
  }

  function Next(w: World, e: Event): World {
    match e
    case Arrive(handle, spec) => w.(callers := w.callers + [Caller(handle, spec, Enter)])
    case Act(who, m) => if who < |w.callers| then CallerStep(w, who, m) else w
    case Drop(who) => if who < |w.callers| then Moved(w, who, Dropped(w.callers[who])) else w
    case Panic(who) => if who < |w.callers| then Moved(w, who, Panicked(w.callers[who].pc)) else w
  }

  const NEW := World(false, false, None, [], [])

  function Run(events: seq<Event>): World {
    if events == [] then NEW else Next(Run(events[..|events| - 1]), events[|events| - 1])
  }

  // ----- the invariant

  predicate IsWinner(c: Caller) {
    c.pc.Running? || c.pc.Won? || c.pc.Stopped?
  }

  function Progress(pc: Pc): nat {
    match pc
    case Running(n, _) => n
    case Stopped(n, _) => n
    case Won(_) => 10
    case _ => 0
  }

  function Building(pc: Pc): Report {
    match pc
    case Running(_, r) => r
    case Stopped(_, r) => r
    case Won(r) => r
    case _ => EMPTY_REPORT
  }

  /** The first n actions of caller k, in order. */
  function Script(k: nat, c: Caller, n: nat): seq<(nat, Action)>
    requires n <= 10
  {
    if n == 0 then [] else Script(k, c, n - 1) + [(k, ActionAt(c, n - 1))]
  }

  /** Caller k holds the latch: the log is its script so far and nothing else was published. */
  ghost predicate LedBy(w: World, k: nat) {
    && k < |w.callers| && IsWinner(w.callers[k]) && w.started
    && (forall i :: 0 <= i < |w.callers| && i != k ==> !IsWinner(w.callers[i]))
    && Led(w, k, Progress(w.callers[k].pc), Building(w.callers[k].pc))
  }

  /** The shared state after n actions of caller k, which has built report r. */
  ghost predicate Led(w: World, k: nat, n: nat, r: Report)
    requires k < |w.callers|
  {
    && n <= 10
    && w.log == Script(k, w.callers[k], n)
    && w.report == (if n >= 9 then Some(r) else None)
    && w.completed == (n >= 10)
    && (n >= 8 ==> r.total.1 == Overall(r))
  }

  ghost predicate Unled(w: World) {
    && !w.started && !w.completed && w.report == None && w.log == []
    && forall i :: 0 <= i < |w.callers| ==> !IsWinner(w.callers[i])
  }

  /** A caller waits only for a winner, is past the wait only after completion, and holds the stored report. */
  ghost predicate LoserSound(w: World, c: Caller) {
    match c.pc
    case Waiting => w.started
    case Reading => w.completed
    case Got(r) => w.completed && w.report == Some(r)
    case GotStub => false
    case _ => true
  }

  ghost predicate Inv(w: World) {
    && (Unled(w) || exists k: nat :: LedBy(w, k))
    && (forall i :: 0 <= i < |w.callers| ==> LoserSound(w, w.callers[i]))
  }

  lemma ScriptDepends(k: nat, c: Caller, d: Caller, n: nat)
    requires n <= 10 && c.spec == d.spec && c.handle == d.handle
    ensures Script(k, c, n) == Script(k, d, n)
  {
  }

  lemma StepLed(w: World, k: nat, who: nat, m: Measured)
    requires LedBy(w, k) && who < |w.callers|
    requires forall i :: 0 <= i < |w.callers| ==> LoserSound(w, w.callers[i])
    ensures LedBy(CallerStep(w, who, m), k)
    ensures w.completed ==> CallerStep(w, who, m).completed && CallerStep(w, who, m).report == w.report
  {
    var next := CallerStep(w, who, m);
    ScriptDepends(k, w.callers[k], next.callers[k], Progress(w.callers[k].pc));
  }

  lemma StepSound(w: World, who: nat, m: Measured)
    requires Inv(w) && who < |w.callers|
    ensures Inv(CallerStep(w, who, m))
  {
    var next := CallerStep(w, who, m);
    if Unled(w) {
      if w.callers[who].pc.Enter? {
        assert LedBy(next, who);
      } else {
        assert Unled(next);
      }
    } else {
      var k: nat :| LedBy(w, k);
      StepLed(w, k, who, m);
    }
  }

  lemma ArriveSound(w: World, e: Event)
    requires Inv(w) && e.Arrive?
    ensures Inv(Next(w, e))
  {
    if !Unled(w) {
      var k: nat :| LedBy(w, k);
      assert LedBy(Next(w, e), k);
    }
  }

  lemma StopSound(w: World, e: Event)
    requires Inv(w) && (e.Drop? || e.Panic?) && e.who < |w.callers|
    ensures Inv(Next(w, e))
  {
    if !Unled(w) {
      var k: nat :| LedBy(w, k);
      ScriptDepends(k, w.callers[k], Next(w, e).callers[k], Progress(w.callers[k].pc));
      assert LedBy(Next(w, e), k);
    }
  }

  lemma NextSound(w: World, e: Event)
    requires Inv(w)
    ensures Inv(Next(w, e))
  {
    if e.Arrive? {
      ArriveSound(w, e);
    } else if e.who < |w.callers| {
      if e.Act? { StepSound(w, e.who, e.measured); } else { StopSound(w, e); }
    }
  }

  /** The invariant holds in every interleaving of any number of callers. */
  lemma {:induction false} RunSound(events: seq<Event>)
    ensures Inv(Run(events))
  {
    if events != [] {
      RunSound(events[..|events| - 1]);
      NextSound(Run(events[..|events| - 1]), events[|events| - 1]);
    }
  }

  // ----- what it means

  lemma {:induction false} ScriptEntry(k: nat, c: Caller, n: nat, j: nat)
    requires j < n <= 10
    ensures |Script(k, c, n)| == n && Script(k, c, n)[j] == (k, ActionAt(c, j))
  {
    if n > 1 {
      ScriptEntry(k, c, n - 1, if j < n - 1 then j else 0);
    }
  }

  lemma LogIsScript(w: World, k: nat)
    requires LedBy(w, k)
    ensures |w.log| == Progress(w.callers[k].pc)
    ensures forall j :: 0 <= j < |w.log| ==> j < 10 && w.log[j] == (k, ActionAt(w.callers[k], j))
  {
    var n := Progress(w.callers[k].pc);
    forall j | 0 <= j < n ensures |w.log| == n && w.log[j] == (k, ActionAt(w.callers[k], j)) {
      ScriptEntry(k, w.callers[k], n, j);
    }
    assert n == 0 ==> w.log == [];
  }

  /** Every action so far is caller k's, in the source's order, none skipped or repeated. */
  ghost predicate ActsInOrder(w: World, k: nat) {
    && |w.log| <= 10
    && (w.log != [] ==> k < |w.callers|)
    && forall j :: 0 <= j < |w.log| ==> w.log[j] == (k, ActionAt(w.callers[k], j))
  }

  /** Only one caller ever acts, and its actions happen in the source's order, none twice. */
  lemma OneRunnerInOrder(events: seq<Event>)
    ensures exists k: nat :: ActsInOrder(Run(events), k)
  {
    var w := Run(events);
    RunSound(events);
    if Unled(w) {
      assert ActsInOrder(w, 0);
    } else {
      var k: nat :| LedBy(w, k);
      LogIsScript(w, k);
      assert ActsInOrder(w, k);
    }
  }

  /** Every caller that returned, winner or not, returned one and the same report, never the stub. */
  lemma SameReport(events: seq<Event>, i: nat, j: nat)
    requires i < |Run(events).callers| && j < |Run(events).callers|
    ensures !Run(events).callers[i].pc.GotStub?
    ensures Returned(Run(events).callers[i].pc).Some? && Returned(Run(events).callers[j].pc).Some? ==>
              Returned(Run(events).callers[i].pc) == Returned(Run(events).callers[j].pc) == Run(events).report
    ensures Returned(Run(events).callers[i].pc).Some? ==> Run(events).completed
  {
    var w := Run(events);
    RunSound(events);
    assert LoserSound(w, w.callers[i]) && LoserSound(w, w.callers[j]);
    if !Unled(w) {
      var k: nat :| LedBy(w, k);
      assert i != k ==> !IsWinner(w.callers[i]);
      assert j != k ==> !IsWinner(w.callers[j]);
    }
  }

  function Returned(pc: Pc): Option<Report> {
    match pc
    case Got(r) => Some(r)
    case Won(r) => Some(r)
    case _ => None
  }

  /** Completion implies a stored report; a timed-out wait, or a detach that timed out or failed, shows in its total. */
  lemma CompletedHasReport(events: seq<Event>)
    ensures Run(events).completed ==>
              var report := Run(events).report;
              && report.Some?
              && (report.value.total.1 == TimedOut <==>
                    report.value.inFlight.1 == TimedOut || report.value.xdp.1 in {XdpTimedOut, XdpFailed})
  {
    RunSound(events);
  }

  /** The position of an action among the phases. */
  function Phase(a: Action): nat {
    match a
    case MarkDraining => 0
    case ReadinessSettle => 1
    case ListenerCancel(_) => 2
    case CloseTracker => 3
    case TokenCancel(_) => 4
    case InFlightWait => 5
    case XdpDetach(_) => 6
    case Summarise => 7
    case Publish => 8
    case Complete => 9
  }

  /** In every run action number j is that of phase j, by one caller, as its spec asks. */
  lemma PhasesInOrder(events: seq<Event>, j: nat)
    requires j < |Run(events).log|
    ensures var w := Run(events); var (k, a) := w.log[j];
      && Phase(a) == j && k < |w.callers| && k == w.log[0].0
      && (a.ListenerCancel? ==> a.fired == w.callers[k].spec.cancelListeners)
      && (a.TokenCancel? ==> a.handle == w.callers[k].handle)
      && (a.XdpDetach? ==> a.attempted == (w.callers[k].spec.detach && w.callers[k].spec.detachDeadline))
  {
    OneRunnerInOrder(events);
    var k: nat :| ActsInOrder(Run(events), k);
    assert Run(events).log[0] == (k, ActionAt(Run(events).callers[k], 0));
  }

  // ----- tokens

  /** The listener token is a child of the root token only. */
  ghost predicate ListenerCancelled(log: seq<(nat, Action)>) {
    exists j :: 0 <= j < |log| && (log[j].1 == ListenerCancel(true) || log[j].1 == TokenCancel(Root))
  }

  /**
   * When connections have been cancelled, an enabled listener cancel came earlier; listeners end
   * up cancelled exactly when that was enabled or the coordinator ran on the root handle.
   */
  lemma ListenersBeforeConnections(events: seq<Event>, j: nat)
    requires j < |Run(events).log| && Run(events).log[j].1.TokenCancel?
    ensures var w := Run(events); var k := w.log[j].0;
      && k < |w.callers| && w.log[j].1 == TokenCancel(w.callers[k].handle)
      && (w.callers[k].spec.cancelListeners ==>
            exists i :: 0 <= i < j && w.log[i] == (k, ListenerCancel(true)))
      && (ListenerCancelled(w.log) <==> w.callers[k].spec.cancelListeners || w.callers[k].handle == Root)
  {
    var w := Run(events);
    RunSound(events);
    var k: nat :| LedBy(w, k);
    LogIsScript(w, k);
    TokensOfScript(w, k, j);
  }

  lemma TokensOfScript(w: World, k: nat, j: nat)
    requires |w.log| <= 10 && k < |w.callers| && j < |w.log| && w.log[j].1.TokenCancel?
    requires forall j :: 0 <= j < |w.log| ==> w.log[j] == (k, ActionAt(w.callers[k], j))
    ensures w.log[j] == (k, TokenCancel(w.callers[k].handle))
    ensures w.callers[k].spec.cancelListeners ==> exists i :: 0 <= i < j && w.log[i] == (k, ListenerCancel(true))
    ensures ListenerCancelled(w.log) <==> w.callers[k].spec.cancelListeners || w.callers[k].handle == Root
  {
    assert j == 4;
    assert w.log[2] == (k, ListenerCancel(w.callers[k].spec.cancelListeners));
  }

  // ----- who can still return

  function RunFrom(w: World, events: seq<Event>): World {
    if events == [] then w else Next(RunFrom(w, events[..|events| - 1]), events[|events| - 1])
  }

  lemma {:induction false} RunFromConcat(w: World, a: seq<Event>, b: seq<Event>)
    ensures RunFrom(w, a + b) == RunFrom(RunFrom(w, a), b)
    decreases |b|
  {
    if b == [] {
      assert a + b == a;
    } else {
      assert (a + b)[..|a + b| - 1] == a + b[..|b| - 1];
      RunFromConcat(w, a, b[..|b| - 1]);
    }
  }

  lemma RunFromOne(w: World, e: Event)
    ensures RunFrom(w, [e]) == Next(w, e)
  {
    assert [e][..0] == [];
    assert RunFrom(w, [e][..0]) == w;
  }

  /** A winner was dropped or panicked before it completed. */
  ghost predicate Abandoned(w: World) {
    exists k: nat :: k < |w.callers| && w.callers[k].pc.Stopped?
  }

  /** Neither returned nor dropped. */
  predicate Live(pc: Pc) {
    pc.Enter? || pc.Waiting? || pc.Reading? || pc.Running?
  }

  ghost predicate CanReturn(w: World, i: nat) {
    exists more :: Delivers(w, i, more)
  }

  ghost predicate Delivers(w: World, i: nat, more: seq<Event>) {
    var later := RunFrom(w, more);
    i < |later.callers| && Returned(later.callers[i].pc).Some?
  }

  /** An abandoned drain stays abandoned, and nobody holds a report. */
  ghost predicate Stranded(w: World, k: nat) {
    && Inv(w) && LedBy(w, k) && w.callers[k].pc.Stopped? && !w.completed
    && forall i :: 0 <= i < |w.callers| ==> Returned(w.callers[i].pc).None?
  }

  lemma StrandedStays(w: World, k: nat, e: Event)
    requires Stranded(w, k)
    ensures Stranded(Next(w, e), k)
  {
    var next := Next(w, e);
    NextSound(w, e);
    assert |w.callers| <= |next.callers| && next.callers[k].pc == w.callers[k].pc;
    assert IsWinner(next.callers[k]);
    var k': nat :| LedBy(next, k');
    assert k' == k;
    assert forall i :: 0 <= i < |next.callers| ==> LoserSound(next, next.callers[i]);
  }

  /** After an abandoned drain no schedule ever lets any caller return. */
  lemma {:induction false} StrandedForEver(w: World, k: nat, more: seq<Event>)
    requires Stranded(w, k)
    ensures Stranded(RunFrom(w, more), k)
  {
    if more != [] {
      StrandedForEver(w, k, more[..|more| - 1]);
      StrandedStays(RunFrom(w, more[..|more| - 1]), k, more[|more| - 1]);
    }
  }

  /** A winner stops only before the report is published. */
  ghost predicate StopsEarly(w: World) {
    forall i :: 0 <= i < |w.callers| && w.callers[i].pc.Stopped? ==> w.callers[i].pc.done <= 8
  }

  lemma {:induction false} RunStopsEarly(events: seq<Event>)
    ensures StopsEarly(Run(events))
  {
    if events != [] {
      RunStopsEarly(events[..|events| - 1]);
    }
  }

  lemma AbandonedIsStranded(events: seq<Event>, k: nat)
    requires k < |Run(events).callers| && Run(events).callers[k].pc.Stopped?
    ensures Stranded(Run(events), k)
  {
    var w := Run(events);
    RunSound(events);
    RunStopsEarly(events);
    var l: nat :| LedBy(w, l);
    assert IsWinner(w.callers[k]);
    assert forall i :: 0 <= i < |w.callers| ==> LoserSound(w, w.callers[i]);
  }

  const NOTHING := Measured(0, Clean, 0, XdpClean)

  /** Left to itself a running winner completes and returns, and touches no other caller. */
  lemma {:induction false} WinnerFinishes(w: World, k: nat) returns (more: seq<Event>)
    requires Inv(w) && LedBy(w, k) && w.callers[k].pc.Running?
    ensures var later := RunFrom(w, more);
      && Inv(later) && later.completed && |later.callers| == |w.callers|
      && Returned(later.callers[k].pc).Some?
      && forall i :: 0 <= i < |w.callers| && i != k ==> later.callers[i] == w.callers[i]
    decreases 11 - w.callers[k].pc.done
  {
    var e := Act(k, NOTHING);
    var next := Next(w, e);
    RunFromOne(w, e);
    NextSound(w, e);
    StepLed(w, k, k, NOTHING);
    if w.callers[k].pc.done >= 10 {
      more := [e];
    } else {
      var rest := WinnerFinishes(next, k);
      more := [e] + rest;
      RunFromConcat(w, [e], rest);
    }
  }

  lemma ReadingReturns(w: World, i: nat)
    requires Inv(w) && w.completed && i < |w.callers| && w.callers[i].pc.Reading?
    ensures Delivers(w, i, [Act(i, NOTHING)])
  {
    RunFromOne(w, Act(i, NOTHING));
    var k: nat :| LedBy(w, k);
  }

  lemma WaitingReturns(w: World, i: nat)
    requires Inv(w) && w.completed && i < |w.callers| && w.callers[i].pc.Waiting?
    ensures Delivers(w, i, [Act(i, NOTHING)] + [Act(i, NOTHING)])
  {
    var e := Act(i, NOTHING);
    RunFromOne(w, e);
    NextSound(w, e);
    ReadingReturns(Next(w, e), i);
    RunFromConcat(w, [e], [e]);
  }

  lemma LaterReturns(w: World, i: nat, first: seq<Event>)
    requires CanReturn(RunFrom(w, first), i)
    ensures CanReturn(w, i)
  {
    var rest :| Delivers(RunFrom(w, first), i, rest);
    RunFromConcat(w, first, rest);
    assert Delivers(w, i, first + rest);
  }

  /** A waiting caller can return as long as the winner has not stopped. */
  lemma WaitingCanReturn(w: World, k: nat, i: nat)
    requires Inv(w) && LedBy(w, k) && !w.callers[k].pc.Stopped? && i < |w.callers| && w.callers[i].pc.Waiting?
    ensures CanReturn(w, i)
  {
    if w.callers[k].pc.Running? {
      var first := WinnerFinishes(w, k);
      WaitingReturns(RunFrom(w, first), i);
      LaterReturns(w, i, first);
    } else {
      WaitingReturns(w, i);
    }
  }

  lemma RunningCanReturn(w: World, k: nat)
    requires Inv(w) && LedBy(w, k) && w.callers[k].pc.Running?
    ensures CanReturn(w, k)
  {
    var more := WinnerFinishes(w, k);
    assert Delivers(w, k, more);
  }

  /** A caller that has not been polled yet becomes the winner or waits for it. */
  lemma EnteringCanReturn(w: World, i: nat)
    requires Inv(w) && !Abandoned(w) && i < |w.callers| && w.callers[i].pc.Enter?
    ensures CanReturn(w, i)
  {
    var e := Act(i, NOTHING);
    var next := Next(w, e);
    NextSound(w, e);
    RunFromOne(w, e);
    if Unled(w) {
      assert LedBy(next, i);
      RunningCanReturn(next, i);
    } else {
      var k: nat :| LedBy(w, k);
      StepLed(w, k, i, NOTHING);
      WaitingCanReturn(next, k, i);
    }
    LaterReturns(w, i, [e]);
  }

  lemma LiveCanReturn(w: World, i: nat)
    requires Inv(w) && !Abandoned(w) && i < |w.callers| && Live(w.callers[i].pc)
    ensures CanReturn(w, i)
  {
    assert LoserSound(w, w.callers[i]);
    if w.callers[i].pc.Enter? {
      EnteringCanReturn(w, i);
    } else if w.callers[i].pc.Reading? {
      ReadingReturns(w, i);
    } else {
      var k: nat :| LedBy(w, k);
      if w.callers[i].pc.Waiting? { WaitingCanReturn(w, k, i); } else { RunningCanReturn(w, i); }
    }
  }

  /**
   * Exactly when callers return: after every run, a caller that is still alive can be brought to
   * return if and only if no winner was dropped or panicked before completing.
   */
  lemma ReturnsIffNotAbandoned(events: seq<Event>, i: nat)
    requires i < |Run(events).callers| && Live(Run(events).callers[i].pc)
    ensures CanReturn(Run(events), i) <==> !Abandoned(Run(events))
  {
    var w := Run(events);
    RunSound(events);
    if Abandoned(w) {
      var k: nat :| k < |w.callers| && w.callers[k].pc.Stopped?;
      AbandonedIsStranded(events, k);
      forall more ensures !Delivers(w, i, more) {
        StrandedForEver(w, k, more);
      }
    } else {
      LiveCanReturn(w, i);
    }
  }

  // ----- where a winner can stop

  /** A future in hand is dropped exactly at the settle, the jitter before the cancels, the wait, or the detach. */
  lemma AwaitsIff(c: Caller, n: nat)
    ensures Awaits(c.spec, n)
       <==> n < 10 && match ActionAt(c, n)
                      case ReadinessSettle => c.spec.settles
                      case CloseTracker => c.spec.jitters
                      case InFlightWait => c.spec.waitsInFlight
                      case XdpDetach(attempted) => attempted
                      case _ => false
  {
  }

  /** Drops and panics stop a winner exactly there, or anywhere up to the publication; waiters just go. */
  lemma StopsIff(w: World, k: nat)
    requires k < |w.callers|
    ensures var c := w.callers[k];
      && (Next(w, Drop(k)).callers[k].pc.Stopped? <==> c.pc.Stopped? || (c.pc.Running? && Awaits(c.spec, c.pc.done)))
      && (Next(w, Panic(k)).callers[k].pc.Stopped? <==>
            c.pc.Stopped? || (c.pc.Running? && c.pc.done < 10 && Phase(ActionAt(c, c.pc.done)) <= Phase(Publish)))
      && (Next(w, Drop(k)).callers[k].pc.Gone? <==> c.pc.Gone? || c.pc.Enter? || c.pc.Waiting?)
  {
  }

  // ----- what the report says

  /** The report after the first n actions, measured one by one. */
  function Filled(c: Caller, ms: seq<Measured>, n: nat): Report
    requires n <= |ms|
  {
    if n == 0 then EMPTY_REPORT else Recorded(c, n - 1, Filled(c, ms, n - 1), ms[n - 1])
  }

  /** Each phase with its own measurement; a detach that was not asked for is not attempted. */
  function FullReport(spec: Spec, ms: seq<Measured>): Report
    requires |ms| == 10
  {
    var asked := spec.detach && spec.detachDeadline;
    var clean := ms[5].inFlight == Clean && !(asked && (ms[6].xdp == XdpTimedOut || ms[6].xdp == XdpFailed));
    Report(ms[0].duration, ms[1].duration, ms[2].duration,
           (ms[5].duration, ms[5].inFlight), ms[5].remaining,
           (ms[6].duration, if asked then ms[6].xdp else NotAttempted),
           (ms[7].duration, if clean then Clean else TimedOut))
  }

  lemma FilledIsFull(c: Caller, ms: seq<Measured>)
    requires |ms| == 10
    ensures Filled(c, ms, 10) == FullReport(c.spec, ms)
  {
    var r3 := Filled(c, ms, 3);
    assert r3 == EMPTY_REPORT.(mark := ms[0].duration, settle := ms[1].duration, listener := ms[2].duration) by {
      assert Filled(c, ms, 2) == Recorded(c, 1, Filled(c, ms, 1), ms[1]);
    }
    assert Filled(c, ms, 5) == r3 by { assert Filled(c, ms, 4) == r3; }
    var r6 := Filled(c, ms, 6);
    assert r6 == r3.(inFlight := (ms[5].duration, ms[5].inFlight), remaining := ms[5].remaining);
    var r7, r8 := Filled(c, ms, 7), Filled(c, ms, 8);
    assert r7 == Recorded(c, 6, r6, ms[6]);
    assert r8 == Recorded(c, 7, r7, ms[7]);
    assert Filled(c, ms, 10) == r8 by { assert Filled(c, ms, 9) == r8; }
  }

  function Acts(k: nat, ms: seq<Measured>, n: nat): seq<Event>
    requires n <= |ms|
  {
    if n == 0 then [] else Acts(k, ms, n - 1) + [Act(k, ms[n - 1])]
  }

  lemma {:induction false} SoloProgress(w: World, k: nat, ms: seq<Measured>, n: nat)
    requires Inv(w) && LedBy(w, k) && w.callers[k].pc == Running(0, EMPTY_REPORT) && |ms| == 10 && n <= 10
    ensures var later := RunFrom(w, Acts(k, ms, n));
      && Inv(later) && LedBy(later, k) && later.callers[k].spec == w.callers[k].spec
      && later.callers[k].pc == Running(n, Filled(w.callers[k], ms, n))
  {
    if n > 0 {
      SoloProgress(w, k, ms, n - 1);
      var before := RunFrom(w, Acts(k, ms, n - 1));
      assert Acts(k, ms, n)[..|Acts(k, ms, n)| - 1] == Acts(k, ms, n - 1);
      NextSound(before, Act(k, ms[n - 1]));
      StepLed(before, k, k, ms[n - 1]);
      RecordedDepends(before.callers[k], w.callers[k], n - 1, Filled(w.callers[k], ms, n - 1), ms[n - 1]);
    }
  }

  lemma RecordedDepends(c: Caller, d: Caller, n: nat, r: Report, m: Measured)
    requires c.spec == d.spec
    ensures Recorded(c, n, r, m) == Recorded(d, n, r, m)
  {
  }

  /** A winner publishes the report of its own ten measurements, each in its own place. */
  lemma WinnerReports(w: World, k: nat, ms: seq<Measured>)
    requires Inv(w) && LedBy(w, k) && w.callers[k].pc == Running(0, EMPTY_REPORT) && |ms| == 10
    ensures RunFrom(w, Acts(k, ms, 10)).completed
    ensures RunFrom(w, Acts(k, ms, 10)).report == Some(FullReport(w.callers[k].spec, ms))
  {
    SoloProgress(w, k, ms, 10);
    FilledIsFull(w.callers[k], ms);
  }

  lemma RunExtended(events: seq<Event>, e: Event)
    ensures Run(events + [e]) == Next(Run(events), e)
  {
    assert (events + [e])[..|events|] == events;
  }

  function BothArrived(first: Handle, second: Handle, spec: Spec): seq<Event> {
    [] + [Arrive(first, spec)] + [Arrive(second, spec)]
  }

  /** A schedule that abandons: the winner is dropped in its readiness settle while another caller waits. */
  function DropWhileSettling(first: Handle, second: Handle, spec: Spec): seq<Event> {
    BothArrived(first, second, spec) + [Act(0, NOTHING)] + [Act(0, NOTHING)] + [Act(1, NOTHING)] + [Drop(0)]
  }

  lemma BothArrivedRun(first: Handle, second: Handle, spec: Spec)
    ensures Run(BothArrived(first, second, spec))
         == NEW.(callers := [Caller(first, spec, Enter), Caller(second, spec, Enter)])
  {
    RunExtended([], Arrive(first, spec));
    RunExtended([] + [Arrive(first, spec)], Arrive(second, spec));
    assert [] + [Caller(first, spec, Enter)] + [Caller(second, spec, Enter)]
        == [Caller(first, spec, Enter), Caller(second, spec, Enter)];
  }

  /** The first of two fresh callers takes the latch and marks; the second then waits. */
  lemma FirstWinsSecondWaits(w: World, a: Caller, b: Caller)
    requires !w.started && w.callers == [a, b] && a.pc == b.pc == Enter
    ensures var later := Next(Next(Next(w, Act(0, NOTHING)), Act(0, NOTHING)), Act(1, NOTHING));
      later.callers == [a.(pc := Running(1, EMPTY_REPORT)), b.(pc := Waiting)]
  {
    var w1 := Next(w, Act(0, NOTHING));
    assert w1.callers == [a.(pc := Running(0, EMPTY_REPORT)), b] && w1.started;
    var w2 := Next(w1, Act(0, NOTHING));
    assert w2.callers == [a.(pc := Running(1, EMPTY_REPORT)), b] && w2.started;
  }

  /** Abandoning happens: for any handles and any drain with a settle that schedule strands a waiter. */
  lemma SettlingWinnerCanBeDropped(first: Handle, second: Handle, spec: Spec)
    requires spec.settles
    ensures var w := Run(DropWhileSettling(first, second, spec));
      && |w.callers| == 2 && w.callers[0].pc.Stopped? && w.callers[1].pc.Waiting? && !CanReturn(w, 1)
  {
    var events := BothArrived(first, second, spec);
    BothArrivedRun(first, second, spec);
    RunExtended(events, Act(0, NOTHING));
    RunExtended(events + [Act(0, NOTHING)], Act(0, NOTHING));
    RunExtended(events + [Act(0, NOTHING)] + [Act(0, NOTHING)], Act(1, NOTHING));
    RunExtended(events + [Act(0, NOTHING)] + [Act(0, NOTHING)] + [Act(1, NOTHING)], Drop(0));
    FirstWinsSecondWaits(Run(events), Caller(first, spec, Enter), Caller(second, spec, Enter));
    ReturnsIffNotAbandoned(DropWhileSettling(first, second, spec), 1);
  }
}
