/**
 * The two-phase idle/head deadline as a timed machine on a millisecond clock: the helper, the
 * upload pump and the wrapped future interleave at every atomic load and store.  The helper is
 * never scheduled late: the clock moves only while it sleeps before its deadline or is finished.
 */
module IdleSend {
  import opened Basics

  /** How `idle_bounded_send` ended, and when; an idle timeout remembers the progress value it read. */
  datatype Ending = Sent(at: nat) | IdleTimeout(at: nat, seen: nat) | HeadTimeout(at: nat)

  /** The points between the helper's atomic operations. */
  datatype Pc =
    | Top
    | LoadProgress
    | Sleeping(deadline: nat, complete: bool)
    | RecheckComplete
    | RecheckProgress
    | Finished(result: Ending)

  /**
   * `last` is the shared progress stamp; `completed` and `resolved` are the times the pump signalled
   * the end of the upload and the future became ready; `gap` is the longest time so far between
   * one progress event and the next (the completion counts as one).
   */
  datatype World = World(
    idle: nat, head: nat, start: nat,
    now: nat, last: nat, completed: Option<nat>, resolved: Option<nat>, gap: nat,
    anchor: Option<nat>, pc: Pc)

  datatype Event = Tick | Bump | Complete | Resolve | Helper

  function HelperStep(w: World): World {
    match w.pc
    case Top =>
      if w.completed.Some? then
        var deadline := if w.anchor.Some? then w.anchor.value else w.now + w.head;
        w.(anchor := Some(deadline), pc := Sleeping(deadline, true))
      else w.(pc := LoadProgress)
    case LoadProgress => w.(pc := Sleeping(w.last + w.idle, false))
    case Sleeping(deadline, complete) =>
      if w.resolved.Some? then w.(pc := Finished(Sent(w.now)))
      else if w.now < deadline then w
      else if complete then w.(pc := Finished(HeadTimeout(w.now)))
      else w.(pc := RecheckComplete)
    case RecheckComplete => w.(pc := if w.completed.Some? then Top else RecheckProgress)
    case RecheckProgress =>
      if w.now - w.last < w.idle then w.(pc := Top)
      else w.(pc := Finished(IdleTimeout(w.now, w.last)))
    case Finished(_) => w
  }

  /** The clock may move: the helper is asleep with nothing to react to, or done. */
  predicate CanTick(w: World) {
    w.pc.Finished? || (w.pc.Sleeping? && w.resolved.None? && w.now < w.pc.deadline)
  }

  function Next(w: World, e: Event): World {
    match e
    case Tick => if CanTick(w) then w.(now := w.now + 1) else w
    case Bump => if w.completed.None? then w.(last := w.now, gap := Max(w.gap, w.now - w.last)) else w
    case Complete =>
      if w.completed.None? then w.(completed := Some(w.now), gap := Max(w.gap, w.now - w.last)) else w
    case Resolve => if w.resolved.None? then w.(resolved := Some(w.now)) else w
    case Helper => HelperStep(w)
  }

  function Run(w: World, events: seq<Event>): World {
    if events == [] then w else Next(Run(w, events[..|events| - 1]), events[|events| - 1])
  }

  /** The helper is called at `start`; the pump and the future may already have acted. */
  ghost predicate Initial(w: World) {
    && w.now == w.start && w.last <= w.start && w.anchor == None && w.pc == Top
    && (w.completed.Some? ==> w.last <= w.completed.value <= w.start && w.completed.value - w.last <= w.gap)
    && (w.resolved.Some? ==> w.resolved.value <= w.start)
  }

  // ----- the invariant

  /** The clock and the environment's stamps agree. */
  ghost predicate Stamped(w: World) {
    && w.start <= w.now && w.last <= w.now
    && (w.completed.Some? ==> w.last <= w.completed.value <= w.now && w.completed.value - w.last <= w.gap)
    && (w.resolved.Some? ==> w.resolved.value <= w.now)
  }

  /** Before the completion is observed the clock stays within one idle period of the last progress. */
  ghost predicate InPhaseA(w: World) {
    w.now <= Max(w.start, w.last + w.idle) && w.anchor == None
  }

  /** When the helper can first and last observe a completion at `c`. */
  ghost predicate ObservedInTime(w: World, deadline: nat) {
    w.completed.Some? &&
    Max(w.start, w.completed.value) + w.head <= deadline <= Max(w.start, w.completed.value + w.idle) + w.head
  }

  ghost predicate PcSound(w: World) {
    match w.pc
    case Top => InPhaseA(w)
    case LoadProgress => InPhaseA(w) && (w.completed.Some? ==> w.completed.value == w.now)
    case Sleeping(deadline, complete) =>
      if complete then w.anchor == Some(deadline) && ObservedInTime(w, deadline) && w.now <= deadline
      else InPhaseA(w) && deadline <= w.last + w.idle
    case RecheckComplete => InPhaseA(w) && (w.resolved.Some? ==> w.resolved.value == w.now)
    case RecheckProgress =>
      && InPhaseA(w) && (w.resolved.Some? ==> w.resolved.value == w.now)
      && (w.completed.Some? ==> w.completed.value == w.now)
    case Finished(result) => ResultSound(w, result)
  }

  /** What each outcome says about the run. */
  ghost predicate ResultSound(w: World, result: Ending) {
    match result
    case Sent(at) => w.resolved.Some? && at == Max(w.start, w.resolved.value)
    case IdleTimeout(at, seen) =>
      && at == Max(w.start, seen + w.idle) && seen <= w.last && seen + w.idle <= at <= w.now
      && (w.completed.Some? ==> at <= w.completed.value)
      && (w.resolved.Some? ==> at <= w.resolved.value)
      && (w.last == seen || w.idle <= w.gap)
    case HeadTimeout(at) =>
      && ObservedInTime(w, at) && at <= w.now
      && (w.resolved.Some? ==> at <= w.resolved.value)
  }

  /** An unfinished helper has just been, or is just being, told that the future is ready. */
  ghost predicate Prompt(w: World) {
    !w.pc.Finished? && w.resolved.Some? ==> w.now == Max(w.start, w.resolved.value)
  }

  ghost predicate Inv(w: World) {
    Stamped(w) && PcSound(w) && Prompt(w)
  }

  lemma TopKeepsInv(w: World)
    requires Inv(w) && (w.pc.Top? || w.pc.LoadProgress?)
    ensures Inv(HelperStep(w))
  {
  }

  lemma SleepKeepsInv(w: World)
    requires Inv(w) && w.pc.Sleeping?
    ensures Inv(HelperStep(w))
  {
  }

  lemma RecheckKeepsInv(w: World)
    requires Inv(w) && (w.pc.RecheckComplete? || w.pc.RecheckProgress?)
    ensures Inv(HelperStep(w))
  {
  }

  lemma HelperKeepsInv(w: World)
    requires Inv(w)
    ensures Inv(HelperStep(w))
  {
    match w.pc {
      case Top => TopKeepsInv(w);
      case LoadProgress => TopKeepsInv(w);
      case Sleeping(_, _) => SleepKeepsInv(w);
      case RecheckComplete => RecheckKeepsInv(w);
      case RecheckProgress => RecheckKeepsInv(w);
      case Finished(_) =>
    }
  }

  lemma TickKeepsInv(w: World)
    requires Inv(w)
    ensures Inv(Next(w, Tick))
  {
  }

  lemma BumpKeepsInv(w: World)
    requires Inv(w)
    ensures Inv(Next(w, Bump))
  {
  }

  lemma CompleteKeepsInv(w: World)
    requires Inv(w)
    ensures Inv(Next(w, Complete))
  {
  }

  lemma ResolveKeepsInv(w: World)
    requires Inv(w)
    ensures Inv(Next(w, Resolve))
  {
  }

  lemma NextKeepsInv(w: World, e: Event)
    requires Inv(w)
    ensures Inv(Next(w, e))
  {
    match e {
      case Tick => TickKeepsInv(w);
      case Bump => BumpKeepsInv(w);
      case Complete => CompleteKeepsInv(w);
      case Resolve => ResolveKeepsInv(w);
      case Helper => HelperKeepsInv(w);
    }
  }

  /** The invariant holds along every interleaving of helper, pump, future and clock. */
  lemma {:induction false} RunInv(w: World, events: seq<Event>)
    requires Initial(w)
    ensures Inv(Run(w, events))
  {
    if events != [] {
      RunInv(w, events[..|events| - 1]);
      NextKeepsInv(Run(w, events[..|events| - 1]), events[|events| - 1]);
    }
  }

  lemma {:induction false} RunConstants(w: World, events: seq<Event>)
    ensures var final := Run(w, events);
      final.idle == w.idle && final.head == w.head && final.start == w.start
  {
    if events != [] {
      RunConstants(w, events[..|events| - 1]);
    }
  }

  // ----- what callers rely on

  /** The upload completed, no two progress events an idle period apart, and the response came in time. */
  ghost predicate Timely(w: World, final: World) {
    && final.completed.Some? && final.gap < w.idle
    && final.resolved.Some? && final.resolved.value < Max(w.start, final.completed.value) + w.head
  }

  /** Neither completion nor response has come, and progress was never an idle period apart. */
  ghost predicate Stalled(w: World, final: World) {
    final.completed.None? && final.resolved.None? && final.gap < w.idle
  }

  /** Progress was never an idle period apart, nor is the last one that long ago. */
  ghost predicate Steady(w: World, final: World) {
    final.gap < w.idle && final.now - final.last < w.idle
  }

  /** No spurious timeout: in a timely run the helper can only succeed. */
  lemma NoSpuriousTimeout(w: World, events: seq<Event>)
    requires Initial(w) && Run(w, events).pc.Finished? && Timely(w, Run(w, events))
    ensures Run(w, events).pc.result.Sent?
  {
    RunInv(w, events);
    RunConstants(w, events);
  }

  /** The same for a run without completion: progress within every idle period never times out. */
  lemma ProgressPreventsIdle(w: World, events: seq<Event>)
    requires Initial(w) && Run(w, events).pc.Finished? && Steady(w, Run(w, events))
    ensures !Run(w, events).pc.result.IdleTimeout?
  {
    RunInv(w, events);
    RunConstants(w, events);
  }

  /** An idle timeout comes exactly one idle period after the progress it last saw (or at once, if that is past). */
  lemma IdleFiresExactly(w: World, events: seq<Event>)
    requires Initial(w) && Run(w, events).pc.Finished? && Run(w, events).pc.result.IdleTimeout?
    ensures var final := Run(w, events);
      final.pc.result.at == Max(w.start, final.pc.result.seen + w.idle)
      && (final.completed.Some? ==> final.pc.result.at <= final.completed.value)
  {
    RunInv(w, events);
    RunConstants(w, events);
  }

  /** A head timeout fires no earlier than the head timeout after completion, and at most an idle period later. */
  lemma HeadFiresInWindow(w: World, events: seq<Event>)
    requires Initial(w) && Run(w, events).pc.Finished? && Run(w, events).pc.result.HeadTimeout?
    ensures var final := Run(w, events);
      && final.completed.Some?
      && Max(w.start, final.completed.value) + w.head <= final.pc.result.at
      && final.pc.result.at <= Max(w.start, final.completed.value + w.idle) + w.head
      && (final.resolved.Some? ==> final.pc.result.at <= final.resolved.value)
  {
    RunInv(w, events);
    RunConstants(w, events);
  }

  /** Once the upload is complete an unfinished helper is never later than that window. */
  lemma CompletionBoundsWait(w: World, events: seq<Event>)
    requires Initial(w) && !Run(w, events).pc.Finished? && Run(w, events).completed.Some?
    ensures var final := Run(w, events);
      final.now <= Max(w.start, final.completed.value + w.idle) + w.head
  {
    RunInv(w, events);
    RunConstants(w, events);
  }

  function HelperSteps(w: World, n: nat): World
    decreases n
  {
    if n == 0 then w else HelperSteps(HelperStep(w), n - 1)
  }

  /**
   * A stopped pump: once one idle period has passed without progress, completion or response, the
   * clock cannot move on, and the helper by itself ends in an idle timeout at exactly that time.
   */
  lemma WedgeFires(w: World)
    requires Inv(w) && !w.pc.Finished? && w.completed.None? && w.resolved.None?
    ensures w.now <= Max(w.start, w.last + w.idle)
    ensures w.now == Max(w.start, w.last + w.idle) ==> !CanTick(w)
    ensures w.now == Max(w.start, w.last + w.idle) ==>
              HelperSteps(w, 5).pc == Finished(IdleTimeout(w.now, w.last))
  {
  }

  /** Still waiting, no later than `expiry`, or timed out at exactly that time. */
  ghost predicate ExpiresAt(w: World, expiry: nat) {
    if w.pc.Finished? then w.pc.result == IdleTimeout(expiry, w.last)
    else w.now <= expiry
         && (w.now == expiry ==> !CanTick(w) && HelperSteps(w, 5).pc == Finished(IdleTimeout(expiry, w.last)))
  }

  lemma SoundExpires(w: World)
    requires Inv(w) && Stalled(w, w)
    ensures ExpiresAt(w, Max(w.start, w.last + w.idle))
  {
    if !w.pc.Finished? {
      WedgeFires(w);
    }
  }

  /**
   * The same over every run: while neither completion nor response has come, and progress was never
   * an idle period apart, the helper times out exactly one idle period after the last progress.
   */
  lemma StoppedPump(w: World, events: seq<Event>)
    requires Initial(w) && Stalled(w, Run(w, events))
    ensures ExpiresAt(Run(w, events), Max(w.start, Run(w, events).last + w.idle))
  {
    RunInv(w, events);
    RunConstants(w, events);
    SoundExpires(Run(w, events));
  }

  /** A complete upload without a response: at its deadline the helper by itself ends in a head timeout. */
  lemma HeadWedgeFires(w: World)
    requires Inv(w) && w.pc.Sleeping? && w.pc.complete && w.resolved.None? && w.now == w.pc.deadline
    ensures !CanTick(w) && HelperStep(w).pc == Finished(HeadTimeout(w.now))
  {
  }

  /** Once the response is there the clock stands still until the helper has ended, within five steps. */
  lemma ResponseEnds(w: World)
    requires Inv(w) && w.resolved.Some? && !w.pc.Finished?
    ensures !CanTick(w) && HelperSteps(w, 5).pc.Finished?
    ensures w.pc.Sleeping? ==> HelperStep(w).pc == Finished(Sent(w.now))
  {
    assert HelperSteps(w, 5) == HelperSteps(HelperStep(w), 4);
  }

  // ----- the outcomes are reached

  /** `n` clock ticks. */
  function Ticks(n: nat): seq<Event> {
    seq(n, _ => Tick)
  }

  lemma RunAppend(w: World, events: seq<Event>, e: Event)
    ensures Run(w, events + [e]) == Next(Run(w, events), e)
  {
    assert (events + [e])[..|events|] == events;
  }

  /** A sleeping helper lets the clock run up to its deadline. */
  lemma {:induction false} SleepsUntil(w: World, events: seq<Event>, n: nat)
    requires Run(w, events).pc.Sleeping? && Run(w, events).resolved.None?
    requires Run(w, events).now + n <= Run(w, events).pc.deadline
    ensures Run(w, events + Ticks(n)) == Run(w, events).(now := Run(w, events).now + n)
  {
    if n == 0 {
      assert events + Ticks(0) == events;
    } else {
      SleepsUntil(w, events, n - 1);
      assert events + Ticks(n) == events + Ticks(n - 1) + [Tick];
      RunAppend(w, events + Ticks(n - 1), Tick);
    }
  }

  lemma {:induction false} HelperRuns(w: World, events: seq<Event>, n: nat) returns (more: seq<Event>)
    ensures Run(w, events + more) == HelperSteps(Run(w, events), n)
    decreases n
  {
    if n == 0 {
      more := [];
      assert events + more == events;
    } else {
      RunAppend(w, events, Helper);
      var rest := HelperRuns(w, events + [Helper], n - 1);
      more := [Helper] + rest;
      Associative(events, [Helper], rest);
    }
  }

  /** Called while nothing happens, it runs into the idle timeout one idle period after the progress it found. */
  lemma IdleTimeoutIsReached(w: World) returns (events: seq<Event>)
    requires Initial(w) && w.completed.None? && w.resolved.None?
    ensures Run(w, events).pc == Finished(IdleTimeout(Max(w.start, w.last + w.idle), w.last))
  {
    var arm := HelperRuns(w, [], 2);
    assert [] + arm == arm;
    var armed := Run(w, arm);
    assert armed == HelperSteps(HelperStep(HelperStep(w)), 0) by {
      assert HelperSteps(w, 2) == HelperSteps(HelperStep(w), 1);
    }
    var wait := Max(w.start, w.last + w.idle) - w.start;
    if wait > 0 {
      SleepsUntil(w, arm, wait);
    } else {
      assert arm + Ticks(0) == arm;
    }
    var late := arm + Ticks(wait);
    RunInv(w, late);
    WedgeFires(Run(w, late));
    var fire := HelperRuns(w, late, 5);
    events := late + fire;
  }

  /** Called with the upload complete and no response, it runs into the head timeout. */
  lemma HeadTimeoutIsReached(w: World) returns (events: seq<Event>)
    requires Initial(w) && w.completed.Some? && w.resolved.None?
    ensures Run(w, events).pc == Finished(HeadTimeout(w.start + w.head))
  {
    var armed := w.(anchor := Some(w.start + w.head), pc := Sleeping(w.start + w.head, true));
    RunAppend(w, [], Helper);
    assert HelperStep(w) == armed;
    SleepsUntil(w, [] + [Helper], w.head);
    var late := [] + [Helper] + Ticks(w.head);
    assert Run(w, late) == armed.(now := w.start + w.head);
    RunAppend(w, late, Helper);
    events := late + [Helper];
  }

  // ----- the gap

  /** When progress was made: the times of the bumps, then of the completion. */
  function ProgressTimes(w: World, events: seq<Event>): seq<int> {
    if events == [] then [w.last]
    else
      var before, e := Run(w, events[..|events| - 1]), events[|events| - 1];
      ProgressTimes(w, events[..|events| - 1])
      + if (e.Bump? || e.Complete?) && before.completed.None? then [before.now] else []
  }

  /** The largest distance of two successive times. */
  function LargestGap(times: seq<int>): int {
    if |times| < 2 then 0
    else Max(LargestGap(times[..|times| - 1]), times[|times| - 1] - times[|times| - 2])
  }

  /** The gap the results speak of is the longest time between two successive pieces of progress. */
  lemma {:induction false} GapIsLargest(w: World, events: seq<Event>)
    requires Initial(w) && w.completed.None? && w.gap == 0
    ensures GapSound(Run(w, events), ProgressTimes(w, events))
  {
    if events != [] {
      var before, e := events[..|events| - 1], events[|events| - 1];
      GapIsLargest(w, before);
      RunInv(w, before);
      GapStep(Run(w, before), e, ProgressTimes(w, before));
    }
  }

  /** One event keeps the gap the largest one so far. */
  ghost predicate GapSound(w: World, times: seq<int>) {
    && times != [] && w.gap == LargestGap(times)
    && times[|times| - 1] == (if w.completed.Some? then w.completed.value else w.last)
  }

  lemma GapStep(w: World, e: Event, times: seq<int>)
    requires Stamped(w) && GapSound(w, times)
    ensures GapSound(Next(w, e), times + if (e.Bump? || e.Complete?) && w.completed.None? then [w.now] else [])
  {
    if (e.Bump? || e.Complete?) && w.completed.None? {
      LargestGapAppend(times, w.now);
    } else {
      assert times + [] == times;
    }
  }

  lemma LargestGapAppend(times: seq<int>, now: int)
    requires times != []
    ensures LargestGap(times + [now]) == Max(LargestGap(times), now - times[|times| - 1])
  {
    assert (times + [now])[..|times|] == times;
  }
}
