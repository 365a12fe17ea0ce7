/**
 * The lock-free conntrack-insert gate: any number of `try_admit` calls, interleaved at every
 * atomic operation, with arbitrary clock readings and spurious weak-CAS failures.
 */
module TokenBucket {
  import opened Basics
  import opened NumberTheory

  const NANOS: int := 1_000_000_000
  const U32_MAX: int := 0xFFFF_FFFF

  /** Where one call stands, with its local variables. */
  datatype Call =
    | Start
    | HaveNow(now: nat)
    | HaveLast(now: nat, last: nat)
    | LoadForRefill(add: nat)
    | CasRefill(add: nat, cur: nat)
    | LoadForTake
    | CasTake(cur: nat)
    | Admitted
    | Denied

  /** The shared atomics and every call ever made; burst equals the rate. */
  datatype World = World(tokens: nat, last: nat, rate: nat, calls: seq<Call>)

  /** One scheduling decision: a new call arrives, or call `who` performs its next atomic operation. */
  datatype Event = Arrive | Act(who: nat, clock: nat, spurious: bool)

  /** Whole tokens earned between two clock values, truncated to 64 bits as the code casts them. */
  function Refill(now: nat, last: nat, rate: nat): nat {
    if now <= last then 0 else (now - last) * rate / NANOS % U64_LIMIT
  }

  /** The next atomic operation of one call. */
  function CallStep(w: World, call: Call, clock: nat, spurious: bool): (nat, nat, Call) {
    match call
    case Start =>
      if w.rate == 0 then (w.tokens, w.last, Admitted) else (w.tokens, w.last, HaveNow(clock))
    case HaveNow(now) => (w.tokens, w.last, HaveLast(now, w.last))
    case HaveLast(now, last) =>
      var refill := Refill(now, last, w.rate);
      if refill > 0 && w.last == last then (w.tokens, now, LoadForRefill(Min(refill, U32_MAX)))
      else (w.tokens, w.last, LoadForTake)
    case LoadForRefill(add) => (w.tokens, w.last, CasRefill(add, w.tokens))
    case CasRefill(add, cur) =>
      if w.tokens == cur && !spurious then (Min(Min(cur + add, U32_MAX), w.rate), w.last, LoadForTake)
      else (w.tokens, w.last, CasRefill(add, w.tokens))
    case LoadForTake => (w.tokens, w.last, CasTake(w.tokens))
    case CasTake(cur) =>
      if cur == 0 then (w.tokens, w.last, Denied)
      else if w.tokens == cur && !spurious then (cur - 1, w.last, Admitted)
      else (w.tokens, w.last, CasTake(w.tokens))
    case Admitted => (w.tokens, w.last, Admitted)
    case Denied => (w.tokens, w.last, Denied)
  }

  function Next(w: World, e: Event): World {
    match e
    case Arrive => w.(calls := w.calls + [Start])
    case Act(who, clock, spurious) =>
      if who >= |w.calls| then w
      else
        var (tokens, last, call) := CallStep(w, w.calls[who], clock, spurious);
        World(tokens, last, w.rate, w.calls[who := call])
  }

  function Run(w: World, events: seq<Event>): World {
    if events == [] then w else Next(Run(w, events[..|events| - 1]), events[|events| - 1])
  }

  /** `CtInsertGate::new` at clock value `now`. */
  function NewGate(rate: nat, now: nat): World {
    World(rate, now, rate, [])
  }

  function AdmittedOne(c: Call): int {
    if c.Admitted? then 1 else 0
  }

  function Admits(w: World): int {
    SumBy(AdmittedOne, w.calls)
  }

  /** The event is a call reading the clock: its first step, unless the gate is switched off. */
  predicate ReadsClock(w: World, e: Event) {
    e.Act? && e.who < |w.calls| && w.calls[e.who].Start? && w.rate > 0
  }

  /** The latest clock value any call has read. */
  function LatestClock(w: World, events: seq<Event>): nat {
    if events == [] then 0
    else
      var e := events[|events| - 1];
      var before := events[..|events| - 1];
      Max(LatestClock(w, before), if ReadsClock(Run(w, before), e) then e.clock else 0)
  }

  // ----- the accounting invariant

  /** Tokens a call holds: refill tokens not yet deposited, or the one it took. */
  function Claim(c: Call): int {
    match c
    case LoadForRefill(add) => add
    case CasRefill(add, _) => add
    case Admitted => 1
    case _ => 0
  }

  /** Everything ever granted was in the initial burst or earned by the advance of `last`. */
  ghost predicate Funded(w: World, initial: nat) {
    && w.tokens <= w.rate
    && initial <= w.last
    && NANOS * (w.tokens + SumBy(Claim, w.calls)) <= NANOS * w.rate + w.rate * (w.last - initial)
  }

  lemma RefillIsEarned(now: nat, last: nat, rate: nat)
    ensures NANOS * Refill(now, last, rate) <= if now <= last then 0 else rate * (now - last)
    ensures Refill(now, last, rate) > 0 ==> last < now
  {
    if now > last {
      var earned := (now - last) * rate;
      assert earned % NANOS >= 0 && earned == NANOS * (earned / NANOS) + earned % NANOS;
    }
  }

  lemma EarnedSplits(rate: nat, initial: nat, last: nat, now: nat)
    ensures rate * (now - initial) == rate * (last - initial) + rate * (now - last)
  {
  }

  /** One atomic operation of one call moves tokens between the pool and the call, never creating any. */
  lemma CallStepFunded(w: World, call: Call, clock: nat, spurious: bool, initial: nat)
    requires w.rate > 0
    ensures
      var (tokens, last, call') := CallStep(w, call, clock, spurious);
      && w.last <= last
      && (w.tokens <= w.rate ==> tokens <= w.rate)
      && NANOS * (tokens + Claim(call')) - w.rate * (last - initial)
         <= NANOS * (w.tokens + Claim(call)) - w.rate * (w.last - initial)
  {
    if call.HaveLast? {
      RefillIsEarned(call.now, call.last, w.rate);
      EarnedSplits(w.rate, initial, w.last, call.now);
    }
  }

  lemma NextFunded(w: World, e: Event, initial: nat)
    requires Funded(w, initial) && w.rate > 0
    ensures Funded(Next(w, e), initial) && Next(w, e).rate == w.rate && w.last <= Next(w, e).last
  {
    match e {
      case Arrive => SumByAppend(Claim, w.calls, Start);
      case Act(who, clock, spurious) =>
        if who < |w.calls| {
          var (tokens, last, call) := CallStep(w, w.calls[who], clock, spurious);
          CallStepFunded(w, w.calls[who], clock, spurious, initial);
          SumByUpdate(Claim, w.calls, who, call);
        }
    }
  }

  lemma {:induction false} RunFunded(rate: nat, now: nat, events: seq<Event>)
    requires rate > 0
    ensures Funded(Run(NewGate(rate, now), events), now) && Run(NewGate(rate, now), events).rate == rate
  {
    if events != [] {
      RunFunded(rate, now, events[..|events| - 1]);
      NextFunded(Run(NewGate(rate, now), events[..|events| - 1]), events[|events| - 1], now);
    }
  }

  lemma {:induction false} AdmitsAreClaims(calls: seq<Call>)
    ensures SumBy(AdmittedOne, calls) <= SumBy(Claim, calls)
  {
    SumByMonotone(AdmittedOne, Claim, calls);
  }

  lemma DivideBound(admits: int, rate: int, earned: int)
    requires NANOS * admits <= NANOS * rate + earned
    ensures admits <= rate + earned / NANOS
  {
  }

  /**
   * Safety in every interleaving: the bucket never holds more than the burst, and the number of
   * admitted calls never exceeds the burst plus what the elapsed refill time has earned.
   */
  lemma AdmissionBound(rate: nat, now: nat, events: seq<Event>)
    requires rate > 0
    ensures var w := Run(NewGate(rate, now), events);
      && w.tokens <= rate
      && now <= w.last
      && Admits(w) <= rate + rate * (w.last - now) / NANOS
  {
    var w := Run(NewGate(rate, now), events);
    RunFunded(rate, now, events);
    AdmitsAreClaims(w.calls);
    DivideBound(Admits(w), rate, rate * (w.last - now));
  }

  /** `last_refill_ns` only grows, whatever the clocks read. */
  lemma {:induction false} LastOnlyGrows(w: World, events: seq<Event>)
    ensures w.last <= Run(w, events).last
  {
    if events != [] {
      LastOnlyGrows(w, events[..|events| - 1]);
      var before := Run(w, events[..|events| - 1]);
      var e := events[|events| - 1];
      if e.Act? && e.who < |before.calls| && before.calls[e.who].HaveLast? {
        RefillIsEarned(before.calls[e.who].now, before.calls[e.who].last, before.rate);
      }
    }
  }

  /** A call's clock value was given to it. */
  ghost predicate ClocksKnown(calls: seq<Call>, latest: nat) {
    forall i :: 0 <= i < |calls| ==>
      (calls[i].HaveNow? ==> calls[i].now <= latest) && (calls[i].HaveLast? ==> calls[i].now <= latest)
  }

  /** ... and it never passes the latest clock reading (or its initial value). */
  lemma {:induction false} LastIsAReading(rate: nat, now: nat, events: seq<Event>)
    ensures Run(NewGate(rate, now), events).last <= Max(now, LatestClock(NewGate(rate, now), events))
    ensures ClocksKnown(Run(NewGate(rate, now), events).calls, LatestClock(NewGate(rate, now), events))
  {
    if events != [] {
      LastIsAReading(rate, now, events[..|events| - 1]);
    }
  }

  /** In wall-clock terms: no schedule admits more than burst plus rate times the observed clock span. */
  lemma AdmissionBoundByClock(rate: nat, now: nat, events: seq<Event>)
    requires rate > 0 && now <= LatestClock(NewGate(rate, now), events)
    ensures Admits(Run(NewGate(rate, now), events))
         <= rate + rate * (LatestClock(NewGate(rate, now), events) - now) / NANOS
  {
    var w := Run(NewGate(rate, now), events);
    AdmissionBound(rate, now, events);
    LastIsAReading(rate, now, events);
    EarnedMonotone(rate, w.last - now, LatestClock(NewGate(rate, now), events) - now);
  }

  lemma EarnedMonotone(rate: nat, a: int, b: int)
    requires 0 <= a <= b
    ensures rate * a / NANOS <= rate * b / NANOS
  {
    ProductMonotone(rate, a, rate, b);
    QuotientMonotone(rate * a, rate * b);
  }

  lemma QuotientMonotone(a: int, b: int)
    requires a <= b
    ensures a / NANOS <= b / NANOS
  {
  }

  /** A rate of zero switches the gate off: in every schedule each call is admitted at its first step. */
  lemma {:induction false} DisabledAdmitsAll(now: nat, events: seq<Event>)
    ensures var w := Run(NewGate(0, now), events);
      w.rate == 0 && forall i :: 0 <= i < |w.calls| ==> w.calls[i] == Start || w.calls[i] == Admitted
  {
    if events != [] {
      DisabledAdmitsAll(now, events[..|events| - 1]);
    }
  }

  // ----- what an undisturbed call does

  /** The sequential meaning of `try_admit` at clock value `now`. */
  function Sequential(tokens: nat, last: nat, rate: nat, now: nat): (nat, nat, bool) {
    if rate == 0 then (tokens, last, true)
    else
      var refill := Refill(now, last, rate);
      var filled := if refill > 0 then Min(Min(tokens + Min(refill, U32_MAX), U32_MAX), rate) else tokens;
      var last' := if refill > 0 then now else last;
      if filled == 0 then (0, last', false) else (filled - 1, last', true)
  }

  /** `n` consecutive operations of one call with nothing in between. */
  function Solo(w: World, who: nat, clock: nat, n: nat): World
    decreases n
  {
    if n == 0 then w else Solo(Next(w, Act(who, clock, false)), who, clock, n - 1)
  }

  /** The operations a call needs when nobody interferes. */
  function SoloLength(w: World, clock: nat): nat {
    if w.rate == 0 then 1 else if Refill(clock, w.last, w.rate) > 0 then 7 else 5
  }

  /** An uncontended call finishes in at most seven operations with the sequential result. */
  lemma SoloIsSequential(w: World, who: nat, clock: nat)
    requires who < |w.calls| && w.calls[who] == Start
    ensures
      var (tokens, last, ok) := Sequential(w.tokens, w.last, w.rate, clock);
      Solo(w, who, clock, SoloLength(w, clock))
        == World(tokens, last, w.rate, w.calls[who := if ok then Admitted else Denied])
  {
    if w.rate == 0 {
      assert Solo(w, who, clock, 1) == Solo(Next(w, Act(who, clock, false)), who, clock, 0);
    } else {
      var w1 := w.(calls := w.calls[who := HaveNow(clock)]);
      assert Next(w, Act(who, clock, false)) == w1;
      var w2 := w.(calls := w.calls[who := HaveLast(clock, w.last)]);
      assert Next(w1, Act(who, clock, false)).calls == w2.calls;
      var refill := Refill(clock, w.last, w.rate);
      if refill > 0 {
        var add := Min(refill, U32_MAX);
        var w3 := World(w.tokens, clock, w.rate, w.calls[who := LoadForRefill(add)]);
        assert Next(w2, Act(who, clock, false)).calls == w3.calls;
        var w4 := w3.(calls := w.calls[who := CasRefill(add, w.tokens)]);
        assert Next(w3, Act(who, clock, false)).calls == w4.calls;
        var w5 := World(Min(Min(w.tokens + add, U32_MAX), w.rate), clock, w.rate, w.calls[who := LoadForTake]);
        assert Next(w4, Act(who, clock, false)).calls == w5.calls;
        SoloTake(w5, w.calls, who, clock);
        assert Solo(w3, who, clock, 4) == Solo(w4, who, clock, 3) == Solo(w5, who, clock, 2);
        assert Solo(w, who, clock, 7) == Solo(w1, who, clock, 6) == Solo(w2, who, clock, 5) == Solo(w3, who, clock, 4);
      } else {
        var w3 := w.(calls := w.calls[who := LoadForTake]);
        assert Next(w2, Act(who, clock, false)).calls == w3.calls;
        SoloTake(w3, w.calls, who, clock);
        assert Solo(w, who, clock, 5) == Solo(w1, who, clock, 4) == Solo(w2, who, clock, 3) == Solo(w3, who, clock, 2);
      }
    }
  }

  lemma SoloTake(w: World, calls: seq<Call>, who: nat, clock: nat)
    requires who < |calls| && w.calls == calls[who := LoadForTake]
    ensures Solo(w, who, clock, 2)
         == if w.tokens == 0 then w.(calls := calls[who := Denied])
            else w.(tokens := w.tokens - 1, calls := calls[who := Admitted])
  {
    var w1 := w.(calls := calls[who := CasTake(w.tokens)]);
    assert Next(w, Act(who, clock, false)).calls == w1.calls;
    var w2 := if w.tokens == 0 then w.(calls := calls[who := Denied])
              else w.(tokens := w.tokens - 1, calls := calls[who := Admitted]);
    assert Next(w1, Act(who, clock, false)).calls == w2.calls;
    assert Solo(w1, who, clock, 1) == Solo(w2, who, clock, 0);
  }

  // ----- the admission law

  /** The refill is the whole number of tokens earned, while that number fits a word. */
  lemma RefillExact(now: nat, last: nat, rate: nat)
    ensures now <= last ==> Refill(now, last, rate) == 0
    ensures last <= now && rate * (now - last) < NANOS * U64_LIMIT ==>
              NANOS * Refill(now, last, rate) <= rate * (now - last) < NANOS * (Refill(now, last, rate) + 1)
  {
    if last < now {
      var earned := (now - last) * rate;
      assert earned == rate * (now - last);
      if earned < NANOS * U64_LIMIT {
        WholeTokens(earned);
      }
    }
  }

  lemma WholeTokens(earned: nat)
    requires earned < NANOS * U64_LIMIT
    ensures 0 <= earned / NANOS < U64_LIMIT
    ensures NANOS * (earned / NANOS) <= earned < NANOS * (earned / NANOS + 1)
    ensures earned / NANOS > 0 <==> earned >= NANOS
  {
  }

  /** The tokens and the stamp an undisturbed call leaves, and its answer, from the elapsed time alone. */
  ghost predicate Lawful(w: World, clock: nat, tokens: nat, last: nat, admitted: bool) {
    var earned := w.rate * Max(0, clock - w.last);
    && (admitted <==> w.tokens > 0 || earned >= NANOS)
    && tokens == (if admitted then Min(w.rate, w.tokens + earned / NANOS) - 1 else 0)
    && last == (if earned >= NANOS then clock else w.last)
  }

  /** The cast to a word loses nothing, or leaves enough to fill the bucket. */
  predicate CastHarmless(w: World, clock: nat) {
    var whole := w.rate * Max(0, clock - w.last) / NANOS;
    whole < U64_LIMIT || (whole % U64_LIMIT > 0 && w.tokens + whole % U64_LIMIT >= w.rate)
  }

  lemma RefillIsCast(w: World, clock: nat)
    ensures Refill(clock, w.last, w.rate) == w.rate * Max(0, clock - w.last) / NANOS % U64_LIMIT
    ensures w.rate * Max(0, clock - w.last) >= NANOS <==> w.rate * Max(0, clock - w.last) / NANOS > 0
    ensures w.rate * Max(0, clock - w.last) > 0 ==> clock > w.last
  {
    if clock > w.last {
      assert (clock - w.last) * w.rate == w.rate * Max(0, clock - w.last);
    } else {
      assert Max(0, clock - w.last) == 0;
    }
  }

  /** `kept` is what the cast leaves of `whole` tokens. */
  lemma FilledIff(tokens: nat, rate: nat, whole: nat, kept: nat)
    requires 0 < rate <= U32_MAX && tokens <= rate && kept <= whole && (whole < U64_LIMIT ==> kept == whole)
    ensures
      var filled := if kept > 0 then Min(Min(tokens + Min(kept, U32_MAX), U32_MAX), rate) else tokens;
      (filled == Min(rate, tokens + whole) && (kept > 0 <==> whole > 0)) <==>
      (whole < U64_LIMIT || (kept > 0 && tokens + kept >= rate))
  {
  }

  lemma SequentialLawfulIff(w: World, clock: nat)
    requires 0 < w.rate <= U32_MAX && w.tokens <= w.rate
    ensures var (tokens, last, ok) := Sequential(w.tokens, w.last, w.rate, clock);
      Lawful(w, clock, tokens, last, ok) <==> CastHarmless(w, clock)
  {
    var whole := w.rate * Max(0, clock - w.last) / NANOS;
    RefillIsCast(w, clock);
    FilledIff(w.tokens, w.rate, whole, whole % U64_LIMIT);
  }

  /**
   * An undisturbed call is admitted if and only if a token was there or one whole token has been
   * earned since the last refill, and leaves what was there and earned, capped at the burst, less
   * one: exactly when the cast to a word does no harm.
   */
  lemma SoloAdmission(w: World, who: nat, clock: nat)
    requires who < |w.calls| && w.calls[who] == Start && 0 < w.rate <= U32_MAX && w.tokens <= w.rate
    ensures var after := Solo(w, who, clock, SoloLength(w, clock));
      && who < |after.calls| && (after.calls[who].Admitted? || after.calls[who].Denied?)
      && (Lawful(w, clock, after.tokens, after.last, after.calls[who].Admitted?) <==> CastHarmless(w, clock))
  {
    SoloIsSequential(w, who, clock);
    SequentialLawfulIff(w, clock);
  }

  /** Past a word of tokens the cast drops them: a gate idle that long denies a call it has earned. */
  lemma TruncationDenies()
    ensures var w := World(0, 0, 2_000_000_000, [Start]);
      Solo(w, 0, 0x8000_0000_0000_0000, SoloLength(w, 0x8000_0000_0000_0000)).calls == [Denied]
  {
    var w, clock := World(0, 0, 2_000_000_000, [Start]), 0x8000_0000_0000_0000;
    assert (clock - 0) * 2_000_000_000 / NANOS == U64_LIMIT;
    assert Refill(clock, 0, 2_000_000_000) == 0;
    SoloIsSequential(w, 0, clock);
  }

  /** One call after another, each undisturbed, all at one clock value. */
  function Served(w: World, clock: nat, n: nat): World {
    if n == 0 then w
    else
      var before := Next(Served(w, clock, n - 1), Arrive);
      Solo(before, |before.calls| - 1, clock, SoloLength(before, clock))
  }

  /** A new gate admits exactly its burst at once, and denies what comes after. */
  lemma {:induction false} BurstServed(rate: nat, now: nat, n: nat)
    requires 0 < rate
    ensures var w := Served(NewGate(rate, now), now, n);
      && w.rate == rate && w.last == now && w.tokens == Max(0, rate - n) && Admits(w) == Min(n, rate)
  {
    if n > 0 {
      BurstServed(rate, now, n - 1);
      var w := Served(NewGate(rate, now), now, n - 1);
      var before := Next(w, Arrive);
      SoloIsSequential(before, |w.calls|, now);
      var last := if w.tokens == 0 then Denied else Admitted;
      assert before.calls[|w.calls| := last] == w.calls + [last];
      SumByAppend(AdmittedOne, w.calls, last);
    }
  }
}
