/** Smooth weighted round robin: the picker, its whole-run invariants and its exact fairness. */
module SmoothWrr {
  import opened Basics
  import opened Balancing
  import opened NumberTheory

  const I64_MIN: int := -0x8000_0000_0000_0000
  const I64_LIMIT: int := 0x8000_0000_0000_0000

  /** With at most this many backends no value ever leaves a signed 64-bit word. */
  const MAX_BACKENDS: int := 46340

  datatype Backend = Backend(id: string, weight: nat)

  datatype State = State(weights: seq<int>, ids: seq<string>)

  function Weight(b: Backend): int { b.weight }

  function Identity(x: int): int { x }

  function Total(backends: seq<Backend>): int {
    SumBy(Weight, backends)
  }

  function Ids(backends: seq<Backend>): (ids: seq<string>)
    ensures |ids| == |backends|
  {
    seq(|backends|, i requires 0 <= i < |backends| => backends[i].id)
  }

  function Zeros(n: nat): (z: seq<int>)
    ensures |z| == n && forall i :: 0 <= i < n ==> z[i] == 0
  {
    seq(n, _ => 0)
  }

  /** `sync_weights`: any change of ids or their order resets; a change of weights alone does not. */
  function Synced(st: State, backends: seq<Backend>): (r: State)
    ensures r.ids == Ids(backends)
  {
    if st.ids == Ids(backends) then st else State(Zeros(|backends|), Ids(backends))
  }

  function Boosted(weights: seq<int>, backends: seq<Backend>): (r: seq<int>)
    requires |weights| == |backends|
    ensures |r| == |weights|
  {
    seq(|weights|, i requires 0 <= i < |weights| => weights[i] + backends[i].weight)
  }

  /** `i` is the first position of the largest value. */
  predicate IsFirstMax(s: seq<int>, i: int) {
    && 0 <= i < |s|
    && (forall j :: 0 <= j < |s| ==> s[j] <= s[i])
    && (forall j :: 0 <= j < i ==> s[j] < s[i])
  }

  lemma {:induction false} FirstMaxExists(s: seq<int>)
    requires s != []
    ensures exists i: nat :: IsFirstMax(s, i)
  {
    if |s| == 1 {
      assert IsFirstMax(s, 0);
    } else {
      var front := s[..|s| - 1];
      FirstMaxExists(front);
      var i: nat :| IsFirstMax(front, i);
      assert forall j :: 0 <= j < |front| ==> s[j] == front[j];
      assert IsFirstMax(s, if s[|s| - 1] > s[i] then |s| - 1 else i);
    }
  }

  ghost function FirstMax(s: seq<int>): (i: nat)
    requires s != []
    ensures IsFirstMax(s, i)
  {
    FirstMaxExists(s);
    var i: nat :| IsFirstMax(s, i);
    i
  }

  /** The weights after one successful pick, and the pick. */
  ghost function Advance(weights: seq<int>, backends: seq<Backend>): (r: (seq<int>, nat))
    requires |weights| == |backends| > 0
    ensures |r.0| == |weights| && r.1 < |weights|
  {
    var b := Boosted(weights, backends);
    var i := FirstMax(b);
    (b[i := b[i] - Total(backends)], i)
  }

  /** `pick` as a function of the balancer state and the backend list. */
  ghost function PickSpec(st: State, backends: seq<Backend>): (State, Result<nat, BalancerError>)
    requires |st.weights| == |st.ids|
  {
    if backends == [] then (st, Err(NoBackends))
    else
      var synced := Synced(st, backends);
      if Total(backends) == 0 then (synced, Err(AllZeroWeight))
      else
        var (weights, i) := Advance(synced.weights, backends);
        (State(weights, synced.ids), Ok(i))
  }

  // ----- the whole-run invariant

  /** Current weights cancel out and stay strictly above minus `bound` (or are zero). */
  ghost predicate Balanced(weights: seq<int>, bound: int) {
    && SumBy(Identity, weights) == 0
    && forall i :: 0 <= i < |weights| ==> -bound < weights[i] || weights[i] == 0
  }

  lemma {:induction false} ZerosSum(n: nat)
    ensures SumBy(Identity, Zeros(n)) == 0
  {
    if n > 0 {
      assert Zeros(n)[1..] == Zeros(n - 1);
      ZerosSum(n - 1);
    }
  }

  lemma {:induction false} BoostedSum(weights: seq<int>, backends: seq<Backend>)
    requires |weights| == |backends|
    ensures SumBy(Identity, Boosted(weights, backends)) == SumBy(Identity, weights) + Total(backends)
  {
    if weights != [] {
      assert Boosted(weights, backends)[1..] == Boosted(weights[1..], backends[1..]);
      BoostedSum(weights[1..], backends[1..]);
    }
  }

  lemma {:induction false} NonPositiveSum(s: seq<int>)
    requires forall i :: 0 <= i < |s| ==> s[i] <= 0
    ensures SumBy(Identity, s) <= 0
  {
    if s != [] {
      NonPositiveSum(s[1..]);
    }
  }

  lemma TotalNonNegative(backends: seq<Backend>)
    ensures 0 <= Total(backends)
  {
    SumByNonNegative(Weight, backends);
  }

  /** One pick keeps the balance, for any bound at least the total it used. */
  lemma AdvanceBalanced(weights: seq<int>, backends: seq<Backend>, bound: int)
    requires |weights| == |backends| > 0 && 0 < Total(backends) <= bound
    requires Balanced(weights, bound)
    ensures Balanced(Advance(weights, backends).0, bound)
    ensures forall i :: 0 <= i < |weights| ==> -bound < Advance(weights, backends).0[i]
  {
    var b := Boosted(weights, backends);
    var i := FirstMax(b);
    BoostedSum(weights, backends);
    SumByUpdate(Identity, b, i, b[i] - Total(backends));
    if b[i] <= 0 {
      NonPositiveSum(b);
      assert false;
    }
  }

  /** The largest total among the lists of a run. */
  function LargestTotal(run: seq<seq<Backend>>): nat {
    if run == [] then 0
    else
      TotalNonNegative(run[|run| - 1]);
      Max(LargestTotal(run[..|run| - 1]), Total(run[|run| - 1]))
  }

  /** The state after a run of `pick` calls from a new balancer. */
  ghost function RunState(run: seq<seq<Backend>>): (st: State)
    ensures |st.weights| == |st.ids|
  {
    if run == [] then State([], [])
    else PickSpec(RunState(run[..|run| - 1]), run[|run| - 1]).0
  }

  lemma SyncedBalanced(st: State, backends: seq<Backend>, bound: int)
    requires |st.weights| == |st.ids| && Balanced(st.weights, bound)
    ensures Balanced(Synced(st, backends).weights, bound)
  {
    ZerosSum(|backends|);
  }

  lemma PickBalanced(st: State, backends: seq<Backend>, bound: int)
    requires |st.weights| == |st.ids| && Balanced(st.weights, bound) && Total(backends) <= bound
    ensures Balanced(PickSpec(st, backends).0.weights, bound)
  {
    TotalNonNegative(backends);
    SyncedBalanced(st, backends, bound);
    if backends != [] && Total(backends) != 0 {
      AdvanceBalanced(Synced(st, backends).weights, backends, bound);
    }
  }

  /** Over every run, with id resets, errors and weight changes, the weights stay balanced. */
  lemma {:induction false} RunBalanced(run: seq<seq<Backend>>)
    ensures Balanced(RunState(run).weights, LargestTotal(run))
  {
    if run != [] {
      var prior, last := run[..|run| - 1], run[|run| - 1];
      RunBalanced(prior);
      PickBalanced(RunState(prior), last, LargestTotal(run));
    }
  }

  /** Balance bounds the weights from above as well. */
  lemma {:induction false} BalancedAbove(weights: seq<int>, bound: int, i: nat)
    requires i < |weights| && 0 <= bound
    requires forall j :: 0 <= j < |weights| ==> -bound <= weights[j]
    ensures weights[i] <= SumBy(Identity, weights) + (|weights| - 1) * bound
  {
    if i == 0 {
      SumAboveBound(weights[1..], bound);
    } else {
      BalancedAbove(weights[1..], bound, i - 1);
      assert (|weights| - 1) * bound == (|weights| - 2) * bound + bound;
    }
  }

  lemma {:induction false} SumAboveBound(weights: seq<int>, bound: int)
    requires forall j :: 0 <= j < |weights| ==> -bound <= weights[j]
    ensures -(|weights| * bound) <= SumBy(Identity, weights)
  {
    if weights != [] {
      SumAboveBound(weights[1..], bound);
      assert |weights| * bound == (|weights| - 1) * bound + bound;
    }
  }

  // ----- exact fairness

  /** The state after `m` picks over one fixed backend list. */
  ghost function After(st: State, backends: seq<Backend>, m: nat): (r: State)
    requires |st.weights| == |st.ids|
    ensures |r.weights| == |r.ids|
  {
    if m == 0 then st else PickSpec(After(st, backends, m - 1), backends).0
  }

  /** How many of the first `m` numbers satisfy `c`. */
  ghost function CountTrue(c: nat -> bool, m: nat): nat {
    if m == 0 then 0 else CountTrue(c, m - 1) + if c(m - 1) then 1 else 0
  }

  /** Whether pick number `k` over the list goes to backend `i`. */
  ghost function PickedAt(st: State, backends: seq<Backend>, i: nat): nat -> bool
    requires |st.weights| == |st.ids|
  {
    (k: nat) => PickSpec(After(st, backends, k), backends).1 == Ok(i)
  }

  /** How often backend `i` was picked in those `m` picks. */
  ghost function Picks(st: State, backends: seq<Backend>, m: nat, i: nat): nat
    requires |st.weights| == |st.ids|
  {
    CountTrue(PickedAt(st, backends, i), m)
  }

  /** The weights pick number `m` starts from. */
  ghost function SyncedAfter(st: State, backends: seq<Backend>, m: nat): (r: seq<int>)
    requires |st.weights| == |st.ids|
    ensures |r| == |backends|
  {
    Synced(After(st, backends, m), backends).weights
  }

  /** A start from which counting begins at zero: a new balancer, or one about to be reset. */
  ghost predicate FreshFor(st: State, backends: seq<Backend>) {
    |st.weights| == |st.ids| && Synced(st, backends).weights == Zeros(|backends|)
  }

  lemma NewIsFresh(backends: seq<Backend>)
    ensures FreshFor(State([], []), backends)
  {
    if backends == [] {
      assert Ids(backends) == [];
      assert Zeros(0) == [];
    }
  }

  /** Picking never forgets the ids, and picks from synchronised weights. */
  lemma PickFromSynced(st: State, backends: seq<Backend>)
    requires |st.weights| == |st.ids| && 0 < |backends| && Total(backends) != 0
    ensures |Synced(st, backends).weights| == |backends|
    ensures PickSpec(st, backends).0.ids == Ids(backends)
    ensures PickSpec(st, backends).0.weights == Advance(Synced(st, backends).weights, backends).0
    ensures PickSpec(st, backends).1 == Ok(Advance(Synced(st, backends).weights, backends).1)
    ensures Synced(PickSpec(st, backends).0, backends) == PickSpec(st, backends).0
  {
  }

  lemma AdvanceAt(weights: seq<int>, backends: seq<Backend>, i: nat)
    requires |weights| == |backends| && i < |backends|
    ensures Advance(weights, backends).0[i]
         == weights[i] + backends[i].weight - if Advance(weights, backends).1 == i then Total(backends) else 0
  {
  }

  /** One pick changes a weight by the backend's own weight, less the total if it was chosen. */
  lemma LedgerStep(st: State, backends: seq<Backend>, k: nat, i: nat)
    requires |st.weights| == |st.ids| && i < |backends| && 0 < Total(backends)
    ensures SyncedAfter(st, backends, k + 1)[i]
         == SyncedAfter(st, backends, k)[i] + backends[i].weight
            - if PickedAt(st, backends, i)(k) then Total(backends) else 0
  {
    var before := After(st, backends, k);
    PickFromSynced(before, backends);
    AdvanceAt(Synced(before, backends).weights, backends, i);
  }

  /** What backend `i` is owed after `m` picks, less what it was charged. */
  ghost function Balance(st: State, backends: seq<Backend>, m: nat, i: nat): int
    requires |st.weights| == |st.ids| && i < |backends|
  {
    Times(m, backends[i].weight) - Times(Picks(st, backends, m, i), Total(backends))
  }

  lemma CountTimes(c: nat -> bool, m: nat, x: int)
    ensures Times(CountTrue(c, 0), x) == 0
    ensures Times(CountTrue(c, m + 1), x) == Times(CountTrue(c, m), x) + if c(m) then x else 0
  {
    var n := CountTrue(c, m);
    assert Times(n + 1, x) == Times(n, x) + x;
  }

  lemma BalanceStep(st: State, backends: seq<Backend>, m: nat, i: nat)
    requires |st.weights| == |st.ids| && i < |backends|
    ensures Balance(st, backends, 0, i) == 0
    ensures Balance(st, backends, m + 1, i)
         == Balance(st, backends, m, i) + backends[i].weight
            - if PickedAt(st, backends, i)(m) then Total(backends) else 0
  {
    CountTimes(PickedAt(st, backends, i), m, Total(backends));
  }

  /** The ledger: the current weight of a backend is its balance. */
  lemma {:induction false} Ledger(st: State, backends: seq<Backend>, m: nat, i: nat)
    requires FreshFor(st, backends) && i < |backends| && 0 < Total(backends)
    ensures SyncedAfter(st, backends, m)[i] == Balance(st, backends, m, i)
  {
    if m == 0 {
      BalanceStep(st, backends, 0, i);
    } else {
      var k := m - 1;
      Ledger(st, backends, k, i);
      LedgerStep(st, backends, k, i);
      BalanceStep(st, backends, k, i);
      assert SyncedAfter(st, backends, k + 1)[i] == Balance(st, backends, k + 1, i);
    }
  }

  lemma LedgerProduct(st: State, backends: seq<Backend>, m: nat, i: nat)
    requires FreshFor(st, backends) && i < |backends| && 0 < Total(backends)
    ensures SyncedAfter(st, backends, m)[i]
         == m * backends[i].weight - Picks(st, backends, m, i) * Total(backends)
  {
    Ledger(st, backends, m, i);
    TimesIsProduct(m, backends[i].weight);
    TimesIsProduct(Picks(st, backends, m, i), Total(backends));
  }

  lemma {:induction false} AfterBalanced(st: State, backends: seq<Backend>, m: nat)
    requires FreshFor(st, backends) && 0 < |backends| && 0 < Total(backends)
    ensures Balanced(SyncedAfter(st, backends, m), Total(backends))
  {
    if m == 0 {
      ZerosSum(|backends|);
    } else {
      AfterBalanced(st, backends, m - 1);
      AdvanceBalanced(SyncedAfter(st, backends, m - 1), backends, Total(backends));
    }
  }

  lemma {:induction false} NonNegativeZeroSum(s: seq<int>, i: nat)
    requires i < |s| && SumBy(Identity, s) <= 0 && forall j :: 0 <= j < |s| ==> 0 <= s[j]
    ensures s[i] == 0
  {
    SumByAtLeast(Identity, s, i);
  }

  /** At the end of a period the ledger is a multiple of the total. */
  lemma LedgerAtPeriod(k: int, w: int, c: int, total: int, value: int)
    requires 0 < total && value == k * total * w - c * total
    ensures value == (k * w - c) * total
    ensures -total < value ==> 0 <= value
    ensures value == 0 ==> c == k * w
  {
    var owed := k * w - c;
    assert k * total * w == k * w * total;
    assert owed * total == k * w * total - c * total;
  }

  /** After k * W picks every weight is exactly back to zero and every count is exact. */
  lemma PeriodEndsAtZero(st: State, backends: seq<Backend>, k: nat, m: nat, i: nat)
    requires FreshFor(st, backends) && i < |backends| && 0 < Total(backends) && m == k * Total(backends)
    ensures SyncedAfter(st, backends, m)[i] == 0
    ensures Picks(st, backends, m, i) == k * backends[i].weight
  {
    AfterBalanced(st, backends, m);
    var s := SyncedAfter(st, backends, m);
    forall j | 0 <= j < |s| ensures 0 <= s[j] {
      PeriodEntry(st, backends, k, m, j);
    }
    NonNegativeZeroSum(s, i);
    PeriodEntry(st, backends, k, m, i);
  }

  lemma PeriodEntry(st: State, backends: seq<Backend>, k: nat, m: nat, i: nat)
    requires FreshFor(st, backends) && i < |backends| && 0 < Total(backends) && m == k * Total(backends)
    ensures var v := SyncedAfter(st, backends, m)[i];
            (-Total(backends) < v ==> 0 <= v) && (v == 0 ==> Picks(st, backends, m, i) == k * backends[i].weight)
  {
    LedgerProduct(st, backends, m, i);
    LedgerAtPeriod(k, backends[i].weight, Picks(st, backends, m, i), Total(backends),
                   SyncedAfter(st, backends, m)[i]);
  }

  /**
   * Exact fairness: over any number k of full periods of W picks, each backend is picked
   * exactly k times its weight, and the balancer is back at its starting weights.
   */
  lemma PeriodFairness(st: State, backends: seq<Backend>, k: nat, m: nat)
    requires FreshFor(st, backends) && 0 < Total(backends) && m == k * Total(backends)
    ensures forall i :: 0 <= i < |backends| ==> Picks(st, backends, m, i) == k * backends[i].weight
    ensures FreshFor(After(st, backends, m), backends)
  {
    var s := SyncedAfter(st, backends, m);
    forall i | 0 <= i < |backends|
      ensures Picks(st, backends, m, i) == k * backends[i].weight && |s| == |backends| && s[i] == 0
    {
      PeriodEndsAtZero(st, backends, k, m, i);
    }
    assert 0 < |backends|;
    AfterBalanced(st, backends, m);
    assert s == Zeros(|backends|);
  }

  lemma {:induction false} SumAboveStrict(weights: seq<int>, bound: int)
    requires weights != [] && forall j :: 0 <= j < |weights| ==> -bound < weights[j]
    ensures -Times(|weights|, bound) < SumBy(Identity, weights)
  {
    assert weights[0] > -bound;
    if |weights| > 1 {
      SumAboveStrict(weights[1..], bound);
    }
  }

  /** With others strictly above minus the bound, one weight is strictly below n - 1 bounds. */
  lemma {:induction false} BalancedBelow(weights: seq<int>, bound: int, i: nat)
    requires i < |weights| && 2 <= |weights| && forall j :: 0 <= j < |weights| ==> -bound < weights[j]
    ensures weights[i] < SumBy(Identity, weights) + Times(|weights| - 1, bound)
  {
    if i == 0 {
      SumAboveStrict(weights[1..], bound);
    } else if |weights| == 2 {
      assert SumBy(Identity, weights[1..]) == weights[1] + SumBy(Identity, weights[1..][1..]);
      assert weights[1..][1..] == [] && Times(1, bound) == Times(0, bound) + bound;
    } else {
      BalancedBelow(weights[1..], bound, i - 1);
    }
  }

  /** The weight every prefix leaves lies strictly between minus one and n - 1 totals. */
  lemma PrefixWeight(st: State, backends: seq<Backend>, m: nat, i: nat)
    requires FreshFor(st, backends) && i < |backends| && 0 < Total(backends)
    ensures -Total(backends) < SyncedAfter(st, backends, m)[i]
    ensures 2 <= |backends| ==> SyncedAfter(st, backends, m)[i] < (|backends| - 1) * Total(backends)
  {
    AfterBalanced(st, backends, m);
    TimesIsProduct(|backends| - 1, Total(backends));
    if 2 <= |backends| {
      BalancedBelow(SyncedAfter(st, backends, m), Total(backends), i);
    }
  }

  lemma AheadAndBehind(value: int, owed: int, charged: int, total: int, behind: int)
    requires value == owed - charged && -total < value
    ensures charged < owed + total
    ensures value < behind ==> owed < charged + behind
  {
  }

  /** Smoothness: at every prefix no backend is a full turn ahead, nor n - 1 turns behind. */
  lemma PrefixFairness(st: State, backends: seq<Backend>, m: nat, i: nat)
    requires FreshFor(st, backends) && i < |backends| && 0 < Total(backends)
    ensures Picks(st, backends, m, i) * Total(backends) < m * backends[i].weight + Total(backends)
    ensures |backends| == 1 ==> Picks(st, backends, m, i) == m
    ensures 2 <= |backends| ==>
              m * backends[i].weight < Picks(st, backends, m, i) * Total(backends) + (|backends| - 1) * Total(backends)
  {
    LedgerProduct(st, backends, m, i);
    PrefixWeight(st, backends, m, i);
    if |backends| == 1 {
      LoneBackend(st, backends, m);
    }
    AheadAndBehind(SyncedAfter(st, backends, m)[i], m * backends[i].weight,
                   Picks(st, backends, m, i) * Total(backends), Total(backends), (|backends| - 1) * Total(backends));
  }

  lemma LoneBackend(st: State, backends: seq<Backend>, m: nat)
    requires FreshFor(st, backends) && |backends| == 1 && 0 < Total(backends)
    ensures Picks(st, backends, m, 0) == m
  {
    forall k: nat ensures PickedAt(st, backends, 0)(k) {
      PickFromSynced(After(st, backends, k), backends);
    }
    EveryTime(PickedAt(st, backends, 0), m);
  }

  lemma {:induction false} EveryTime(c: nat -> bool, m: nat)
    requires forall k: nat :: c(k)
    ensures CountTrue(c, m) == m
  {
    if m > 0 {
      EveryTime(c, m - 1);
    }
  }

  // ----- what a pick starts from

  /** The ids of the last pick are those of the list, in its order. */
  predicate SameIds(st: State, backends: seq<Backend>) {
    |st.ids| == |backends| && forall i :: 0 <= i < |backends| ==> st.ids[i] == backends[i].id
  }

  lemma IdsAgree(st: State, backends: seq<Backend>)
    ensures st.ids == Ids(backends) <==> SameIds(st, backends)
  {
  }

  /** Any change of ids or of their order makes the pick that of a new balancer. */
  lemma ChangedIdsStartAfresh(st: State, backends: seq<Backend>)
    requires |st.weights| == |st.ids| && backends != [] && !SameIds(st, backends)
    ensures PickSpec(st, backends) == PickSpec(State([], []), backends)
  {
    IdsAgree(st, backends);
  }

  /** With the same ids the pick goes on from the weights there are, whatever the list's weights now are. */
  lemma SameIdsGoOn(st: State, backends: seq<Backend>)
    requires |st.weights| == |st.ids| && backends != [] && SameIds(st, backends) && Total(backends) != 0
    ensures var (after, r) := PickSpec(st, backends);
      && r.Ok? && SameIds(after, backends) && |after.weights| == |backends|
      && IsFirstMax(seq(|backends|, i requires 0 <= i < |backends| => st.weights[i] + backends[i].weight), r.value)
      && forall i :: 0 <= i < |backends| ==>
           after.weights[i] == st.weights[i] + backends[i].weight - if i == r.value then Total(backends) else 0
  {
    IdsAgree(st, backends);
    var b := Boosted(st.weights, backends);
    assert b == seq(|backends|, i requires 0 <= i < |backends| => st.weights[i] + backends[i].weight);
  }

  /** Counting begins at zero exactly for other ids or zero weights. */
  lemma FreshIff(st: State, backends: seq<Backend>)
    requires |st.weights| == |st.ids|
    ensures FreshFor(st, backends)
       <==> !SameIds(st, backends) || forall i :: 0 <= i < |st.weights| ==> st.weights[i] == 0
  {
    IdsAgree(st, backends);
  }

  lemma {:induction false} ZeroTotal(backends: seq<Backend>)
    ensures Total(backends) == 0 <==> forall i :: 0 <= i < |backends| ==> backends[i].weight == 0
  {
    if backends != [] {
      ZeroTotal(backends[1..]);
      TotalNonNegative(backends[1..]);
      assert forall i :: 0 < i < |backends| ==> backends[i] == backends[1..][i - 1];
    }
  }

  /** The errors exactly, and what they leave: no backends leave the state, zero weights only synchronise it. */
  lemma PickErrors(st: State, backends: seq<Backend>)
    requires |st.weights| == |st.ids|
    ensures var (after, r) := PickSpec(st, backends);
      && (r == Err(NoBackends) <==> backends == [])
      && (r == Err(AllZeroWeight) <==> backends != [] && forall i :: 0 <= i < |backends| ==> backends[i].weight == 0)
      && (r.Ok? || r == Err(NoBackends) || r == Err(AllZeroWeight))
      && (backends == [] ==> after == st)
      && (r == Err(AllZeroWeight) ==>
            SameIds(after, backends) && (SameIds(st, backends) ==> after == st)
            && (!SameIds(st, backends) ==> forall i :: 0 <= i < |after.weights| ==> after.weights[i] == 0))
  {
    ZeroTotal(backends);
    IdsAgree(st, backends);
    IdsAgree(PickSpec(st, backends).0, backends);
  }

  // ----- machine words

  predicate InWord(x: int) {
    I64_MIN <= x < I64_LIMIT
  }

  /** The total and every boosted weight of a pick stay inside signed 64-bit words. */
  ghost predicate FitsWords(st: State, backends: seq<Backend>)
    requires |st.weights| == |st.ids|
  {
    backends == [] ||
    (InWord(Total(backends)) &&
     (Total(backends) != 0 ==>
        forall i :: 0 <= i < |backends| ==> InWord(Boosted(Synced(st, backends).weights, backends)[i])))
  }

  ghost predicate Small(backends: seq<Backend>) {
    |backends| <= MAX_BACKENDS && forall i :: 0 <= i < |backends| ==> backends[i].weight < U32_LIMIT
  }

  lemma {:induction false} SmallTotal(backends: seq<Backend>, n: nat)
    requires |backends| <= n && forall i :: 0 <= i < |backends| ==> backends[i].weight < U32_LIMIT
    ensures 0 <= Total(backends) <= n * U32_LIMIT
  {
    if backends != [] {
      SmallTotal(backends[1..], n - 1);
    }
  }

  lemma {:induction false} LargestTotalSmall(run: seq<seq<Backend>>)
    requires forall i :: 0 <= i < |run| ==> Small(run[i])
    ensures LargestTotal(run) <= MAX_BACKENDS * U32_LIMIT
  {
    if run != [] {
      LargestTotalSmall(run[..|run| - 1]);
      SmallTotal(run[|run| - 1], MAX_BACKENDS);
    }
  }

  /** Over every run of lists of at most 46340 backends no pick ever leaves the word. */
  lemma SmallRunsFit(run: seq<seq<Backend>>, backends: seq<Backend>)
    requires Small(backends) && forall i :: 0 <= i < |run| ==> Small(run[i])
    ensures FitsWords(RunState(run), backends)
  {
    var st := RunState(run);
    RunBalanced(run);
    LargestTotalSmall(run);
    SmallTotal(backends, MAX_BACKENDS);
    SyncedBalanced(st, backends, LargestTotal(run));
    WordBounds(Synced(st, backends).weights, backends, LargestTotal(run));
  }

  // ----- the balancer object

  class WeightedRoundRobin {
    var currentWeights: seq<int>
    var backendIds: seq<string>
    /** The largest total weight seen so far. */
    ghost var largestTotal: nat

    ghost function View(): State
      reads this
    {
      State(currentWeights, backendIds)
    }

    ghost predicate Valid()
      reads this
    {
      && |currentWeights| == |backendIds| && largestTotal < I64_LIMIT
      && Balanced(currentWeights, largestTotal)
    }

    constructor ()
      ensures Valid() && View() == State([], []) && largestTotal == 0
    {
      currentWeights, backendIds, largestTotal := [], [], 0;
    }

    method SyncWeights(backends: seq<Backend>)
      requires Valid()
      modifies this`currentWeights, this`backendIds
      ensures Valid() && View() == Synced(old(View()), backends)
    {
      if backendIds != Ids(backends) {
        currentWeights := Zeros(|backends|);
        backendIds := Ids(backends);
        ZerosSum(|backends|);
      }
    }

    /** Adds the weights in place and remembers the first maximum, unless a sum leaves the word. */
    method AddWeights(backends: seq<Backend>, ghost bound: nat) returns (r: Option<nat>)
      requires |currentWeights| == |backends| && 0 < |backends|
      requires bound < I64_LIMIT && Balanced(currentWeights, bound)
      modifies this`currentWeights
      ensures r.None? <==> exists i :: 0 <= i < |backends| && !InWord(Boosted(old(currentWeights), backends)[i])
      ensures r.Some? ==> currentWeights == Boosted(old(currentWeights), backends)
      ensures r.Some? ==> r.value < |backends| && IsFirstMax(currentWeights, r.value)
    {
      ghost var boosted := Boosted(currentWeights, backends);
      var bestIdx, bestWeight := 0, I64_MIN;
      for i := 0 to |backends|
        invariant |currentWeights| == |backends|
        invariant forall j :: 0 <= j < i ==> currentWeights[j] == boosted[j] && InWord(boosted[j])
        invariant forall j :: i <= j < |backends| ==> currentWeights[j] == old(currentWeights)[j]
        invariant if i == 0 then bestIdx == 0 && bestWeight == I64_MIN
                  else 0 <= bestIdx < i && bestWeight == boosted[bestIdx] && IsFirstMax(boosted[..i], bestIdx)
      {
        assert I64_MIN < boosted[i];
        var sum := currentWeights[i] + backends[i].weight;
        if sum >= I64_LIMIT {
          return None;
        }
        currentWeights := currentWeights[i := sum];
        assert boosted[..i + 1] == boosted[..i] + [boosted[i]];
        if sum > bestWeight {
          bestWeight := sum;
          bestIdx := i;
        }
      }
      assert boosted[..|backends|] == boosted == currentWeights;
      return Some(bestIdx);
    }

    /**
     * `pick`: synchronise, boost, choose the first maximum, charge it the total.  There is no
     * answer exactly when a value leaves the signed 64-bit word.
     */
    method Pick(backends: seq<Backend>) returns (r: Option<Result<nat, BalancerError>>)
      requires Valid()
      modifies this
      ensures r.None? <==> !FitsWords(old(View()), backends)
      ensures r.Some? ==> Valid() && (View(), r.value) == PickSpec(old(View()), backends)
      ensures r.Some? ==> largestTotal == if backends == [] then old(largestTotal)
                                          else Max(old(largestTotal), Total(backends))
    {
      if backends == [] {
        return Some(Err(NoBackends));
      }
      PickBalanced(View(), backends, Max(largestTotal, Total(backends)));
      SyncWeights(backends);
      var totalWeight := SumWeights(backends);
      if totalWeight.None? {
        return None;
      }
      ghost var seen := largestTotal;
      largestTotal := Max(largestTotal, totalWeight.value);
      if totalWeight.value == 0 {
        return Some(Err(AllZeroWeight));
      }
      var bestIdx := AddWeights(backends, seen);
      if bestIdx.None? {
        return None;
      }
      PickIsCharge(old(View()), backends, currentWeights, bestIdx.value);
      currentWeights := currentWeights[bestIdx.value := currentWeights[bestIdx.value] - totalWeight.value];
      return Some(Ok(bestIdx.value));
    }
  }

  lemma PickIsCharge(st: State, backends: seq<Backend>, boosted: seq<int>, i: nat)
    requires |st.weights| == |st.ids| && 0 < |backends| && Total(backends) != 0
    requires |Synced(st, backends).weights| == |backends| && boosted == Boosted(Synced(st, backends).weights, backends)
    requires i < |boosted| && IsFirstMax(boosted, i)
    ensures PickSpec(st, backends)
         == (State(boosted[i := boosted[i] - Total(backends)], Ids(backends)), Ok(i))
  {
    FirstMaxUnique(boosted, i);
  }

  lemma FirstMaxUnique(s: seq<int>, i: nat)
    requires s != [] && IsFirstMax(s, i)
    ensures i == FirstMax(s)
  {
    var j := FirstMax(s);
    assert s[i] <= s[j] && s[j] <= s[i];
  }

  lemma PartTotal(backends: seq<Backend>, i: nat)
    requires i <= |backends|
    ensures Total(backends[..i]) <= Total(backends)
  {
    assert backends == backends[..i] + backends[i..];
    SumByConcat(Weight, backends[..i], backends[i..]);
    TotalNonNegative(backends[i..]);
  }

  /** The total, unless it leaves the word. */
  method SumWeights(backends: seq<Backend>) returns (r: Option<nat>)
    ensures r.None? <==> !InWord(Total(backends))
    ensures r.Some? ==> r.value == Total(backends)
  {
    var total := 0;
    TotalNonNegative(backends);
    for i := 0 to |backends|
      invariant 0 <= total == Total(backends[..i]) < I64_LIMIT
    {
      assert backends[..i + 1] == backends[..i] + [backends[i]];
      SumByAppend(Weight, backends[..i], backends[i]);
      PartTotal(backends, i + 1);
      total := total + backends[i].weight;
      if total >= I64_LIMIT {
        return None;
      }
    }
    assert backends[..|backends|] == backends;
    return Some(total);
  }

  /** Every boosted weight fits a signed 64-bit word. */
  lemma WordBounds(weights: seq<int>, backends: seq<Backend>, bound: nat)
    requires |weights| == |backends| <= MAX_BACKENDS && bound <= MAX_BACKENDS * U32_LIMIT
    requires Balanced(weights, bound)
    requires forall i :: 0 <= i < |backends| ==> backends[i].weight < U32_LIMIT
    ensures forall i :: 0 <= i < |weights| ==> I64_MIN < Boosted(weights, backends)[i] < I64_LIMIT
  {
    forall i | 0 <= i < |weights|
      ensures I64_MIN < Boosted(weights, backends)[i] < I64_LIMIT
    {
      BalancedAbove(weights, bound, i);
      ProductMonotone(|weights| - 1, bound, MAX_BACKENDS - 1, MAX_BACKENDS * U32_LIMIT);
    }
  }
}
