/**
 * The TCP pool's idle counter against its per-peer queues, with acquirers and releasers
 * interleaved at every atomic operation and lock boundary.
 */
module TcpPool {
  import opened Basics

  type Conn = nat

  /** Bounds from `PoolConfig`. */
  datatype Config = Config(perPeerMax: nat, totalMax: nat)

  /**
   * Where one thread stands.
   * `Popped`: took a connection, has not yet lowered the counter.
   * `Checked`: a releaser that read a counter below the total limit.
   * `Locked`, `Evicted`, `Pushed`: a releaser inside the peer's queue lock; after `Evicted` the
   * counter still has to be lowered, after `Pushed` it still has to be raised.
   */
  datatype Thread =
    | Idle
    | Popped(conn: Conn)
    | Checked(peer: nat, conn: Conn)
    | Locked(peer: nat, conn: Conn)
    | Evicted(peer: nat, conn: Conn)
    | Pushed(peer: nat)

  datatype Pool = Pool(config: Config, total: int, queues: seq<seq<Conn>>, threads: seq<Thread>)

  datatype Event =
    | Pop(who: nat, peer: nat)               // pop_front under the lock
    | LowerAfterPop(who: nat)                // fetch_sub(1)
    | Check(who: nat, peer: nat, conn: Conn) // load total, compare with the limit
    | Lock(who: nat)                         // lock the peer's queue
    | Evict(who: nat)                        // pop_front because the queue is full
    | LowerAfterEvict(who: nat)              // fetch_sub(1)
    | Push(who: nat)                         // push_back
    | Raise(who: nat)                        // fetch_add(1), then unlock

  /** The queue whose lock a thread holds. */
  function Holds(t: Thread): Option<nat> {
    match t
    case Locked(peer, _) => Some(peer)
    case Evicted(peer, _) => Some(peer)
    case Pushed(peer) => Some(peer)
    case _ => None
  }

  predicate Free(pool: Pool, peer: nat) {
    forall i :: 0 <= i < |pool.threads| ==> Holds(pool.threads[i]) != Some(peer)
  }

  /** Whether the event can happen now. */
  predicate Enabled(pool: Pool, e: Event) {
    e.who < |pool.threads| &&
    var t := pool.threads[e.who];
    match e
    case Pop(_, peer) => t.Idle? && peer < |pool.queues| && Free(pool, peer) && pool.queues[peer] != []
    case LowerAfterPop(_) => t.Popped?
    case Check(_, peer, _) => t.Idle? && peer < |pool.queues| && pool.total < pool.config.totalMax
    case Lock(_) => t.Checked? && t.peer < |pool.queues| && Free(pool, t.peer)
    case Evict(_) => t.Locked? && t.peer < |pool.queues| && pool.queues[t.peer] != []
                     && |pool.queues[t.peer]| >= pool.config.perPeerMax
    case LowerAfterEvict(_) => t.Evicted?
    case Push(_) => t.Locked? && t.peer < |pool.queues|
                    && (|pool.queues[t.peer]| < pool.config.perPeerMax || pool.queues[t.peer] == [])
    case Raise(_) => t.Pushed?
  }

  function Moved(pool: Pool, who: nat, t: Thread): Pool
    requires who < |pool.threads|
  {
    pool.(threads := pool.threads[who := t])
  }

  /** The pool after an enabled event. */
  function Next(pool: Pool, e: Event): Pool
    requires Enabled(pool, e)
  {
    var t := pool.threads[e.who];
    match e
    case Pop(who, peer) =>
      Moved(pool, who, Popped(pool.queues[peer][0])).(queues := pool.queues[peer := pool.queues[peer][1..]])
    case LowerAfterPop(who) => Moved(pool, who, Idle).(total := pool.total - 1)
    case Check(who, peer, conn) => Moved(pool, who, Checked(peer, conn))
    case Lock(who) => Moved(pool, who, Locked(t.peer, t.conn))
    case Evict(who) =>
      Moved(pool, who, Evicted(t.peer, t.conn)).(queues := pool.queues[t.peer := pool.queues[t.peer][1..]])
    case LowerAfterEvict(who) => Moved(pool, who, Locked(t.peer, t.conn)).(total := pool.total - 1)
    case Push(who) =>
      Moved(pool, who, Pushed(t.peer)).(queues := pool.queues[t.peer := pool.queues[t.peer] + [t.conn]])
    case Raise(who) => Moved(pool, who, Idle).(total := pool.total + 1)
  }

  /** A new pool for `peers` peers shared by `threads` threads. */
  function New(config: Config, peers: nat, threads: nat): Pool {
    Pool(config, 0, seq(peers, _ => []), seq(threads, _ => Idle))
  }

  /** `events` take `pool` to `final`, each enabled when it happens. */
  ghost predicate IsRun(pool: Pool, events: seq<Event>, final: Pool)
    decreases |events|
  {
    if events == [] then final == pool
    else Enabled(pool, events[0]) && IsRun(Next(pool, events[0]), events[1..], final)
  }

  // ----- accounting

  function Length(q: seq<Conn>): int { |q| }

  /** Counter updates a thread still owes: +1 for a pop not yet subtracted, -1 for a push not yet added. */
  function Owes(t: Thread): int {
    match t
    case Popped(_) => 1
    case Evicted(_, _) => 1
    case Pushed(_) => -1
    case _ => 0
  }

  function Parked(pool: Pool): int {
    SumBy(Length, pool.queues)
  }

  ghost predicate Accounted(pool: Pool) {
    pool.total == Parked(pool) + SumBy(Owes, pool.threads)
  }

  /** Each queue lock has at most one holder, and names a queue. */
  ghost predicate Exclusive(pool: Pool) {
    && (forall i, j :: 0 <= i < j < |pool.threads| && Holds(pool.threads[i]).Some? ==>
          Holds(pool.threads[i]) != Holds(pool.threads[j]))
    && (forall i :: 0 <= i < |pool.threads| && Holds(pool.threads[i]).Some? ==>
          Holds(pool.threads[i]).value < |pool.queues|)
  }

  /** Under the lock the queue is within bounds: strictly below the cap after an eviction, non-empty after a push. */
  ghost predicate QueuesBounded(pool: Pool) {
    && (forall p :: 0 <= p < |pool.queues| ==> |pool.queues[p]| <= Max(1, pool.config.perPeerMax))
    && (forall i :: 0 <= i < |pool.threads| && pool.threads[i].Pushed? && pool.threads[i].peer < |pool.queues| ==>
          pool.queues[pool.threads[i].peer] != [])
  }

  ghost predicate Inv(pool: Pool) {
    Accounted(pool) && Exclusive(pool) && QueuesBounded(pool)
  }

  lemma NextAccounted(pool: Pool, e: Event)
    requires Enabled(pool, e) && Accounted(pool)
    ensures Accounted(Next(pool, e))
  {
    var next := Next(pool, e);
    SumByUpdate(Owes, pool.threads, e.who, next.threads[e.who]);
    assert next.threads == pool.threads[e.who := next.threads[e.who]];
    var peer := if e.Pop? then e.peer else if e.Evict? || e.Push? then pool.threads[e.who].peer else 0;
    if peer < |pool.queues| {
      SumByUpdate(Length, pool.queues, peer, next.queues[peer]);
      assert next.queues == pool.queues[peer := next.queues[peer]];
    }
  }

  lemma NextExclusive(pool: Pool, e: Event)
    requires Enabled(pool, e) && Exclusive(pool)
    ensures Exclusive(Next(pool, e))
  {
  }

  lemma NextQueuesBounded(pool: Pool, e: Event)
    requires Enabled(pool, e) && Exclusive(pool) && QueuesBounded(pool)
    ensures QueuesBounded(Next(pool, e))
  {
  }

  lemma NewInv(config: Config, peers: nat, threads: nat)
    ensures Inv(New(config, peers, threads))
  {
    ZeroSum(Length, New(config, peers, threads).queues);
    ZeroSum(Owes, New(config, peers, threads).threads);
  }

  lemma {:induction false} ZeroSum<T>(f: T -> int, s: seq<T>)
    requires forall i :: 0 <= i < |s| ==> f(s[i]) == 0
    ensures SumBy(f, s) == 0
  {
    if s != [] {
      forall i | 0 <= i < |s[1..]| ensures f(s[1..][i]) == 0 { assert s[1..][i] == s[i + 1]; }
      ZeroSum(f, s[1..]);
    }
  }

  /** In every interleaving the accounting, the locks and the queue bounds hold. */
  lemma {:induction false} RunInv(pool: Pool, events: seq<Event>, final: Pool)
    requires Inv(pool) && IsRun(pool, events, final)
    ensures Inv(final) && final.config == pool.config
    decreases |events|
  {
    if events != [] {
      NextAccounted(pool, events[0]);
      NextExclusive(pool, events[0]);
      NextQueuesBounded(pool, events[0]);
      RunInv(Next(pool, events[0]), events[1..], final);
    }
  }

  /** When no thread is inside an operation the counter is exactly the number of parked connections. */
  lemma QuiescentTotal(pool: Pool)
    requires Inv(pool) && forall i :: 0 <= i < |pool.threads| ==> pool.threads[i].Idle? || pool.threads[i].Checked?
    ensures pool.total == Parked(pool)
  {
    ZeroSum(Owes, pool.threads);
  }

  // ----- the counter never underflows

  function PushedOne(t: Thread): int {
    if t.Pushed? then 1 else 0
  }

  function LoweringOne(t: Thread): int {
    if t.Popped? || t.Evicted? then 1 else 0
  }

  lemma {:induction false} OwesSplits(threads: seq<Thread>)
    ensures SumBy(Owes, threads) == SumBy(LoweringOne, threads) - SumBy(PushedOne, threads)
  {
    if threads != [] {
      OwesSplits(threads[1..]);
    }
  }

  /** Distinct pending pushes have distinct non-empty queues, so parked connections cover them. */
  lemma {:induction false} PushesAreParked(queues: seq<seq<Conn>>, threads: seq<Thread>)
    requires forall i :: 0 <= i < |threads| && threads[i].Pushed? ==>
               threads[i].peer < |queues| && queues[threads[i].peer] != []
    requires forall i, j :: 0 <= i < j < |threads| && threads[i].Pushed? && threads[j].Pushed? ==>
               threads[i].peer != threads[j].peer
    ensures SumBy(PushedOne, threads) <= SumBy(Length, queues)
    decreases |threads|
  {
    if threads == [] {
      SumByNonNegative(Length, queues);
    } else if threads[0].Pushed? {
      var p := threads[0].peer;
      var fewer := queues[p := queues[p][1..]];
      forall i | 0 <= i < |threads[1..]| && threads[1..][i].Pushed?
        ensures threads[1..][i].peer < |fewer| && fewer[threads[1..][i].peer] != []
      {
        assert threads[1..][i] == threads[i + 1];
      }
      SumByUpdate(Length, queues, p, queues[p][1..]);
      PushesAreParked(fewer, threads[1..]);
    } else {
      PushesAreParked(queues, threads[1..]);
    }
  }

  /** Every `fetch_sub` finds a counter of at least one, in every interleaving. */
  lemma NoUnderflow(pool: Pool, e: Event)
    requires Inv(pool) && Enabled(pool, e) && (e.LowerAfterPop? || e.LowerAfterEvict?)
    ensures pool.total >= 1
  {
    OwesSplits(pool.threads);
    forall i, j | 0 <= i < j < |pool.threads| && pool.threads[i].Pushed? && pool.threads[j].Pushed?
      ensures pool.threads[i].peer != pool.threads[j].peer
    {
      assert Holds(pool.threads[i]) != Holds(pool.threads[j]);
    }
    forall i | 0 <= i < |pool.threads| && pool.threads[i].Pushed?
      ensures pool.threads[i].peer < |pool.queues| && pool.queues[pool.threads[i].peer] != []
    {
      assert Holds(pool.threads[i]).value < |pool.queues|;
    }
    PushesAreParked(pool.queues, pool.threads);
    SumByAtLeast(LoweringOne, pool.threads, e.who);
  }

  lemma {:induction false} NeverNegative(pool: Pool, events: seq<Event>, final: Pool)
    requires Inv(pool) && 0 <= pool.total && IsRun(pool, events, final)
    ensures 0 <= final.total
    decreases |events|
  {
    if events != [] {
      var e := events[0];
      if e.LowerAfterPop? || e.LowerAfterEvict? {
        NoUnderflow(pool, e);
      }
      RunInv(pool, [e], Next(pool, e));
      NeverNegative(Next(pool, e), events[1..], final);
    }
  }

  // ----- how far the total limit can be overshot

  /** Releasers past the limit check that have not yet raised the counter. */
  function ReleasingOne(t: Thread): int {
    if t.Checked? || Holds(t).Some? then 1 else 0
  }

  function Releasing(pool: Pool): int {
    SumBy(ReleasingOne, pool.threads)
  }

  /** A run in which never more than `k` releasers are past the check at once. */
  ghost predicate IsRunWithin(pool: Pool, events: seq<Event>, final: Pool, k: nat)
    decreases |events|
  {
    Releasing(pool) <= k &&
    if events == [] then final == pool
    else Enabled(pool, events[0]) && IsRunWithin(Next(pool, events[0]), events[1..], final, k)
  }

  lemma NextReserved(pool: Pool, e: Event, k: nat)
    requires Enabled(pool, e) && Releasing(Next(pool, e)) <= k
    requires pool.total + Releasing(pool) <= pool.config.totalMax - 1 + k
    ensures Next(pool, e).total + Releasing(Next(pool, e)) <= pool.config.totalMax - 1 + k
  {
    var next := Next(pool, e);
    SumByUpdate(ReleasingOne, pool.threads, e.who, next.threads[e.who]);
    assert next.threads == pool.threads[e.who := next.threads[e.who]];
  }

  /** With at most k concurrent releasers the counter stays within the limit plus k - 1. */
  lemma {:induction false} Overshoot(pool: Pool, events: seq<Event>, final: Pool, k: nat)
    requires IsRunWithin(pool, events, final, k)
    requires pool.total + Releasing(pool) <= pool.config.totalMax - 1 + k
    ensures final.total <= final.config.totalMax - 1 + k
    decreases |events|
  {
    if events == [] {
      SumByNonNegative(ReleasingOne, pool.threads);
    } else {
      NextReserved(pool, events[0], k);
      Overshoot(Next(pool, events[0]), events[1..], final, k);
    }
  }

  /** ... from a new pool, for every k of at least one: in particular a single releaser never overshoots. */
  lemma TotalBound(config: Config, peers: nat, threads: nat, events: seq<Event>, final: Pool, k: nat)
    requires 1 <= k && IsRunWithin(New(config, peers, threads), events, final, k)
    ensures final.total <= config.totalMax - 1 + k
  {
    ZeroSum(ReleasingOne, New(config, peers, threads).threads);
    Overshoot(New(config, peers, threads), events, final, k);
    SameConfig(New(config, peers, threads), events, final, k);
  }

  lemma {:induction false} SameConfig(pool: Pool, events: seq<Event>, final: Pool, k: nat)
    requires IsRunWithin(pool, events, final, k)
    ensures final.config == pool.config
    decreases |events|
  {
    if events != [] {
      SameConfig(Next(pool, events[0]), events[1..], final, k);
    }
  }

  // ----- the overshoot bound is reached

  ghost predicate Reaches(pool: Pool, final: Pool) {
    exists events :: IsRun(pool, events, final)
  }

  lemma {:induction false} RunConcat(a: Pool, first: seq<Event>, b: Pool, second: seq<Event>, c: Pool)
    requires IsRun(a, first, b) && IsRun(b, second, c)
    ensures IsRun(a, first + second, c)
    decreases |first|
  {
    if first == [] {
      assert first + second == second;
    } else {
      RunConcat(Next(a, first[0]), first[1..], b, second, c);
      assert (first + second)[1..] == first[1..] + second;
    }
  }

  lemma ReachesTransitive(a: Pool, b: Pool, c: Pool)
    requires Reaches(a, b) && Reaches(b, c)
    ensures Reaches(a, c)
  {
    var first :| IsRun(a, first, b);
    var second :| IsRun(b, second, c);
    RunConcat(a, first, b, second, c);
  }

  lemma ReachesByOne(pool: Pool, e: Event)
    requires Enabled(pool, e)
    ensures Reaches(pool, Next(pool, e))
  {
    assert [e][1..] == [];
    assert IsRun(pool, [e], Next(pool, e));
  }

  lemma LockAndPush(pool: Pool, who: nat, peer: nat)
    requires who < |pool.threads| && pool.threads[who] == Checked(peer, 0)
    requires peer < |pool.queues| && pool.queues[peer] == [] && Free(pool, peer)
    ensures Reaches(pool, pool.(queues := pool.queues[peer := [0]], threads := pool.threads[who := Pushed(peer)]))
  {
    var locked := Next(pool, Lock(who));
    ReachesByOne(pool, Lock(who));
    var pushed := Next(locked, Push(who));
    ReachesByOne(locked, Push(who));
    ReachesTransitive(pool, locked, pushed);
    assert [] + [0] == [0];
    assert pushed.threads == pool.threads[who := Pushed(peer)];
  }

  /** A releaser past the check, alone at an empty queue, parks its connection. */
  lemma ReleaseParks(pool: Pool, who: nat, peer: nat)
    requires who < |pool.threads| && pool.threads[who] == Checked(peer, 0)
    requires peer < |pool.queues| && pool.queues[peer] == [] && Free(pool, peer)
    ensures Reaches(pool, Pool(pool.config, pool.total + 1, pool.queues[peer := [0]], pool.threads[who := Idle]))
  {
    LockAndPush(pool, who, peer);
    var pushed := pool.(queues := pool.queues[peer := [0]], threads := pool.threads[who := Pushed(peer)]);
    ReachesByOne(pushed, Raise(who));
    ReachesTransitive(pool, pushed, Next(pushed, Raise(who)));
    assert pushed.threads[who := Idle] == pool.threads[who := Idle];
  }

  /** `filled` peers hold one connection each; releasers `lo .. hi` are past the check. */
  function Stage(config: Config, k: nat, filled: nat, lo: nat, hi: nat): Pool
    requires 1 <= config.totalMax
  {
    Pool(config, filled,
         seq(config.totalMax - 1 + k, p => if p < filled then [0] else []),
         seq(k, i requires 0 <= i => if lo <= i < hi then Checked(config.totalMax - 1 + i, 0) else Idle))
  }

  lemma FillOne(config: Config, k: nat, filled: nat)
    requires 1 <= config.totalMax && 1 <= k && filled + 1 <= config.totalMax - 1
    ensures Reaches(Stage(config, k, filled, 0, 0), Stage(config, k, filled + 1, 0, 0))
  {
    var before, after := Stage(config, k, filled, 0, 0), Stage(config, k, filled + 1, 0, 0);
    var checked := Next(before, Check(0, filled, 0));
    ReachesByOne(before, Check(0, filled, 0));
    ReleaseParks(checked, 0, filled);
    assert checked.queues[filled := [0]] == after.queues;
    assert checked.threads[0 := Idle] == after.threads;
    ReachesTransitive(before, checked, after);
  }

  /** One releaser at a time fills the pool up to one below the limit. */
  lemma {:induction false} FillUp(config: Config, k: nat, filled: nat)
    requires 1 <= config.totalMax && 1 <= k && filled <= config.totalMax - 1
    ensures Reaches(Stage(config, k, 0, 0, 0), Stage(config, k, filled, 0, 0))
  {
    var start := Stage(config, k, 0, 0, 0);
    if filled == 0 {
      assert IsRun(start, [], start);
    } else {
      FillUp(config, k, filled - 1);
      FillOne(config, k, filled - 1);
      ReachesTransitive(start, Stage(config, k, filled - 1, 0, 0), Stage(config, k, filled, 0, 0));
    }
  }

  lemma CheckOne(config: Config, k: nat, c: nat)
    requires 1 <= config.totalMax && c < k
    ensures Reaches(Stage(config, k, config.totalMax - 1, 0, c), Stage(config, k, config.totalMax - 1, 0, c + 1))
  {
    var before, after := Stage(config, k, config.totalMax - 1, 0, c), Stage(config, k, config.totalMax - 1, 0, c + 1);
    var e := Check(c, config.totalMax - 1 + c, 0);
    ReachesByOne(before, e);
    assert Next(before, e).threads == after.threads;
  }

  /** All k releasers read the counter before any of them raises it. */
  lemma {:induction false} AllCheck(config: Config, k: nat, c: nat)
    requires 1 <= config.totalMax && c <= k
    ensures Reaches(Stage(config, k, config.totalMax - 1, 0, 0), Stage(config, k, config.totalMax - 1, 0, c))
  {
    var start := Stage(config, k, config.totalMax - 1, 0, 0);
    if c == 0 {
      assert IsRun(start, [], start);
    } else {
      AllCheck(config, k, c - 1);
      CheckOne(config, k, c - 1);
      ReachesTransitive(
        start, Stage(config, k, config.totalMax - 1, 0, c - 1), Stage(config, k, config.totalMax - 1, 0, c));
    }
  }

  lemma ParkOne(config: Config, k: nat, c: nat)
    requires 1 <= config.totalMax && c < k
    ensures Reaches(Stage(config, k, config.totalMax - 1 + c, c, k),
                    Stage(config, k, config.totalMax - 1 + c + 1, c + 1, k))
  {
    var peer := config.totalMax - 1 + c;
    var before, after := Stage(config, k, peer, c, k), Stage(config, k, peer + 1, c + 1, k);
    ReleaseParks(before, c, peer);
    assert before.queues[peer := [0]] == after.queues;
    assert before.threads[c := Idle] == after.threads;
  }

  lemma {:induction false} AllPark(config: Config, k: nat, c: nat)
    requires 1 <= config.totalMax && c <= k
    ensures Reaches(Stage(config, k, config.totalMax - 1, 0, k), Stage(config, k, config.totalMax - 1 + c, c, k))
  {
    var start := Stage(config, k, config.totalMax - 1, 0, k);
    if c == 0 {
      assert IsRun(start, [], start);
    } else {
      var peer := config.totalMax - 1 + c - 1;
      AllPark(config, k, c - 1);
      ParkOne(config, k, c - 1);
      ReachesTransitive(start, Stage(config, k, peer, c - 1, k), Stage(config, k, peer + 1, c, k));
    }
  }

  lemma AllReached(config: Config, k: nat)
    requires 1 <= config.totalMax && 1 <= k
    ensures Reaches(New(config, config.totalMax - 1 + k, k), Stage(config, k, config.totalMax - 1 + k, k, k))
  {
    var start, zero := New(config, config.totalMax - 1 + k, k), Stage(config, k, 0, 0, 0);
    assert start.queues == zero.queues && start.threads == zero.threads;
    var full, checked := Stage(config, k, config.totalMax - 1, 0, 0), Stage(config, k, config.totalMax - 1, 0, k);
    FillUp(config, k, config.totalMax - 1);
    AllCheck(config, k, k);
    ReachesTransitive(start, full, checked);
    AllPark(config, k, k);
    ReachesTransitive(start, checked, Stage(config, k, config.totalMax - 1 + k, k, k));
  }

  /**
   * The bound is exact: for every limit and every k there is a schedule of k releasers that parks
   * `totalMax - 1 + k` connections, so two releasers already exceed the configured maximum.
   */
  lemma OvershootIsReached(config: Config, k: nat)
    requires 1 <= config.totalMax && 1 <= k
    ensures exists final :: Reaches(New(config, config.totalMax - 1 + k, k), final)
                            && final.total == Parked(final) == config.totalMax - 1 + k
  {
    AllReached(config, k);
    StageIsQuiescent(config, k);
  }

  lemma StageIsQuiescent(config: Config, k: nat)
    requires 1 <= config.totalMax && 1 <= k
    ensures var final := Stage(config, k, config.totalMax - 1 + k, k, k);
      final.total == Parked(final) == config.totalMax - 1 + k
  {
    var start, final := New(config, config.totalMax - 1 + k, k), Stage(config, k, config.totalMax - 1 + k, k, k);
    AllReached(config, k);
    NewInv(config, config.totalMax - 1 + k, k);
    var events :| IsRun(start, events, final);
    RunInv(start, events, final);
    QuiescentTotal(final);
  }

  /** k threads are never more than k releasers, so the reached overshoot respects the bound. */
  lemma ReleasersAreThreads(pool: Pool)
    ensures Releasing(pool) <= |pool.threads|
  {
    SumByMonotone(ReleasingOne, (t: Thread) => 1, pool.threads);
    CountOnes(pool.threads);
  }

  lemma {:induction false} CountOnes(threads: seq<Thread>)
    ensures SumBy((t: Thread) => 1, threads) == |threads|
  {
    if threads != [] {
      CountOnes(threads[1..]);
    }
  }

  // ----- the order of connections

  /** The connection an event takes out of queue `p`, and the one it puts in. */
  function TakenOut(pool: Pool, e: Event, p: nat): seq<Conn>
    requires Enabled(pool, e)
  {
    if e.Pop? && e.peer == p then [pool.queues[p][0]]
    else if e.Evict? && pool.threads[e.who].peer == p then [pool.queues[p][0]]
    else []
  }

  function PutIn(pool: Pool, e: Event, p: nat): seq<Conn>
    requires Enabled(pool, e)
  {
    if e.Push? && pool.threads[e.who].peer == p then [pool.threads[e.who].conn] else []
  }

  /** The same over a run, in order. */
  function AllTakenOut(pool: Pool, events: seq<Event>, p: nat): seq<Conn>
    decreases |events|
  {
    if events == [] || !Enabled(pool, events[0]) then []
    else TakenOut(pool, events[0], p) + AllTakenOut(Next(pool, events[0]), events[1..], p)
  }

  function AllPutIn(pool: Pool, events: seq<Event>, p: nat): seq<Conn>
    decreases |events|
  {
    if events == [] || !Enabled(pool, events[0]) then []
    else PutIn(pool, events[0], p) + AllPutIn(Next(pool, events[0]), events[1..], p)
  }

  lemma StepFifo(pool: Pool, e: Event, p: nat)
    requires Enabled(pool, e) && p < |pool.queues|
    ensures |Next(pool, e).queues| == |pool.queues|
    ensures pool.queues[p] + PutIn(pool, e, p) == TakenOut(pool, e, p) + Next(pool, e).queues[p]
  {
  }

  /** First in, first out, in every interleaving: what leaves a queue is what entered it, in that order. */
  lemma {:induction false} FirstInFirstOut(pool: Pool, events: seq<Event>, final: Pool, p: nat)
    requires IsRun(pool, events, final) && p < |pool.queues|
    ensures p < |final.queues|
    ensures pool.queues[p] + AllPutIn(pool, events, p) == AllTakenOut(pool, events, p) + final.queues[p]
    decreases |events|
  {
    if events != [] {
      var e, next := events[0], Next(pool, events[0]);
      StepFifo(pool, e, p);
      FirstInFirstOut(next, events[1..], final, p);
      var x, y := AllPutIn(next, events[1..], p), AllTakenOut(next, events[1..], p);
      Associative(pool.queues[p], PutIn(pool, e, p), x);
      Associative(TakenOut(pool, e, p), next.queues[p], x);
      Associative(TakenOut(pool, e, p), y, final.queues[p]);
    }
  }

  /** Below the per-peer limit a releaser parks at the back, without evicting; at it, it first evicts the oldest. */
  lemma ParksOrEvicts(pool: Pool, who: nat, peer: nat, conn: Conn)
    requires who < |pool.threads| && pool.threads[who] == Locked(peer, conn) && peer < |pool.queues|
    ensures |pool.queues[peer]| < Max(1, pool.config.perPeerMax) ==>
              && Enabled(pool, Push(who)) && !Enabled(pool, Evict(who))
              && Next(pool, Push(who)).queues == pool.queues[peer := pool.queues[peer] + [conn]]
    ensures |pool.queues[peer]| >= Max(1, pool.config.perPeerMax) ==>
              && Enabled(pool, Evict(who)) && !Enabled(pool, Push(who))
              && Next(pool, Evict(who)).queues == pool.queues[peer := pool.queues[peer][1..]]
              && Next(pool, Evict(who)).threads[who] == Evicted(peer, conn)
  {
  }

  lemma CheckAndLock(pool: Pool, who: nat, peer: nat, conn: Conn)
    requires who < |pool.threads| && pool.threads[who].Idle? && peer < |pool.queues|
    requires pool.total < pool.config.totalMax && Free(pool, peer)
    ensures Reaches(pool, pool.(threads := pool.threads[who := Locked(peer, conn)]))
  {
    var checked := Next(pool, Check(who, peer, conn));
    ReachesByOne(pool, Check(who, peer, conn));
    assert Free(checked, peer);
    ReachesByOne(checked, Lock(who));
    ReachesTransitive(pool, checked, Next(checked, Lock(who)));
    assert checked.threads[who := Locked(peer, conn)] == pool.threads[who := Locked(peer, conn)];
  }

  lemma PushAndRaise(pool: Pool, who: nat, peer: nat, conn: Conn)
    requires who < |pool.threads| && pool.threads[who] == Locked(peer, conn) && peer < |pool.queues|
    requires |pool.queues[peer]| < Max(1, pool.config.perPeerMax)
    ensures Reaches(pool, pool.(total := pool.total + 1, queues := pool.queues[peer := pool.queues[peer] + [conn]],
                                threads := pool.threads[who := Idle]))
  {
    ParksOrEvicts(pool, who, peer, conn);
    var pushed := Next(pool, Push(who));
    ReachesByOne(pool, Push(who));
    ReachesByOne(pushed, Raise(who));
    ReachesTransitive(pool, pushed, Next(pushed, Raise(who)));
    assert pushed.threads[who := Idle] == pool.threads[who := Idle];
  }

  /** Below both limits, and undisturbed, a released connection is parked at the back of its peer's queue. */
  lemma ReleasedIsParked(pool: Pool, who: nat, peer: nat, conn: Conn)
    requires who < |pool.threads| && pool.threads[who].Idle? && peer < |pool.queues|
    requires pool.total < pool.config.totalMax && Free(pool, peer)
    requires |pool.queues[peer]| < Max(1, pool.config.perPeerMax)
    ensures Reaches(pool, pool.(total := pool.total + 1, queues := pool.queues[peer := pool.queues[peer] + [conn]]))
  {
    var locked := pool.(threads := pool.threads[who := Locked(peer, conn)]);
    var parked := pool.(total := pool.total + 1, queues := pool.queues[peer := pool.queues[peer] + [conn]]);
    CheckAndLock(pool, who, peer, conn);
    PushAndRaise(locked, who, peer, conn);
    assert locked.threads[who := Idle] == pool.threads;
    ReachesTransitive(pool, locked, parked);
  }

  /** An acquirer takes the oldest connection of its peer. */
  lemma PopTakesOldest(pool: Pool, who: nat, peer: nat)
    requires Enabled(pool, Pop(who, peer))
    ensures Next(pool, Pop(who, peer)).threads[who] == Popped(pool.queues[peer][0])
    ensures Next(pool, Pop(who, peer)).queues == pool.queues[peer := pool.queues[peer][1..]]
  {
  }
}
