/**
 * Maglev lookup-table construction for any prime table size.
 *
 * The table is specified by a plain greedy process: turn k belongs to backend k mod n, which
 * takes the first free slot of its own probe sequence, counted from the start every time.  The
 * code keeps a cursor per backend instead, and its inner probe loop has no bound of its own.
 */
module MaglevTable {
  import opened Basics
  import opened NumberTheory

  /** The mark of an empty slot (`usize::MAX` in the source). */
  const EMPTY: nat := 0xFFFF_FFFF_FFFF_FFFF

  /** A backend's probe sequence: `offset + c * skip` modulo the table size. */
  datatype Perm = Perm(offset: int, skip: int)

  ghost predicate ValidPerm(perm: Perm, p: int) {
    0 <= perm.offset < p && 1 <= perm.skip < p
  }

  ghost predicate ValidPerms(perms: seq<Perm>, p: int) {
    forall i :: 0 <= i < |perms| ==> ValidPerm(perms[i], p)
  }

  function Slot(perm: Perm, p: int, c: nat): (slot: int)
    requires 0 < p
    ensures 0 <= slot < p
  {
    (perm.offset + c * perm.skip) % p
  }

  /** How often `v` occurs in `table`: the number of slots a backend owns. */
  function Owned(table: seq<nat>, v: int): nat {
    if table == [] then 0 else (if table[0] == v then 1 else 0) + Owned(table[1..], v)
  }

  // ----- the probe sequence is a permutation of the slots

  lemma ProbeDifference(offset: int, skip: int, c: int, d: int)
    ensures offset + d * skip - (offset + c * skip) == (d - c) * skip
  {
  }

  lemma StepsApart(p: int, k: int, skip: int, a: int, b: int)
    requires IsPrime(p) && 1 <= k < p && 1 <= skip < p && b - a == k * skip
    ensures a % p != b % p
  {
    NoZeroProduct(p, k, skip);
    if a % p == b % p {
      SameRemainder(b, a, p);
    }
  }

  lemma RemaindersDistinct(p: int, offset: int, skip: int, c: int, d: int)
    requires IsPrime(p) && 1 <= skip < p && 0 <= c < d < p
    ensures (offset + c * skip) % p != (offset + d * skip) % p
  {
    ProbeDifference(offset, skip, c, d);
    StepsApart(p, d - c, skip, offset + c * skip, offset + d * skip);
  }

  lemma SlotStart(perm: Perm, p: int)
    requires ValidPerm(perm, p)
    ensures Slot(perm, p, 0) == perm.offset
  {
    DivModUnique(perm.offset, p, 0, perm.offset);
  }

  /** The probe sequence starts at the offset and goes on by the skip, around the table. */
  lemma SlotRecurrence(perm: Perm, p: int, c: nat)
    requires ValidPerm(perm, p)
    ensures Slot(perm, p, 0) == perm.offset
    ensures Slot(perm, p, c + 1) == (Slot(perm, p, c) + perm.skip) % p
  {
    SlotStart(perm, p);
    ProbeStep(perm.offset, perm.skip, c, p);
  }

  lemma ProbeStep(offset: int, skip: int, c: int, p: int)
    requires 0 < p
    ensures (offset + (c + 1) * skip) % p == ((offset + c * skip) % p + skip) % p
  {
    ProbeDifference(offset, skip, c, c + 1);
    NextRemainder(offset + c * skip, skip, p);
  }

  lemma NextRemainder(x: int, s: int, p: int)
    requires 0 < p
    ensures (x + s) % p == (x % p + s) % p
  {
    RemainderOfSum(x % p + s, x / p, p);
    assert x == x / p * p + x % p;
  }

  /** Distinct probe counts below a prime table size reach distinct slots. */
  lemma ProbesDistinct(perm: Perm, p: int, c: nat, d: nat)
    requires IsPrime(p) && ValidPerm(perm, p) && c < d < p
    ensures Slot(perm, p, c) != Slot(perm, p, d)
  {
    RemaindersDistinct(p, perm.offset, perm.skip, c, d);
  }

  ghost function Reached(perm: Perm, p: int, c: nat): (slots: set<int>)
    requires 0 < p
  {
    set k | 0 <= k < c :: Slot(perm, p, k)
  }

  lemma {:induction false} ReachedCount(perm: Perm, p: int, c: nat)
    requires IsPrime(p) && ValidPerm(perm, p) && c <= p
    ensures |Reached(perm, p, c)| == c
  {
    if c > 0 {
      ReachedCount(perm, p, c - 1);
      assert Reached(perm, p, c) == Reached(perm, p, c - 1) + {Slot(perm, p, c - 1)};
      forall k | 0 <= k < c - 1 ensures Slot(perm, p, k) != Slot(perm, p, c - 1) {
        ProbesDistinct(perm, p, k, c - 1);
      }
    }
  }

  /** Pigeonhole: p probes of a prime-sized table visit every slot. */
  lemma ProbesCover(perm: Perm, p: int, slot: int)
    requires IsPrime(p) && ValidPerm(perm, p) && 0 <= slot < p
    ensures exists c :: 0 <= c < p && Slot(perm, p, c) == slot
  {
    ReachedCount(perm, p, p);
    var reached := Reached(perm, p, p);
    BoundedSetSize(reached + {slot}, p);
    assert slot in reached;
  }

  // ----- machine words

  /** The probe computation stays inside a 64-bit word. */
  predicate Fits(perm: Perm, c: nat) {
    perm.offset + c * perm.skip < U64_LIMIT
  }

  lemma FitsEarlier(perm: Perm, c: nat, d: nat)
    requires 0 <= perm.skip && c <= d && Fits(perm, d)
    ensures Fits(perm, c)
  {
    ProductMonotone(c, perm.skip, d, perm.skip);
  }

  lemma ProbeFitsWord(perm: Perm, p: int, c: nat)
    requires ValidPerm(perm, p) && c < p <= U32_LIMIT
    ensures Fits(perm, c)
  {
    ProductMonotone(c, perm.skip, p - 1, p - 1);
    ProductMonotone(p - 1, p, U32_LIMIT - 1, U32_LIMIT);
    assert (p - 1) * p == (p - 1) * (p - 1) + (p - 1);
  }

  /** The largest probe of the most unfortunate backend. */
  lemma WorstProbe(p: int)
    requires U32_LIMIT < p
    ensures ValidPerm(Perm(p - 1, p - 1), p) && !Fits(Perm(p - 1, p - 1), p - 1)
  {
    ProductMonotone(U32_LIMIT, U32_LIMIT, p - 1, p - 1);
  }

  /** Exactly up to a table size of 2^32 no probe of any backend can leave the word. */
  lemma ProbesFitIff(p: int)
    requires 2 <= p
    ensures p <= U32_LIMIT <==> forall perm, c: nat :: ValidPerm(perm, p) && c < p ==> Fits(perm, c)
  {
    if p <= U32_LIMIT {
      forall perm, c: nat | ValidPerm(perm, p) && c < p ensures Fits(perm, c) {
        ProbeFitsWord(perm, p, c);
      }
    } else {
      WorstProbe(p);
    }
  }

  // ----- counting slots

  lemma {:induction false} OwnedUpdate(table: seq<nat>, slot: nat, v: int, w: nat)
    requires slot < |table|
    ensures Owned(table[slot := w], v)
         == Owned(table, v) - (if table[slot] == v then 1 else 0) + (if w == v then 1 else 0)
  {
    if slot == 0 {
      assert table[0 := w][1..] == table[1..];
    } else {
      assert table[slot := w][1..] == table[1..][slot - 1 := w];
      OwnedUpdate(table[1..], slot - 1, v, w);
    }
  }

  lemma {:induction false} OwnedNone(table: seq<nat>, v: int)
    ensures Owned(table, v) == 0 <==> v !in table
    ensures Owned(table, v) <= |table|
  {
    if table != [] {
      OwnedNone(table[1..], v);
      assert table == [table[0]] + table[1..];
    }
  }

  function EmptyTable(p: nat): (table: seq<nat>)
    ensures |table| == p && forall k :: 0 <= k < p ==> table[k] == EMPTY
  {
    seq(p, _ => EMPTY)
  }

  lemma {:induction false} EmptyTableOwned(p: nat, v: int)
    ensures Owned(EmptyTable(p), v) == if v == EMPTY then p else 0
  {
    if p > 0 {
      assert EmptyTable(p)[1..] == EmptyTable(p - 1);
      EmptyTableOwned(p - 1, v);
    }
  }

  // ----- the specification: greedy turns

  /** `c` is the first position of the probe sequence whose slot is free in `table`. */
  ghost predicate FirstFree(table: seq<nat>, perm: Perm, p: int, c: nat)
    requires 0 < p == |table|
  {
    && table[Slot(perm, p, c)] == EMPTY
    && forall k :: 0 <= k < c ==> table[Slot(perm, p, k)] != EMPTY
  }

  /** `table` is what `k` turns of the greedy process leave. */
  ghost predicate Greedy(perms: seq<Perm>, p: int, k: nat, table: seq<nat>)
    requires 0 < p && 0 < |perms|
    decreases k, 1
  {
    && |table| == p
    && if k == 0 then table == EmptyTable(p)
       else exists before, c :: GreedyStep(perms, p, k, before, c, table)
  }

  ghost predicate GreedyStep(perms: seq<Perm>, p: int, k: nat, before: seq<nat>, c: nat, table: seq<nat>)
    requires 0 < p && 0 < |perms| && 0 < k
    decreases k, 0
  {
    && Greedy(perms, p, k - 1, before)
    && FirstFree(before, perms[(k - 1) % |perms|], p, c)
    && table == before[Slot(perms[(k - 1) % |perms|], p, c) := (k - 1) % |perms|]
  }

  /** Turn k finds `before` and takes its backend's probe `c`. */
  ghost predicate Turn(perms: seq<Perm>, p: int, k: nat, before: seq<nat>, c: nat) {
    && 0 < p && 0 < |perms| && 0 < k
    && Greedy(perms, p, k - 1, before)
    && FirstFree(before, perms[(k - 1) % |perms|], p, c)
  }

  /** None of the first k turns computes a probe outside a 64-bit word. */
  ghost predicate WordSafe(perms: seq<Perm>, p: int, k: nat)
    requires 0 < |perms|
  {
    forall j: nat, before, c: nat :: j <= k && Turn(perms, p, j, before, c) ==> Fits(perms[(j - 1) % |perms|], c)
  }

  /** The greedy process is deterministic: it describes one table. */
  lemma {:induction false} GreedyUnique(perms: seq<Perm>, p: int, k: nat, t: seq<nat>, u: seq<nat>)
    requires 0 < p && 0 < |perms| && Greedy(perms, p, k, t) && Greedy(perms, p, k, u)
    ensures t == u
  {
    if k > 0 {
      var before, c :| GreedyStep(perms, p, k, before, c, t);
      var before', c' :| GreedyStep(perms, p, k, before', c', u);
      GreedyUnique(perms, p, k - 1, before, before');
      assert c == c';
    }
  }

  /** The exact share of backend `i` after `k` turns over `n` backends. */
  function Share(k: nat, n: nat, i: nat): nat
    requires 0 < n
  {
    k / n + if i < k % n then 1 else 0
  }

  lemma NextShare(k: nat, n: nat, i: nat)
    requires 0 < n && i < n
    ensures Share(k + 1, n, i) == Share(k, n, i) + if i == k % n then 1 else 0
  {
    var q, r := k / n, k % n;
    assert k == q * n + r;
    if r + 1 < n {
      DivModUnique(k + 1, n, q, r + 1);
    } else {
      assert k + 1 == (q + 1) * n;
      DivModUnique(k + 1, n, q + 1, 0);
    }
  }

  /** Whatever the hashes are, k turns give backend i exactly `Share(k, n, i)` slots. */
  lemma {:induction false} GreedyBalance(perms: seq<Perm>, p: int, k: nat, table: seq<nat>, i: nat)
    requires 0 < p && i < |perms| <= EMPTY && Greedy(perms, p, k, table)
    ensures Owned(table, i) == Share(k, |perms|, i)
  {
    var n := |perms|;
    if k == 0 {
      EmptyTableOwned(p, i);
      DivModUnique(0, n, 0, 0);
    } else {
      var before, c :| GreedyStep(perms, p, k, before, c, table);
      GreedyBalance(perms, p, k - 1, before, i);
      OwnedUpdate(before, Slot(perms[(k - 1) % n], p, c), i, (k - 1) % n);
      NextShare(k - 1, n, i);
    }
  }

  /** k turns occupy exactly k slots, all of them with backend indices. */
  lemma {:induction false} GreedyOccupancy(perms: seq<Perm>, p: int, k: nat, table: seq<nat>)
    requires 0 < p && 0 < |perms| <= EMPTY && Greedy(perms, p, k, table)
    ensures Owned(table, EMPTY) == p - k
    ensures forall s :: 0 <= s < p ==> table[s] == EMPTY || table[s] < |perms|
  {
    if k == 0 {
      EmptyTableOwned(p, EMPTY);
    } else {
      var before, c :| GreedyStep(perms, p, k, before, c, table);
      GreedyOccupancy(perms, p, k - 1, before);
      OwnedUpdate(before, Slot(perms[(k - 1) % |perms|], p, c), EMPTY, (k - 1) % |perms|);
    }
  }

  // ----- the construction

  /** The cursor of every backend is only ever past occupied slots. */
  ghost predicate CursorsSound(perms: seq<Perm>, p: int, next: seq<nat>, table: seq<nat>)
    requires 0 < p == |table|
  {
    && |next| == |perms|
    && forall i, k :: 0 <= i < |perms| && 0 <= k < next[i] ==> table[Slot(perms[i], p, k)] != EMPTY
  }

  /** The first free probe, at or before any free one. */
  lemma {:induction false} LeastFree(table: seq<nat>, perm: Perm, p: int, stop: nat) returns (c: nat)
    requires 0 < p == |table| && table[Slot(perm, p, stop)] == EMPTY
    ensures c <= stop && FirstFree(table, perm, p, c)
    decreases stop
  {
    if k: nat :| k < stop && table[Slot(perm, p, k)] == EMPTY {
      c := LeastFree(table, perm, p, k);
    } else {
      c := stop;
    }
  }

  /** A table that is not full has a first free probe, below the table size. */
  lemma FirstFreeExists(table: seq<nat>, perm: Perm, p: int) returns (c: nat)
    requires IsPrime(p) && |table| == p && ValidPerm(perm, p) && EMPTY in table
    ensures c < p && FirstFree(table, perm, p, c)
  {
    var free :| 0 <= free < p && table[free] == EMPTY;
    ProbesCover(perm, p, free);
    var stop :| 0 <= stop < p && Slot(perm, p, stop) == free;
    c := LeastFree(table, perm, p, stop);
  }

  /** On a prime table the greedy process can always go on. */
  lemma {:induction false} GreedyExists(perms: seq<Perm>, p: int, k: nat) returns (table: seq<nat>)
    requires IsPrime(p) && ValidPerms(perms, p) && 0 < |perms| <= EMPTY && k <= p
    ensures Greedy(perms, p, k, table)
  {
    if k == 0 {
      table := EmptyTable(p);
    } else {
      var before := GreedyExists(perms, p, k - 1);
      var i := (k - 1) % |perms|;
      NotFull(perms, p, k - 1, before);
      var c := FirstFreeExists(before, perms[i], p);
      table := before[Slot(perms[i], p, c) := i];
      assert GreedyStep(perms, p, k, before, c, table);
    }
  }

  /**
   * Finds the next free slot of one backend from its cursor.  The loop ends within the table
   * size because the table is prime-sized and not full; starting from the cursor rather than
   * from zero does not change the answer.  There is none exactly when a probe leaves the word.
   */
  method Probe(table: seq<nat>, perm: Perm, p: int, cursor: nat) returns (r: Option<nat>)
    requires IsPrime(p) && |table| == p && ValidPerm(perm, p)
    requires EMPTY in table
    requires forall k :: 0 <= k < cursor ==> table[Slot(perm, p, k)] != EMPTY
    ensures r.Some? ==> r.value < p && FirstFree(table, perm, p, r.value) && Fits(perm, r.value)
    ensures r.None? ==> exists c: nat :: c < p && FirstFree(table, perm, p, c) && !Fits(perm, c)
  {
    ghost var stop := FirstFreeExists(table, perm, p);
    var c := cursor;
    while true
      invariant c <= stop
      invariant forall k :: 0 <= k < c ==> table[Slot(perm, p, k)] != EMPTY
      decreases stop - c
    {
      if perm.offset + c * perm.skip >= U64_LIMIT {
        ghost var fits := Fits(perm, stop);
        if fits { FitsEarlier(perm, c, stop); }
        return None;
      }
      var slot := (perm.offset + c * perm.skip) % p;
      if table[slot] == EMPTY {
        return Some(c);
      }
      c := c + 1;
    }
  }

  /** One safe turn more. */
  lemma SafeTurn(perms: seq<Perm>, p: int, k: nat, before: seq<nat>, c: nat)
    requires 0 < |perms| && WordSafe(perms, p, k) && Turn(perms, p, k + 1, before, c)
    requires Fits(perms[k % |perms|], c)
    ensures WordSafe(perms, p, k + 1)
  {
    var next := k + 1;
    forall before', c': nat | Turn(perms, p, next, before', c') ensures c' == c {
      GreedyUnique(perms, p, k, before, before');
    }
  }

  /** One turn: backend i takes its next free slot and moves its cursor past it. */
  method Place(perms: seq<Perm>, p: int, ghost filled: nat, i: nat, next: seq<nat>, table: seq<nat>)
    returns (r: Option<(seq<nat>, seq<nat>)>)
    requires IsPrime(p) && ValidPerms(perms, p) && 0 < |perms| <= EMPTY
    requires filled < p && filled % |perms| == i
    requires Greedy(perms, p, filled, table) && WordSafe(perms, p, filled) && CursorsSound(perms, p, next, table)
    ensures r.None? ==> !WordSafe(perms, p, p)
    ensures r.Some? ==>
              Greedy(perms, p, filled + 1, r.value.0) && WordSafe(perms, p, filled + 1)
              && CursorsSound(perms, p, r.value.1, r.value.0)
  {
    NotFull(perms, p, filled, table);
    var c := Probe(table, perms[i], p, next[i]);
    if c.None? {
      ghost var stop: nat :| stop < p && FirstFree(table, perms[i], p, stop) && !Fits(perms[i], stop);
      assert Turn(perms, p, filled + 1, table, stop);
      return None;
    }
    assert Turn(perms, p, filled + 1, table, c.value);
    SafeTurn(perms, p, filled, table, c.value);
    var taken: seq<nat> := table[Slot(perms[i], p, c.value) := i];
    assert GreedyStep(perms, p, filled + 1, table, c.value, taken);
    return Some((taken, next[i := c.value + 1]));
  }

  /**
   * Builds the table.  It terminates; it fails exactly when some turn needs a probe outside a
   * 64-bit word, and otherwise the result is the greedy table after p turns.
   */
  method Populate(perms: seq<Perm>, p: int) returns (r: Option<seq<nat>>)
    requires IsPrime(p) && ValidPerms(perms, p) && 0 < |perms| <= EMPTY
    ensures r.Some? <==> WordSafe(perms, p, p)
    ensures r.Some? ==> Populated(perms, p, r.value)
  {
    var n := |perms|;
    var next: seq<nat> := seq(n, _ => 0);
    var table: seq<nat> := EmptyTable(p);
    var filled := 0;
    while filled < p
      invariant 0 <= filled <= p && (filled < p ==> filled % n == 0)
      invariant Greedy(perms, p, filled, table) && WordSafe(perms, p, filled)
      invariant CursorsSound(perms, p, next, table)
      decreases p - filled
    {
      ghost var before := filled;
      for i := 0 to n
        invariant filled == before + i < p
        invariant Greedy(perms, p, filled, table) && WordSafe(perms, p, filled)
        invariant CursorsSound(perms, p, next, table)
      {
        assert filled % n == i by { RoundPosition(before, n, i); }
        var placed := Place(perms, p, filled, i, next, table);
        if placed.None? {
          return None;
        }
        table, next := placed.value.0, placed.value.1;
        filled := filled + 1;
        if filled >= p {
          break;
        }
      }
      if filled < p { RoundPosition(before, n, n); }
    }
    GreedyIsPopulated(perms, p, table);
    return Some(table);
  }

  lemma NotFull(perms: seq<Perm>, p: int, k: nat, table: seq<nat>)
    requires 0 < p && 0 < |perms| <= EMPTY && k < p && Greedy(perms, p, k, table)
    ensures EMPTY in table
  {
    GreedyOccupancy(perms, p, k, table);
    OwnedNone(table, EMPTY);
  }

  /** The finished table: the greedy one, full of backend indices, every share exact. */
  ghost predicate Populated(perms: seq<Perm>, p: int, table: seq<nat>)
    requires 0 < p && 0 < |perms|
  {
    && |table| == p && Greedy(perms, p, p, table)
    && (forall s :: 0 <= s < p ==> table[s] < |perms|)
    && (forall i :: 0 <= i < |perms| ==> Owned(table, i) == Share(p, |perms|, i))
  }

  lemma GreedyIsPopulated(perms: seq<Perm>, p: int, table: seq<nat>)
    requires 0 < p && 0 < |perms| <= EMPTY && Greedy(perms, p, p, table)
    ensures Populated(perms, p, table)
  {
    GreedyOccupancy(perms, p, p, table);
    OwnedNone(table, EMPTY);
    forall i | 0 <= i < |perms| ensures Owned(table, i) == Share(p, |perms|, i) {
      GreedyBalance(perms, p, p, table, i);
    }
  }

  // ----- when population stays inside words

  lemma SmallTablesSafe(perms: seq<Perm>, p: int, k: nat)
    requires IsPrime(p) && p <= U32_LIMIT && ValidPerms(perms, p) && 0 < |perms| <= EMPTY && k <= p
    ensures WordSafe(perms, p, k)
  {
    forall j: nat, before, c: nat | j <= k && Turn(perms, p, j, before, c)
      ensures Fits(perms[(j - 1) % |perms|], c)
    {
      var perm := perms[(j - 1) % |perms|];
      NotFull(perms, p, j - 1, before);
      var first := FirstFreeExists(before, perm, p);
      assert c == first;
      ProbeFitsWord(perm, p, c);
    }
  }

  /** One backend alone fills the slots in the order of its probes. */
  function LoneTable(perm: Perm, p: int, k: nat): seq<nat>
    requires 0 < p
  {
    seq(p, s => if exists c: nat :: c < k && Slot(perm, p, c) == s then 0 else EMPTY)
  }

  lemma {:induction false} LoneIsGreedy(perm: Perm, p: int, k: nat)
    requires IsPrime(p) && ValidPerm(perm, p) && k <= p
    ensures Greedy([perm], p, k, LoneTable(perm, p, k))
    ensures k < p ==> FirstFree(LoneTable(perm, p, k), perm, p, k)
  {
    forall c: nat | c < k && k < p ensures Slot(perm, p, c) != Slot(perm, p, k) {
      ProbesDistinct(perm, p, c, k);
    }
    var table := LoneTable(perm, p, k);
    if k == 0 {
      assert table == EmptyTable(p);
    } else {
      LoneIsGreedy(perm, p, k - 1);
      var before := LoneTable(perm, p, k - 1);
      assert (k - 1) % 1 == 0;
      assert table == before[Slot(perm, p, k - 1) := 0];
      assert GreedyStep([perm], p, k, before, k - 1, table);
    }
  }

  /** Exactly up to a table size of 2^32 population is safe whatever the hashes are. */
  lemma PopulationSafeIff(p: int)
    requires IsPrime(p)
    ensures p <= U32_LIMIT
       <==> forall perms :: ValidPerms(perms, p) && 0 < |perms| <= EMPTY ==> WordSafe(perms, p, p)
  {
    if p <= U32_LIMIT {
      forall perms | ValidPerms(perms, p) && 0 < |perms| <= EMPTY ensures WordSafe(perms, p, p) {
        SmallTablesSafe(perms, p, p);
      }
    } else {
      LoneWorstUnsafe(p);
    }
  }

  lemma LoneWorstUnsafe(p: int)
    requires IsPrime(p) && U32_LIMIT < p
    ensures ValidPerms([Perm(p - 1, p - 1)], p) && !WordSafe([Perm(p - 1, p - 1)], p, p)
  {
    var worst := Perm(p - 1, p - 1);
    WorstProbe(p);
    LoneIsGreedy(worst, p, p - 1);
    assert (p - 1) % 1 == 0;
    assert Turn([worst], p, p, LoneTable(worst, p, p - 1), p - 1);
  }

  lemma RoundPosition(before: nat, n: nat, i: nat)
    requires 0 < n && before % n == 0 && i <= n
    ensures (before + i) % n == if i == n then 0 else i
  {
    var q := before / n;
    assert before == q * n;
    if i == n {
      assert before + n == (q + 1) * n;
      DivModUnique(before + n, n, q + 1, 0);
    } else {
      DivModUnique(before + i, n, q, i);
    }
  }

  // ----- whose slots are whose

  /** From its first turn on, the first backend holds the slot of its own offset. */
  lemma {:induction false} FirstSlot(perms: seq<Perm>, p: int, k: nat, table: seq<nat>)
    requires 0 < p && 0 < |perms| <= EMPTY && ValidPerm(perms[0], p) && 1 <= k && Greedy(perms, p, k, table)
    ensures table[perms[0].offset] == 0
  {
    var before, c :| GreedyStep(perms, p, k, before, c, table);
    SlotRecurrence(perms[0], p, 0);
    if k == 1 {
      DivModUnique(0, |perms|, 0, 0);
      assert before[Slot(perms[0], p, 0)] == EMPTY;
      assert c == 0;
    } else {
      FirstSlot(perms, p, k - 1, before);
    }
  }

  /** A backend whose offset is still free takes it. */
  lemma FreeOffsetTaken(perms: seq<Perm>, p: int, k: nat, before: seq<nat>, c: nat)
    requires Turn(perms, p, k, before, c) && ValidPerm(perms[(k - 1) % |perms|], p)
    requires before[perms[(k - 1) % |perms|].offset] == EMPTY
    ensures c == 0 && Slot(perms[(k - 1) % |perms|], p, c) == perms[(k - 1) % |perms|].offset
  {
    SlotRecurrence(perms[(k - 1) % |perms|], p, 0);
  }

  /** A backend alone takes one probe further at every turn. */
  lemma LoneTurns(perm: Perm, p: int, k: nat, before: seq<nat>, c: nat)
    requires IsPrime(p) && ValidPerm(perm, p) && k < p && Turn([perm], p, k + 1, before, c)
    ensures c == k
  {
    LoneIsGreedy(perm, p, k);
    GreedyUnique([perm], p, k, before, LoneTable(perm, p, k));
    assert k % 1 == 0;
  }
}
