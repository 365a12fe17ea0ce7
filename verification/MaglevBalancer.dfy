/** The two users of the table: the L7 keyed balancer and the L4 (XDP) lookup table. */
module MaglevBalancer {
  import opened Basics
  import opened Balancing
  import opened NumberTheory
  import opened PrimeCertificates
  import opened MaglevTable
  import opened Primality

  const TABLE_SIZE: int := 65537
  const SKIP_SEED: hash64 := 0x9e37_79b9_7f4a_7c15

  datatype Maglev = Maglev(table: seq<nat>, numBackends: nat, identityHash: hash64)

  /** Offset and skip of a backend name. */
  function Permutation(hashing: Hashing, name: string, p: int): (perm: Perm)
    requires 1 < p
    ensures ValidPerm(perm, p)
  {
    Perm(hashing.seeded(name, 0) % p, hashing.seeded(name, SKIP_SEED) % (p - 1) + 1)
  }

  function Permutations(hashing: Hashing, names: seq<string>, p: int): (perms: seq<Perm>)
    requires 1 < p
    ensures |perms| == |names| && ValidPerms(perms, p)
  {
    seq(|names|, i requires 0 <= i < |names| => Permutation(hashing, names[i], p))
  }

  /** `table` is the finished Maglev table of `names`, with its size and exact balance. */
  ghost predicate BuiltFor(hashing: Hashing, names: seq<string>, p: int, table: seq<nat>) {
    IsPrime(p) && 0 < |names| && Populated(Permutations(hashing, names, p), p, table)
  }

  /** The L7 table size is a prime, so population is guaranteed to finish. */
  lemma TableSizeIsPrime()
    ensures IsPrime(TABLE_SIZE)
  {
    FermatPrime();
  }

  /** The balancer was built for `names`. */
  ghost predicate IsFor(maglev: Maglev, hashing: Hashing, names: seq<string>) {
    && BuiltFor(hashing, names, TABLE_SIZE, maglev.table)
    && maglev.numBackends == |names| && maglev.identityHash == hashing.identity(names)
  }

  /** `Maglev::new`. */
  method NewMaglev(hashing: Hashing, names: seq<string>) returns (r: Result<Maglev, BalancerError>)
    requires |names| < U64_LIMIT
    ensures r.Err? <==> names == []
    ensures r.Err? ==> r.error == NoBackends
    ensures r.Ok? ==> IsFor(r.value, hashing, names)
  {
    if names == [] {
      return Err(NoBackends);
    }
    TableSizeIsPrime();
    var perms := Permutations(hashing, names, TABLE_SIZE);
    SmallTablesSafe(perms, TABLE_SIZE, TABLE_SIZE);
    var table := Populate(perms, TABLE_SIZE);
    return Ok(Maglev(table.value, |names|, hashing.identity(names)));
  }

  /** `Maglev::pick_with_key`. */
  function PickWithKey(maglev: Maglev, hashing: Hashing, names: seq<string>, key: nat): Result<nat, BalancerError>
  {
    if names == [] then Err(NoBackends)
    else if |names| != maglev.numBackends || hashing.identity(names) != maglev.identityHash then Err(TableStale)
    else if key % TABLE_SIZE >= |maglev.table| then Err(Internal)
    else if maglev.table[key % TABLE_SIZE] >= |names| then Err(Internal)
    else Ok(maglev.table[key % TABLE_SIZE])
  }

  /**
   * A lookup against the backends the table was built for always succeeds, and against any
   * other list it succeeds only when count and identity hash coincide; it never fails internally.
   */
  lemma LookupOutcome(maglev: Maglev, hashing: Hashing, built: seq<string>, names: seq<string>, key: nat)
    requires IsFor(maglev, hashing, built)
    ensures names == built ==> PickWithKey(maglev, hashing, names, key).Ok?
    ensures PickWithKey(maglev, hashing, names, key) != Err(Internal)
    ensures PickWithKey(maglev, hashing, names, key).Ok?
       <==> |names| == |built| && hashing.identity(names) == hashing.identity(built)
    ensures PickWithKey(maglev, hashing, names, key).Ok? ==>
              PickWithKey(maglev, hashing, names, key).value < |names|
    ensures PickWithKey(maglev, hashing, names, key) == Err(NoBackends) <==> names == []
    ensures PickWithKey(maglev, hashing, names, key) == Err(TableStale)
       <==> names != [] && (|names| != |built| || hashing.identity(names) != hashing.identity(built))
  {
  }

  /** A table for `built` that serves every key of another list as well. */
  ghost predicate ServesStale(maglev: Maglev, hashing: Hashing, built: seq<string>, names: seq<string>) {
    && IsFor(maglev, hashing, built) && built != names
    && forall key: nat :: PickWithKey(maglev, hashing, names, key).Ok?
  }

  /**
   * The identity hash cannot keep the promise that only the same list is accepted: whatever the
   * hash, some table built for one list serves another one.
   */
  lemma StaleListAccepted(hashing: Hashing)
    ensures exists maglev: Maglev, built, names :: ServesStale(maglev, hashing, built, names)
  {
    IdentityCollides(hashing);
    var a: seq<string>, b: seq<string> :|
      a != b && |a| == |b| == 1 && hashing.identity(a) == hashing.identity(b);
    TableSizeIsPrime();
    var perms := Permutations(hashing, a, TABLE_SIZE);
    var table := GreedyExists(perms, TABLE_SIZE, TABLE_SIZE);
    GreedyIsPopulated(perms, TABLE_SIZE, table);
    var maglev := Maglev(table, 1, hashing.identity(a));
    forall key: nat ensures PickWithKey(maglev, hashing, b, key).Ok? {
      LookupOutcome(maglev, hashing, a, b, key);
    }
    assert ServesStale(maglev, hashing, a, b);
  }

  /** How many of the keys `from .. from + count` are sent to backend `i`. */
  function KeysTo(table: seq<nat>, from: nat, count: nat, i: int): nat
    requires 0 < |table|
    decreases count
  {
    if count == 0 then 0
    else (if table[from % |table|] == i then 1 else 0) + KeysTo(table, from + 1, count - 1, i)
  }

  lemma {:induction false} KeysToTail(table: seq<nat>, from: nat, i: int)
    requires from < |table|
    ensures KeysTo(table, from, |table| - from, i) == Owned(table[from..], i)
    decreases |table| - from
  {
    assert from % |table| == from by { DivModUnique(from, |table|, 0, from); }
    assert table[from..][0] == table[from];
    assert table[from..][1..] == table[from + 1..];
    if from + 1 < |table| {
      KeysToTail(table, from + 1, i);
    }
  }

  lemma KeysToSplit(table: seq<nat>, from: nat, a: nat, b: nat, i: int)
    requires 0 < |table|
    ensures KeysTo(table, from, a + b, i) == KeysTo(table, from, a, i) + KeysTo(table, from + a, b, i)
    decreases a
  {
    if a > 0 {
      KeysToSplit(table, from + 1, a - 1, b, i);
    }
  }

  lemma {:induction false} KeysToPeriod(table: seq<nat>, from: nat, count: nat, i: int)
    requires 0 < |table|
    ensures KeysTo(table, from + |table|, count, i) == KeysTo(table, from, count, i)
    decreases count
  {
    if count > 0 {
      RemainderOfSum(from, 1, |table|);
      KeysToPeriod(table, from + 1, count - 1, i);
    }
  }

  /** Any run of p consecutive keys is spread exactly: backend i gets its share, wherever it starts. */
  lemma {:induction false} ConsecutiveKeysBalance(
    hashing: Hashing, names: seq<string>, p: int, table: seq<nat>, from: nat, i: nat)
    requires BuiltFor(hashing, names, p, table) && i < |names|
    ensures KeysTo(table, from, p, i) == Share(p, |names|, i)
    decreases from
  {
    if from == 0 {
      KeysToTail(table, 0, i);
      assert table[0..] == table;
    } else {
      ConsecutiveKeysBalance(hashing, names, p, table, from - 1, i);
      KeysToSplit(table, from - 1, 1, p - 1, i);
      KeysToSplit(table, from, p - 1, 1, i);
      KeysToPeriod(table, from - 1, 1, i);
    }
  }

  // ----- what a lookup answers

  /** How many of the keys `from .. from + count` are answered with backend `i`. */
  function Answers<E(==)>(answer: nat -> Result<nat, E>, from: nat, count: nat, i: nat): nat
    decreases count
  {
    if count == 0 then 0
    else (if answer(from) == Ok(i) then 1 else 0) + Answers(answer, from + 1, count - 1, i)
  }

  lemma {:induction false} AnswersAreKeys<E(!new)>(
    answer: nat -> Result<nat, E>, table: seq<nat>, from: nat, count: nat, i: nat)
    requires 0 < |table| && forall key: nat :: answer(key) == Ok(table[key % |table|])
    ensures Answers(answer, from, count, i) == KeysTo(table, from, count, i)
    decreases count
  {
    if count > 0 {
      AnswersAreKeys(answer, table, from + 1, count - 1, i);
    }
  }

  /** A key below the table size is answered by its slot, and keys a table size apart alike. */
  lemma PickFollowsKey(maglev: Maglev, hashing: Hashing, names: seq<string>, key: nat)
    requires IsFor(maglev, hashing, names)
    ensures key < TABLE_SIZE ==> PickWithKey(maglev, hashing, names, key) == Ok(maglev.table[key])
    ensures PickWithKey(maglev, hashing, names, key + TABLE_SIZE) == PickWithKey(maglev, hashing, names, key)
  {
    RemainderOfSum(key, 1, TABLE_SIZE);
    if key < TABLE_SIZE {
      DivModUnique(key, TABLE_SIZE, 0, key);
    }
  }

  /** Of any 65537 consecutive keys exactly its share is answered with backend i. */
  lemma PicksBalance(maglev: Maglev, hashing: Hashing, names: seq<string>, from: nat, i: nat)
    requires IsFor(maglev, hashing, names) && i < |names|
    ensures Answers(key => PickWithKey(maglev, hashing, names, key), from, TABLE_SIZE, i)
         == Share(TABLE_SIZE, |names|, i)
  {
    var answer := (key: nat) => PickWithKey(maglev, hashing, names, key);
    forall key: nat ensures answer(key) == Ok(maglev.table[key % |maglev.table|]) {
      LookupOutcome(maglev, hashing, names, names, key);
    }
    AnswersAreKeys(answer, maglev.table, from, TABLE_SIZE, i);
    ConsecutiveKeysBalance(hashing, names, TABLE_SIZE, maglev.table, from, i);
  }

  // ----- where the table comes from

  /** The first backend owns the slot its own name hashes to. */
  lemma FirstBackendSlot(hashing: Hashing, names: seq<string>, p: int, table: seq<nat>)
    requires BuiltFor(hashing, names, p, table) && |names| <= EMPTY
    ensures table[hashing.seeded(names[0], 0) % p] == 0
  {
    FirstSlot(Permutations(hashing, names, p), p, p, table);
  }

  /** In the first round a backend takes the slot its own name hashes to, if that is still free. */
  lemma FirstRoundSlot(hashing: Hashing, names: seq<string>, p: int, i: nat, before: seq<nat>, c: nat)
    requires 1 < p && i < |names| && Turn(Permutations(hashing, names, p), p, i + 1, before, c)
    requires before[hashing.seeded(names[i], 0) % p] == EMPTY
    ensures Slot(Permutations(hashing, names, p)[i], p, c) == hashing.seeded(names[i], 0) % p
  {
    DivModUnique(i, |names|, 0, i);
    FreeOffsetTaken(Permutations(hashing, names, p), p, i + 1, before, c);
  }

  /** A backend alone goes on from there by the skip its name hashes to under the second seed. */
  lemma LoneBackendSkips(hashing: Hashing, name: string, p: int, before: seq<nat>, c: nat)
    requires IsPrime(p) && Turn(Permutations(hashing, [name], p), p, 2, before, c)
    ensures Slot(Permutations(hashing, [name], p)[0], p, c)
         == (hashing.seeded(name, 0) % p + 1 + hashing.seeded(name, 0x9e37_79b9_7f4a_7c15) % (p - 1)) % p
  {
    var perm := Permutation(hashing, name, p);
    assert Permutations(hashing, [name], p) == [perm];
    LoneTurns(perm, p, 1, before, c);
    SlotRecurrence(perm, p, 0);
  }

  // ----- the L4 table

  datatype XdpError = NoL4Backends | InvalidTableSize | L4EmptyTable | ArithmeticOverflow

  datatype L4Table = L4Table(table: seq<nat>, backendCount: nat)

  /** What every constructed L4 table satisfies. */
  ghost predicate L4Valid(t: L4Table) {
    && 0 < |t.table| && 0 < t.backendCount
    && forall s :: 0 <= s < |t.table| ==> t.table[s] < t.backendCount
  }

  /** Building for `names` leaves 64-bit words, in the size gate or in a probe. */
  ghost predicate LeavesWords(hashing: Hashing, names: seq<string>, p: int)
    requires IsPrime(p) && names != []
  {
    GATE_LIMIT <= p || !WordSafe(Permutations(hashing, names, p), p, p)
  }

  /** Why a table cannot be built, if it cannot. */
  ghost function BuildError(hashing: Hashing, names: seq<string>, p: int): Option<XdpError> {
    if names == [] then Some(NoL4Backends)
    else if !IsPrime(p) then Some(InvalidTableSize)
    else if LeavesWords(hashing, names, p) then Some(ArithmeticOverflow)
    else None
  }

  /**
   * The L4 `MaglevTable::new`, with each outcome exactly under its condition.
   * `ArithmeticOverflow` stands for leaving 64-bit words.
   */
  method NewL4Table(hashing: Hashing, names: seq<string>, tableSize: int) returns (r: Result<L4Table, XdpError>)
    requires 0 <= tableSize < U64_LIMIT && |names| < U64_LIMIT
    ensures r.Err? ==> BuildError(hashing, names, tableSize) == Some(r.error)
    ensures r.Ok? ==> BuildError(hashing, names, tableSize) == None && IsL4For(r.value, hashing, names, tableSize)
  {
    if names == [] {
      return Err(NoL4Backends);
    }
    var verdict := IsPrimeWord(tableSize);
    if verdict == Overflow {
      return Err(ArithmeticOverflow);
    }
    if verdict == NotPrime {
      return Err(InvalidTableSize);
    }
    var table := Populate(Permutations(hashing, names, tableSize), tableSize);
    if table.None? {
      return Err(ArithmeticOverflow);
    }
    return Ok(L4Table(table.value, |names|));
  }

  ghost predicate IsL4For(t: L4Table, hashing: Hashing, names: seq<string>, p: int) {
    L4Valid(t) && t.backendCount == |names| && BuiltFor(hashing, names, p, t.table)
  }

  /** Up to 2^32 nothing leaves the word, whatever the hashes. */
  lemma SmallSizesStay(hashing: Hashing, names: seq<string>, p: int)
    requires IsPrime(p) && p <= U32_LIMIT && 0 < |names| < U64_LIMIT
    ensures !LeavesWords(hashing, names, p)
  {
    SmallTablesSafe(Permutations(hashing, names, p), p, p);
  }

  /** Above it a hash exists for which population does: a prime size past the gate, and one backend. */
  lemma PopulationOverflowIsReached(name: string)
    ensures IsPrime(MIDDLE_PRIME) && U32_LIMIT < MIDDLE_PRIME < GATE_LIMIT
    ensures exists hashing :: !WordSafe(Permutations(hashing, [name], MIDDLE_PRIME), MIDDLE_PRIME, MIDDLE_PRIME)
  {
    MiddlePrime();
    var p := MIDDLE_PRIME;
    LoneWorstUnsafe(p);
    var hashing := Hashing(
      (_, seed: hash64) => if seed == 0 then 4298506240 else 4298506239,
      (_, _) => 0, _ => 0, _ => 0);
    assert Permutations(hashing, [name], p) == [Perm(p - 1, p - 1)];
  }

  /** The L4 `MaglevTable::lookup`. */
  function L4Lookup(t: L4Table, key: nat): (r: Result<nat, XdpError>)
    ensures L4Valid(t) ==> r.Ok? && r.value < t.backendCount
  {
    if t.table == [] then Err(L4EmptyTable)
    else Ok(t.table[key % |t.table|])
  }

  /** The L4 lookup: a slot by its key, around the table, and so its share of any p consecutive keys. */
  lemma L4FollowsKey(t: L4Table, hashing: Hashing, names: seq<string>, p: int, key: nat)
    requires IsL4For(t, hashing, names, p)
    ensures key < p ==> L4Lookup(t, key) == Ok(t.table[key])
    ensures L4Lookup(t, key + p) == L4Lookup(t, key)
  {
    RemainderOfSum(key, 1, p);
    if key < p {
      DivModUnique(key, p, 0, key);
    }
  }

  lemma L4Balance(t: L4Table, hashing: Hashing, names: seq<string>, p: int, from: nat, i: nat)
    requires IsL4For(t, hashing, names, p) && i < |names|
    ensures Answers(key => L4Lookup(t, key), from, p, i) == Share(p, |names|, i)
  {
    AnswersAreKeys((key: nat) => L4Lookup(t, key), t.table, from, p, i);
    ConsecutiveKeysBalance(hashing, names, p, t.table, from, i);
  }
}
