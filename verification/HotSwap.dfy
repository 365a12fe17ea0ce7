/** The hot-swap manager: connection tracking in front of a replaceable Maglev table. */
module HotSwap {
  import opened Basics
  import opened Balancing
  import opened MaglevBalancer
  import opened Conntrack

  datatype Manager = Manager(ct: Ct, table: L4Table)

  /** Flows are routed, tables swapped, and the tracking table may also be edited directly. */
  datatype Op = Route(flow: FlowKey, key: nat) | Swap(table: L4Table) | Edit(op: CtOp)

  ghost predicate ValidManager(m: Manager) {
    Valid(m.ct) && L4Valid(m.table)
  }

  ghost predicate ValidOps(ops: seq<Op>) {
    forall i :: 0 <= i < |ops| && ops[i].Swap? ==> L4Valid(ops[i].table)
  }

  /** A tracked index the current table still has. */
  predicate Pinned(m: Manager, f: FlowKey) {
    f in m.ct.entries && m.ct.entries[f] < m.table.backendCount
  }

  /** `route_flow`: the tracked index if it is in range, else the table's choice. */
  function Routed(m: Manager, f: FlowKey, key: nat): Result<nat, XdpError> {
    if Pinned(m, f) then Ok(m.ct.entries[f]) else L4Lookup(m.table, key)
  }

  /** The tracking operations an operation performs. */
  function Edits(m: Manager, op: Op): seq<CtOp> {
    match op
    case Edit(e) => [e]
    case Swap(_) => []
    case Route(f, key) =>
      if Pinned(m, f) then []
      else
        (if f in m.ct.entries then [Delete(f)] else [])
        + (match L4Lookup(m.table, key) case Ok(i) => [Put(f, i)] case Err(_) => [])
  }

  function Next(m: Manager, op: Op): Manager {
    Manager(RunOps(m.ct, Edits(m, op)), if op.Swap? then op.table else m.table)
  }

  function Run(m: Manager, ops: seq<Op>): Manager
    decreases |ops|
  {
    if ops == [] then m else Run(Next(m, ops[0]), ops[1..])
  }

  lemma {:induction false} RunKeepsValid(m: Manager, ops: seq<Op>)
    requires ValidManager(m) && ValidOps(ops)
    ensures ValidManager(Run(m, ops))
    decreases |ops|
  {
    if ops != [] {
      RunValid(m.ct, Edits(m, ops[0]));
      assert forall i :: 0 <= i < |ops[1..]| ==> ops[1..][i] == ops[i + 1];
      RunKeepsValid(Next(m, ops[0]), ops[1..]);
    }
  }

  /** After any run every flow is routed, to a backend the current table has, and stays routed there. */
  lemma EveryRouteInRange(m: Manager, ops: seq<Op>, f: FlowKey, key: nat)
    requires ValidManager(m) && ValidOps(ops)
    ensures var now := Run(m, ops);
      && Routed(now, f, key).Ok? && Routed(now, f, key).value < now.table.backendCount
      && Pinned(Next(now, Route(f, key)), f)
      && forall again: nat :: Routed(Next(now, Route(f, key)), f, again) == Routed(now, f, key)
  {
    var now := Run(m, ops);
    RunKeepsValid(m, ops);
    if !Pinned(now, f) {
      RouteInserts(now, f, key);
    }
  }

  /** Routing an untracked or out-of-range flow tracks the table's choice as its newest entry. */
  lemma RouteInserts(m: Manager, f: FlowKey, key: nat)
    requires ValidManager(m) && !Pinned(m, f)
    ensures var next := Next(m, Route(f, key)).ct;
      f in next.entries && Ok(next.entries[f]) == L4Lookup(m.table, key) && Behind(next.order, f) == 0
  {
    var put := Put(f, L4Lookup(m.table, key).value);
    if f in m.ct.entries {
      var cleared := Apply(m.ct, Delete(f));
      ApplyValid(m.ct, Delete(f));
      assert Edits(m, Route(f, key)) == [Delete(f), put];
      RunTwo(m.ct, Delete(f), put);
      PutIsNewest(cleared, put);
    } else {
      assert Edits(m, Route(f, key)) == [put];
      RunOne(m.ct, put);
      PutIsNewest(m.ct, put);
    }
  }

  lemma PutIsNewest(ct: Ct, op: CtOp)
    requires Valid(ct) && IsNewFlow(ct, op)
    ensures Apply(ct, op).entries[op.flow] == op.backend && Behind(Apply(ct, op).order, op.flow) == 0
  {
    var kept := if |ct.order| >= ct.maxEntries then ct.order[1..] else ct.order;
    assert op.flow !in kept;
    LastHasNoneBehind(kept, op.flow);
  }

  lemma {:induction false} LastHasNoneBehind(s: seq<FlowKey>, f: FlowKey)
    requires f !in s
    ensures Behind(s + [f], f) == 0
  {
    if s != [] {
      assert (s + [f])[1..] == s[1..] + [f];
      LastHasNoneBehind(s[1..], f);
    }
  }

  /** The ways an operation can take a tracked flow's index away. */
  ghost predicate Releases(m: Manager, op: Op, f: FlowKey) {
    match op
    case Swap(_) => false
    case Edit(e) => e.flow == f || (IsNewFlow(m.ct, e) && Oldest(m.ct, f))
    case Route(g, _) =>
      if g == f then !Pinned(m, f)
      else g !in m.ct.entries && Oldest(m.ct, f)
  }

  /** `f` is next to be evicted by a new flow. */
  ghost predicate Oldest(ct: Ct, f: FlowKey) {
    ct.order != [] && |ct.order| == ct.maxEntries && ct.order[0] == f
  }

  /**
   * Stickiness: a tracked flow keeps its index across every operation, swaps included, except a
   * direct edit of it, its own routing while out of range, or its eviction as the oldest flow.
   */
  lemma IndexSticks(m: Manager, op: Op, f: FlowKey)
    requires ValidManager(m) && f in m.ct.entries && !Releases(m, op, f)
    ensures f in Next(m, op).ct.entries && Next(m, op).ct.entries[f] == m.ct.entries[f]
    ensures op.Route? && op.flow == f ==> Routed(m, f, op.key) == Ok(m.ct.entries[f])
  {
    var edits := Edits(m, op);
    if op.Edit? {
      RunOne(m.ct, op.op);
      ApplyKeeps(m.ct, op.op, f);
    } else if op.Route? && op.flow != f && !Pinned(m, op.flow) {
      var put := Put(op.flow, L4Lookup(m.table, op.key).value);
      if op.flow in m.ct.entries {
        assert edits == [Delete(op.flow), put];
        RunTwo(m.ct, Delete(op.flow), put);
        ApplyKeeps(m.ct, Delete(op.flow), f);
        ApplyValid(m.ct, Delete(op.flow));
        DeleteMakesRoom(m.ct, op.flow);
        ApplyKeeps(Apply(m.ct, Delete(op.flow)), put, f);
      } else {
        assert edits == [put];
        RunOne(m.ct, put);
        ApplyKeeps(m.ct, put, f);
      }
    }
  }

  lemma DeleteMakesRoom(ct: Ct, f: FlowKey)
    requires Valid(ct) && f in ct.entries
    ensures |Apply(ct, Delete(f)).order| < ct.maxEntries
  {
    WithoutShrinks(ct.order, f);
  }

  lemma {:induction false} WithoutShrinks(s: seq<FlowKey>, f: FlowKey)
    requires f in s
    ensures |Without(s, f)| < |s|
  {
    WithoutMembers(s[1..], f);
    if s[0] != f {
      WithoutShrinks(s[1..], f);
    }
  }

  /** Over a whole run: an index is kept as long as no operation releases it. */
  lemma {:induction false} IndexSticksOverRun(m: Manager, ops: seq<Op>, f: FlowKey)
    requires ValidManager(m) && ValidOps(ops) && f in m.ct.entries
    requires forall i :: 0 <= i < |ops| ==> !Releases(Run(m, ops[..i]), ops[i], f)
    ensures f in Run(m, ops).ct.entries && Run(m, ops).ct.entries[f] == m.ct.entries[f]
    decreases |ops|
  {
    if ops != [] {
      assert ops[..0] == [];
      assert !Releases(Run(m, ops[..0]), ops[0], f);
      IndexSticks(m, ops[0], f);
      RunValid(m.ct, Edits(m, ops[0]));
      var rest := ops[1..];
      assert forall i :: 0 <= i < |rest| ==> rest[i] == ops[i + 1];
      forall i | 0 <= i < |rest| ensures !Releases(Run(Next(m, ops[0]), rest[..i]), rest[i], f) {
        assert ops[..i + 1][1..] == rest[..i];
        assert !Releases(Run(m, ops[..i + 1]), ops[i + 1], f);
      }
      IndexSticksOverRun(Next(m, ops[0]), rest, f);
    }
  }

  // ----- survival over whole runs

  /** The tracking operations of a whole run. */
  function AllEdits(m: Manager, ops: seq<Op>): seq<CtOp>
    decreases |ops|
  {
    if ops == [] then [] else Edits(m, ops[0]) + AllEdits(Next(m, ops[0]), ops[1..])
  }

  lemma {:induction false} RunOpsConcat(ct: Ct, a: seq<CtOp>, b: seq<CtOp>)
    ensures RunOps(ct, a + b) == RunOps(RunOps(ct, a), b)
    decreases |a|
  {
    if a == [] {
      assert a + b == b;
    } else {
      assert (a + b)[1..] == a[1..] + b;
      RunOpsConcat(Apply(ct, a[0]), a[1..], b);
    }
  }

  lemma {:induction false} RunIsEdits(m: Manager, ops: seq<Op>)
    ensures Run(m, ops).ct == RunOps(m.ct, AllEdits(m, ops))
    decreases |ops|
  {
    if ops != [] {
      RunOpsConcat(m.ct, Edits(m, ops[0]), AllEdits(Next(m, ops[0]), ops[1..]));
      RunIsEdits(Next(m, ops[0]), ops[1..]);
    }
  }

  /**
   * Over any run of routes, swaps and edits that leaves `f` alone (its own routes in range do), the
   * flow keeps its index while the flows queued after it number less than the capacity.
   */
  lemma FlowSurvivesRun(m: Manager, ops: seq<Op>, f: FlowKey)
    requires ValidManager(m) && f in m.ct.entries
    requires forall i :: 0 <= i < |AllEdits(m, ops)| ==> AllEdits(m, ops)[i].flow != f
    requires Behind(m.ct.order, f) + NewFlows(m.ct, AllEdits(m, ops)) < m.ct.maxEntries
    ensures f in Run(m, ops).ct.entries && Run(m, ops).ct.entries[f] == m.ct.entries[f]
  {
    RunIsEdits(m, ops);
    Survives(m.ct, AllEdits(m, ops), f);
  }

  // ----- the manager object

  class HotSwapManager {
    const conntrack: ConntrackTable
    var currentTable: L4Table
    const hashing: Hashing

    ghost function View(): Manager
      reads this, conntrack
    {
      Manager(conntrack.View(), currentTable)
    }

    constructor (table: L4Table, hash: Hashing)
      requires L4Valid(table)
      ensures ValidManager(View()) && fresh(conntrack) && hashing == hash
      ensures View() == Manager(Ct(map[], [], 1_000_000), table)
    {
      conntrack := new ConntrackTable(1_000_000);
      currentTable := table;
      hashing := hash;
    }

    /** A failed build leaves the current table; a successful one replaces it and keeps every flow. */
    method SwapBackends(names: seq<string>, tableSize: int) returns (r: Result<(), XdpError>)
      requires ValidManager(View()) && 0 <= tableSize < U64_LIMIT && |names| < U64_LIMIT
      modifies this`currentTable
      ensures ValidManager(View())
      ensures r.Ok? ==> View() == Next(old(View()), Swap(currentTable))
      ensures r.Ok? ==> BuildError(hashing, names, tableSize) == None
      ensures r.Ok? ==> IsL4For(currentTable, hashing, names, tableSize)
      ensures r.Err? ==> View() == old(View()) && BuildError(hashing, names, tableSize) == Some(r.error)
    {
      var built := NewL4Table(hashing, names, tableSize);
      if built.Err? {
        return Err(built.error);
      }
      currentTable := built.value;
      return Ok(());
    }

    method RouteFlow(flow: FlowKey, hashKey: nat) returns (r: Result<nat, XdpError>)
      requires ValidManager(View())
      modifies conntrack
      ensures ValidManager(View())
      ensures View() == Next(old(View()), Route(flow, hashKey))
      ensures r == Routed(old(View()), flow, hashKey)
    {
      ghost var start := View();
      var tracked := conntrack.Lookup(flow);
      if tracked.Some? {
        if tracked.value < currentTable.backendCount {
          return Ok(tracked.value);
        }
        var removed := conntrack.Remove(flow);
      }
      var idx := L4Lookup(currentTable, hashKey);
      ghost var put := Put(flow, idx.value);
      conntrack.Insert(flow, idx.value);
      if tracked.Some? {
        assert Edits(start, Route(flow, hashKey)) == [Delete(flow), put];
        RunTwo(start.ct, Delete(flow), put);
      } else {
        assert Edits(start, Route(flow, hashKey)) == [put];
        RunOne(start.ct, put);
      }
      return idx;
    }
  }

  /** `HotSwapManager::new`: the table is built first, so the errors are those of the build. */
  method NewManager(names: seq<string>, tableSize: int, hash: Hashing) returns (r: Result<HotSwapManager, XdpError>)
    requires 0 <= tableSize < U64_LIMIT && |names| < U64_LIMIT
    ensures r.Err? ==> BuildError(hash, names, tableSize) == Some(r.error)
    ensures r.Ok? ==>
              && BuildError(hash, names, tableSize) == None && fresh(r.value) && fresh(r.value.conntrack)
              && ValidManager(r.value.View()) && r.value.View().ct == Ct(map[], [], 1_000_000)
              && r.value.hashing == hash && IsL4For(r.value.currentTable, hash, names, tableSize)
  {
    var built := NewL4Table(hash, names, tableSize);
    if built.Err? {
      return Err(built.error);
    }
    var manager := new HotSwapManager(built.value, hash);
    return Ok(manager);
  }
}
