/** FIFO connection tracking with a capacity, as the L4 simulation keeps it. */
module Conntrack {
  import opened Basics

  /** A flow 5-tuple. */
  datatype FlowKey = FlowKey(srcAddr: nat, dstAddr: nat, srcPort: nat, dstPort: nat, protocol: nat)

  /** Flow to backend index, and the flows in insertion order. */
  datatype Ct = Ct(entries: map<FlowKey, nat>, order: seq<FlowKey>, maxEntries: nat)

  ghost predicate Distinct(s: seq<FlowKey>) {
    forall i, j :: 0 <= i < j < |s| ==> s[i] != s[j]
  }

  /** The queue holds exactly the map's flows, each once, within the capacity. */
  ghost predicate Valid(ct: Ct) {
    && 1 <= ct.maxEntries
    && Distinct(ct.order) && |ct.order| <= ct.maxEntries
    && (forall f :: f in ct.order <==> f in ct.entries)
  }

  function Without(s: seq<FlowKey>, f: FlowKey): seq<FlowKey> {
    if s == [] then [] else (if s[0] == f then [] else [s[0]]) + Without(s[1..], f)
  }

  datatype CtOp = Put(flow: FlowKey, backend: nat) | Delete(flow: FlowKey)

  /** Insert updates in place; a new flow pushes out the oldest one of a full table. */
  function Apply(ct: Ct, op: CtOp): Ct {
    match op
    case Put(f, b) =>
      if f in ct.entries then ct.(entries := ct.entries[f := b])
      else if |ct.order| >= ct.maxEntries && ct.order != [] then
        Ct((ct.entries - {ct.order[0]})[f := b], ct.order[1..] + [f], ct.maxEntries)
      else Ct(ct.entries[f := b], ct.order + [f], ct.maxEntries)
    case Delete(f) =>
      if f in ct.entries then Ct(ct.entries - {f}, Without(ct.order, f), ct.maxEntries) else ct
  }

  function RunOps(ct: Ct, ops: seq<CtOp>): Ct
    decreases |ops|
  {
    if ops == [] then ct else RunOps(Apply(ct, ops[0]), ops[1..])
  }

  lemma RunOne(ct: Ct, op: CtOp)
    ensures RunOps(ct, [op]) == Apply(ct, op)
  {
    assert [op][1..] == [];
  }

  lemma RunTwo(ct: Ct, first: CtOp, second: CtOp)
    ensures RunOps(ct, [first, second]) == Apply(Apply(ct, first), second)
  {
    assert [first, second][1..] == [second];
    RunOne(Apply(ct, first), second);
  }

  // ----- the invariant

  lemma {:induction false} WithoutMembers(s: seq<FlowKey>, f: FlowKey)
    ensures forall g :: g in Without(s, f) <==> g in s && g != f
    ensures |Without(s, f)| <= |s|
  {
    if s != [] {
      WithoutMembers(s[1..], f);
      assert s == [s[0]] + s[1..];
    }
  }

  lemma {:induction false} WithoutDistinct(s: seq<FlowKey>, f: FlowKey)
    requires Distinct(s)
    ensures Distinct(Without(s, f))
  {
    if s != [] {
      assert Distinct(s[1..]);
      WithoutDistinct(s[1..], f);
      WithoutMembers(s[1..], f);
      assert s[0] !in s[1..];
    }
  }

  lemma ApplyValid(ct: Ct, op: CtOp)
    requires Valid(ct)
    ensures Valid(Apply(ct, op)) && Apply(ct, op).maxEntries == ct.maxEntries
  {
    match op {
      case Put(f, _) =>
        if f !in ct.entries && |ct.order| >= ct.maxEntries {
          assert ct.order == [ct.order[0]] + ct.order[1..];
          assert ct.order[0] !in ct.order[1..];
        }
      case Delete(f) =>
        WithoutMembers(ct.order, f);
        WithoutDistinct(ct.order, f);
    }
  }

  lemma {:induction false} RunValid(ct: Ct, ops: seq<CtOp>)
    requires Valid(ct)
    ensures Valid(RunOps(ct, ops)) && RunOps(ct, ops).maxEntries == ct.maxEntries
    decreases |ops|
  {
    if ops != [] {
      ApplyValid(ct, ops[0]);
      RunValid(Apply(ct, ops[0]), ops[1..]);
    }
  }

  /** What one operation does to its own flow: a tracked flow is updated in place, a new one is the newest. */
  lemma ApplyEffect(ct: Ct, op: CtOp)
    requires Valid(ct)
    ensures op.Put? ==> op.flow in Apply(ct, op).entries && Apply(ct, op).entries[op.flow] == op.backend
    ensures op.Put? && op.flow in ct.entries ==> Apply(ct, op).order == ct.order
    ensures op.Put? && op.flow !in ct.entries ==>
              Apply(ct, op).order == (if |ct.order| == ct.maxEntries then ct.order[1..] else ct.order) + [op.flow]
    ensures op.Delete? ==> op.flow !in Apply(ct, op).entries && op.flow !in Apply(ct, op).order
  {
    if op.Delete? {
      WithoutMembers(ct.order, op.flow);
    }
  }

  // ----- survival

  /** How many flows were queued after `f`. */
  function Behind(s: seq<FlowKey>, f: FlowKey): nat {
    if s == [] then 0 else if s[0] == f then |s| - 1 else Behind(s[1..], f)
  }

  lemma {:induction false} BehindAppend(s: seq<FlowKey>, f: FlowKey, g: FlowKey)
    requires f in s
    ensures Behind(s + [g], f) == Behind(s, f) + 1
  {
    if s[0] != f {
      assert (s + [g])[1..] == s[1..] + [g];
      BehindAppend(s[1..], f, g);
    }
  }

  lemma {:induction false} BehindWithout(s: seq<FlowKey>, f: FlowKey, g: FlowKey)
    requires f in s && f != g
    ensures Behind(Without(s, g), f) <= Behind(s, f)
  {
    WithoutMembers(s[1..], g);
    if s[0] == f {
      assert Without(s, g)[1..] == Without(s[1..], g);
    } else {
      BehindWithout(s[1..], f, g);
      assert Without(s, g) == if s[0] == g then Without(s[1..], g) else [s[0]] + Without(s[1..], g);
    }
  }

  lemma {:induction false} BehindBelowLength(s: seq<FlowKey>, f: FlowKey)
    requires f in s
    ensures Behind(s, f) < |s|
  {
    if s[0] != f {
      BehindBelowLength(s[1..], f);
    }
  }

  predicate IsNewFlow(ct: Ct, op: CtOp) {
    op.Put? && op.flow !in ct.entries
  }

  function NewFlows(ct: Ct, ops: seq<CtOp>): nat
    decreases |ops|
  {
    if ops == [] then 0
    else (if IsNewFlow(ct, ops[0]) then 1 else 0) + NewFlows(Apply(ct, ops[0]), ops[1..])
  }

  /** One operation on other flows keeps `f` and its index unless it is the oldest of a full table. */
  lemma ApplyKeeps(ct: Ct, op: CtOp, f: FlowKey)
    requires Valid(ct) && f in ct.entries && op.flow != f
    requires IsNewFlow(ct, op) && |ct.order| == ct.maxEntries ==> ct.order[0] != f
    ensures f in Apply(ct, op).entries && Apply(ct, op).entries[f] == ct.entries[f]
    ensures Behind(Apply(ct, op).order, f) <= Behind(ct.order, f) + if IsNewFlow(ct, op) then 1 else 0
    ensures op.Put? ==> Behind(Apply(ct, op).order, f) == Behind(ct.order, f) + if IsNewFlow(ct, op) then 1 else 0
  {
    if op.Delete? {
      BehindWithout(ct.order, f, op.flow);
    } else if IsNewFlow(ct, op) {
      if |ct.order| == ct.maxEntries {
        assert f in ct.order[1..];
        BehindAppend(ct.order[1..], f, op.flow);
      } else {
        BehindAppend(ct.order, f, op.flow);
      }
    }
  }

  /**
   * Survival: over any run that does not itself touch `f`, the flow keeps its backend as long as
   * newer flows number less than the capacity, so a new flow survives capacity - 1 later ones.
   */
  lemma {:induction false} Survives(ct: Ct, ops: seq<CtOp>, f: FlowKey)
    requires Valid(ct) && f in ct.entries
    requires forall i :: 0 <= i < |ops| ==> ops[i].flow != f
    requires Behind(ct.order, f) + NewFlows(ct, ops) < ct.maxEntries
    ensures f in RunOps(ct, ops).entries && RunOps(ct, ops).entries[f] == ct.entries[f]
    decreases |ops|
  {
    if ops != [] {
      ApplyKeeps(ct, ops[0], f);
      ApplyValid(ct, ops[0]);
      Survives(Apply(ct, ops[0]), ops[1..], f);
    }
  }

  /** ... and no longer: without deletions, as many later new flows as the capacity push it out. */
  lemma {:induction false} EvictedInTurn(ct: Ct, ops: seq<CtOp>, f: FlowKey)
    requires Valid(ct) && f in ct.entries
    requires forall i :: 0 <= i < |ops| ==> ops[i].Put? && ops[i].flow != f
    requires Behind(ct.order, f) + NewFlows(ct, ops) >= ct.maxEntries
    ensures f !in RunOps(ct, ops).entries
    decreases |ops|
  {
    if ops == [] {
      BehindBelowLength(ct.order, f);
      assert false;
    } else {
      ApplyValid(ct, ops[0]);
      var next := Apply(ct, ops[0]);
      if IsNewFlow(ct, ops[0]) && |ct.order| == ct.maxEntries && ct.order[0] == f {
        StaysOut(next, ops[1..], f);
      } else {
        ApplyKeeps(ct, ops[0], f);
        EvictedInTurn(next, ops[1..], f);
      }
    }
  }

  lemma {:induction false} StaysOut(ct: Ct, ops: seq<CtOp>, f: FlowKey)
    requires f !in ct.entries && forall i :: 0 <= i < |ops| ==> ops[i].flow != f
    ensures f !in RunOps(ct, ops).entries
    decreases |ops|
  {
    if ops != [] {
      StaysOut(Apply(ct, ops[0]), ops[1..], f);
    }
  }

  // ----- the table object

  class ConntrackTable {
    var entries: map<FlowKey, nat>
    var insertOrder: seq<FlowKey>
    const maxEntries: nat

    ghost function View(): Ct
      reads this
    {
      Ct(entries, insertOrder, maxEntries)
    }

    /** `with_capacity`: a capacity of zero becomes one. */
    constructor (capacity: nat)
      ensures Valid(View()) && View() == Ct(map[], [], Max(capacity, 1))
    {
      entries, insertOrder, maxEntries := map[], [], Max(capacity, 1);
    }

    function Lookup(flow: FlowKey): Option<nat>
      reads this
    {
      if flow in entries then Some(entries[flow]) else None
    }

    method Insert(flow: FlowKey, backend: nat)
      requires Valid(View())
      modifies this
      ensures Valid(View()) && View() == Apply(old(View()), Put(flow, backend))
    {
      ApplyValid(View(), Put(flow, backend));
      if flow in entries {
        entries := entries[flow := backend];
        return;
      }
      SizesAgree(View());
      while |entries| >= maxEntries
        invariant |entries| == |insertOrder|
        invariant (entries, insertOrder) == (old(entries), old(insertOrder))
               || (old(|insertOrder|) == maxEntries && insertOrder == old(insertOrder)[1..]
                   && entries == old(entries) - {old(insertOrder)[0]})
        decreases |entries|
      {
        if insertOrder == [] {
          break;
        }
        var oldest := insertOrder[0];
        insertOrder := insertOrder[1..];
        assert |(entries - {oldest}).Keys| == |entries.Keys - {oldest}|;
        entries := entries - {oldest};
      }
      entries := entries[flow := backend];
      insertOrder := insertOrder + [flow];
    }

    method Remove(flow: FlowKey) returns (removed: Option<nat>)
      requires Valid(View())
      modifies this
      ensures Valid(View()) && View() == Apply(old(View()), Delete(flow))
      ensures removed == old(Lookup(flow))
    {
      ApplyValid(View(), Delete(flow));
      removed := Lookup(flow);
      if removed.Some? {
        entries := entries - {flow};
        insertOrder := Without(insertOrder, flow);
      }
    }
  }

  /** The map has exactly as many flows as the queue. */
  lemma SizesAgree(ct: Ct)
    requires Valid(ct)
    ensures |ct.entries| == |ct.order|
  {
    DistinctCount(ct.order);
    assert ct.entries.Keys == (set f | f in ct.order);
  }

  lemma {:induction false} DistinctCount(s: seq<FlowKey>)
    requires Distinct(s)
    ensures |set f | f in s| == |s|
  {
    if s != [] {
      DistinctCount(s[1..]);
      assert (set f | f in s) == {s[0]} + (set f | f in s[1..]);
      assert s[0] !in s[1..];
    }
  }
}
