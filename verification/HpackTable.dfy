/** The HPACK dynamic table (sections 2.3.2 and 4 of RFC 7541). */
module HpackTable {
  import opened Basics

  datatype Header = Header(name: bytes, value: bytes)

  function EntrySize(h: Header): int {
    |h.name| + |h.value| + 32
  }

  function SizeOf(entries: seq<Header>): int {
    SumBy(EntrySize, entries)
  }

  /** The specification state: entries newest first, and the current limit. */
  datatype Table = Table(entries: seq<Header>, maxSize: nat)

  ghost predicate Bounded(t: Table) {
    SizeOf(t.entries) <= t.maxSize
  }

  /** The longest newest-first prefix of `entries` whose size is within `budget`. */
  function Fit(entries: seq<Header>, budget: int): seq<Header> {
    if entries == [] || EntrySize(entries[0]) > budget then []
    else [entries[0]] + Fit(entries[1..], budget - EntrySize(entries[0]))
  }

  /** Section 4.4: a new entry pushes out old ones, and an entry that can never fit empties the table. */
  function Inserted(t: Table, h: Header): Table {
    Table(Fit([h] + t.entries, t.maxSize), t.maxSize)
  }

  /** Section 4.3: a new limit evicts what no longer fits. */
  function Resized(t: Table, newMax: nat): Table {
    Table(Fit(t.entries, newMax), newMax)
  }

  // ----- what Fit computes

  lemma {:induction false} SizeOfPrefix(entries: seq<Header>, k: nat)
    requires k < |entries|
    ensures SizeOf(entries[..k + 1]) == SizeOf(entries[..k]) + EntrySize(entries[k])
  {
    assert entries[..k + 1] == entries[..k] + [entries[k]];
    SumByAppend(EntrySize, entries[..k], entries[k]);
  }

  lemma SizeNonNegative(entries: seq<Header>)
    ensures 0 <= SizeOf(entries)
  {
    SumByNonNegative(EntrySize, entries);
  }

  /** `Fit` is a prefix that fits, and the next longer prefix would not. */
  lemma {:induction false} FitIsLongest(entries: seq<Header>, budget: int)
    ensures Fit(entries, budget) <= entries
    ensures 0 <= budget ==> SizeOf(Fit(entries, budget)) <= budget
    ensures budget < 0 ==> Fit(entries, budget) == []
    ensures |Fit(entries, budget)| < |entries| ==>
              SizeOf(entries[..|Fit(entries, budget)| + 1]) > budget
  {
    if entries != [] && EntrySize(entries[0]) <= budget {
      var rest := budget - EntrySize(entries[0]);
      FitIsLongest(entries[1..], rest);
      var f := Fit(entries[1..], rest);
      assert ([entries[0]] + f)[1..] == f;
      if |f| < |entries[1..]| {
        assert entries[..|f| + 2][1..] == entries[1..][..|f| + 1];
      }
    } else if entries != [] {
      SizeOfPrefix(entries, 0);
      assert SizeOf(entries[..0]) == 0;
    }
  }

  /** Sizes are positive, so longer prefixes are larger. */
  lemma {:induction false} PrefixSizeGrows(entries: seq<Header>, j: nat, k: nat)
    requires j <= k <= |entries|
    ensures SizeOf(entries[..j]) <= SizeOf(entries[..k])
    decreases k
  {
    if j < k {
      PrefixSizeGrows(entries, j, k - 1);
      SizeOfPrefix(entries, k - 1);
    }
  }

  /** The longest fitting prefix is the only prefix that fits and cannot be extended. */
  lemma FitUnique(entries: seq<Header>, budget: int, k: nat)
    requires k <= |entries|
    requires SizeOf(entries[..k]) <= budget || k == 0
    requires k < |entries| ==> SizeOf(entries[..k + 1]) > budget
    ensures Fit(entries, budget) == entries[..k]
  {
    FitIsLongest(entries, budget);
    var n := |Fit(entries, budget)|;
    assert Fit(entries, budget) == entries[..n];
    if k < n {
      PrefixSizeGrows(entries, k + 1, n);
    } else if n < k {
      PrefixSizeGrows(entries, n + 1, k);
    }
  }

  /** Fitting into a smaller budget forgets an earlier, larger one. */
  lemma {:induction false} FitTwice(entries: seq<Header>, large: int, small: int)
    requires small <= large
    ensures Fit(Fit(entries, large), small) == Fit(entries, small)
  {
    if entries != [] && EntrySize(entries[0]) <= large {
      var s := EntrySize(entries[0]);
      var f := Fit(entries[1..], large - s);
      assert ([entries[0]] + f)[1..] == f;
      FitTwice(entries[1..], large - s, small - s);
    }
  }

  /** One insertion into an empty table: kept exactly when name, value and 32 octets fit the limit. */
  lemma LoneInsert(h: Header, limit: nat)
    ensures Inserted(Table([], limit), h).entries
         == if |h.name| + |h.value| + 32 <= limit then [h] else []
  {
    assert [h] + [] == [h] && [h][1..] == [];
    assert Fit([h][1..], limit - EntrySize(h)) == [];
  }

  // ----- whole runs

  datatype TableOp = Insert(entry: Header) | SetMax(newMax: nat)

  function Apply(t: Table, op: TableOp): Table {
    match op
    case Insert(h) => Inserted(t, h)
    case SetMax(n) => Resized(t, n)
  }

  function Replay(t: Table, ops: seq<TableOp>): Table {
    if ops == [] then t else Apply(Replay(t, ops[..|ops| - 1]), ops[|ops| - 1])
  }

  lemma {:induction false} ReplayConcat(t: Table, a: seq<TableOp>, b: seq<TableOp>)
    ensures Replay(t, a + b) == Replay(Replay(t, a), b)
    decreases |b|
  {
    if b == [] {
      assert a + b == a;
    } else {
      assert (a + b)[..|a + b| - 1] == a + b[..|b| - 1];
      ReplayConcat(t, a, b[..|b| - 1]);
    }
  }

  /** Every header ever inserted, newest first, on top of what was there. */
  function History(t: Table, ops: seq<TableOp>): seq<Header> {
    if ops == [] then t.entries
    else
      var last := ops[|ops| - 1];
      (if last.Insert? then [last.entry] else []) + History(t, ops[..|ops| - 1])
  }

  /** The limit never grows along the run. */
  predicate NeverGrows(max: nat, ops: seq<TableOp>) {
    ops == [] || (NeverGrows(max, ops[..|ops| - 1])
                  && (ops[|ops| - 1].SetMax? ==> ops[|ops| - 1].newMax <= LimitAfter(max, ops[..|ops| - 1])))
  }

  function LimitAfter(max: nat, ops: seq<TableOp>): nat {
    if ops == [] then max
    else if ops[|ops| - 1].SetMax? then ops[|ops| - 1].newMax
    else LimitAfter(max, ops[..|ops| - 1])
  }

  lemma ApplyBounded(t: Table, op: TableOp)
    ensures Bounded(Apply(t, op))
  {
    match op
    case Insert(h) => FitIsLongest([h] + t.entries, t.maxSize);
    case SetMax(n) => FitIsLongest(t.entries, n);
  }

  /** Over any run the table stays within the limit then in force. */
  lemma {:induction false} ReplayBounded(t: Table, ops: seq<TableOp>)
    requires Bounded(t)
    ensures Bounded(Replay(t, ops)) && Replay(t, ops).maxSize == LimitAfter(t.maxSize, ops)
  {
    if ops != [] {
      ReplayBounded(t, ops[..|ops| - 1]);
      ApplyBounded(Replay(t, ops[..|ops| - 1]), ops[|ops| - 1]);
    }
  }

  // ----- which entries a run keeps

  /** `Fit` keeps an entry exactly when it fits together with everything newer. */
  lemma FitMembers(entries: seq<Header>, budget: int, i: nat)
    requires i < |entries|
    ensures i < |Fit(entries, budget)| <==> SizeOf(entries[..i + 1]) <= budget
  {
    FitIsLongest(entries, budget);
    var n := |Fit(entries, budget)|;
    if i < n {
      assert Fit(entries, budget) == entries[..n];
      PrefixSizeGrows(entries, i + 1, n);
    } else {
      PrefixSizeGrows(entries, n + 1, i + 1);
    }
  }

  lemma FitOfPrefix(entries: seq<Header>, k: nat, budget: int, i: nat)
    requires k <= |entries| && i < |entries|
    ensures i < |Fit(entries[..k], budget)| <==> i < k && SizeOf(entries[..i + 1]) <= budget
  {
    FitIsLongest(entries[..k], budget);
    if i < k {
      FitMembers(entries[..k], budget, i);
      assert entries[..k][..i + 1] == entries[..i + 1];
    }
  }

  /** Entry i of the history, with everything newer, fitted the limit in force at every moment since its insertion. */
  predicate FittedSince(t: Table, ops: seq<TableOp>, i: nat)
    requires i < |History(t, ops)|
    decreases |ops|
  {
    ops == [] ||
    (SizeOf(History(t, ops)[..i + 1]) <= LimitAfter(t.maxSize, ops) &&
     var prior := ops[..|ops| - 1];
     if ops[|ops| - 1].SetMax? then FittedSince(t, prior, i) else i == 0 || FittedSince(t, prior, i - 1))
  }

  /** The table is the history prefix of the entries that fitted all along. */
  ghost predicate KeepsFitted(t: Table, ops: seq<TableOp>, kept: seq<Header>) {
    && kept <= History(t, ops)
    && forall i: nat :: i < |History(t, ops)| ==> (i < |kept| <==> FittedSince(t, ops, i))
  }

  lemma InsertKeepsFitted(t: Table, prior: seq<TableOp>, h: Header, kept: seq<Header>, limit: nat)
    requires KeepsFitted(t, prior, kept) && limit == LimitAfter(t.maxSize, prior)
    ensures KeepsFitted(t, prior + [Insert(h)], Fit([h] + kept, limit))
  {
    var ops := prior + [Insert(h)];
    assert ops[..|ops| - 1] == prior;
    var past := [h] + History(t, prior);
    assert History(t, ops) == past;
    assert [h] + kept == past[..|kept| + 1];
    FitIsLongest([h] + kept, limit);
    forall i: nat | i < |past| ensures i < |Fit([h] + kept, limit)| <==> FittedSince(t, ops, i) {
      FitOfPrefix(past, |kept| + 1, limit, i);
      assert i > 0 ==> (i - 1 < |kept| <==> FittedSince(t, prior, i - 1));
    }
  }

  lemma ResizeKeepsFitted(t: Table, prior: seq<TableOp>, newMax: nat, kept: seq<Header>)
    requires KeepsFitted(t, prior, kept)
    ensures KeepsFitted(t, prior + [SetMax(newMax)], Fit(kept, newMax))
  {
    var ops := prior + [SetMax(newMax)];
    assert ops[..|ops| - 1] == prior;
    var past := History(t, prior);
    assert History(t, ops) == past;
    assert kept == past[..|kept|];
    FitIsLongest(kept, newMax);
    forall i: nat | i < |past| ensures i < |Fit(kept, newMax)| <==> FittedSince(t, ops, i) {
      FitOfPrefix(past, |kept|, newMax, i);
    }
  }

  /** After every run, growing limits included, the table holds exactly the entries that fitted all along. */
  lemma {:induction false} ReplayKeepsFitted(t: Table, ops: seq<TableOp>)
    ensures KeepsFitted(t, ops, Replay(t, ops).entries) && Replay(t, ops).maxSize == LimitAfter(t.maxSize, ops)
  {
    if ops != [] {
      var prior, last := ops[..|ops| - 1], ops[|ops| - 1];
      ReplayKeepsFitted(t, prior);
      assert ops == prior + [last];
      match last {
        case Insert(h) => InsertKeepsFitted(t, prior, h, Replay(t, prior).entries, Replay(t, prior).maxSize);
        case SetMax(n) => ResizeKeepsFitted(t, prior, n, Replay(t, prior).entries);
      }
    }
  }

  lemma FittedFitsNow(t: Table, ops: seq<TableOp>, i: nat)
    requires Bounded(t) && i < |History(t, ops)| && FittedSince(t, ops, i)
    ensures SizeOf(History(t, ops)[..i + 1]) <= LimitAfter(t.maxSize, ops)
  {
    if ops == [] {
      PrefixSizeGrows(t.entries, i + 1, |t.entries|);
      assert t.entries[..|t.entries|] == t.entries;
    }
  }

  /**
   * Exactly when a run leaves the longest fitting prefix of its history: if and only if every
   * entry that fits now has fitted all along.
   */
  lemma ReplayIsFitIff(t: Table, ops: seq<TableOp>)
    requires Bounded(t)
    ensures Replay(t, ops).entries == Fit(History(t, ops), LimitAfter(t.maxSize, ops))
       <==> forall i: nat :: i < |Fit(History(t, ops), LimitAfter(t.maxSize, ops))| ==>
              i < |History(t, ops)| && FittedSince(t, ops, i)
  {
    var past, limit := History(t, ops), LimitAfter(t.maxSize, ops);
    var kept, fits := Replay(t, ops).entries, Fit(past, limit);
    ReplayKeepsFitted(t, ops);
    FitIsLongest(past, limit);
    assert |kept| <= |fits| by {
      if |kept| > |fits| {
        FittedFitsNow(t, ops, |kept| - 1);
        FitMembers(past, limit, |kept| - 1);
      }
    }
    if |kept| < |fits| {
      assert !FittedSince(t, ops, |kept|);
    } else {
      assert kept == past[..|kept|] == fits;
    }
  }

  lemma {:induction false} NeverGrowsFitted(t: Table, ops: seq<TableOp>, i: nat)
    requires Bounded(t) && NeverGrows(t.maxSize, ops) && i < |History(t, ops)|
    requires SizeOf(History(t, ops)[..i + 1]) <= LimitAfter(t.maxSize, ops)
    ensures FittedSince(t, ops, i)
    decreases |ops|
  {
    if ops != [] {
      var prior, last := ops[..|ops| - 1], ops[|ops| - 1];
      var past := History(t, prior);
      if last.SetMax? {
        assert History(t, ops) == past;
        NeverGrowsFitted(t, prior, i);
      } else if i > 0 {
        assert History(t, ops)[..i + 1] == [last.entry] + past[..i];
        assert ([last.entry] + past[..i])[1..] == past[..i];
        NeverGrowsFitted(t, prior, i - 1);
      }
    }
  }

  /**
   * In particular: while the limit never grows, the incrementally evicted table is exactly the
   * longest newest-first prefix of the whole insert history that fits the current limit.
   */
  lemma ReplayIsHistoryPrefix(t: Table, ops: seq<TableOp>)
    requires Bounded(t) && NeverGrows(t.maxSize, ops)
    ensures Replay(t, ops) == Table(Fit(History(t, ops), LimitAfter(t.maxSize, ops)), LimitAfter(t.maxSize, ops))
  {
    var past, limit := History(t, ops), LimitAfter(t.maxSize, ops);
    FitIsLongest(past, limit);
    forall i: nat | i < |Fit(past, limit)| ensures FittedSince(t, ops, i) {
      FitMembers(past, limit, i);
      NeverGrowsFitted(t, ops, i);
    }
    ReplayKeepsFitted(t, ops);
    ReplayIsFitIff(t, ops);
  }

  /** Every entry of the history that fitted all along would fit `limit` too. */
  ghost predicate FittedWithin(t: Table, ops: seq<TableOp>, limit: int) {
    forall i: nat :: i < |History(t, ops)| && FittedSince(t, ops, i) ==> SizeOf(History(t, ops)[..i + 1]) <= limit
  }

  /** Exactly when a run leaves the table within some other limit. */
  lemma ReplayWithinIff(t: Table, ops: seq<TableOp>, limit: nat)
    ensures SizeOf(Replay(t, ops).entries) <= limit <==> FittedWithin(t, ops, limit)
  {
    var past, kept := History(t, ops), Replay(t, ops).entries;
    ReplayKeepsFitted(t, ops);
    assert kept == past[..|kept|];
    forall i: nat | i < |past| && FittedSince(t, ops, i) ensures SizeOf(past[..i + 1]) <= SizeOf(kept) {
      PrefixSizeGrows(past, i + 1, |kept|);
    }
    if FittedWithin(t, ops, limit) && kept != [] {
      var last: nat := |kept| - 1;
      assert FittedSince(t, ops, last);
      assert SizeOf(History(t, ops)[..last + 1]) <= limit;
      assert past[..last + 1] == kept;
    }
  }

  /**
   * Exactly when a change of limit keeps the table the longest fitting prefix of the history:
   * it shrinks, nothing had been evicted, or the newest evicted entry does not fit either way.
   */
  lemma ResizeKeepsPrefix(history: seq<Header>, max: nat, newMax: nat)
    ensures Resized(Table(Fit(history, max), max), newMax).entries == Fit(history, newMax)
       <==> newMax <= max || |Fit(history, max)| >= |history|
            || SizeOf(history[..|Fit(history, max)| + 1]) > newMax
  {
    FitIsLongest(history, max);
    var kept := |Fit(history, max)|;
    if newMax <= max {
      FitTwice(history, max, newMax);
    } else {
      assert Fit(history, max)[..kept] == Fit(history, max) == history[..kept];
      FitUnique(Fit(history, max), newMax, kept);
      FitIsLongest(history, newMax);
      var fits := |Fit(history, newMax)|;
      assert Fit(history, newMax) == history[..fits];
      if kept < |history| && SizeOf(history[..kept + 1]) <= newMax && fits == kept {
        assert false;
      }
      if kept == |history| || SizeOf(history[..kept + 1]) > newMax {
        FitUnique(history, newMax, kept);
      }
    }
  }

  /** A limit that grows again shows why the condition is needed: evicted entries do not return. */
  lemma GrowthForgets(h: Header)
    ensures var t, ops := Table([], EntrySize(h)), [Insert(h), SetMax(0), SetMax(EntrySize(h))];
            Replay(t, ops).entries == [] && Fit(History(t, ops), EntrySize(h)) == [h]
  {
    var t, ops := Table([], EntrySize(h)), [Insert(h), SetMax(0), SetMax(EntrySize(h))];
    assert ops[..2] == [Insert(h), SetMax(0)] && ops[..2][..1] == [Insert(h)] && ops[..2][..1][..0] == [];
    assert History(t, ops[..2][..1]) == [h];
    assert History(t, ops) == [h];
    assert [h][1..] == [];
  }

  // ----- the table object

  class DynamicTable {
    var entries: seq<Header>
    var size: nat
    var maxSize: nat

    ghost predicate Valid()
      reads this
    {
      size == SizeOf(entries) && size <= maxSize
    }

    function View(): Table
      reads this
    {
      Table(entries, maxSize)
    }

    constructor (max: nat)
      ensures Valid() && View() == Table([], max)
    {
      entries, size, maxSize := [], 0, max;
    }

    /** Pops the oldest entries until `needed` more octets fit, or nothing is left. */
    method Evict(needed: nat)
      requires size == SizeOf(entries)
      modifies this`entries, this`size
      ensures size == SizeOf(entries) && entries == Fit(old(entries), maxSize - needed)
      ensures size + needed <= maxSize || entries == []
    {
      ghost var k: nat := |entries|;
      while size + needed > maxSize && entries != []
        invariant k <= |old(entries)| && entries == old(entries)[..k] && size == SizeOf(entries)
        invariant k < |old(entries)| ==> SizeOf(old(entries)[..k + 1]) > maxSize - needed
        decreases k
      {
        SizeOfPrefix(old(entries), k - 1);
        var oldest := entries[|entries| - 1];
        SizeNonNegative(entries[..|entries| - 1]);
        entries := entries[..|entries| - 1];
        assert entries == old(entries)[..k - 1];
        size := Max(0, size - EntrySize(oldest));
        k := k - 1;
      }
      FitUnique(old(entries), maxSize - needed, k);
    }

    method Insert(h: Header)
      requires Valid()
      modifies this`entries, this`size
      ensures Valid() && View() == Inserted(old(View()), h)
    {
      var needed := EntrySize(h);
      ghost var was := entries;
      Evict(needed);
      assert ([h] + was)[1..] == was;
      if needed <= maxSize {
        size := size + needed;
        entries := [h] + entries;
        assert entries[1..] == Fit(was, maxSize - needed);
      } else {
        FitIsLongest(was, maxSize - needed);
      }
    }

    method SetMaxSize(newMax: nat)
      requires Valid()
      modifies this
      ensures Valid() && View() == Resized(old(View()), newMax)
    {
      maxSize := newMax;
      Evict(0);
    }
  }
}
