/** Consistent hashing on a ring of virtual nodes, for arbitrary hash functions to 64-bit words. */
module RingHash {
  import opened Basics
  import opened Balancing

  const VNODES_PER_BACKEND: nat := 150

  datatype Point = Point(hash: hash64, backend: nat)

  datatype Ring = Ring(points: seq<Point>, numBackends: nat, identityHash: hash64)

  // ----- building the ring

  /** The virtual nodes `0 .. n` of one backend. */
  function Vnodes(hashing: Hashing, id: string, backend: nat, n: nat): seq<Point> {
    if n == 0 then [] else Vnodes(hashing, id, backend, n - 1) + [Point(hashing.vnode(id, n - 1), backend)]
  }

  function AllPoints(hashing: Hashing, names: seq<string>): seq<Point> {
    if names == [] then []
    else AllPoints(hashing, names[..|names| - 1])
         + Vnodes(hashing, names[|names| - 1], |names| - 1, VNODES_PER_BACKEND)
  }

  ghost predicate SortedByHash(s: seq<Point>) {
    forall i, j :: 0 <= i < j < |s| ==> s[i].hash <= s[j].hash
  }

  /** `x` goes before the first point that is not smaller. */
  function Placed(x: Point, s: seq<Point>): (r: seq<Point>)
  {
    if s == [] || x.hash <= s[0].hash then [x] + s else [s[0]] + Placed(x, s[1..])
  }

  lemma {:induction false} PlacedMembers(x: Point, s: seq<Point>)
    ensures multiset(Placed(x, s)) == multiset(s) + multiset{x}
  {
    if s != [] && x.hash > s[0].hash {
      PlacedMembers(x, s[1..]);
      assert s == [s[0]] + s[1..];
    }
  }

  lemma {:induction false} PlacedAtLeast(x: Point, s: seq<Point>, h: nat)
    requires h <= x.hash && forall i :: 0 <= i < |s| ==> h <= s[i].hash
    ensures forall i :: 0 <= i < |Placed(x, s)| ==> h <= Placed(x, s)[i].hash
  {
    if s != [] && x.hash > s[0].hash {
      PlacedAtLeast(x, s[1..], h);
    }
  }

  lemma {:induction false} PlacedSorted(x: Point, s: seq<Point>)
    requires SortedByHash(s)
    ensures SortedByHash(Placed(x, s))
  {
    if s != [] && x.hash > s[0].hash {
      PlacedSorted(x, s[1..]);
      PlacedAtLeast(x, s[1..], s[0].hash);
    }
  }

  /** A stable sort by hash. */
  function Sorted(s: seq<Point>): seq<Point> {
    if s == [] then [] else Placed(s[0], Sorted(s[1..]))
  }

  lemma {:induction false} SortedIsSorted(s: seq<Point>)
    ensures SortedByHash(Sorted(s)) && multiset(Sorted(s)) == multiset(s)
  {
    if s != [] {
      SortedIsSorted(s[1..]);
      PlacedSorted(s[0], Sorted(s[1..]));
      PlacedMembers(s[0], Sorted(s[1..]));
      assert s == [s[0]] + s[1..];
    }
  }

  /** `points` are the virtual nodes of `names`, sorted. */
  ghost predicate RingOf(hashing: Hashing, names: seq<string>, points: seq<Point>) {
    SortedByHash(points) && multiset(points) == multiset(AllPoints(hashing, names))
  }

  /** The ring was built for `names`. */
  ghost predicate IsFor(ring: Ring, hashing: Hashing, names: seq<string>) {
    && names != [] && RingOf(hashing, names, ring.points)
    && ring.numBackends == |names| && ring.identityHash == hashing.identity(names)
  }

  /** `RingHash::new`: two nested loops, then the sort. */
  method NewRing(hashing: Hashing, names: seq<string>) returns (r: Result<Ring, BalancerError>)
    ensures names == [] <==> r == Err(NoBackends)
    ensures names != [] ==> r.Ok? && IsFor(r.value, hashing, names)
  {
    if names == [] {
      return Err(NoBackends);
    }
    var ring: seq<Point> := [];
    assert names[..0] == [];
    for idx := 0 to |names|
      invariant ring == AllPoints(hashing, names[..idx])
    {
      ghost var before := ring;
      for vnode := 0 to VNODES_PER_BACKEND
        invariant ring == before + Vnodes(hashing, names[idx], idx, vnode)
      {
        ring := ring + [Point(hashing.vnode(names[idx], vnode), idx)];
      }
      assert names[..idx + 1][..idx] == names[..idx];
    }
    assert names[..|names|] == names;
    SortedIsSorted(ring);
    return Ok(Ring(Sorted(ring), |names|, hashing.identity(names)));
  }

  // ----- membership

  ghost predicate IsVnode(hashing: Hashing, names: seq<string>, x: Point) {
    x.backend < |names| && exists v: nat :: v < VNODES_PER_BACKEND && hashing.vnode(names[x.backend], v) == x.hash
  }

  lemma {:induction false} VnodesMembers(hashing: Hashing, id: string, backend: nat, n: nat, x: Point)
    ensures x in Vnodes(hashing, id, backend, n)
       <==> x.backend == backend && exists v: nat :: v < n && hashing.vnode(id, v) == x.hash
  {
    if n > 0 {
      VnodesMembers(hashing, id, backend, n - 1, x);
    }
  }

  lemma {:induction false} PointMembers(hashing: Hashing, names: seq<string>, x: Point)
    ensures x in AllPoints(hashing, names) <==> IsVnode(hashing, names, x)
  {
    if names != [] {
      var front, last := names[..|names| - 1], |names| - 1;
      PointMembers(hashing, front, x);
      VnodesMembers(hashing, names[last], last, VNODES_PER_BACKEND, x);
    }
  }

  lemma RingMembers(hashing: Hashing, names: seq<string>, points: seq<Point>, x: Point)
    requires RingOf(hashing, names, points)
    ensures x in points <==> IsVnode(hashing, names, x)
  {
    PointMembers(hashing, names, x);
    assert x in points <==> x in multiset(points);
    assert x in AllPoints(hashing, names) <==> x in multiset(AllPoints(hashing, names));
  }

  lemma RingNotEmpty(hashing: Hashing, names: seq<string>, points: seq<Point>)
    requires RingOf(hashing, names, points) && names != []
    ensures points != []
  {
    var x := Point(hashing.vnode(names[0], 0), 0);
    assert IsVnode(hashing, names, x);
    RingMembers(hashing, names, points, x);
  }

  // ----- the search

  datatype Search = Found(at: nat) | Missing(insertAt: nat)

  /** What `binary_search_by_key` promises: any point with the hash, or the place it would go. */
  ghost predicate SearchResult(points: seq<Point>, h: hash64, r: Search) {
    match r
    case Found(i) => i < |points| && points[i].hash == h
    case Missing(i) =>
      && i <= |points|
      && (forall j :: 0 <= j < i ==> points[j].hash < h)
      && (forall j :: i <= j < |points| ==> points[j].hash > h)
  }

  method BinarySearch(points: seq<Point>, h: hash64) returns (r: Search)
    requires SortedByHash(points)
    ensures SearchResult(points, h, r)
  {
    var lo, hi := 0, |points|;
    while lo < hi
      invariant 0 <= lo <= hi <= |points|
      invariant forall j :: 0 <= j < lo ==> points[j].hash < h
      invariant forall j :: hi <= j < |points| ==> points[j].hash > h
    {
      var mid := (lo + hi) / 2;
      if points[mid].hash < h {
        lo := mid + 1;
      } else if points[mid].hash > h {
        hi := mid;
      } else {
        return Found(mid);
      }
    }
    return Missing(lo);
  }

  /** The searched position, wrapped around. */
  function Position(points: seq<Point>, r: Search): nat {
    match r
    case Found(i) => i
    case Missing(i) => if i >= |points| then 0 else i
  }

  /** `pick_with_key` after the search. */
  function Picked(ring: Ring, hashing: Hashing, names: seq<string>, found: Search): Result<nat, BalancerError> {
    if names == [] then Err(NoBackends)
    else if |names| != ring.numBackends || hashing.identity(names) != ring.identityHash then Err(TableStale)
    else if ring.points == [] then Err(Internal)
    else
      var pos := Position(ring.points, found);
      if pos >= |ring.points| then Err(Internal)
      else if ring.points[pos].backend >= |names| then Err(Internal)
      else Ok(ring.points[pos].backend)
  }

  /** On a ring built for `built`: the errors exactly, else a backend that owns a nearest point. */
  ghost predicate SoundPick(
    ring: Ring, hashing: Hashing, names: seq<string>, h: hash64, r: Result<nat, BalancerError>) {
    && (r.Ok? || r == Err(NoBackends) || r == Err(TableStale))
    && (r == Err(NoBackends) <==> names == [])
    && (r == Err(TableStale) <==>
          names != [] && (|names| != ring.numBackends || hashing.identity(names) != ring.identityHash))
    && (r.Ok? ==> r.value < |names| && exists x :: Nearest(ring.points, h, x) && x.backend == r.value)
  }

  lemma PickedOutcome(ring: Ring, hashing: Hashing, built: seq<string>, names: seq<string>, h: hash64, found: Search)
    requires IsFor(ring, hashing, built)
    requires SearchResult(ring.points, h, found)
    ensures SoundPick(ring, hashing, names, h, Picked(ring, hashing, names, found))
  {
    RingNotEmpty(hashing, built, ring.points);
    SearchIsNearest(ring.points, h, found);
    RingMembers(hashing, built, ring.points, ring.points[Position(ring.points, found)]);
  }

  /** `pick_with_key`; `built` is the list the ring was built for. */
  method PickWithKey(ring: Ring, hashing: Hashing, names: seq<string>, key: nat, ghost built: seq<string>)
    returns (r: Result<nat, BalancerError>)
    requires IsFor(ring, hashing, built)
    ensures SoundPick(ring, hashing, names, hashing.key(key), r)
  {
    var found := BinarySearch(ring.points, hashing.key(key));
    PickedOutcome(ring, hashing, built, names, hashing.key(key), found);
    r := Picked(ring, hashing, names, found);
  }

  // ----- clockwise distance

  /** How far clockwise from `h` the hash `x` lies. */
  function Distance(h: hash64, x: hash64): int {
    if h <= x then x - h else x - h + U64_LIMIT
  }

  /** `x` is a point at the least clockwise distance. */
  ghost predicate Nearest(points: seq<Point>, h: hash64, x: Point) {
    x in points && forall y :: y in points ==> Distance(h, x.hash) <= Distance(h, y.hash)
  }

  /** The searched position is the clockwise successor. */
  lemma SearchIsNearest(points: seq<Point>, h: hash64, r: Search)
    requires SortedByHash(points) && points != [] && SearchResult(points, h, r)
    ensures
      var pos := Position(points, r);
      pos < |points| && Nearest(points, h, points[pos])
  {
    var pos := Position(points, r);
    forall y | y in points ensures Distance(h, points[pos].hash) <= Distance(h, y.hash) {
      var j :| 0 <= j < |points| && points[j] == y;
      if pos < j { assert points[pos].hash <= y.hash; }
      if j < pos { assert points[j].hash <= points[pos].hash; }
    }
  }

  /** The linear scan: the first point not before `h`, or the first of all. */
  function Scan(points: seq<Point>, h: hash64, from: nat): nat
    requires from <= |points|
    decreases |points| - from
  {
    if from == |points| then 0 else if points[from].hash >= h then from else Scan(points, h, from + 1)
  }

  lemma {:induction false} ScanIsNearest(points: seq<Point>, h: hash64, from: nat)
    requires SortedByHash(points) && points != [] && from <= |points|
    requires forall j :: 0 <= j < from ==> points[j].hash < h
    ensures Scan(points, h, from) < |points| && Nearest(points, h, points[Scan(points, h, from)])
    decreases |points| - from
  {
    if from < |points| && points[from].hash < h {
      ScanIsNearest(points, h, from + 1);
    } else {
      var r := if from < |points| && points[from].hash == h then Found(from) else Missing(from);
      assert SearchResult(points, h, r);
      SearchIsNearest(points, h, r);
    }
  }

  ghost predicate DistinctHashes(points: seq<Point>) {
    forall i, j :: 0 <= i < j < |points| ==> points[i].hash != points[j].hash
  }

  lemma DistanceInjective(h: hash64, x: hash64, y: hash64)
    requires Distance(h, x) == Distance(h, y)
    ensures x == y
  {
  }

  /** Two nearest points have one hash, whatever collisions there are. */
  lemma NearestHash(points: seq<Point>, h: hash64, x: Point, y: Point)
    requires Nearest(points, h, x) && Nearest(points, h, y)
    ensures x.hash == y.hash
  {
    DistanceInjective(h, x.hash, y.hash);
  }

  /** With distinct hashes the binary search and the linear clockwise scan agree. */
  lemma SearchAgreesWithScan(points: seq<Point>, h: hash64, r: Search)
    requires SortedByHash(points) && points != [] && DistinctHashes(points) && SearchResult(points, h, r)
    ensures Position(points, r) == Scan(points, h, 0)
  {
    var pos := Position(points, r);
    SearchIsNearest(points, h, r);
    ScanIsNearest(points, h, 0);
    NearestHash(points, h, points[pos], points[Scan(points, h, 0)]);
  }

  // ----- removing a backend

  /** Virtual nodes of different backends never share a hash. */
  ghost predicate NoCollisions(hashing: Hashing, names: seq<string>) {
    forall i, j, v: nat, w: nat ::
      (0 <= i < |names| && 0 <= j < |names| && v < VNODES_PER_BACKEND && w < VNODES_PER_BACKEND
       && hashing.vnode(names[i], v) == hashing.vnode(names[j], w))
      ==> names[i] == names[j]
  }

  function Removed(names: seq<string>, k: nat): seq<string>
    requires k < |names|
  {
    names[..k] + names[k + 1..]
  }

  /** Every virtual node of the smaller ring is one of the larger, at the same hash and backend name. */
  lemma RemovedVnode(hashing: Hashing, names: seq<string>, k: nat, x: Point)
    requires k < |names| && IsVnode(hashing, Removed(names, k), x)
    ensures var i := if x.backend < k then x.backend else x.backend + 1;
      i < |names| && names[i] == Removed(names, k)[x.backend] && IsVnode(hashing, names, Point(x.hash, i))
  {
  }

  lemma KeptVnode(hashing: Hashing, names: seq<string>, k: nat, x: Point)
    requires k < |names| && IsVnode(hashing, names, x) && x.backend != k
    ensures var i := if x.backend < k then x.backend else x.backend - 1;
      i < |Removed(names, k)| && Removed(names, k)[i] == names[x.backend]
      && IsVnode(hashing, Removed(names, k), Point(x.hash, i))
  {
    var i := if x.backend < k then x.backend else x.backend - 1;
    assert Removed(names, k)[i] == names[x.backend];
  }

  /**
   * Minimal disruption: after removing one backend, every key that was not on it keeps its
   * backend name.
   */
  lemma RemovalMovesOnlyItsKeys(
    hashing: Hashing, names: seq<string>, k: nat,
    before: seq<Point>, after: seq<Point>, h: hash64, x: Point, y: Point)
    requires k < |names| && NoCollisions(hashing, names)
    requires RingOf(hashing, names, before) && RingOf(hashing, Removed(names, k), after)
    requires Nearest(before, h, x) && Nearest(after, h, y) && x.backend != k
    ensures x.backend < |names| && y.backend < |Removed(names, k)|
    ensures Removed(names, k)[y.backend] == names[x.backend]
  {
    RingMembers(hashing, names, before, x);
    RingMembers(hashing, Removed(names, k), after, y);
    KeptVnode(hashing, names, k, x);
    var x' := Point(x.hash, if x.backend < k then x.backend else x.backend - 1);
    RingMembers(hashing, Removed(names, k), after, x');
    RemovedVnode(hashing, names, k, y);
    var y' := Point(y.hash, if y.backend < k then y.backend else y.backend + 1);
    RingMembers(hashing, names, before, y');
    assert Distance(h, x.hash) <= Distance(h, y'.hash) && Distance(h, y.hash) <= Distance(h, x'.hash);
    DistanceInjective(h, x.hash, y.hash);
    SameHashSameName(hashing, names, x, y');
  }

  lemma SameHashSameName(hashing: Hashing, names: seq<string>, x: Point, y: Point)
    requires NoCollisions(hashing, names) && IsVnode(hashing, names, x) && IsVnode(hashing, names, y)
    requires x.hash == y.hash
    ensures names[x.backend] == names[y.backend]
  {
    var v: nat :| v < VNODES_PER_BACKEND && hashing.vnode(names[x.backend], v) == x.hash;
    var w: nat :| w < VNODES_PER_BACKEND && hashing.vnode(names[y.backend], w) == y.hash;
    assert hashing.vnode(names[x.backend], v) == hashing.vnode(names[y.backend], w);
  }

  /** Two picks by one key hash, on rings built before and after removing backend k. */
  lemma RemovalKeepsPicks(
    hashing: Hashing, names: seq<string>, k: nat, before: Ring, after: Ring, h: hash64,
    r: Result<nat, BalancerError>, r': Result<nat, BalancerError>)
    requires k < |names| && NoCollisions(hashing, names)
    requires IsFor(before, hashing, names) && IsFor(after, hashing, Removed(names, k))
    requires SoundPick(before, hashing, names, h, r) && SoundPick(after, hashing, Removed(names, k), h, r')
    ensures r.Ok? && r'.Ok? && r.value < |names| && r'.value < |Removed(names, k)|
    ensures r.value != k ==> Removed(names, k)[r'.value] == names[r.value]
  {
    if r.value != k {
      var x :| Nearest(before.points, h, x) && x.backend == r.value;
      var y :| Nearest(after.points, h, y) && y.backend == r'.value;
      RemovalMovesOnlyItsKeys(hashing, names, k, before.points, after.points, h, x, y);
    }
  }

  /**
   * End to end: build, pick, remove backend k, build, pick.  Both picks succeed, and a key that was
   * not on k is picked for the same backend name.
   */
  method PickAcrossRemoval(hashing: Hashing, names: seq<string>, k: nat, key: nat)
    returns (first: Result<nat, BalancerError>, second: Result<nat, BalancerError>)
    requires k < |names| && 1 < |names| && NoCollisions(hashing, names)
    ensures first.Ok? && second.Ok? && first.value < |names| && second.value < |Removed(names, k)|
    ensures first.value != k ==> Removed(names, k)[second.value] == names[first.value]
  {
    var fewer := Removed(names, k);
    var before := NewRing(hashing, names);
    var after := NewRing(hashing, fewer);
    first := PickWithKey(before.value, hashing, names, key, names);
    second := PickWithKey(after.value, hashing, fewer, key, fewer);
    RemovalKeepsPicks(hashing, names, k, before.value, after.value, hashing.key(key), first, second);
  }

  lemma {:induction false} VnodesCount(hashing: Hashing, id: string, backend: nat, n: nat)
    ensures |Vnodes(hashing, id, backend, n)| == n
  {
    if n > 0 {
      VnodesCount(hashing, id, backend, n - 1);
    }
  }

  /** Every backend has 150 points on the ring. */
  lemma {:induction false} RingSize(hashing: Hashing, names: seq<string>)
    ensures |AllPoints(hashing, names)| == 150 * |names|
  {
    if names != [] {
      RingSize(hashing, names[..|names| - 1]);
      VnodesCount(hashing, names[|names| - 1], |names| - 1, VNODES_PER_BACKEND);
    }
  }
}
