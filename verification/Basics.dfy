/** Shared vocabulary: results, bytes, machine-word limits and sums over sequences. */
module Basics {

  datatype Option<+T> = None | Some(value: T)

  datatype Result<+T, +E> = Ok(value: T) | Err(error: E)

  /** An octet.  Bit tests on octets are written with `/` and `%` by powers of two. */
  type byte = x: int | 0 <= x < 256

  type bytes = seq<byte>

  const U32_LIMIT: int := 0x1_0000_0000
  const U64_LIMIT: int := 0x1_0000_0000_0000_0000

  function Min(a: int, b: int): int {
    if a <= b then a else b
  }

  function Max(a: int, b: int): int {
    if a <= b then b else a
  }

  /** The sum of `f` over the elements of `s`. */
  function SumBy<T>(f: T -> int, s: seq<T>): int {
    if s == [] then 0 else f(s[0]) + SumBy(f, s[1..])
  }

  lemma {:induction false} SumByConcat<T>(f: T -> int, a: seq<T>, b: seq<T>)
    ensures SumBy(f, a + b) == SumBy(f, a) + SumBy(f, b)
  {
    if a == [] {
      assert a + b == b;
    } else {
      assert (a + b)[1..] == a[1..] + b;
      SumByConcat(f, a[1..], b);
    }
  }

  lemma SumByAppend<T>(f: T -> int, s: seq<T>, x: T)
    ensures SumBy(f, s + [x]) == SumBy(f, s) + f(x)
  {
    SumByConcat(f, s, [x]);
    assert [x][1..] == [];
  }

  /** Changing one element changes the sum by exactly the difference. */
  lemma {:induction false} SumByUpdate<T>(f: T -> int, s: seq<T>, i: nat, x: T)
    requires i < |s|
    ensures SumBy(f, s[i := x]) == SumBy(f, s) - f(s[i]) + f(x)
  {
    if i == 0 {
      assert s[0 := x][1..] == s[1..];
    } else {
      assert s[i := x][1..] == s[1..][i - 1 := x];
      SumByUpdate(f, s[1..], i - 1, x);
    }
  }

  lemma {:induction false} SumByMonotone<T>(f: T -> int, g: T -> int, s: seq<T>)
    requires forall i :: 0 <= i < |s| ==> f(s[i]) <= g(s[i])
    ensures SumBy(f, s) <= SumBy(g, s)
  {
    if s != [] {
      forall i | 0 <= i < |s[1..]| ensures f(s[1..][i]) <= g(s[1..][i]) {
        assert s[1..][i] == s[i + 1];
      }
      SumByMonotone(f, g, s[1..]);
    }
  }

  /** A sum of non-negative terms is at least each of its terms. */
  lemma {:induction false} SumByAtLeast<T>(f: T -> int, s: seq<T>, i: nat)
    requires i < |s|
    requires forall j :: 0 <= j < |s| ==> 0 <= f(s[j])
    ensures f(s[i]) <= SumBy(f, s)
  {
    forall j | 0 <= j < |s[1..]| ensures 0 <= f(s[1..][j]) {
      assert s[1..][j] == s[j + 1];
    }
    if i == 0 {
      SumByNonNegative(f, s[1..]);
    } else {
      SumByAtLeast(f, s[1..], i - 1);
    }
  }

  lemma {:induction false} SumByNonNegative<T>(f: T -> int, s: seq<T>)
    requires forall j :: 0 <= j < |s| ==> 0 <= f(s[j])
    ensures 0 <= SumBy(f, s)
  {
    if s != [] {
      forall j | 0 <= j < |s[1..]| ensures 0 <= f(s[1..][j]) {
        assert s[1..][j] == s[j + 1];
      }
      SumByNonNegative(f, s[1..]);
    }
  }

  /** At most n different numbers lie below n. */
  lemma {:induction false} BoundedSetSize(s: set<int>, n: nat)
    requires forall x :: x in s ==> 0 <= x < n
    ensures |s| <= n
  {
    if n == 0 {
      assert forall x :: x !in s;
      assert s == {};
    } else {
      BoundedSetSize(s - {n - 1}, n - 1);
    }
  }

  lemma Associative<T>(a: seq<T>, b: seq<T>, c: seq<T>)
    ensures a + b + c == a + (b + c)
  {
  }

  /** Taking and dropping at the seam of a concatenation. */
  lemma Seam<T>(a: seq<T>, b: seq<T>)
    ensures (a + b)[..|a|] == a && (a + b)[|a|..] == b
  {
  }

  /** The middle of three pieces, and what follows it. */
  lemma Middle<T>(a: seq<T>, b: seq<T>, c: seq<T>)
    ensures (a + (b + c))[|a|..|a| + |b|] == b && (a + (b + c))[|a| + |b|..] == c
  {
  }

  lemma AppendHead<T>(acc: seq<T>, xs: seq<T>)
    requires xs != []
    ensures acc + [xs[0]] + xs[1..] == acc + xs
  {
  }

  /** The concatenation of a list of byte strings. */
  function Flatten<T>(pieces: seq<seq<T>>): seq<T> {
    if pieces == [] then [] else pieces[0] + Flatten(pieces[1..])
  }

  lemma {:induction false} FlattenAppend<T>(pieces: seq<seq<T>>, last: seq<T>)
    ensures Flatten(pieces + [last]) == Flatten(pieces) + last
  {
    if pieces == [] {
      assert [last][1..] == [];
      assert pieces + [last] == [last];
    } else {
      assert (pieces + [last])[1..] == pieces[1..] + [last];
      FlattenAppend(pieces[1..], last);
    }
  }
}
