/** The trial-division gate in front of L4 table construction. */
module Primality {
  import opened Basics
  import opened NumberTheory
  import opened PrimeCertificates

  /** The first candidate of the 6k-1 progression whose square does not fit a 64-bit word. */
  const FIRST_OVERFLOWING: int := 4294967297

  /** (2^32 - 5)^2, the square of the last candidate that fits. */
  const GATE_LIMIT: int := 4294967291 * 4294967291

  /** What `is_prime` does on a 64-bit word: answer, or leave the range of the word in `i * i`. */
  datatype Verdict = Prime | NotPrime | Overflow

  ghost predicate NoDivisorBelow(n: int, bound: int) {
    forall d :: 2 <= d < bound && d < n ==> !Divides(d, n)
  }

  lemma TransferDivisor(n: int, m: int, d: int)
    requires 0 < d && 0 < m && Divides(m, d) && Divides(d, n)
    ensures Divides(m, n)
  {
    var a, b := d / m, n / d;
    assert n == (a * b) * m by {
      assert d == a * m;
      assert n == d * b;
    }
    MultipleIsDivisible(m, a * b);
  }

  /** The skipped candidates are multiples of 2 or 3. */
  lemma SkippedCandidate(n: int, k: int, d: int)
    requires 0 <= k && !Divides(2, n) && !Divides(3, n)
    requires d == 6 * k + 6 || d == 6 * k + 8 || d == 6 * k + 9 || d == 6 * k + 10
    ensures !Divides(d, n)
  {
    var m := if d == 6 * k + 9 then 3 else 2;
    MultipleIsDivisible(m, if m == 3 then 2 * k + 3 else d / 2);
    if Divides(d, n) {
      TransferDivisor(n, m, d);
    }
  }

  /** Two tests per round of six suffice. */
  lemma SixStep(n: int, i: int)
    requires 5 <= i && i % 6 == 5
    requires !Divides(2, n) && !Divides(3, n) && !Divides(i, n) && !Divides(i + 2, n)
    requires NoDivisorBelow(n, i)
    ensures NoDivisorBelow(n, i + 6)
  {
    var k := i / 6;
    assert i == 6 * k + 5;
    forall d | 2 <= d < i + 6 && d < n ensures !Divides(d, n) {
      if i < d && d != i + 2 {
        SkippedCandidate(n, k, d);
      }
    }
  }

  /** Below 2^32 + 1 the candidates' squares fit a word; at it they do not. */
  lemma SquareFits(i: int)
    requires 5 <= i <= FIRST_OVERFLOWING && i % 6 == 5
    ensures U64_LIMIT <= i * i <==> i == FIRST_OVERFLOWING
    ensures i < FIRST_OVERFLOWING ==> i * i <= GATE_LIMIT
  {
    if i < FIRST_OVERFLOWING {
      ProductMonotone(i, i, 4294967291, 4294967291);
    }
  }

  lemma RootBelow(n: int, i: int)
    requires 5 <= i && i * i <= n
    ensures i + 2 < n
  {
    ProductMonotone(5, i, i, i);
  }

  /** One turn of the loop: a verdict, or six more candidates ruled out. */
  method TrialRound(n: int, i: int) returns (r: Option<Verdict>)
    requires 4 <= n < U64_LIMIT && !Divides(2, n) && !Divides(3, n)
    requires 5 <= i <= FIRST_OVERFLOWING && i % 6 == 5 && NoDivisorBelow(n, i)
    ensures r == None ==> i < FIRST_OVERFLOWING && NoDivisorBelow(n, i + 6) && i * i <= n
    ensures r == Some(Prime) ==> IsPrime(n)
    ensures r == Some(NotPrime) ==> !IsPrime(n)
    ensures r == Some(Overflow) ==> i == FIRST_OVERFLOWING && IsPrime(n)
    ensures r == Some(Prime) ==> n < GATE_LIMIT
  {
    SquareFits(i);
    if i * i >= U64_LIMIT {
      PrimeBySquareRoot(n, i);
      return Some(Overflow);
    }
    if i * i > n {
      PrimeBySquareRoot(n, i);
      return Some(Prime);
    }
    RootBelow(n, i);
    if n % i == 0 || n % (i + 2) == 0 {
      assert Divides(i, n) || Divides(i + 2, n);
      return Some(NotPrime);
    }
    SixStep(n, i);
    return None;
  }

  /**
   * Trial division by 2, 3 and 6k±1.  Composite words are refused and primes below (2^32 - 5)^2
   * accepted; on the primes above that the loop leaves 64-bit words before it can answer.
   */
  method IsPrimeWord(n: int) returns (verdict: Verdict)
    requires 0 <= n < U64_LIMIT
    ensures verdict == NotPrime <==> !IsPrime(n)
    ensures verdict == Overflow <==> GATE_LIMIT <= n && IsPrime(n)
  {
    if n < 2 {
      return NotPrime;
    }
    if n < 4 {
      assert n == 3 ==> !Divides(2, 3);
      return Prime;
    }
    if n % 2 == 0 || n % 3 == 0 {
      assert Divides(2, n) || Divides(3, n);
      return NotPrime;
    }
    var i := 5;
    while true
      invariant 5 <= i <= FIRST_OVERFLOWING && i % 6 == 5
      invariant NoDivisorBelow(n, i)
      invariant i > 5 ==> (i - 6) * (i - 6) <= n
      decreases FIRST_OVERFLOWING - i
    {
      var round := TrialRound(n, i);
      if round.Some? {
        return round.value;
      }
      i := i + 6;
      assert (i - 6) * (i - 6) <= n;
    }
  }

  /** There are such primes: 2^64 - 2^32 + 1 is one. */
  lemma OverflowIsReached()
    ensures GATE_LIMIT <= TOP_PRIME < U64_LIMIT && IsPrime(TOP_PRIME)
  {
    TopPrime();
  }
}
