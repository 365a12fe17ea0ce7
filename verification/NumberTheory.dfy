/** Divisibility and primality facts behind the Maglev probe sequence and the table-size gate. */
module NumberTheory {

  ghost predicate Divides(d: int, n: int)
    requires d != 0
  {
    n % d == 0
  }

  ghost predicate IsPrime(n: int) {
    2 <= n && forall d :: 2 <= d < n ==> !Divides(d, n)
  }

  lemma ProductAtLeast(k: int, p: int)
    requires 1 <= k && 0 <= p
    ensures p <= k * p
  {
  }

  /** Multiplication by repeated addition: keeps run-length induction linear. */
  function Times(k: nat, x: int): int {
    if k == 0 then 0 else Times(k - 1, x) + x
  }

  lemma {:induction false} TimesIsProduct(k: nat, x: int)
    ensures Times(k, x) == k * x
  {
    if k > 0 {
      TimesIsProduct(k - 1, x);
      assert k * x == (k - 1) * x + x;
    }
  }

  lemma ProductMonotone(a: int, b: int, c: int, d: int)
    requires 0 <= a <= c && 0 <= b <= d
    ensures a * b <= c * d
  {
    assert a * b <= c * b;
    assert c * b <= c * d;
  }

  /** Quotient and remainder are determined by any decomposition with a reduced remainder. */
  lemma DivModUnique(n: int, p: int, q: int, r: int)
    requires n == q * p + r && 0 <= r < p
    ensures n / p == q && n % p == r
  {
    var q', r' := n / p, n % p;
    assert n == p * q' + r' && 0 <= r' < p;
    var k := q - q';
    assert k * p == r' - r by { assert k * p == q * p - q' * p; }
    if k > 0 {
      ProductAtLeast(k, p);
    } else if k < 0 {
      ProductAtLeast(-k, p);
    }
  }

  lemma MultipleIsDivisible(p: int, k: int)
    requires 0 < p
    ensures Divides(p, k * p)
  {
    DivModUnique(k * p, p, k, 0);
  }

  /** Numbers with the same remainder differ by a multiple of the modulus. */
  lemma SameRemainder(a: int, b: int, p: int)
    requires 0 < p && a % p == b % p
    ensures Divides(p, a - b)
  {
    var k := a / p - b / p;
    assert a - b == k * p by {
      assert a == p * (a / p) + a % p;
      assert b == p * (b / p) + b % p;
    }
    MultipleIsDivisible(p, k);
  }

  /** Adding a multiple of the modulus does not change the remainder. */
  lemma RemainderOfSum(a: int, k: int, p: int)
    requires 0 < p
    ensures (a + k * p) % p == a % p
  {
    assert a + k * p == (a / p + k) * p + a % p by {
      assert a == p * (a / p) + a % p;
    }
    DivModUnique(a + k * p, p, a / p + k, a % p);
  }

  /** Replacing a factor by the remainder of the modulus keeps a product a multiple of it. */
  lemma ReducedProduct(p: int, k: int, s: int, q: int, r: int, m: int)
    requires 0 < p && p == q * k + r && k * s == p * m
    ensures Divides(p, r * s)
  {
    var a, b := q * (k * s), q * (p * m);
    assert r * s == p * s - a by {
      assert (q * k) * s == a;
      assert (q * k + r) * s == (q * k) * s + r * s;
    }
    assert b == (q * m) * p;
    assert p * s - b == (s - q * m) * p;
    MultipleIsDivisible(p, s - q * m);
  }

  /** Euclid's lemma in the form probing needs: no product of two residues below a prime vanishes. */
  lemma {:induction false} NoZeroProduct(p: int, k: int, s: int)
    requires IsPrime(p) && 1 <= k < p && 1 <= s < p
    ensures !Divides(p, k * s)
    decreases k
  {
    if k > 1 {
      var q, r := p / k, p % k;
      assert !Divides(k, p);
      assert p == q * k + r;
      NoZeroProduct(p, r, s);
      if Divides(p, k * s) {
        ReducedProduct(p, k, s, q, r, k * s / p);
      }
    } else {
      assert k * s == s;
    }
  }

  /** The smaller cofactor of a divisor is itself a divisor that is at most the square root. */
  lemma Cofactor(n: int, d: int, bound: int)
    requires 2 <= d < n && Divides(d, n)
    requires 2 <= bound && n < bound * bound
    ensures exists e :: 2 <= e < bound && e < n && Divides(e, n)
  {
    var e := n / d;
    assert n == d * e;
    assert 2 <= e < n by {
      if e <= 0 { ProductAtLeast(d, -e); }
      if e >= n { ProductMonotone(2, n, d, e); }
    }
    if d < bound {
      assert 2 <= d < bound && d < n && Divides(d, n);
    } else {
      if e >= bound { ProductMonotone(bound, bound, d, e); }
      MultipleIsDivisible(e, d);
      assert 2 <= e < bound && e < n && Divides(e, n);
    }
  }

  /** A number with no divisor below a bound whose square exceeds it is prime. */
  lemma PrimeBySquareRoot(n: int, bound: int)
    requires 2 <= n && 2 <= bound && n < bound * bound
    requires forall d :: 2 <= d < bound && d < n ==> !Divides(d, n)
    ensures IsPrime(n)
  {
    forall d | 2 <= d < n ensures !Divides(d, n) {
      if Divides(d, n) {
        Cofactor(n, d, bound);
        assert false;
      }
    }
  }
}
