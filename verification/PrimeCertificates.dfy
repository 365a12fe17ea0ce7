/**
 * Primes too large for trial division in a proof.  A number `y` whose 2^t-th power is -1 modulo `n`
 * has 2^(t+1) different powers modulo every divisor of `n`, so every divisor is larger than that.
 */
module PrimeCertificates {
  import opened Basics
  import opened NumberTheory

  function Pow(x: int, k: nat): int {
    if k == 0 then 1 else x * Pow(x, k - 1)
  }

  function Two(t: nat): (p: nat)
    ensures p >= 1
  {
    if t == 0 then 1 else 2 * Two(t - 1)
  }

  // ----- congruence

  /** `a` and `b` agree modulo `d`. */
  ghost predicate Congruent(a: int, b: int, d: int) {
    exists k :: Apart(a, b, k, d)
  }

  ghost predicate Apart(a: int, b: int, k: int, d: int) {
    a - b == k * d
  }

  lemma CongruentSelf(a: int, d: int)
    ensures Congruent(a, a, d)
  {
    assert Apart(a, a, 0, d);
  }

  lemma CongruentTransitive(a: int, b: int, c: int, d: int)
    requires Congruent(a, b, d) && Congruent(b, c, d)
    ensures Congruent(a, c, d) && Congruent(c, a, d)
  {
    var j :| Apart(a, b, j, d);
    var k :| Apart(b, c, k, d);
    assert Apart(a, c, j + k, d);
    assert Apart(c, a, -j - k, d);
  }

  lemma CongruentProduct(a: int, b: int, x: int, y: int, d: int)
    requires Congruent(a, b, d) && Congruent(x, y, d)
    ensures Congruent(a * x, b * y, d)
  {
    var j :| Apart(a, b, j, d);
    var k :| Apart(x, y, k, d);
    assert a * x - b * y == a * (x - y) + y * (a - b);
    assert a * (k * d) + y * (j * d) == (a * k + y * j) * d;
    assert Apart(a * x, b * y, a * k + y * j, d);
  }

  lemma {:induction false} CongruentPower(a: int, b: int, k: nat, d: int)
    requires Congruent(a, b, d)
    ensures Congruent(Pow(a, k), Pow(b, k), d)
  {
    if k == 0 {
      CongruentSelf(1, d);
    } else {
      CongruentPower(a, b, k - 1, d);
      CongruentProduct(a, b, Pow(a, k - 1), Pow(b, k - 1), d);
    }
  }

  /** What holds modulo `n` holds modulo its divisors. */
  lemma CongruentDivisor(a: int, b: int, n: int, d: int)
    requires Congruent(a, b, n) && 0 < d && Divides(d, n)
    ensures Congruent(a, b, d)
  {
    var k :| Apart(a, b, k, n);
    var q := n / d;
    assert n == q * d;
    assert k * (q * d) == (k * q) * d;
    assert Apart(a, b, k * q, d);
  }

  lemma RemainderCongruent(a: int, d: int)
    requires 0 < d
    ensures Congruent(a, a % d, d) && Congruent(a % d, a, d)
  {
    assert a - a % d == a / d * d;
    assert Apart(a, a % d, a / d, d);
    assert Apart(a % d, a, -(a / d), d);
  }

  lemma SameRemainderCongruent(a: int, b: int, d: int)
    requires 0 < d
    ensures a % d == b % d ==> Congruent(a, b, d)
  {
    RemainderCongruent(a, d);
    RemainderCongruent(b, d);
    if a % d == b % d {
      CongruentTransitive(a, a % d, b, d);
    }
  }

  // ----- powers

  lemma {:induction false} PowAdd(x: int, j: nat, k: nat)
    ensures Pow(x, j + k) == Pow(x, j) * Pow(x, k)
  {
    if j > 0 {
      PowAdd(x, j - 1, k);
      assert x * (Pow(x, j - 1) * Pow(x, k)) == x * Pow(x, j - 1) * Pow(x, k);
    }
  }

  lemma Rearranged(x: int, y: int, a: int, b: int)
    ensures x * y * (a * b) == x * a * (y * b)
  {
    assert x * y * (a * b) == x * (y * (a * b));
    assert y * (a * b) == a * (y * b);
    assert x * (a * (y * b)) == x * a * (y * b);
  }

  lemma {:induction false} PowProduct(x: int, y: int, k: nat)
    ensures Pow(x * y, k) == Pow(x, k) * Pow(y, k)
  {
    if k > 0 {
      PowProduct(x, y, k - 1);
      Rearranged(x, y, Pow(x, k - 1), Pow(y, k - 1));
    }
  }

  lemma PowDouble(x: int, k: nat)
    ensures Pow(x, 2 * k) == Pow(x * x, k)
  {
    PowAdd(x, k, k);
    PowProduct(x, x, k);
  }

  lemma {:induction false} PowOfOne(k: nat)
    ensures Pow(1, k) == 1
  {
    if k > 0 {
      PowOfOne(k - 1);
    }
  }

  lemma {:induction false} PowSwap(x: int, j: nat, k: nat)
    ensures Pow(Pow(x, j), k) == Pow(Pow(x, k), j)
    decreases j
  {
    if j == 0 {
      PowOfOne(k);
    } else {
      PowSwap(x, j - 1, k);
      PowProduct(x, Pow(x, j - 1), k);
    }
  }

  lemma {:induction false} PowOfMinusOne(k: nat)
    requires k % 2 == 1
    ensures Pow(-1, k) == -1
  {
    if k > 1 {
      PowOfMinusOne(k - 2);
      assert Pow(-1, k - 1) == -Pow(-1, k - 2);
    }
  }

  // ----- the order of an element

  /** If the 2^t-th power is -1, no positive power below 2^(t+1) is 1. */
  lemma {:induction false} NoEarlierOne(y: int, t: nat, e: nat, d: int)
    requires 3 <= d && Congruent(Pow(y, Two(t)), -1, d) && 0 < e < Two(t + 1)
    ensures !Congruent(Pow(y, e), 1, d)
    decreases t
  {
    if e % 2 == 1 {
      OddPowerIsNotOne(y, Two(t), e, d);
    } else {
      assert Two(0) == 1 && Two(1) == 2;
      PowDouble(y, e / 2);
      PowDouble(y, Two(t - 1));
      NoEarlierOne(y * y, t - 1, e / 2, d);
    }
  }

  /** With y^m = -1 and e odd, y^e = 1 would make (y^m)^e both -1 and 1. */
  lemma OddPowerIsNotOne(y: int, m: nat, e: nat, d: int)
    requires 3 <= d && Congruent(Pow(y, m), -1, d) && e % 2 == 1
    ensures !Congruent(Pow(y, e), 1, d)
  {
    CongruentPower(Pow(y, m), -1, e, d);
    PowOfMinusOne(e);
    MinusOneIsNotOne(Pow(Pow(y, m), e), d);
    if Congruent(Pow(y, e), 1, d) {
      CongruentPower(Pow(y, e), 1, m, d);
      PowOfOne(m);
      PowSwap(y, m, e);
    }
  }

  lemma MinusOneIsNotOne(a: int, d: int)
    requires 3 <= d && Congruent(a, -1, d)
    ensures !Congruent(a, 1, d)
  {
    var j :| Apart(a, -1, j, d);
    forall k ensures !Apart(a, 1, k, d) {
      NoMultipleIsTwo(j - k, d);
      assert (j - k) * d == j * d - k * d;
    }
  }

  lemma NoMultipleIsTwo(k: int, d: int)
    requires 3 <= d
    ensures k * d != 2
  {
    if k > 0 { ProductAtLeast(k, d); } else if k < 0 { ProductAtLeast(-k, d); }
  }

  lemma PowersCancel(y: int, t: nat, i: nat, j: nat, d: int)
    requires 3 <= d && Congruent(Pow(y, Two(t)), -1, d) && i < j < Two(t + 1)
    ensures !Congruent(Pow(y, i), Pow(y, j), d)
  {
    NoEarlierOne(y, t, j - i, d);
    if Congruent(Pow(y, i), Pow(y, j), d) {
      var rest := Two(t + 1) - i;
      FullTurn(y, t, d);
      CongruentSelf(Pow(y, rest), d);
      CongruentProduct(Pow(y, i), Pow(y, j), Pow(y, rest), Pow(y, rest), d);
      PowAdd(y, i, rest);
      PowAdd(y, j, rest);
      PowAdd(y, Two(t + 1), j - i);
      FullTurnMore(y, t, j - i, d);
      assert j + rest == Two(t + 1) + (j - i);
      Chain(Pow(y, Two(t + 1)), Pow(y, j + rest), Pow(y, j - i), d);
    }
  }

  /** If a = 1 and a = b and b = c then c = 1. */
  lemma Chain(a: int, b: int, c: int, d: int)
    requires Congruent(a, 1, d) && Congruent(a, b, d) && Congruent(b, c, d)
    ensures Congruent(c, 1, d)
  {
    CongruentTransitive(a, b, c, d);
    CongruentTransitive(c, a, 1, d);
  }

  lemma FullTurn(y: int, t: nat, d: int)
    requires Congruent(Pow(y, Two(t)), -1, d)
    ensures Congruent(Pow(y, Two(t + 1)), 1, d)
  {
    var m := Two(t);
    PowAdd(y, m, m);
    CongruentProduct(Pow(y, m), -1, Pow(y, m), -1, d);
  }

  lemma FullTurnMore(y: int, t: nat, e: nat, d: int)
    requires Congruent(Pow(y, Two(t)), -1, d)
    ensures Congruent(Pow(y, Two(t + 1) + e), Pow(y, e), d)
  {
    FullTurn(y, t, d);
    PowAdd(y, Two(t + 1), e);
    CongruentSelf(Pow(y, e), d);
    CongruentProduct(Pow(y, Two(t + 1)), 1, Pow(y, e), Pow(y, e), d);
  }

  // ----- divisors are large

  ghost function Residues(y: int, d: int, c: nat): set<int>
    requires 0 < d
  {
    set k | 0 <= k < c :: Pow(y, k) % d
  }

  /** The first 2^(t+1) powers leave different remainders. */
  lemma {:induction false} ResidueCount(y: int, t: nat, d: int, c: nat)
    requires 3 <= d && Congruent(Pow(y, Two(t)), -1, d) && c <= Two(t + 1)
    ensures |Residues(y, d, c)| == c
  {
    if c > 0 {
      ResidueCount(y, t, d, c - 1);
      assert Residues(y, d, c) == Residues(y, d, c - 1) + {Pow(y, c - 1) % d};
      forall k: nat | k < c - 1 ensures Pow(y, k) % d != Pow(y, c - 1) % d {
        PowersCancel(y, t, k, c - 1, d);
        SameRemainderCongruent(Pow(y, k), Pow(y, c - 1), d);
      }
    }
  }

  /** There are d remainders, so a divisor with that many different ones is at least as large. */
  lemma ManyResidues(y: int, t: nat, d: int)
    requires 3 <= d && Congruent(Pow(y, Two(t)), -1, d)
    ensures Two(t + 1) <= d
  {
    ResidueCount(y, t, d, Two(t + 1));
    BoundedSetSize(Residues(y, d, Two(t + 1)), d);
  }

  // ----- the certificate

  /** `x` is what `y` squared `t` times leaves modulo `n`. */
  ghost predicate Squared(y: int, t: nat, x: int, n: int) {
    Congruent(Pow(y, Two(t)), x, n)
  }

  lemma RootStarts(y: int, n: int)
    ensures Squared(y, 0, y, n)
  {
    assert Pow(y, 1) == y * Pow(y, 0) == y;
    CongruentSelf(y, n);
  }

  lemma SquareUp(y: int, t: nat, x: int, q: int, r: int, n: int)
    requires Squared(y, t, x, n) && x * x == q * n + r
    ensures Squared(y, t + 1, r, n)
  {
    var z := Pow(y, Two(t));
    PowAdd(y, Two(t), Two(t));
    CongruentProduct(z, x, z, x, n);
    assert Apart(x * x, r, q, n);
    CongruentTransitive(z * z, x * x, r, n);
  }

  /** Some 2^t-th power is -1. */
  ghost predicate HasRoot(n: int, t: nat) {
    exists y :: Squared(y, t, -1, n)
  }

  lemma RootFound(y: int, t: nat, n: int)
    requires Squared(y, t, n - 1, n)
    ensures HasRoot(n, t)
  {
    assert Apart(n - 1, -1, 1, n);
    CongruentTransitive(Pow(y, Two(t)), n - 1, -1, n);
    assert Squared(y, t, -1, n);
  }

  /** An odd number below 4^(t+1) modulo which some 2^t-th power is -1 is prime. */
  lemma PrimeByOrder(n: int, t: nat)
    requires 3 <= n && n % 2 == 1 && n < Two(t + 1) * Two(t + 1) && HasRoot(n, t)
    ensures IsPrime(n)
  {
    var y :| Squared(y, t, -1, n);
    forall d | 2 <= d < Two(t + 1) && d < n ensures !Divides(d, n) {
      if d > 2 && Divides(d, n) {
        CongruentDivisor(Pow(y, Two(t)), -1, n, d);
        ManyResidues(y, t, d);
      }
    }
    PrimeBySquareRoot(n, Two(t + 1));
  }

  // ----- the primes themselves

  lemma PowersOfTwo()
    ensures Two(16) == 0x1_0000 && Two(17) == 0x2_0000 && Two(32) == 0x1_0000_0000
  {
    assert Two(6) == 64;
    assert Two(12) == 4096;
    assert Two(18) == 0x4_0000;
    assert Two(24) == 0x100_0000;
    assert Two(30) == 0x4000_0000;
  }

  const FERMAT_PRIME: int := 65537

  lemma FermatRoot(y: int, n: int)
    requires n == FERMAT_PRIME && y * y == 0 * n + 9
    ensures HasRoot(n, 15)
  {
    RootStarts(y, n);
    SquareUp(y, 0, y, 0, 9, n);
    SquareUp(y, 1, 9, 0, 81, n);
    SquareUp(y, 2, 81, 0, 6561, n);
    SquareUp(y, 3, 6561, 656, 54449, n);
    SquareUp(y, 4, 54449, 45236, 61869, n);
    SquareUp(y, 5, 61869, 58406, 19139, n);
    SquareUp(y, 6, 19139, 5589, 15028, n);
    SquareUp(y, 7, 15028, 3446, 282, n);
    SquareUp(y, 8, 282, 1, 13987, n);
    SquareUp(y, 9, 13987, 2985, 8224, n);
    SquareUp(y, 10, 8224, 1031, 65529, n);
    SquareUp(y, 11, 65529, 65521, 64, n);
    SquareUp(y, 12, 64, 0, 4096, n);
    SquareUp(y, 13, 4096, 255, 65281, n);
    SquareUp(y, 14, 65281, 65025, 65536, n);
    RootFound(y, 15, n);
  }

  lemma FermatPrime()
    ensures IsPrime(FERMAT_PRIME)
  {
    FermatRoot(3, FERMAT_PRIME);
    PowersOfTwo();
    PrimeByOrder(FERMAT_PRIME, 15);
  }

  /** A prime just above 2^32. */
  const MIDDLE_PRIME: int := 4298506241

  lemma MiddleRoot(y: int, n: int)
    requires n == MIDDLE_PRIME && y * y == 1546393847 * n + 1353475437
    ensures HasRoot(n, 16)
  {
    RootStarts(y, n);
    SquareUp(y, 0, y, 1546393847, 1353475437, n);
    SquareUp(y, 1, 1353475437, 426170314, 4104411295, n);
    SquareUp(y, 2, 4104411295, 3919080521, 23545464, n);
    SquareUp(y, 3, 23545464, 128972, 1928061044, n);
    SquareUp(y, 4, 1928061044, 864816562, 313206494, n);
    SquareUp(y, 5, 313206494, 22821487, 3585371669, n);
    SquareUp(y, 6, 3585371669, 2990548177, 2022172904, n);
    SquareUp(y, 7, 2022172904, 951303318, 4164785578, n);
    SquareUp(y, 8, 4164785578, 4035224782, 1451929622, n);
    SquareUp(y, 9, 1451929622, 490426094, 1432810230, n);
    SquareUp(y, 10, 1432810230, 477595015, 2544664285, n);
    SquareUp(y, 11, 2544664285, 1506410822, 3477621123, n);
    SquareUp(y, 12, 3477621123, 2813500317, 3455802732, n);
    SquareUp(y, 13, 3455802732, 2778307591, 3167488393, n);
    SquareUp(y, 14, 3167488393, 2334062615, 2327442234, n);
    SquareUp(y, 15, 2327442234, 1260202276, 4298506240, n);
    RootFound(y, 16, n);
  }

  lemma MiddlePrime()
    ensures IsPrime(MIDDLE_PRIME)
  {
    MiddleRoot(2578213258, MIDDLE_PRIME);
    PowersOfTwo();
    PrimeByOrder(MIDDLE_PRIME, 16);
  }

  /** 2^64 - 2^32 + 1. */
  const TOP_PRIME: int := 18446744069414584321

  lemma TopRoot(y: int, n: int)
    requires n == TOP_PRIME && y * y == 166708887468903991 * n + 4614640910117430873
    ensures HasRoot(n, 31)
  {
    RootStarts(y, n);
    SquareUp(y, 0, y, 166708887468903991, 4614640910117430873, n);
    SquareUp(y, 1, 4614640910117430873, 1154399424049971884, 9123114210336311365, n);
    SquareUp(y, 2, 9123114210336311365, 4511973093009996851, 16116352524544190054, n);
    SquareUp(y, 3, 16116352524544190054, 14080361158478670879, 6414415596519834757, n);
    SquareUp(y, 4, 6414415596519834757, 2230460144622294524, 1213594585890690845, n);
    SquareUp(y, 5, 1213594585890690845, 79841288704448195, 17096174751763063430, n);
    SquareUp(y, 6, 17096174751763063430, 15844486704156700236, 5456943929260765144, n);
    SquareUp(y, 7, 5456943929260765144, 1614281465338340559, 9713644485405565297, n);
    SquareUp(y, 8, 9713644485405565297, 5114988793349933654, 16905767614792059275, n);
    SquareUp(y, 9, 16905767614792059275, 15493518941330557636, 5416168637041100469, n);
    SquareUp(y, 10, 5416168637041100469, 1590247178281506213, 17654865857378133588, n);
    SquareUp(y, 11, 17654865857378133588, 16896981237942002723, 3511170319078647661, n);
    SquareUp(y, 12, 3511170319078647661, 668319404399374695, 18146160046829613826, n);
    SquareUp(y, 13, 18146160046829613826, 17850473948468743512, 9306717745644682924, n);
    SquareUp(y, 14, 9306717745644682924, 4695408299218975106, 12380578893860276750, n);
    SquareUp(y, 15, 12380578893860276750, 8309256808156222390, 6115771955107415310, n);
    SquareUp(y, 16, 6115771955107415310, 2027602620068516376, 17776499369601055404, n);
    SquareUp(y, 17, 17776499369601055404, 17130607366173278638, 16207902636198568418, n);
    SquareUp(y, 18, 16207902636198568418, 14240784545824149997, 1532612707718625687, n);
    SquareUp(y, 19, 1532612707718625687, 127334216977357403, 17492915097719143606, n);
    SquareUp(y, 20, 17492915097719143606, 16588405924890216597, 455906449640507599, n);
    SquareUp(y, 21, 455906449640507599, 11267608529812975, 11353340290879379826, n);
    SquareUp(y, 22, 11353340290879379826, 6987592784692205430, 1803076106186727246, n);
    SquareUp(y, 23, 1803076106186727246, 176241586724885086, 13797081185216407910, n);
    SquareUp(y, 24, 13797081185216407910, 10319406422896923811, 17870292113338400769, n);
    SquareUp(y, 25, 17870292113338400769, 17311854006015885313, 549755813888, n);
    SquareUp(y, 26, 549755813888, 16384, 70368744161280, n);
    SquareUp(y, 27, 70368744161280, 268435455, 17293822564807737345, n);
    SquareUp(y, 28, 17293822564807737345, 16212958654255595520, 18446744069397807105, n);
    SquareUp(y, 29, 18446744069397807105, 18446744069381029889, 281474976710656, n);
    SquareUp(y, 30, 281474976710656, 4294967296, 18446744069414584320, n);
    RootFound(y, 31, n);
  }

  lemma TopPrime()
    ensures IsPrime(TOP_PRIME)
  {
    TopRoot(1753635133440165772, TOP_PRIME);
    PowersOfTwo();
    PrimeByOrder(TOP_PRIME, 31);
  }
}
