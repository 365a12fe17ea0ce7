/**
 * The Internet checksum and its incremental update (equation 3 of RFC 1624, section 3).
 * Sixteen-bit complement is 65535 - x; 32-bit sums are explicit.
 */
module Checksum {
  import opened Basics
  import opened NumberTheory

  type word = x: int | 0 <= x < 0x1_0000

  function Complement(x: word): word {
    0xFFFF - x
  }

  function Word(hi: byte, lo: byte): word {
    (hi as int) * 256 + (lo as int)
  }

  /** One end-around carry. */
  function Carry(sum: nat): nat {
    sum % 0x1_0000 + sum / 0x1_0000
  }

  /** `fold32`: two end-around carries, then a truncating cast. */
  function Fold32(sum: int): word
    requires 0 <= sum < U32_LIMIT
  {
    Carry(Carry(sum)) % 0x1_0000
  }

  /** `csum16_update`. */
  function Update(old_csum: word, old_field: word, new_field: word): word {
    Complement(Fold32(Complement(old_csum) + Complement(old_field) + new_field))
  }

  /** The sum of the big-endian 16-bit words of `buf`; a last odd octet is a high octet. */
  function WordSum(buf: bytes): nat {
    if |buf| == 0 then 0
    else if |buf| == 1 then Word(buf[0], 0)
    else Word(buf[0], buf[1]) + WordSum(buf[2..])
  }

  /** `full_checksum`, with the sum wrapped to 32 bits as the code wraps it. */
  function FullChecksum(buf: bytes): word {
    Complement(Fold32(WordSum(buf) % U32_LIMIT))
  }

  lemma {:induction false} WordSumStep(buf: bytes, i: nat)
    requires i % 2 == 0 && i + 2 <= |buf|
    ensures WordSum(buf[..i + 2]) == WordSum(buf[..i]) + Word(buf[i], buf[i + 1])
    decreases i
  {
    if i > 0 {
      var tail := buf[2..];
      WordSumStep(tail, i - 2);
      assert tail[..i] == buf[..i + 2][2..] && tail[..i - 2] == buf[..i][2..];
    } else {
      assert buf[..2][2..] == [];
    }
  }

  lemma {:induction false} WordSumOdd(buf: bytes)
    requires |buf| % 2 == 1
    ensures WordSum(buf) == WordSum(buf[..|buf| - 1]) + Word(buf[|buf| - 1], 0)
  {
    if |buf| > 1 {
      WordSumOdd(buf[2..]);
      assert buf[2..][..|buf| - 3] == buf[..|buf| - 1][2..];
    }
  }

  lemma WrapAdd(sum: int, x: int)
    ensures (sum % U32_LIMIT + x) % U32_LIMIT == (sum + x) % U32_LIMIT
  {
  }

  /** The accumulation loop: exact pairs, then the odd octet, every addition wrapping. */
  method Accumulate(buf: bytes) returns (sum: int)
    ensures sum == WordSum(buf) % U32_LIMIT
  {
    sum := 0;
    var i := 0;
    while i + 2 <= |buf|
      invariant 0 <= i <= |buf| && i % 2 == 0 && 0 <= sum < U32_LIMIT
      invariant sum == WordSum(buf[..i]) % U32_LIMIT
    {
      WordSumStep(buf, i);
      WrapAdd(WordSum(buf[..i]), Word(buf[i], buf[i + 1]));
      sum := (sum + Word(buf[i], buf[i + 1])) % U32_LIMIT;
      i := i + 2;
    }
    if i < |buf| {
      WordSumOdd(buf);
      WrapAdd(WordSum(buf[..i]), Word(buf[i], 0));
      sum := (sum + Word(buf[i], 0)) % U32_LIMIT;
    } else {
      assert buf[..i] == buf;
    }
  }

  method ComputeFullChecksum(buf: bytes) returns (csum: word)
    ensures csum == FullChecksum(buf)
  {
    var sum := Accumulate(buf);
    csum := Complement(Fold32(sum));
  }

  // ----- one's-complement arithmetic

  /** What two carries leave: the sum of the halves, less 65535 if that sum carried. */
  lemma CarryTwice(sum: nat)
    requires sum < U32_LIMIT
    ensures Carry(sum) <= 0x1_FFFE
    ensures Fold32(sum) == if Carry(sum) <= 0xFFFF then Carry(sum) else Carry(sum) - 0xFFFF
  {
    var once := Carry(sum);
    if once > 0xFFFF {
      DivModUnique(once, 0x1_0000, 1, once - 0x1_0000);
    }
  }

  /** Folding is reduction modulo 65535 that keeps zero apart from its multiples. */
  lemma FoldQuotient(sum: int) returns (k: int)
    requires 0 <= sum < U32_LIMIT
    ensures sum == Fold32(sum) + k * 0xFFFF
    ensures Fold32(sum) == 0 <==> sum == 0
  {
    CarryTwice(sum);
    k := sum / 0x1_0000 + if Carry(sum) <= 0xFFFF then 0 else 1;
  }

  // ----- rewriting words of a buffer

  datatype Rewrite = Rewrite(lane: nat, value: word)

  predicate InRange(buf: bytes, r: Rewrite) {
    2 * r.lane + 2 <= |buf|
  }

  function WordAt(buf: bytes, lane: nat): word
    requires 2 * lane + 2 <= |buf|
  {
    Word(buf[2 * lane], buf[2 * lane + 1])
  }

  function Written(buf: bytes, r: Rewrite): (out: bytes)
    requires InRange(buf, r)
    ensures |out| == |buf|
  {
    buf[2 * r.lane := r.value / 256][2 * r.lane + 1 := r.value % 256]
  }

  lemma {:induction false} WrittenSum(buf: bytes, r: Rewrite)
    requires InRange(buf, r)
    ensures WordSum(Written(buf, r)) == WordSum(buf) - WordAt(buf, r.lane) + r.value
    ensures WordAt(buf, r.lane) <= WordSum(buf)
    decreases r.lane
  {
    if r.lane == 0 {
      assert Written(buf, r)[2..] == buf[2..];
    } else {
      var tail, r' := buf[2..], Rewrite(r.lane - 1, r.value);
      WrittenSum(tail, r');
      assert Written(buf, r)[2..] == Written(tail, r');
    }
  }

  predicate AllZero(buf: bytes) {
    forall i :: 0 <= i < |buf| ==> buf[i] == 0
  }

  lemma {:induction false} SumZero(buf: bytes)
    ensures WordSum(buf) == 0 <==> AllZero(buf)
  {
    if |buf| >= 2 {
      SumZero(buf[2..]);
      assert forall i :: 2 <= i < |buf| ==> buf[i] == buf[2..][i - 2];
    }
  }

  lemma {:induction false} SumBound(buf: bytes)
    ensures WordSum(buf) <= (|buf| + 1) / 2 * 0xFFFF
  {
    if |buf| >= 2 {
      SumBound(buf[2..]);
    }
  }

  // ----- incremental equals full

  /** An update as plain numbers: it complements the sum reduced modulo 65535. */
  lemma UpdateIs(csum: word, m: word, m': word) returns (f: word, q: int)
    ensures Update(csum, m, m') == 0xFFFF - f
    ensures (0xFFFF - csum) + (0xFFFF - m) + m' == f + q * 0xFFFF
    ensures f == 0 <==> (0xFFFF - csum) + (0xFFFF - m) + m' == 0
  {
    var a := Complement(csum) + Complement(m) + m';
    f := Fold32(a);
    q := FoldQuotient(a);
  }

  ghost predicate AllInRange(buf: bytes, rs: seq<Rewrite>) {
    forall i :: 0 <= i < |rs| ==> InRange(buf, rs[i])
  }

  function Rewritten(buf: bytes, rs: seq<Rewrite>): (out: bytes)
    requires AllInRange(buf, rs)
    ensures |out| == |buf|
    decreases |rs|
  {
    if rs == [] then buf else Rewritten(Written(buf, rs[0]), rs[1..])
  }

  /** The checksum carried along by an update function only. */
  function Carried(update: (word, word, word) -> word, csum: word, buf: bytes, rs: seq<Rewrite>): word
    requires AllInRange(buf, rs)
    decreases |rs|
  {
    if rs == [] then csum
    else Carried(update, update(csum, WordAt(buf, rs[0].lane), rs[0].value), Written(buf, rs[0]), rs[1..])
  }

  function Chained(csum: word, buf: bytes, rs: seq<Rewrite>): word
    requires AllInRange(buf, rs)
  {
    Carried(Update, csum, buf, rs)
  }

  /** An update function moves the complement by the difference of the fields, modulo 65535. */
  ghost predicate Additive(update: (word, word, word) -> word) {
    forall csum: word, m: word, m': word :: Moves(update(csum, m, m'), csum, m, m')
  }

  ghost predicate Moves(next: word, csum: word, m: word, m': word) {
    exists q :: Complement(csum) - m + m' == Complement(next) + Scaled(q)
  }

  function Scaled(q: int): int {
    q * 0xFFFF
  }

  /** A chain of such updates carries the change of the word sum. */
  lemma {:induction false} CarriedDifference(
    update: (word, word, word) -> word, csum: word, buf: bytes, rs: seq<Rewrite>) returns (k: int)
    requires AllInRange(buf, rs) && Additive(update)
    ensures Complement(csum) - WordSum(buf) + WordSum(Rewritten(buf, rs))
         == Complement(Carried(update, csum, buf, rs)) + k * 0xFFFF
    decreases |rs|
  {
    if rs == [] {
      k := 0;
    } else {
      var m, m' := WordAt(buf, rs[0].lane), rs[0].value;
      var next := update(csum, m, m');
      assert Moves(next, csum, m, m');
      var q :| Complement(csum) - m + m' == Complement(next) + Scaled(q);
      WrittenSum(buf, rs[0]);
      var j := CarriedDifference(update, next, Written(buf, rs[0]), rs[1..]);
      k := j + q;
    }
  }

  lemma UpdateAdditive()
    ensures Additive(Update)
  {
    forall csum: word, m: word, m': word ensures Moves(Update(csum, m, m'), csum, m, m') {
      var f, q := UpdateIs(csum, m, m');
      assert Complement(csum) - m + m' == Complement(Update(csum, m, m')) + Scaled(q - 1);
    }
  }

  /** Every rewrite replaces 0xFFFF by zero. */
  predicate AllOnesToZero(buf: bytes, rs: seq<Rewrite>)
    requires AllInRange(buf, rs)
    decreases |rs|
  {
    rs == [] ||
    (WordAt(buf, rs[0].lane) == 0xFFFF && rs[0].value == 0 && AllOnesToZero(Written(buf, rs[0]), rs[1..]))
  }

  /** An update function arrives at 0xFFFF only from there, by turning a field of 0xFFFF into zero. */
  ghost predicate LeavesAllOnes(update: (word, word, word) -> word) {
    forall csum: word, m: word, m': word ::
      update(csum, m, m') == 0xFFFF <==> csum == 0xFFFF && m == 0xFFFF && m' == 0
  }

  lemma {:induction false} CarriedAllOnes(
    update: (word, word, word) -> word, csum: word, buf: bytes, rs: seq<Rewrite>)
    requires AllInRange(buf, rs) && LeavesAllOnes(update)
    ensures Carried(update, csum, buf, rs) == 0xFFFF <==> csum == 0xFFFF && AllOnesToZero(buf, rs)
    decreases |rs|
  {
    if rs != [] {
      CarriedAllOnes(update, update(csum, WordAt(buf, rs[0].lane), rs[0].value), Written(buf, rs[0]), rs[1..]);
    }
  }

  lemma UpdateLeavesAllOnes()
    ensures LeavesAllOnes(Update)
  {
    forall csum: word, m: word, m': word
      ensures Update(csum, m, m') == 0xFFFF <==> csum == 0xFFFF && m == 0xFFFF && m' == 0
    {
      var f, q := UpdateIs(csum, m, m');
    }
  }

  /** How often the 32-bit accumulator wraps, and what it holds in the end. */
  function Wraps(buf: bytes): nat {
    WordSum(buf) / U32_LIMIT
  }

  function Accumulated(buf: bytes): nat {
    WordSum(buf) % U32_LIMIT
  }

  /** A checksum stands for the sum less its wraps, modulo 65535, and is 0xFFFF only for an accumulated zero. */
  ghost predicate StandsFor(csum: word, buf: bytes, k: int) {
    WordSum(buf) == Complement(csum) + Wraps(buf) + k * 0xFFFF && (csum == 0xFFFF <==> Accumulated(buf) == 0)
  }

  lemma FullIs(buf: bytes) returns (k: int)
    ensures StandsFor(FullChecksum(buf), buf, k)
  {
    var q := FoldQuotient(Accumulated(buf));
    k := q + Wraps(buf) * 0x1_0001;
    assert WordSum(buf) == Wraps(buf) * U32_LIMIT + Accumulated(buf);
  }

  /** Two complements that agree modulo 65535, except perhaps for a difference d. */
  lemma AgreementIff(x: word, y: word, d: int, k: int)
    requires x - y == d + k * 0xFFFF
    ensures x == y <==> d % 0xFFFF == 0 && (x == 0 <==> y == 0)
  {
    if x == y {
      DivModUnique(d, 0xFFFF, -k, 0);
    } else if d % 0xFFFF == 0 && (x == 0 <==> y == 0) {
      var j := d / 0xFFFF;
      assert x - y == (j + k) * 0xFFFF;
      SmallMultiple(x - y, j + k);
    }
  }

  /** The condition below, in terms of the two word sums and the rewrites. */
  ghost predicate WrapsAlike(buf: bytes, rs: seq<Rewrite>)
    requires AllInRange(buf, rs)
  {
    var final := Rewritten(buf, rs);
    && (Wraps(final) - Wraps(buf)) % 0xFFFF == 0
    && (Accumulated(final) == 0 <==> Accumulated(buf) == 0 && AllOnesToZero(buf, rs))
  }

  /**
   * Incremental against full, for every buffer and every chain of word rewrites: the carried
   * checksum is the recomputed one if and only if the accumulator wraps equally often, modulo
   * 65535, for both buffers, and it ends at zero for the last one exactly when it did for the
   * first one and the chain only turned 0xFFFF into zero.
   */
  lemma ChainEqualsFull(buf: bytes, rs: seq<Rewrite>)
    requires AllInRange(buf, rs)
    ensures Chained(FullChecksum(buf), buf, rs) == FullChecksum(Rewritten(buf, rs)) <==> WrapsAlike(buf, rs)
  {
    var k := FullIs(buf);
    var f := FullIs(Rewritten(buf, rs));
    UpdateAdditive();
    UpdateLeavesAllOnes();
    CarriedAgrees(Update, buf, rs, FullChecksum(buf), k, FullChecksum(Rewritten(buf, rs)), f);
  }

  /** The same of any such update function, and any checksums that stand for the two accumulated sums. */
  lemma CarriedAgrees(
    update: (word, word, word) -> word, buf: bytes, rs: seq<Rewrite>, first: word, k: int, last: word, f: int)
    requires AllInRange(buf, rs) && Additive(update) && LeavesAllOnes(update)
    requires StandsFor(first, buf, k) && StandsFor(last, Rewritten(buf, rs), f)
    ensures Carried(update, first, buf, rs) == last <==> WrapsAlike(buf, rs)
  {
    var final := Rewritten(buf, rs);
    var j := CarriedDifference(update, first, buf, rs);
    CarriedAllOnes(update, first, buf, rs);
    AgreementIff(Complement(Carried(update, first, buf, rs)), Complement(last), Wraps(final) - Wraps(buf), f - k - j);
  }

  // ----- buffers the accumulator can hold

  /** While the sums fit the accumulator: exactly when the final buffer is not all zero. */
  lemma ChainEqualsFullUnwrapped(buf: bytes, rs: seq<Rewrite>)
    requires AllInRange(buf, rs) && rs != []
    requires WordSum(buf) < U32_LIMIT && WordSum(Rewritten(buf, rs)) < U32_LIMIT
    ensures Chained(FullChecksum(buf), buf, rs) == FullChecksum(Rewritten(buf, rs))
       <==> !AllZero(Rewritten(buf, rs))
  {
    ChainEqualsFull(buf, rs);
    UnwrappedAlike(buf, rs);
  }

  lemma UnwrappedAlike(buf: bytes, rs: seq<Rewrite>)
    requires AllInRange(buf, rs) && rs != []
    requires WordSum(buf) < U32_LIMIT && WordSum(Rewritten(buf, rs)) < U32_LIMIT
    ensures WrapsAlike(buf, rs) <==> !AllZero(Rewritten(buf, rs))
  {
    SumZero(Rewritten(buf, rs));
    WrittenSum(buf, rs[0]);
  }

  /** The first n octets all ones, the rest zero. */
  function Ones(n: nat): bytes {
    seq(n, _ => 0xFF)
  }

  lemma {:induction false} OnesSum(n: nat, rest: bytes)
    ensures WordSum(Ones(2 * n) + rest) == n * 0xFFFF + WordSum(rest)
  {
    var buf := Ones(2 * n) + rest;
    if n == 0 {
      assert buf == rest;
    } else {
      assert buf[2..] == Ones(2 * (n - 1)) + rest;
      OnesSum(n - 1, rest);
    }
  }

  lemma {:induction false} ZeroTail(n: nat)
    ensures WordSum([0xFF] + seq(n, _ => 0)) == 0xFF00
  {
    var tail: bytes := seq(n, _ => 0);
    if n > 0 {
      assert ([0xFF] + tail)[2..] == tail[1..];
      SumZero(tail[1..]);
    }
  }

  /** A buffer of `n` octets whose sum is just past the accumulator. */
  function Overfull(n: nat): (buf: bytes)
    requires n >= 131075
    ensures |buf| == n
  {
    Ones(2 * 65537) + ([0xFF] + seq(n - 131075, _ => 0))
  }

  lemma OverfullSum(n: nat)
    requires n >= 131075
    ensures WordSum(Overfull(n)) == 65537 * 0xFFFF + 0xFF00
  {
    OnesSum(65537, [0xFF] + seq(n - 131075, _ => 0));
    ZeroTail(n - 131075);
  }

  /** Clearing its first word keeps it non-zero, but the carried checksum is no longer the recomputed one. */
  lemma OverfullDisagrees(n: nat)
    requires n >= 131075
    ensures var buf, rs := Overfull(n), [Rewrite(0, 0)];
      AllInRange(buf, rs) && !AllZero(Rewritten(buf, rs))
      && Chained(FullChecksum(buf), buf, rs) != FullChecksum(Rewritten(buf, rs))
  {
    var buf, rs := Overfull(n), [Rewrite(0, 0)];
    OverfullSum(n);
    WrittenSum(buf, rs[0]);
    assert WordAt(buf, 0) == 0xFFFF;
    assert rs[1..] == [];
    var final := Rewritten(buf, rs);
    assert final == Written(buf, rs[0]);
    assert Wraps(buf) == 1 && Wraps(final) == 0;
    SumZero(final);
    ChainEqualsFull(buf, rs);
  }

  /** For buffers of this length, agreement after any non-empty chain means exactly a non-zero final buffer. */
  ghost predicate AgreesUnlessZero(n: nat) {
    forall buf: bytes, rs: seq<Rewrite> :: |buf| == n && rs != [] && AllInRange(buf, rs) ==>
      (Chained(FullChecksum(buf), buf, rs) == FullChecksum(Rewritten(buf, rs)) <==> !AllZero(Rewritten(buf, rs)))
  }

  /** 131074 octets is the exact limit up to which that holds. */
  lemma AgreesUpTo131074(n: nat)
    ensures AgreesUnlessZero(n) <==> n <= 131074
  {
    if n <= 131074 {
      forall buf: bytes, rs: seq<Rewrite> | |buf| == n && rs != [] && AllInRange(buf, rs)
        ensures Chained(FullChecksum(buf), buf, rs) == FullChecksum(Rewritten(buf, rs))
           <==> !AllZero(Rewritten(buf, rs))
      {
        SumBound(buf);
        SumBound(Rewritten(buf, rs));
        ChainEqualsFullUnwrapped(buf, rs);
      }
    } else {
      OverfullDisagrees(n);
    }
  }

  lemma SmallMultiple(x: int, k: int)
    requires x == k * 0xFFFF && -0xFFFF < x < 0xFFFF
    ensures x == 0
  {
  }

  /** The two folds of an update and its inverse, as plain numbers. */
  lemma UndoArithmetic(c: word, m: word, m': word, f: word, g: word, q: int, r: int)
    requires c + (0xFFFF - m) + m' == f + q * 0xFFFF
    requires f + (0xFFFF - m') + m == g + r * 0xFFFF
    requires f == 0 <==> c + (0xFFFF - m) + m' == 0
    requires g == 0 <==> f + (0xFFFF - m') + m == 0
    ensures g == c <==> c != 0
  {
    assert c - g == (q + r - 2) * 0xFFFF;
    if c != 0 && g != 0 {
      SmallMultiple(c - g, q + r - 2);
    }
  }

  /** An update is undone by the inverse update for every checksum except 0xFFFF, and only then. */
  lemma UpdateReversible(csum: word, m: word, m': word)
    ensures Update(Update(csum, m, m'), m', m) == csum <==> csum != 0xFFFF
  {
    var f, q := UpdateIs(csum, m, m');
    var g, r := UpdateIs(Update(csum, m, m'), m', m);
    UndoArithmetic(0xFFFF - csum, m, m', f, g, q, r);
  }

  lemma TwoMore(hi: byte, lo: byte, rest: bytes)
    ensures WordSum([hi, lo] + rest) == (hi as int) * 256 + (lo as int) + WordSum(rest)
  {
    assert ([hi, lo] + rest)[2..] == rest;
  }

  /** The example of section 3 of RFC 1071: the high octet of a word comes first, and so does a last odd one. */
  lemma SumExamples()
    ensures WordSum([0x00, 0x01] + ([0xF2, 0x03] + ([0xF4, 0xF5] + ([0xF6, 0xF7] + [])))) == 0x2_DDF0
    ensures WordSum([0x12]) == 0x1200
  {
    TwoMore(0xF6, 0xF7, []);
    TwoMore(0xF4, 0xF5, [0xF6, 0xF7] + []);
    TwoMore(0xF2, 0x03, [0xF4, 0xF5] + ([0xF6, 0xF7] + []));
    TwoMore(0x00, 0x01, [0xF2, 0x03] + ([0xF4, 0xF5] + ([0xF6, 0xF7] + [])));
  }

  /** ... whose checksum is 0x220D. */
  lemma FoldExample()
    ensures Complement(Fold32(0x2_DDF0)) == 0x220D
  {
  }
}
