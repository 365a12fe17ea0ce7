/** What the balancers share: their hash functions, their errors, and the limits of an identity hash. */
module Balancing {
  import opened Basics

  type hash64 = x: int | 0 <= x < 0x1_0000_0000_0000_0000

  /**
   * The hash functions, about which nothing is assumed but that they are functions to words: the
   * seeded name hash of the Maglev tables, the virtual-node and key hashes of the ring, and the
   * identity hash of a backend list.
   */
  datatype Hashing = Hashing(
    seeded: (string, hash64) -> hash64,
    vnode: (string, nat) -> hash64,
    key: nat -> hash64,
    identity: seq<string> -> hash64)

  datatype BalancerError = NoBackends | AllZeroWeight | TableStale | Internal

  // ----- no identity hash tells all lists apart

  /** The list of the one backend named by k letters. */
  function Named(k: nat): (names: seq<string>)
    ensures |names| == 1 && |names[0]| == k
  {
    [seq(k, _ => 'a')]
  }

  ghost function Identities(hashing: Hashing, c: nat): set<int> {
    set k | 0 <= k < c :: hashing.identity(Named(k)) as int
  }

  /** Two lists below c share their identity hash. */
  ghost predicate Clash(hashing: Hashing, c: nat) {
    exists i: nat, j: nat :: i < j < c && hashing.identity(Named(i)) == hashing.identity(Named(j))
  }

  lemma {:induction false} IdentityCount(hashing: Hashing, c: nat)
    requires !Clash(hashing, c)
    ensures |Identities(hashing, c)| == c
  {
    if c > 0 {
      IdentityCount(hashing, c - 1);
      var last := hashing.identity(Named(c - 1)) as int;
      assert Identities(hashing, c) == Identities(hashing, c - 1) + {last};
      forall k: nat | k < c - 1 ensures hashing.identity(Named(k)) != last {
        assert k < c - 1 < c;
      }
    }
  }

  /** Every identity hash gives two different one-backend lists the same value. */
  lemma IdentityCollides(hashing: Hashing)
    ensures exists a: seq<string>, b: seq<string> ::
              a != b && |a| == |b| == 1 && hashing.identity(a) == hashing.identity(b)
  {
    var c := U64_LIMIT + 1;
    if Clash(hashing, c) {
      var i: nat, j: nat :| i < j < c && hashing.identity(Named(i)) == hashing.identity(Named(j));
      assert Named(i) != Named(j);
    } else {
      IdentityCount(hashing, c);
      BoundedSetSize(Identities(hashing, c), U64_LIMIT);
      assert false;
    }
  }
}
