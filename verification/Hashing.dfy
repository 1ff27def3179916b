/** The two hash functions of server/internal/smt/hasher.go as parameters, and what a collision is. */
module Hashing {

  /** Hash2 and Hash3 are arbitrary total functions; nothing is assumed about them here. */
  datatype Hasher = Hasher(hash2: (nat, nat) -> nat, hash3: (nat, nat, nat) -> nat)

  /** An input of one of the two functions. */
  datatype Query = Two(a: nat, b: nat) | Three(a: nat, b: nat, c: nat)

  function Digest(h: Hasher, q: Query): nat {
    match q
    case Two(a, b) => h.hash2(a, b)
    case Three(a, b, c) => h.hash3(a, b, c)
  }

  /** Evidence against the hasher: an input with digest zero (the empty tree's root),
      or two different inputs with one digest. */
  datatype Collision = ZeroPreimage(q: Query) | Clash(q1: Query, q2: Query) {
    predicate Breaks(h: Hasher) {
      match this
      case ZeroPreimage(q) => Digest(h, q) == 0
      case Clash(q1, q2) => q1 != q2 && Digest(h, q1) == Digest(h, q2)
    }

    predicate Within(s: set<Query>) {
      match this
      case ZeroPreimage(q) => q in s
      case Clash(q1, q2) => q1 in s && q2 in s
    }
  }

  ghost predicate CollisionFree(h: Hasher) {
    forall c: Collision :: !c.Breaks(h)
  }

  /** 2^a * (2b + 1): an injective pairing of naturals that never yields 0. */
  function Pair(a: nat, b: nat): (r: nat)
    ensures r > 0
  {
    if a == 0 then 2 * b + 1 else 2 * Pair(a - 1, b)
  }

  lemma {:induction false} PairInjective(a: nat, b: nat, a': nat, b': nat)
    requires Pair(a, b) == Pair(a', b')
    ensures a == a' && b == b'
    decreases a
  {
    if a == 0 || a' == 0 {
    } else {
      PairInjective(a - 1, b, a' - 1, b');
    }
  }

  const PAIRING_HASHER: Hasher :=
    Hasher((a, b) => 2 * Pair(a, b), (a, b, c) => 2 * Pair(a, Pair(b, c)) + 1)

  /** Collision-freeness is not a contradictory hypothesis. */
  lemma PairingIsCollisionFree()
    ensures CollisionFree(PAIRING_HASHER)
  {
    forall c: Collision ensures !c.Breaks(PAIRING_HASHER) {
      match c
      case ZeroPreimage(q) =>
      case Clash(q1, q2) =>
        if Digest(PAIRING_HASHER, q1) == Digest(PAIRING_HASHER, q2) {
          match (q1, q2)
          case (Two(a, b), Two(a', b')) =>
            PairInjective(a, b, a', b');
          case (Three(a, b, c), Three(a', b', c')) =>
            PairInjective(a, Pair(b, c), a', Pair(b', c'));
            PairInjective(b, c, b', c');
          case _ =>
        }
    }
  }
}
