/** Membership and non-membership proofs: server/internal/smt/proof.go. */
module Proofs {
  import opened Wrappers
  import opened Paths
  import opened Hashing
  import opened Tries
  import opened Nodes
  import opened Zippers
  import opened Surgery

  /** entry is [key], or [key, value, 1] for a member. */
  datatype MerkleProof = MerkleProof(
    entry: seq<nat>, matching: Option<seq<nat>>, siblings: seq<nat>, root: nat, membership: bool)

  /** Panics: the Go code indexes a slice out of range. */
  datatype Verdict = Accepted | Rejected | Panics

  ghost function VerdictOf(h: Hasher, proof: MerkleProof, depth: nat): Verdict {
    match proof.matching
    case None =>
      if |proof.entry| == 0 || |proof.entry| == 2 || |proof.siblings| > depth then Panics
      else
        var e := proof.entry;
        var node := if |e| >= 2 then h.hash3(e[0], e[1], e[2]) else 0;
        if Climb(h, node, PathOf(e[0], depth), proof.siblings) == proof.root then Accepted else Rejected
    case Some(e) =>
      if |e| < 3 || |proof.siblings| > depth then Panics
      else
        var matchingPath := PathOf(e[0], depth);
        if Climb(h, h.hash3(e[0], e[1], e[2]), matchingPath, proof.siblings) != proof.root then Rejected
        else if |proof.entry| == 0 then Panics
        else if |proof.siblings| <= CommonBits(PathOf(proof.entry[0], depth), matchingPath) then Accepted
        else Rejected
  }

  method CalculateRoot(h: Hasher, node: nat, path: seq<Bit>, siblings: seq<nat>) returns (n: nat)
    requires |siblings| <= |path|
    ensures n == Climb(h, node, path, siblings)
  {
    hide Climb, Branches;
    n := node;
    var i := |siblings| - 1;
    assert siblings[..i + 1] == siblings;
    while i >= 0
      invariant -1 <= i < |siblings|
      invariant Climb(h, n, path, siblings[..i + 1]) == Climb(h, node, path, siblings)
    {
      ClimbStep(h, n, path, siblings, i);
      if path[i] == 1 {
        n := h.hash2(siblings[i], n);
      } else {
        n := h.hash2(n, siblings[i]);
      }
      i := i - 1;
    }
    ClimbNoFurther(h, n, path, siblings[..0]);
  }

  method VerifyProof(h: Hasher, proof: MerkleProof, depth: nat) returns (v: Verdict)
    ensures v == VerdictOf(h, proof, depth)
  {
    if proof.matching.None? {
      if |proof.entry| == 0 {
        return Panics;
      }
      var path := KeyToPath(proof.entry[0], depth);
      var node := 0;
      if |proof.entry| >= 2 {
        if |proof.entry| == 2 {
          return Panics;
        }
        node := h.hash3(proof.entry[0], proof.entry[1], proof.entry[2]);
      }
      if |proof.siblings| > |path| {
        return Panics;
      }
      var root := CalculateRoot(h, node, path, proof.siblings);
      return if root == proof.root then Accepted else Rejected;
    }
    var e := proof.matching.value;
    if |e| < 3 || |proof.siblings| > depth {
      return Panics;
    }
    var matchingPath := KeyToPath(e[0], depth);
    var node := h.hash3(e[0], e[1], e[2]);
    var root := CalculateRoot(h, node, matchingPath, proof.siblings);
    if root == proof.root {
      if |proof.entry| == 0 {
        return Panics;
      }
      var path := KeyToPath(proof.entry[0], depth);
      var firstCommon := GetFirstCommonBits(path, matchingPath);
      return if |proof.siblings| <= firstCommon then Accepted else Rejected;
    }
    return Rejected;
  }

  // ------------------------------------------------------------- completeness

  /** What CreateProof returns when the search for key ends at x. */
  ghost function ProofAt(h: Hasher, key: nat, x: Tree, sibs: seq<Tree>, root: nat): MerkleProof {
    var member := x.Leaf? && x.key == key;
    MerkleProof(
      if member then ChildrenOf(h, x) else [key],
      if x.Leaf? && !member then Some(ChildrenOf(h, x)) else None,
      Hashes(h, sibs), root, member)
  }

  /** Every proof read off a trie verifies against its root, also for keys wider than the tree. */
  lemma ProofComplete(h: Hasher, m: map<nat, nat>, depth: nat, key: nat, x: Tree, sibs: seq<Tree>)
    requires EndsAt(m, depth, key, x, sibs)
    ensures VerdictOf(h, ProofAt(h, key, x, sibs, Hash(h, TrieOf(m, depth))), depth) == Accepted
  {
    hide BitAt, BitLen, Trie, Up, Climb;
    var path := PathOf(key, depth);
    EndsAtLookup(m, depth, key, x, sibs);
    ClimbIsHash(h, x, path, sibs);
    if x.Leaf? && x.key != key {
      var matchingPath := PathOf(x.key, depth);
      SamePrefix(key, x.key, depth, |sibs|);
      UpPrefix(x, path, matchingPath, sibs);
      ClimbIsHash(h, x, matchingPath, sibs);
      CommonBitsCover(path, matchingPath, |sibs|);
    }
  }

  lemma SamePrefix(key: nat, other: nat, depth: nat, n: nat)
    requires n <= depth && OnPath(PathOf(key, depth)[..n], other)
    ensures PathOf(key, depth)[..n] == PathOf(other, depth)[..n]
  {
    hide BitAt;
  }

  lemma CommonBitsCover(a: seq<Bit>, b: seq<Bit>, n: nat)
    requires n <= |a| && n <= |b|
    ensures n <= CommonBits(a, b) <==> a[..n] == b[..n]
  {
    hide CommonBits;
    var c := CommonBits(a, b);
    if n <= c {
      assert a[..n] == a[..c][..n] && b[..n] == b[..c][..n];
    } else {
      assert a[..n][c] == a[c] && b[..n][c] == b[c];
    }
  }

  lemma {:induction false} UpPrefix(x: Tree, path: seq<Bit>, path': seq<Bit>, sibs: seq<Tree>)
    requires |sibs| <= |path| && |sibs| <= |path'|
    requires path[..|sibs|] == path'[..|sibs|]
    ensures Up(x, path, sibs) == Up(x, path', sibs)
    decreases |sibs|
  {
    if sibs == [] {
    } else {
      var i := |sibs| - 1;
      assert path[i] == path[..|sibs|][i] == path'[i];
      assert path[..i] == path[..|sibs|][..i] == path'[..i];
      UpPrefix(Join(path[i], x, sibs[i]), path, path', sibs[..i]);
    }
  }

  // ---------------------------------------------------------------- soundness

  /** Where a climb that reached the root of t started, or a collision met on the way down. */
  datatype Located = Found(x: Tree, sibs: seq<Tree>) | Broken(c: Collision)

  function BranchQuery(b: Bit, n: nat, sibling: nat): Query {
    if b == 1 then Two(sibling, n) else Two(n, sibling)
  }

  function Locate(h: Hasher, t: Tree, n: nat, path: seq<Bit>, siblings: seq<nat>): (r: Located)
    requires |siblings| <= |path|
    requires Climb(h, n, path, siblings) == Hash(h, t)
    ensures r.Broken? ==> r.c.Breaks(h)
    ensures r.Found? ==>
              && |r.sibs| == |siblings|
              && Up(r.x, path, r.sibs) == t
              && Hash(h, r.x) == n
    decreases |siblings|
  {
    if siblings == [] then Found(t, [])
    else
      var i := |siblings| - 1;
      match Locate(h, t, BranchHash(h, path[i], n, siblings[i]), path, siblings[..i])
      case Broken(c) => Broken(c)
      case Found(x, sibs) =>
        var q := BranchQuery(path[i], n, siblings[i]);
        if x.Empty? then Broken(ZeroPreimage(q))
        else if TopQuery(h, x) != q then Broken(Clash(TopQuery(h, x), q))
        else
          StepDown(h, x, path, sibs);
          Found(ChildAt(path[i], x), sibs + [ChildAt(1 - path[i], x)])
  }

  /** The inputs hashed on a climb. */
  ghost function ClimbQueries(h: Hasher, n: nat, path: seq<Bit>, siblings: seq<nat>): set<Query>
    requires |siblings| <= |path|
    decreases |siblings|
  {
    if siblings == [] then {}
    else
      var i := |siblings| - 1;
      {BranchQuery(path[i], n, siblings[i])}
      + ClimbQueries(h, BranchHash(h, path[i], n, siblings[i]), path, siblings[..i])
  }

  /** A collision met lies among the inputs hashed for the tree and on the climb, and what is found is a
      part of the tree. */
  lemma {:induction false} LocateWithin(h: Hasher, t: Tree, n: nat, path: seq<Bit>, siblings: seq<nat>)
    requires |siblings| <= |path|
    requires Climb(h, n, path, siblings) == Hash(h, t)
    ensures
      var r := Locate(h, t, n, path, siblings);
      && (r.Broken? ==> r.c.Within(Queries(h, t) + ClimbQueries(h, n, path, siblings)))
      && (r.Found? ==> Queries(h, r.x) <= Queries(h, t))
    decreases |siblings|
  {
    hide Up;
    if siblings == [] {
    } else {
      var i := |siblings| - 1;
      LocateWithin(h, t, BranchHash(h, path[i], n, siblings[i]), path, siblings[..i]);
    }
  }

  function Claimed(claim: Option<Query>): set<Query> {
    if claim.Some? then {claim.value} else {}
  }

  /** The subtree found is what the proof claims it to be, or hashing it is a collision. */
  function Settle(h: Hasher, x: Tree, claim: Option<Query>): (r: Option<Collision>)
    requires claim.Some? ==> claim.value.Three?
    requires Hash(h, x) == if claim.Some? then Digest(h, claim.value) else 0
    ensures r.Some? ==> r.value.Breaks(h) && r.value.Within(Queries(h, x) + Claimed(claim))
    ensures r.None? ==> if claim.Some? then x.Leaf? && claim.value == Three(x.key, x.value, 1) else x.Empty?
  {
    match claim
    case None => if x.Empty? then None else Some(ZeroPreimage(TopQuery(h, x)))
    case Some(q) =>
      if x.Empty? then Some(ZeroPreimage(q))
      else if TopQuery(h, x) != q then Some(Clash(TopQuery(h, x), q))
      else None
  }

  /** The leaf that an accepted proof exhibits, if any. */
  function ClaimOf(proof: MerkleProof): Option<Query>
    requires proof.matching.Some? ==> |proof.matching.value| >= 3
    requires proof.matching.None? && |proof.entry| >= 2 ==> |proof.entry| >= 3
  {
    match proof.matching
    case None => if |proof.entry| >= 2 then Some(Three(proof.entry[0], proof.entry[1], proof.entry[2])) else None
    case Some(e) => Some(Three(e[0], e[1], e[2]))
  }

  /** The key whose path an accepted proof is climbed along, and the hash the climb starts from. */
  function KeyOf(proof: MerkleProof): nat
    requires |proof.entry| > 0
    requires proof.matching.Some? ==> |proof.matching.value| >= 3
    requires proof.matching.None? && |proof.entry| >= 2 ==> |proof.entry| >= 3
  {
    var claim := ClaimOf(proof);
    if claim.Some? then claim.value.a else proof.entry[0]
  }

  function StartOf(h: Hasher, claim: Option<Query>): nat {
    if claim.Some? then Digest(h, claim.value) else 0
  }

  /** The inputs that the verifier hashes for an accepted proof. */
  ghost function VerifierQueries(h: Hasher, depth: nat, proof: MerkleProof): set<Query>
    requires VerdictOf(h, proof, depth) == Accepted
  {
    var claim := ClaimOf(proof);
    Claimed(claim) + ClimbQueries(h, StartOf(h, claim), PathOf(KeyOf(proof), depth), proof.siblings)
  }

  /** The collision that a false but accepted proof contains, among the inputs that builder and verifier
      have hashed. */
  ghost function ExtractCollision(h: Hasher, t: Tree, depth: nat, proof: MerkleProof): (r: Option<Collision>)
    requires VerdictOf(h, proof, depth) == Accepted
    requires proof.root == Hash(h, t)
    ensures r.Some? ==>
              && r.value.Breaks(h)
              && r.value.Within(Queries(h, t) + VerifierQueries(h, depth, proof))
  {
    var claim := ClaimOf(proof);
    var node, path := StartOf(h, claim), PathOf(KeyOf(proof), depth);
    LocateWithin(h, t, node, path, proof.siblings);
    match Locate(h, t, node, path, proof.siblings)
    case Broken(c) => Some(c)
    case Found(x, _) => Settle(h, x, claim)
  }

  /** What an accepted proof says about the map. With a matching entry, the rest of entry and the
      membership flag are never read, and the key is absent exactly when it is not the matching key. */
  ghost predicate Tells(m: map<nat, nat>, proof: MerkleProof)
    requires |proof.entry| > 0
    requires proof.matching.Some? ==> |proof.matching.value| >= 3
    requires proof.matching.None? && |proof.entry| >= 2 ==> |proof.entry| >= 3
  {
    var key := proof.entry[0];
    match proof.matching
    case None =>
      if |proof.entry| >= 2 then key in m && m[key] == proof.entry[1] && proof.entry[2] == 1
      else key !in m
    case Some(e) =>
      && e[0] in m && m[e[0]] == e[1] && e[2] == 1
      && (key in m <==> key == e[0])
  }

  /** Soundness, with no assumption on the hasher: an accepted proof against the root of m tells the
      truth about m unless a collision can be computed from it. */
  lemma ProofSound(h: Hasher, m: map<nat, nat>, depth: nat, proof: MerkleProof)
    requires AllFit(m, depth)
    requires VerdictOf(h, proof, depth) == Accepted
    requires proof.root == Hash(h, TrieOf(m, depth))
    ensures ExtractCollision(h, TrieOf(m, depth), depth, proof).Some? || Tells(m, proof)
  {
    hide BitAt, BitLen, Trie, Up, Climb, CommonBits;
    var t := TrieOf(m, depth);
    var claim := ClaimOf(proof);
    var node, key := StartOf(h, claim), KeyOf(proof);
    if ExtractCollision(h, t, depth, proof).None? {
      var Found(x, sibs) := Locate(h, t, node, PathOf(key, depth), proof.siblings);
      EndsAtLookup(m, depth, key, x, sibs);
      if proof.matching.Some? {
        var path := PathOf(proof.entry[0], depth);
        CommonBitsCover(path, PathOf(key, depth), |sibs|);
        UpPrefix(x, path, PathOf(key, depth), sibs);
        EndsAtLookup(m, depth, proof.entry[0], x, sibs);
      }
    }
  }

  /** What a verifier that asked for a key concludes from an accepted proof: whether the key is present. */
  predicate Concludes(proof: MerkleProof)
    requires |proof.entry| > 0
  {
    match proof.matching
    case None => |proof.entry| >= 2
    case Some(e) => |e| > 0 && proof.entry[0] == e[0]
  }

  /** A verifier that checks that the accepted proof is about the key it asked for learns whether the key is
      present, and its value if the proof carries one, or is handed a collision. */
  lemma KeyLearned(h: Hasher, m: map<nat, nat>, depth: nat, key: nat, proof: MerkleProof) returns (c: Option<Collision>)
    requires AllFit(m, depth)
    requires VerdictOf(h, proof, depth) == Accepted && proof.root == Hash(h, TrieOf(m, depth))
    requires proof.entry[0] == key
    ensures c.Some? ==>
              && c.value.Breaks(h)
              && c.value.Within(Queries(h, TrieOf(m, depth)) + VerifierQueries(h, depth, proof))
    ensures c.None? ==>
              && (key in m <==> Concludes(proof))
              && (proof.matching.None? && key in m ==> m[key] == proof.entry[1])
              && (proof.matching.Some? && key in m ==> m[key] == proof.matching.value[1])
  {
    hide BitAt, BitLen, Trie, Climb, CommonBits, ExtractCollision;
    ProofSound(h, m, depth, proof);
    c := ExtractCollision(h, TrieOf(m, depth), depth, proof);
  }

  // -------------------------------------------------------- which proofs are accepted

  /** The proof shows the place x of the tree: its siblings are the hashes of those passed on the way to x, and it
      exhibits the leaf there, or that there is none. */
  ghost predicate Shows(h: Hasher, t: Tree, depth: nat, proof: MerkleProof, x: Tree, sibs: seq<Tree>) {
    && |proof.entry| > 0 && |sibs| <= depth
    && proof.siblings == Hashes(h, sibs)
    && match proof.matching
       case None =>
         && Up(x, PathOf(proof.entry[0], depth), sibs) == t
         && (if |proof.entry| == 1 then x.Empty?
             else |proof.entry| >= 3 && x == Leaf(proof.entry[0], proof.entry[1]) && proof.entry[2] == 1)
       case Some(e) =>
         && |e| >= 3 && x == Leaf(e[0], e[1]) && e[2] == 1
         && Up(x, PathOf(e[0], depth), sibs) == t
         && PathOf(proof.entry[0], depth)[..|sibs|] == PathOf(e[0], depth)[..|sibs|]
  }

  /** With a collision-free hasher exactly the proofs that show a place of the tree are accepted against its root. */
  lemma AcceptedExactly(h: Hasher, m: map<nat, nat>, depth: nat, proof: MerkleProof)
    requires AllFit(m, depth) && CollisionFree(h)
    requires proof.root == Hash(h, TrieOf(m, depth))
    ensures VerdictOf(h, proof, depth) == Accepted
            <==> exists x, sibs :: Shows(h, TrieOf(m, depth), depth, proof, x, sibs)
  {
    hide BitAt, BitLen, Trie, Shows, CollisionFree, VerdictOf;
    var t := TrieOf(m, depth);
    if VerdictOf(h, proof, depth) == Accepted {
      var x, sibs := PlaceShown(h, t, depth, proof);
      assert Shows(h, t, depth, proof, x, sibs);
    }
    forall x, sibs | Shows(h, t, depth, proof, x, sibs)
      ensures VerdictOf(h, proof, depth) == Accepted
    {
      ShownIsAccepted(h, t, depth, proof, x, sibs);
    }
  }

  lemma ShownIsAccepted(h: Hasher, t: Tree, depth: nat, proof: MerkleProof, x: Tree, sibs: seq<Tree>)
    requires Shows(h, t, depth, proof, x, sibs) && proof.root == Hash(h, t)
    ensures VerdictOf(h, proof, depth) == Accepted
  {
    hide BitAt, Up, Climb;
    var key := if proof.matching.Some? then proof.matching.value[0] else proof.entry[0];
    ClimbIsHash(h, x, PathOf(key, depth), sibs);
    CommonBitsCover(PathOf(proof.entry[0], depth), PathOf(key, depth), |sibs|);
  }

  lemma PlaceShown(h: Hasher, t: Tree, depth: nat, proof: MerkleProof) returns (x: Tree, sibs: seq<Tree>)
    requires VerdictOf(h, proof, depth) == Accepted && proof.root == Hash(h, t)
    requires CollisionFree(h)
    ensures Shows(h, t, depth, proof, x, sibs)
  {
    hide BitAt, Up, Climb, CommonBits;
    var claim := ClaimOf(proof);
    var node, path := StartOf(h, claim), PathOf(KeyOf(proof), depth);
    LocateSiblings(h, t, node, path, proof.siblings);
    var r := Locate(h, t, node, path, proof.siblings);
    assert !r.Broken?;
    x, sibs := r.x, r.sibs;
    assert Settle(h, x, claim).None?;
    CommonBitsCover(PathOf(proof.entry[0], depth), path, |sibs|);
  }

  lemma {:induction false} LocateSiblings(h: Hasher, t: Tree, n: nat, path: seq<Bit>, siblings: seq<nat>)
    requires |siblings| <= |path|
    requires Climb(h, n, path, siblings) == Hash(h, t)
    ensures
      var r := Locate(h, t, n, path, siblings);
      r.Found? ==> Hashes(h, r.sibs) == siblings
    decreases |siblings|
  {
    hide Up;
    if siblings == [] {
    } else {
      var i := |siblings| - 1;
      LocateSiblings(h, t, BranchHash(h, path[i], n, siblings[i]), path, siblings[..i]);
    }
  }

  /** The verifier indexes out of range exactly for these proofs; with a matching entry it looks at the entry only
      once the climb has reached the root. */
  lemma PanicsExactly(h: Hasher, proof: MerkleProof, depth: nat)
    ensures VerdictOf(h, proof, depth) == Panics <==>
              || (proof.matching.None? && (|proof.entry| in {0, 2} || |proof.siblings| > depth))
              || (proof.matching.Some? && (|proof.matching.value| < 3 || |proof.siblings| > depth))
              || (proof.matching.Some? && proof.entry == []
                  && VerdictOf(h, proof.(entry := [proof.matching.value[0]]), depth) == Accepted)
  {
    hide Climb;
    if proof.matching.Some? && |proof.matching.value| >= 3 {
      var path := PathOf(proof.matching.value[0], depth);
      CommonBitsCover(path, path, depth);
    }
  }

  /** A proof of either shape, whatever numbers it is made of, is accepted against one root and no other, provided that
      a matching key shares the queried key's path as far as there are siblings; otherwise against none. */
  lemma OneRoot(h: Hasher, proof: MerkleProof, depth: nat) returns (root: nat)
    requires |proof.siblings| <= depth && |proof.entry| > 0
    requires if proof.matching.Some? then |proof.matching.value| >= 3 else |proof.entry| != 2
    ensures forall r ::
              VerdictOf(h, proof.(root := r), depth) == Accepted <==>
                && r == root
                && (proof.matching.Some? ==>
                      PathOf(proof.entry[0], depth)[..|proof.siblings|]
                      == PathOf(proof.matching.value[0], depth)[..|proof.siblings|])
    ensures |proof.siblings| == 0 ==>
              root == match proof.matching
                      case Some(e) => h.hash3(e[0], e[1], e[2])
                      case None => if |proof.entry| >= 3 then h.hash3(proof.entry[0], proof.entry[1], proof.entry[2])
                                   else 0
  {
    hide CommonBits;
    root := Climb(h, StartOf(h, ClaimOf(proof)), PathOf(KeyOf(proof), depth), proof.siblings);
    CommonBitsCover(PathOf(proof.entry[0], depth), PathOf(KeyOf(proof), depth), |proof.siblings|);
  }

  /** The verifier does not look at the membership flag. */
  lemma FlagIsNotRead(h: Hasher, proof: MerkleProof, depth: nat, flag: bool)
    ensures VerdictOf(h, proof.(membership := flag), depth) == VerdictOf(h, proof, depth)
  {}

  /** The hypothesis that the two keys differ cannot be dropped, nor can the entry of a proof with a
      matching entry be believed: both proofs are accepted against the root of {0 -> 5}, for every hasher. */
  lemma MatchingEntryIsNotCompared(h: Hasher)
    ensures
      var m := map[0 := 5];
      && AllFit(m, 1)
      && var root := Hash(h, TrieOf(m, 1));
         && VerdictOf(h, MerkleProof([0], Some([0, 5, 1]), [], root, false), 1) == Accepted
         && 0 in m
         && VerdictOf(h, MerkleProof([1, 7, 1], Some([0, 5, 1]), [], root, true), 1) == Accepted
         && 1 !in m
  {
    var m := map[0 := 5];
    TrieHolds(m, [], 1);
    assert TrieOf(m, 1) == Leaf(0, 5);
  }
}
