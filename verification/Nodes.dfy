/** The content-addressed node map of a trie, and why no two of its places share a hash. */
module Nodes {
  import opened Arithmetic
  import opened Paths
  import opened Hashing
  import opened Tries

  /** [left, right] for a branch, [key, value, 1] for a leaf: node.go. */
  type ChildNodes = seq<nat>

  predicate IsLeaf(cn: ChildNodes) {
    |cn| == 3
  }

  function Hash(h: Hasher, t: Tree): nat {
    match t
    case Empty => 0
    case Leaf(k, v) => h.hash3(k, v, 1)
    case Node(l, r) => h.hash2(Hash(h, l), Hash(h, r))
  }

  function ChildrenOf(h: Hasher, t: Tree): ChildNodes
    requires !t.Empty?
  {
    match t
    case Leaf(k, v) => [k, v, 1]
    case Node(l, r) => [Hash(h, l), Hash(h, r)]
  }

  /** Every non-empty subtree of t, under its hash. */
  ghost function NodesOf(h: Hasher, t: Tree): map<nat, ChildNodes> {
    match t
    case Empty => map[]
    case Leaf(_, _) => map[Hash(h, t) := ChildrenOf(h, t)]
    case Node(l, r) => NodesOf(h, l) + NodesOf(h, r) + map[Hash(h, t) := ChildrenOf(h, t)]
  }

  /** No two places of t share a hash, and no non-empty subtree hashes to the empty tree's zero. */
  ghost predicate Distinct(h: Hasher, t: Tree) {
    match t
    case Empty => true
    case Leaf(_, _) => Hash(h, t) != 0
    case Node(l, r) =>
      && Hash(h, t) != 0
      && Distinct(h, l)
      && Distinct(h, r)
      && NodesOf(h, l).Keys !! NodesOf(h, r).Keys
      && Hash(h, t) !in NodesOf(h, l).Keys + NodesOf(h, r).Keys
  }

  /** Number of non-empty subtrees. */
  ghost function NodeCount(t: Tree): nat {
    match t
    case Empty => 0
    case Leaf(_, _) => 1
    case Node(l, r) => NodeCount(l) + NodeCount(r) + 1
  }

  // ------------------------------------------------------- root and nodes spelled out

  /** The entries whose key has the given digit at this level. */
  ghost function Half(m: map<nat, nat>, level: nat, digit: nat): map<nat, nat> {
    map k | k in m && k / Pow2(level) % 2 == digit :: m[k]
  }

  /** The root of a map, from the map alone: nothing hashes to 0, a lone entry is hashed as a leaf wherever it
      is, and otherwise the keys with an even quotient go left and the others right. */
  ghost function MerkleRoot(h: Hasher, m: map<nat, nat>, level: nat, depth: nat): nat
    decreases depth - level
  {
    if |m| == 0 then 0
    else if |m| == 1 then
      var k :| k in m;
      h.hash3(k, m[k], 1)
    else if level >= depth then 0
    else h.hash2(MerkleRoot(h, Half(m, level, 0), level + 1, depth), MerkleRoot(h, Half(m, level, 1), level + 1, depth))
  }

  lemma SideIsHalf(m: map<nat, nat>, i: nat, b: Bit)
    ensures Side(m, i, b) == Half(m, i, b)
  {
    hide BitAt, Pow2;
    forall k | k in m
      ensures BitAt(k, i) == k / Pow2(i) % 2
    {
      BitIsDigit(k, i);
    }
  }

  lemma {:induction false} TrieRoot(h: Hasher, m: map<nat, nat>, p: seq<Bit>, depth: nat)
    requires Under(m, p, depth) && |p| <= depth
    ensures Hash(h, Trie(m, p, depth)) == MerkleRoot(h, m, |p|, depth)
    decreases depth - |p|
  {
    hide Half, Side, BitAt, BitLen, OnPath;
    if |m| == 0 {
    } else if |m| == 1 {
      var k :| k in m;
      Singleton(m, k);
    } else {
      RoomForBranch(m, p, depth);
      SideIsHalf(m, |p|, 0);
      SideIsHalf(m, |p|, 1);
      SideUnder(m, p, depth, 0);
      SideUnder(m, p, depth, 1);
      TrieRoot(h, Side(m, |p|, 0), p + [0], depth);
      TrieRoot(h, Side(m, |p|, 1), p + [1], depth);
    }
  }

  /** Keys 0 and 1 part at the first level, even to the left. Keys 1 and 3 share it, so the left half is empty. */
  lemma SmallRoots(h: Hasher, v: nat, w: nat)
    ensures MerkleRoot(h, map[0 := v, 1 := w], 0, 2) == h.hash2(h.hash3(0, v, 1), h.hash3(1, w, 1))
    ensures MerkleRoot(h, map[1 := v, 3 := w], 0, 2) == h.hash2(0, h.hash2(h.hash3(1, v, 1), h.hash3(3, w, 1)))
  {
    hide Half, MerkleRoot;
    assert Pow2(0) == 1 && Pow2(1) == 2;
    TwoEntries(h, 0, v, 1, w, 0, 2);
    HalvesOf(0, v, 1, w, 0);
    TwoEntries(h, 1, v, 3, w, 0, 2);
    HalvesOf(1, v, 3, w, 0);
    TwoEntries(h, 1, v, 3, w, 1, 2);
    HalvesOf(1, v, 3, w, 1);
  }

  lemma HalvesOf(j: nat, v: nat, k: nat, w: nat, level: nat)
    requires j != k
    ensures
      var m, b, c := map[j := v, k := w], j / Pow2(level) % 2, k / Pow2(level) % 2;
      && (b == 0 && c == 1 ==> Half(m, level, 0) == map[j := v] && Half(m, level, 1) == map[k := w])
      && (b == 1 && c == 1 ==> Half(m, level, 0) == map[] && Half(m, level, 1) == m)
  {}

  lemma TwoEntries(h: Hasher, j: nat, v: nat, k: nat, w: nat, level: nat, depth: nat)
    requires j != k && level < depth
    ensures
      var m := map[j := v, k := w];
      MerkleRoot(h, m, level, depth) == h.hash2(MerkleRoot(h, Half(m, level, 0), level + 1, depth),
                                                MerkleRoot(h, Half(m, level, 1), level + 1, depth))
    ensures MerkleRoot(h, map[j := v], level + 1, depth) == h.hash3(j, v, 1)
    ensures MerkleRoot(h, map[k := w], level + 1, depth) == h.hash3(k, w, 1)
    ensures MerkleRoot(h, map[], level + 1, depth) == 0
  {
    hide Half;
    var m := map[j := v, k := w];
    assert m.Keys == {j, k};
    assert |m| == |{j, k}| == 2;
  }

  /** A node map is content-addressed and closed: a leaf lies under the hash of its triple, a branch under that of
      its two children, and every child is 0 or stored itself. */
  ghost predicate Addressed(h: Hasher, nodes: map<nat, ChildNodes>) {
    forall x :: x in nodes ==>
      var cn := nodes[x];
      || (|cn| == 3 && cn[2] == 1 && x == h.hash3(cn[0], cn[1], 1))
      || (|cn| == 2 && x == h.hash2(cn[0], cn[1])
          && (cn[0] == 0 || cn[0] in nodes) && (cn[1] == 0 || cn[1] in nodes))
  }

  lemma {:induction false} NodesAddressed(h: Hasher, t: Tree)
    ensures Addressed(h, NodesOf(h, t))
    ensures Hash(h, t) == 0 || Hash(h, t) in NodesOf(h, t)
  {
    hide Addressed;
    match t
    case Empty =>
      LeafAddressed(h, 0, 0);
    case Leaf(k, v) =>
      LeafAddressed(h, k, v);
    case Node(l, r) =>
      NodesAddressed(h, l);
      NodesAddressed(h, r);
      MergeAddressed(h, NodesOf(h, l), NodesOf(h, r), Hash(h, l), Hash(h, r));
  }

  lemma LeafAddressed(h: Hasher, k: nat, v: nat)
    ensures Addressed(h, map[]) && Addressed(h, map[h.hash3(k, v, 1) := [k, v, 1]])
  {}

  lemma MergeAddressed(h: Hasher, l: map<nat, ChildNodes>, r: map<nat, ChildNodes>, a: nat, b: nat)
    requires Addressed(h, l) && (a == 0 || a in l)
    requires Addressed(h, r) && (b == 0 || b in r)
    ensures Addressed(h, l + r + map[h.hash2(a, b) := [a, b]])
  {}

  // ---------------------------------------------------------------- collisions

  function TopQuery(h: Hasher, t: Tree): Query
    requires !t.Empty?
  {
    match t
    case Leaf(k, v) => Three(k, v, 1)
    case Node(l, r) => Two(Hash(h, l), Hash(h, r))
  }

  /** What is hashed to compute the root of t. */
  ghost function Queries(h: Hasher, t: Tree): set<Query> {
    match t
    case Empty => {}
    case Leaf(_, _) => {TopQuery(h, t)}
    case Node(l, r) => {TopQuery(h, t)} + Queries(h, l) + Queries(h, r)
  }

  /** Two different trees with one hash exhibit a collision among the inputs hashed for them. */
  function Discrepancy(h: Hasher, a: Tree, b: Tree): (c: Collision)
    requires a != b && Hash(h, a) == Hash(h, b)
    ensures c.Breaks(h)
    ensures c.Within(Queries(h, a) + Queries(h, b))
  {
    if a.Empty? then ZeroPreimage(TopQuery(h, b))
    else if b.Empty? then ZeroPreimage(TopQuery(h, a))
    else if TopQuery(h, a) != TopQuery(h, b) then Clash(TopQuery(h, a), TopQuery(h, b))
    else if a.left != b.left then Discrepancy(h, a.left, b.left)
    else Discrepancy(h, a.right, b.right)
  }

  /** The subtree of t stored under hash x. */
  ghost function SubtreeAt(h: Hasher, t: Tree, p: seq<Bit>, depth: nat, x: nat): (s: Tree)
    requires Canonical(t, p, depth) && x in NodesOf(h, t)
    ensures !s.Empty? && Hash(h, s) == x
    ensures Queries(h, s) <= Queries(h, t)
    ensures Entries(s).Keys <= Entries(t).Keys && Entries(s) != map[]
    ensures NodeCount(s) <= NodeCount(t)
    decreases t
  {
    if !t.Node? || Hash(h, t) == x then
      CanonicalEntries(t, p, depth);
      t
    else if x in NodesOf(h, t.left) then SubtreeAt(h, t.left, p + [0], depth, x)
    else SubtreeAt(h, t.right, p + [1], depth, x)
  }

  /** A canonical tree two of whose places share a hash (or whose hash is zero somewhere) hands over
      a collision among its own inputs: this is all that the Distinct hypothesis assumes away. */
  ghost function SharingCollision(h: Hasher, t: Tree, p: seq<Bit>, depth: nat): (c: Collision)
    requires Canonical(t, p, depth) && !Distinct(h, t)
    ensures c.Breaks(h)
    ensures c.Within(Queries(h, t))
    decreases t
  {
    if Hash(h, t) == 0 then ZeroPreimage(TopQuery(h, t))
    else
      var Node(l, r) := t;
      var hl, hr := NodesOf(h, l).Keys, NodesOf(h, r).Keys;
      if !Distinct(h, l) then SharingCollision(h, l, p + [0], depth)
      else if !Distinct(h, r) then SharingCollision(h, r, p + [1], depth)
      else if !(hl !! hr) then SiblingCollision(h, t, p, depth)
      else AncestorCollision(h, t, p, depth)
  }

  /** Places in the two halves of a branch hold different keys, so they are different trees. */
  ghost function SiblingCollision(h: Hasher, t: Tree, p: seq<Bit>, depth: nat): (c: Collision)
    requires Canonical(t, p, depth) && t.Node?
    requires !(NodesOf(h, t.left).Keys !! NodesOf(h, t.right).Keys)
    ensures c.Breaks(h)
    ensures c.Within(Queries(h, t))
  {
    var x :| x in NodesOf(h, t.left).Keys && x in NodesOf(h, t.right).Keys;
    DisjointPlaces(h, t, p, depth, x);
    Discrepancy(h, SubtreeAt(h, t.left, p + [0], depth, x), SubtreeAt(h, t.right, p + [1], depth, x))
  }

  lemma DisjointPlaces(h: Hasher, t: Tree, p: seq<Bit>, depth: nat, x: nat)
    requires Canonical(t, p, depth) && t.Node?
    requires x in NodesOf(h, t.left) && x in NodesOf(h, t.right)
    ensures SubtreeAt(h, t.left, p + [0], depth, x) != SubtreeAt(h, t.right, p + [1], depth, x)
  {
    hide NodesOf, SubtreeAt;
    CanonicalEntries(t, p, depth);
    var k :| k in Entries(SubtreeAt(h, t.left, p + [0], depth, x));
  }

  /** A branch differs from every place below it. */
  ghost function AncestorCollision(h: Hasher, t: Tree, p: seq<Bit>, depth: nat): (c: Collision)
    requires Canonical(t, p, depth) && t.Node?
    requires Hash(h, t) in NodesOf(h, t.left).Keys + NodesOf(h, t.right).Keys
    ensures c.Breaks(h)
    ensures c.Within(Queries(h, t))
  {
    var s := if Hash(h, t) in NodesOf(h, t.left) then SubtreeAt(h, t.left, p + [0], depth, Hash(h, t))
             else SubtreeAt(h, t.right, p + [1], depth, Hash(h, t));
    Discrepancy(h, t, s)
  }

  // ------------------------------------------------------------------- leaves

  /** The leaves stored are exactly the entries, each under the hash of its triple. */
  ghost predicate LeavesAre(h: Hasher, nodes: map<nat, ChildNodes>, m: map<nat, nat>) {
    && (forall k :: k in m ==> var x := h.hash3(k, m[k], 1); x in nodes && nodes[x] == [k, m[k], 1])
    && (forall x :: x in nodes && IsLeaf(nodes[x]) ==>
          var k := nodes[x][0]; k in m && nodes[x] == [k, m[k], 1] && x == h.hash3(k, m[k], 1))
  }

  lemma {:induction false} LeavesStored(h: Hasher, t: Tree, p: seq<Bit>, depth: nat)
    requires Canonical(t, p, depth) && Distinct(h, t)
    ensures LeavesAre(h, NodesOf(h, t), Entries(t))
  {
    if t.Node? {
      CanonicalEntries(t, p, depth);
      LeavesStored(h, t.left, p + [0], depth);
      LeavesStored(h, t.right, p + [1], depth);
      LeavesMerge(h, NodesOf(h, t.left), NodesOf(h, t.right), Entries(t.left), Entries(t.right),
                  Hash(h, t), ChildrenOf(h, t));
    } else if t.Leaf? {
      assert ChildrenOf(h, t) == [t.key, t.value, 1];
    }
  }

  lemma LeavesMerge(h: Hasher, l: map<nat, ChildNodes>, r: map<nat, ChildNodes>, m: map<nat, nat>, n: map<nat, nat>,
                    top: nat, branch: ChildNodes)
    requires LeavesAre(h, l, m) && LeavesAre(h, r, n)
    requires l.Keys !! r.Keys && top !in l && top !in r && m.Keys !! n.Keys
    requires |branch| == 2
    ensures LeavesAre(h, l + r + map[top := branch], m + n)
  {}

  // -------------------------------------------------------------------- sizes

  lemma {:induction false} NodesCounted(h: Hasher, t: Tree)
    requires Distinct(h, t)
    ensures |NodesOf(h, t)| == NodeCount(t)
  {
    if !t.Node? {
    } else {
      var l, r := NodesOf(h, t.left), NodesOf(h, t.right);
      NodesCounted(h, t.left);
      NodesCounted(h, t.right);
      MergeSize(l, r, Hash(h, t), ChildrenOf(h, t));
    }
  }

  lemma MergeSize<V>(l: map<nat, V>, r: map<nat, V>, top: nat, v: V)
    requires l.Keys !! r.Keys && top !in l && top !in r
    ensures |l + r + map[top := v]| == |l| + |r| + 1
  {
    var whole := l + r + map[top := v];
    assert whole.Keys == l.Keys + r.Keys + {top};
    assert |whole.Keys| == |l.Keys| + |r.Keys| + 1;
  }

  /** At most one leaf and one branch per level for each entry. */
  function NodeBudget(entries: nat, levels: nat): nat {
    entries * (levels + 1)
  }

  lemma {:induction false} NodeCountBound(t: Tree, p: seq<Bit>, depth: nat)
    requires Canonical(t, p, depth) && |p| <= depth
    ensures NodeCount(t) <= NodeBudget(Size(t), depth - |p|)
  {
    hide NodeBudget;
    if t.Leaf? {
      LeafBudget(depth - |p|);
    }
    if t.Node? {
      NodeCountBound(t.left, p + [0], depth);
      NodeCountBound(t.right, p + [1], depth);
      OneLevelMore(Size(t.left), Size(t.right), depth - |p|);
    }
  }

  lemma LeafBudget(levels: nat)
    ensures NodeBudget(1, levels) >= 1
  {}

  lemma OneLevelMore(a: nat, b: nat, levels: nat)
    requires a + b > 0 && levels > 0
    ensures NodeBudget(a, levels - 1) + NodeBudget(b, levels - 1) + 1 <= NodeBudget(a + b, levels)
  {
    assert a * levels + b * levels + (a + b) == (a + b) * (levels + 1);
  }

  // ------------------------------------------------------ the hypothesis on a map

  /** The hasher shows no collision while the trie of m is hashed. */
  ghost predicate Faithful(h: Hasher, m: map<nat, nat>, depth: nat) {
    AllFit(m, depth) && Distinct(h, TrieOf(m, depth))
  }

  lemma CollisionFreeIsFaithful(h: Hasher, m: map<nat, nat>, depth: nat)
    requires CollisionFree(h) && AllFit(m, depth)
    ensures Faithful(h, m, depth)
  {
    TrieHolds(m, [], depth);
    if !Distinct(h, TrieOf(m, depth)) {
      var c := SharingCollision(h, TrieOf(m, depth), [], depth);
      assert false;
    }
  }

  lemma NodesBounded(h: Hasher, m: map<nat, nat>, depth: nat)
    requires Faithful(h, m, depth)
    ensures |NodesOf(h, TrieOf(m, depth))| <= NodeBudget(|m|, depth)
  {
    hide Trie, Canonical, Distinct, NodesOf, Size, NodeCount, NodeBudget;
    var t := TrieOf(m, depth);
    TrieHolds(m, [], depth);
    NodesCounted(h, t);
    NodeCountBound(t, [], depth);
  }
}
