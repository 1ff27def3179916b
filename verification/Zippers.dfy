/** A place in a trie seen from below: the subtree there and the siblings met on the way down.
    The loops of tree.go and proof.go walk exactly this, with hashes for subtrees. */
module Zippers {
  import opened Paths
  import opened Hashing
  import opened Tries
  import opened Nodes

  function Join(b: Bit, onPath: Tree, sibling: Tree): Tree {
    if b == 1 then Node(sibling, onPath) else Node(onPath, sibling)
  }

  function ChildAt(b: Bit, t: Tree): Tree
    requires t.Node?
  {
    if b == 1 then t.right else t.left
  }

  /** The whole tree around x, whose siblings along path, from the root down, are sibs. */
  function Up(x: Tree, path: seq<Bit>, sibs: seq<Tree>): Tree
    requires |sibs| <= |path|
    decreases |sibs|
  {
    if sibs == [] then x
    else
      var i := |sibs| - 1;
      Up(Join(path[i], x, sibs[i]), path, sibs[..i])
  }

  lemma UpFromTop(t: Tree, path: seq<Bit>)
    ensures Up(t, path, []) == t
  {}

  // ---------------------------------------------------------------- on hashes

  function Hashes(h: Hasher, sibs: seq<Tree>): (r: seq<nat>)
    ensures |r| == |sibs|
  {
    seq(|sibs|, i requires 0 <= i < |sibs| => Hash(h, sibs[i]))
  }

  function BranchOf(b: Bit, n: nat, sibling: nat): ChildNodes {
    if b == 1 then [sibling, n] else [n, sibling]
  }

  function BranchHash(h: Hasher, b: Bit, n: nat, sibling: nat): nat {
    if b == 1 then h.hash2(sibling, n) else h.hash2(n, sibling)
  }

  /** The root computed from a node's hash and the sibling hashes. */
  function Climb(h: Hasher, n: nat, path: seq<Bit>, siblings: seq<nat>): nat
    requires |siblings| <= |path|
    decreases |siblings|
  {
    if siblings == [] then n
    else
      var i := |siblings| - 1;
      Climb(h, BranchHash(h, path[i], n, siblings[i]), path, siblings[..i])
  }

  /** The branches above the node, under their hashes. */
  function Branches(h: Hasher, n: nat, path: seq<Bit>, siblings: seq<nat>): map<nat, ChildNodes>
    requires |siblings| <= |path|
    decreases |siblings|
  {
    if siblings == [] then map[]
    else
      var i := |siblings| - 1;
      var n' := BranchHash(h, path[i], n, siblings[i]);
      map[n' := BranchOf(path[i], n, siblings[i])] + Branches(h, n', path, siblings[..i])
  }

  lemma ClimbStep(h: Hasher, n: nat, path: seq<Bit>, siblings: seq<nat>, i: nat)
    requires i < |siblings| <= |path|
    ensures
      var n' := BranchHash(h, path[i], n, siblings[i]);
      && Climb(h, n, path, siblings[..i + 1]) == Climb(h, n', path, siblings[..i])
      && Branches(h, n, path, siblings[..i + 1])
         == map[n' := BranchOf(path[i], n, siblings[i])] + Branches(h, n', path, siblings[..i])
  {
    assert siblings[..i + 1][..i] == siblings[..i];
  }

  lemma ClimbNoFurther(h: Hasher, n: nat, path: seq<Bit>, siblings: seq<nat>)
    requires |siblings| == 0
    ensures Climb(h, n, path, siblings) == n
    ensures Branches(h, n, path, siblings) == map[]
  {}

  /** Without siblings there is nothing to delete. */
  lemma NothingAbove<V>(nodes: map<nat, V>, h: Hasher, n: nat, path: seq<Bit>, siblings: seq<nat>)
    requires |siblings| == 0
    ensures nodes == nodes - Branches(h, n, path, siblings).Keys
  {}

  lemma StoreThenMerge<K, V>(a: map<K, V>, k: K, v: V, b: map<K, V>)
    ensures a[k := v] + b == a + (map[k := v] + b)
    ensures a - {k} - b.Keys == a - (map[k := v] + b).Keys
  {}

  lemma {:induction false} ClimbIsHash(h: Hasher, x: Tree, path: seq<Bit>, sibs: seq<Tree>)
    requires |sibs| <= |path|
    ensures Climb(h, Hash(h, x), path, Hashes(h, sibs)) == Hash(h, Up(x, path, sibs))
    decreases |sibs|
  {
    if sibs == [] {
    } else {
      var i := |sibs| - 1;
      ClimbIsHash(h, Join(path[i], x, sibs[i]), path, sibs[..i]);
      assert Hashes(h, sibs)[..i] == Hashes(h, sibs[..i]);
    }
  }

  // ------------------------------------------------------------ on canonicity

  lemma {:induction false} CanonicalDown(x: Tree, path: seq<Bit>, sibs: seq<Tree>, depth: nat)
    requires |sibs| <= |path|
    requires Canonical(Up(x, path, sibs), [], depth)
    ensures |sibs| > 0 ==> |sibs| <= depth && Size(x) + Size(sibs[|sibs| - 1]) >= 2
    ensures Canonical(x, path[..|sibs|], depth)
    ensures forall j :: 0 <= j < |sibs| ==> Canonical(sibs[j], path[..j] + [1 - path[j]], depth)
    decreases |sibs|
  {
    if sibs == [] {
    } else {
      var i := |sibs| - 1;
      CanonicalDown(Join(path[i], x, sibs[i]), path, sibs[..i], depth);
      assert path[..|sibs|] == path[..i] + [path[i]];
    }
  }

  lemma {:induction false} CanonicalUp(x: Tree, path: seq<Bit>, sibs: seq<Tree>, depth: nat)
    requires |sibs| <= |path| && |sibs| <= depth
    requires |sibs| > 0 ==> Size(x) + Size(sibs[|sibs| - 1]) >= 2
    requires Canonical(x, path[..|sibs|], depth)
    requires forall j :: 0 <= j < |sibs| ==> Canonical(sibs[j], path[..j] + [1 - path[j]], depth)
    ensures Canonical(Up(x, path, sibs), [], depth)
    decreases |sibs|
  {
    if sibs == [] {
    } else {
      var i := |sibs| - 1;
      assert path[..|sibs|] == path[..i] + [path[i]];
      CanonicalUp(Join(path[i], x, sibs[i]), path, sibs[..i], depth);
    }
  }

  // --------------------------------------------------------------- on entries

  ghost function SibEntries(sibs: seq<Tree>): map<nat, nat> {
    if sibs == [] then map[]
    else SibEntries(sibs[..|sibs| - 1]) + Entries(sibs[|sibs| - 1])
  }

  /** The entries around x are those of x and, apart from them, those of its siblings. */
  lemma {:induction false} EntriesUp(x: Tree, path: seq<Bit>, sibs: seq<Tree>, depth: nat)
    requires |sibs| <= |path|
    requires Canonical(Up(x, path, sibs), [], depth)
    ensures Entries(Up(x, path, sibs)) == Entries(x) + SibEntries(sibs)
    ensures Entries(x).Keys !! SibEntries(sibs).Keys
    decreases |sibs|
  {
    if sibs == [] {
    } else {
      var i := |sibs| - 1;
      var x' := Join(path[i], x, sibs[i]);
      CanonicalDown(x', path, sibs[..i], depth);
      JoinEntries(path[i], x, sibs[i], path[..i], depth);
      EntriesUp(x', path, sibs[..i], depth);
      MergeShift(Entries(x), Entries(sibs[i]), SibEntries(sibs[..i]));
    }
  }

  lemma MergeShift<K, V>(x: map<K, V>, s: map<K, V>, sibs: map<K, V>)
    requires x.Keys !! s.Keys && (x + s).Keys !! sibs.Keys
    ensures x + s + sibs == x + (sibs + s)
    ensures x.Keys !! (sibs + s).Keys
  {}

  lemma JoinEntries(b: Bit, x: Tree, s: Tree, p: seq<Bit>, depth: nat)
    requires Canonical(Join(b, x, s), p, depth)
    ensures Entries(Join(b, x, s)) == Entries(x) + Entries(s)
    ensures Entries(x).Keys !! Entries(s).Keys
  {
    if b == 1 {
      CanonicalEntries(Node(s, x), p, depth);
      MergeCommutes(Entries(s), Entries(x));
    } else {
      CanonicalEntries(Node(x, s), p, depth);
    }
  }

  /** A sibling's key leaves the path somewhere above x. */
  lemma {:induction false} SiblingOffPath(x: Tree, path: seq<Bit>, sibs: seq<Tree>, depth: nat, k: nat)
      returns (j: nat)
    requires |sibs| <= |path|
    requires Canonical(Up(x, path, sibs), [], depth)
    requires k in SibEntries(sibs)
    ensures j < |sibs| && BitAt(k, j) != path[j]
    decreases |sibs|
  {
    var i := |sibs| - 1;
    if k in Entries(sibs[i]) {
      CanonicalDown(x, path, sibs, depth);
      KeyBelow(sibs[i], path[..i], 1 - path[i], depth, k);
      j := i;
    } else {
      j := SiblingOffPath(Join(path[i], x, sibs[i]), path, sibs[..i], depth, k);
    }
  }

  lemma KeyBelow(t: Tree, p: seq<Bit>, b: Bit, depth: nat, k: nat)
    requires Canonical(t, p + [b], depth) && k in Entries(t)
    ensures BitAt(k, |p|) == b
  {
    CanonicalEntries(t, p + [b], depth);
    UnderSide(Entries(t), p, depth, b);
  }

  // ----------------------------------------------------------------- on nodes

  ghost function SibNodes(h: Hasher, sibs: seq<Tree>): map<nat, ChildNodes> {
    if sibs == [] then map[]
    else SibNodes(h, sibs[..|sibs| - 1]) + NodesOf(h, sibs[|sibs| - 1])
  }

  lemma {:induction false} DistinctDown(h: Hasher, x: Tree, path: seq<Bit>, sibs: seq<Tree>)
    requires |sibs| <= |path|
    requires Distinct(h, Up(x, path, sibs))
    ensures Distinct(h, x)
    ensures forall j :: 0 <= j < |sibs| ==> Distinct(h, sibs[j])
    decreases |sibs|
  {
    if sibs == [] {
    } else {
      var i := |sibs| - 1;
      DistinctDown(h, Join(path[i], x, sibs[i]), path, sibs[..i]);
    }
  }

  /** The nodes of the whole tree are three disjoint parts: the place, its siblings, and the path. */
  ghost predicate Partition<V>(whole: map<nat, V>, place: map<nat, V>, sibs: map<nat, V>, branches: map<nat, V>) {
    && whole == place + sibs + branches
    && place.Keys !! sibs.Keys
    && branches.Keys !! (place + sibs).Keys
  }

  /** Path surgery is sound: a tree whose hashes are distinct keeps no node in two of the three parts,
      so deleting the branches of a path removes nothing that is reachable off the path. */
  lemma {:induction false} NodesUp(h: Hasher, x: Tree, path: seq<Bit>, sibs: seq<Tree>)
    requires |sibs| <= |path|
    requires Distinct(h, Up(x, path, sibs))
    ensures Partition(NodesOf(h, Up(x, path, sibs)), NodesOf(h, x), SibNodes(h, sibs),
                      Branches(h, Hash(h, x), path, Hashes(h, sibs)))
    decreases |sibs|
  {
    if sibs == [] {
    } else {
      var i := |sibs| - 1;
      var x' := Join(path[i], x, sibs[i]);
      NodesUp(h, x', path, sibs[..i]);
      DistinctDown(h, x', path, sibs[..i]);
      JoinNodes(h, path[i], x, sibs[i]);
      BranchesStep(h, x, path, sibs);
      Regroup(NodesOf(h, Up(x, path, sibs)), NodesOf(h, x), NodesOf(h, sibs[i]),
              map[Hash(h, x') := ChildrenOf(h, x')],
              SibNodes(h, sibs[..i]), Branches(h, Hash(h, x'), path, Hashes(h, sibs[..i])));
    }
  }

  lemma BranchesStep(h: Hasher, x: Tree, path: seq<Bit>, sibs: seq<Tree>)
    requires 0 < |sibs| <= |path|
    ensures
      var i := |sibs| - 1;
      var x' := Join(path[i], x, sibs[i]);
      Branches(h, Hash(h, x), path, Hashes(h, sibs))
      == map[Hash(h, x') := ChildrenOf(h, x')] + Branches(h, Hash(h, x'), path, Hashes(h, sibs[..i]))
  {
    assert Hashes(h, sibs)[..|sibs| - 1] == Hashes(h, sibs[..|sibs| - 1]);
  }

  lemma JoinNodes(h: Hasher, b: Bit, x: Tree, s: Tree)
    requires Distinct(h, Join(b, x, s))
    ensures
      var t := Join(b, x, s);
      && Hash(h, t) == BranchHash(h, b, Hash(h, x), Hash(h, s))
      && ChildrenOf(h, t) == BranchOf(b, Hash(h, x), Hash(h, s))
      && NodesOf(h, t) == NodesOf(h, x) + NodesOf(h, s) + map[Hash(h, t) := ChildrenOf(h, t)]
      && NodesOf(h, x).Keys !! NodesOf(h, s).Keys
      && map[Hash(h, t) := ChildrenOf(h, t)].Keys !! (NodesOf(h, x) + NodesOf(h, s)).Keys
  {
    if b == 1 {
      MergeCommutes(NodesOf(h, s), NodesOf(h, x));
    }
  }

  lemma Regroup<V>(whole: map<nat, V>, x: map<nat, V>, s: map<nat, V>, top: map<nat, V>,
                   sibs: map<nat, V>, above: map<nat, V>)
    requires Partition(whole, x + s + top, sibs, above)
    requires x.Keys !! s.Keys && top.Keys !! (x + s).Keys
    ensures Partition(whole, x, sibs + s, top + above)
  {}

  /** The node map holds the top node of the place. */
  lemma PlaceStored(h: Hasher, x: Tree, path: seq<Bit>, sibs: seq<Tree>)
    requires |sibs| <= |path|
    requires Distinct(h, Up(x, path, sibs))
    ensures x.Empty? <==> Hash(h, x) == 0
    ensures !x.Empty? ==>
              var nodes := NodesOf(h, Up(x, path, sibs));
              Hash(h, x) in nodes && nodes[Hash(h, x)] == ChildrenOf(h, x)
  {
    DistinctDown(h, x, path, sibs);
    NodesUp(h, x, path, sibs);
  }

  /** One step of the descent. */
  lemma StepDown(h: Hasher, x: Tree, path: seq<Bit>, sibs: seq<Tree>)
    requires |sibs| < |path| && x.Node?
    ensures
      var child, other := ChildAt(path[|sibs|], x), ChildAt(1 - path[|sibs|], x);
      && Up(child, path, sibs + [other]) == Up(x, path, sibs)
      && Hashes(h, sibs + [other]) == Hashes(h, sibs) + [Hash(h, other)]
  {
    var other := ChildAt(1 - path[|sibs|], x);
    assert (sibs + [other])[..|sibs|] == sibs;
  }

  lemma {:induction false} SibNodesHold(h: Hasher, x: Tree, path: seq<Bit>, sibs: seq<Tree>, j: nat)
    requires j < |sibs| <= |path|
    requires Distinct(h, Up(x, path, sibs)) && !sibs[j].Empty?
    ensures Hash(h, sibs[j]) in SibNodes(h, sibs)
    ensures SibNodes(h, sibs)[Hash(h, sibs[j])] == ChildrenOf(h, sibs[j])
    decreases |sibs|
  {
    var i := |sibs| - 1;
    if j < i {
      var x' := Join(path[i], x, sibs[i]);
      SibNodesHold(h, x', path, sibs[..i], j);
      NodesUp(h, x', path, sibs[..i]);
      DistinctDown(h, x', path, sibs[..i]);
      JoinNodes(h, path[i], x, sibs[i]);
      assert Hash(h, sibs[j]) !in NodesOf(h, sibs[i]);
    }
  }

  /** A sibling is empty exactly when its hash is zero; otherwise the map holds its top node. */
  lemma SiblingStored(h: Hasher, x: Tree, path: seq<Bit>, sibs: seq<Tree>, j: nat)
    requires j < |sibs| <= |path|
    requires Distinct(h, Up(x, path, sibs))
    ensures sibs[j].Empty? <==> Hash(h, sibs[j]) == 0
    ensures !sibs[j].Empty? ==>
              var nodes := NodesOf(h, Up(x, path, sibs));
              Hash(h, sibs[j]) in nodes && nodes[Hash(h, sibs[j])] == ChildrenOf(h, sibs[j])
  {
    DistinctDown(h, x, path, sibs);
    if !sibs[j].Empty? {
      NodesUp(h, x, path, sibs);
      SibNodesHold(h, x, path, sibs, j);
    }
  }
}
