/** The tree object: server/internal/smt/tree.go and batch.go. */
module SparseMerkleTree {
  import opened Wrappers
  import opened Paths
  import opened Hashing
  import opened Tries
  import opened Nodes
  import opened Zippers
  import opened Surgery
  import opened Proofs
  import opened Bytes

  datatype Error = KeyTooWide | KeyExists | KeyMissing

  /** The fields store exactly the trie of m: its nodes, its hash and its number of keys. */
  ghost predicate Stores(h: Hasher, depth: nat, nodes: map<nat, ChildNodes>, root: nat, count: int,
                         m: map<nat, nat>) {
    && Faithful(h, m, depth)
    && nodes == NodesOf(h, TrieOf(m, depth))
    && root == Hash(h, TrieOf(m, depth))
    && count == |m|
  }

  /** The map {k -> value | k in keys}. */
  ghost function Constant(keys: seq<nat>, value: nat): map<nat, nat> {
    map k | k in keys :: value
  }

  ghost predicate NoDuplicates<T>(s: seq<T>) {
    forall i, j :: 0 <= i < j < |s| ==> s[i] != s[j]
  }

  /** Every key fits, is new to m, and occurs once. */
  ghost predicate Addable(m: map<nat, nat>, depth: nat, keys: seq<nat>) {
    && NoDuplicates(keys)
    && forall k :: k in keys ==> Fits(k, depth) && k !in m
  }

  ghost predicate Deletable(m: map<nat, nat>, keys: seq<nat>) {
    && NoDuplicates(keys)
    && forall k :: k in keys ==> k in m
  }

  ghost function Without(m: map<nat, nat>, keys: seq<nat>): map<nat, nat> {
    map k | k in m && k !in keys :: m[k]
  }

  /** No collision shows on the way while a batch of keys is added to, or deleted from, m. */
  ghost predicate FaithfulAdds(h: Hasher, m: map<nat, nat>, depth: nat, keys: seq<nat>, value: nat) {
    forall n :: 0 <= n <= |keys| && Addable(m, depth, keys[..n]) ==>
      Faithful(h, m + Constant(keys[..n], value), depth)
  }

  ghost predicate FaithfulDeletes(h: Hasher, m: map<nat, nat>, depth: nat, keys: seq<nat>) {
    forall n :: 0 <= n <= |keys| && Deletable(m, keys[..n]) ==> Faithful(h, Without(m, keys[..n]), depth)
  }

  lemma BatchStep(m: map<nat, nat>, depth: nat, keys: seq<nat>, value: nat, n: nat)
    requires n < |keys|
    ensures m + Constant(keys[..n + 1], value) == (m + Constant(keys[..n], value))[keys[n] := value]
    ensures Without(m, keys[..n + 1]) == Without(m, keys[..n]) - {keys[n]}
    ensures Addable(m, depth, keys[..n]) ==>
              (Addable(m, depth, keys[..n + 1]) <==>
               Fits(keys[n], depth) && keys[n] !in m + Constant(keys[..n], value))
    ensures Deletable(m, keys[..n]) ==>
              (Deletable(m, keys[..n + 1]) <==> keys[n] in Without(m, keys[..n]))
  {
    hide Fits;
    assert keys[..n + 1] == keys[..n] + [keys[n]];
  }

  lemma NoBatch(m: map<nat, nat>, depth: nat, keys: seq<nat>, value: nat)
    ensures Addable(m, depth, keys[..0]) && m + Constant(keys[..0], value) == m
    ensures Deletable(m, keys[..0]) && Without(m, keys[..0]) == m
  {}

  /** One node in fixed-width form. */
  datatype RawNode = RawNode(isLeaf: bool, hash: seq<Byte>, children: seq<seq<Byte>>)

  const HASH_BYTES := 32

  ghost predicate FitsHash(n: nat) {
    n < Capacity(HASH_BYTES)
  }

  /** 256 bits. */
  lemma FitsHashExactly(n: nat)
    ensures FitsHash(n)
            <==> n < 0x1_0000_0000_0000_0000_0000_0000_0000_0000_0000_0000_0000_0000_0000_0000_0000_0000
  {
    hide Capacity;
    HeaderCapacities();
  }

  /** FillBytes panics on wider numbers. */
  ghost predicate Encodable(nodes: map<nat, ChildNodes>) {
    forall x :: x in nodes ==> FitsHash(x) && forall c :: c in nodes[x] ==> FitsHash(c)
  }

  ghost function RawOf(hash: nat, cn: ChildNodes): RawNode {
    RawNode(IsLeaf(cn), Encode(hash, HASH_BYTES),
            seq(|cn|, j requires 0 <= j < |cn| => Encode(cn[j], HASH_BYTES)))
  }

  /** order lists the keys of m, each once. */
  ghost predicate Lists<T>(order: seq<nat>, m: map<nat, T>) {
    NoDuplicates(order) && forall x :: x in order <==> x in m
  }

  /** The keys of the leaves among the nodes, in the given order. */
  ghost function LeafKeys(nodes: map<nat, ChildNodes>, order: seq<nat>): seq<nat>
    requires forall x :: x in order ==> x in nodes
  {
    if order == [] then []
    else
      var rest := LeafKeys(nodes, order[1..]);
      if IsLeaf(nodes[order[0]]) then [nodes[order[0]][0]] + rest else rest
  }

  /** They come in the order of the nodes. */
  lemma {:induction false} LeafKeysInOrder(nodes: map<nat, ChildNodes>, a: seq<nat>, b: seq<nat>)
    requires forall x :: x in a + b ==> x in nodes
    ensures (forall x :: x in a ==> x in nodes) && forall x :: x in b ==> x in nodes
    ensures LeafKeys(nodes, a + b) == LeafKeys(nodes, a) + LeafKeys(nodes, b)
    decreases |a|
  {
    hide IsLeaf;
    assert forall x :: (x in a ==> x in a + b) && (x in b ==> x in a + b);
    if a == [] {
      assert a + b == b;
    } else {
      assert (a + b)[1..] == a[1..] + b;
      LeafKeysInOrder(nodes, a[1..], b);
    }
  }

  /** out holds the nodes in the given order. */
  ghost predicate RawListing(out: seq<RawNode>, order: seq<nat>, nodes: map<nat, ChildNodes>) {
    && Lists(order, nodes)
    && |out| == |order|
    && forall i :: 0 <= i < |out| ==> out[i] == RawOf(order[i], nodes[order[i]])
  }

  method BigTo32(n: nat) returns (buf: seq<Byte>)
    requires FitsHash(n)
    ensures buf == Encode(n, HASH_BYTES)
  {
    var bytes := new Byte[HASH_BYTES](_ => 0);
    var rest := n;
    var i := HASH_BYTES;
    while i > 0
      invariant 0 <= i <= HASH_BYTES
      invariant Encode(n, HASH_BYTES) == Encode(rest, i) + bytes[i..]
    {
      i := i - 1;
      bytes[i] := rest % 256;
      rest := rest / 256;
    }
    buf := bytes[..];
  }

  /** The keys collected once only the nodes in rest are still to be visited. */
  ghost predicate Collected(h: Hasher, m: map<nat, nat>, keys: seq<nat>, rest: set<nat>) {
    && NoDuplicates(keys)
    && (forall k :: k in keys ==> k in m && h.hash3(k, m[k], 1) !in rest)
    && (forall k :: k in m && h.hash3(k, m[k], 1) !in rest ==> k in keys)
  }

  lemma CollectNext(h: Hasher, nodes: map<nat, ChildNodes>, m: map<nat, nat>, keys: seq<nat>, rest: set<nat>, x: nat)
    requires LeavesAre(h, nodes, m) && Collected(h, m, keys, rest)
    requires x in rest && x in nodes
    ensures Collected(h, m, if IsLeaf(nodes[x]) then keys + [nodes[x][0]] else keys, rest - {x})
  {
    if IsLeaf(nodes[x]) {
      var k := nodes[x][0];
      assert k !in keys;
    } else {
      assert forall k :: k in m ==> IsLeaf([k, m[k], 1]);
    }
  }

  lemma NothingCollected(h: Hasher, nodes: map<nat, ChildNodes>, m: map<nat, nat>, order: seq<nat>)
    requires LeavesAre(h, nodes, m)
    requires Lists(order, nodes)
    ensures Collected(h, m, [], nodes.Keys)
    ensures order[0..] == order && Unvisited(order, 0, nodes.Keys)
    ensures NoDuplicates(order) && forall x :: x in order ==> x in nodes
  {}

  lemma CollectedAll(h: Hasher, nodes: map<nat, ChildNodes>, m: map<nat, nat>, keys: seq<nat>, order: seq<nat>,
                     rest: set<nat>)
    requires Unvisited(order, |order|, rest) && Collected(h, m, keys, rest)
    ensures LeafKeys(nodes, order[|order|..]) == [] && keys + [] == keys
    ensures NoDuplicates(keys) && forall k :: k in keys <==> k in m
  {
    assert rest == {};
  }

  ghost predicate Unvisited(order: seq<nat>, i: nat, rest: set<nat>)
    requires i <= |order|
  {
    forall x :: x in rest <==> x in order[i..]
  }

  lemma VisitNext(order: seq<nat>, i: nat, rest: set<nat>)
    requires i < |order| && NoDuplicates(order) && Unvisited(order, i, rest)
    ensures order[i] in rest && Unvisited(order, i + 1, rest - {order[i]})
  {
    assert order[i..] == [order[i]] + order[i + 1..];
  }

  lemma LeafKeysNext(nodes: map<nat, ChildNodes>, order: seq<nat>, i: nat, keys: seq<nat>)
    requires i < |order| && forall x :: x in order ==> x in nodes
    ensures order[i..] == [order[i]] + order[i + 1..]
    ensures
      var cn := nodes[order[i]];
      var now := if IsLeaf(cn) then keys + [cn[0]] else keys;
      now + LeafKeys(nodes, order[i + 1..]) == keys + LeafKeys(nodes, order[i..])
  {
    assert order[i..] == [order[i]] + order[i + 1..];
  }

  /** Add's surgery, written out on values, turns the store of m into the store of the extended map. */
  lemma AddStored(h: Hasher, depth: nat, m: map<nat, nat>, nodes: map<nat, ChildNodes>, root: nat, count: int,
                  key: nat, value: nat, x: Tree, sibs: seq<Tree>, parting: nat,
                  kept: map<nat, ChildNodes>, leaf: nat, siblings: seq<nat>,
                  nodes': map<nat, ChildNodes>, root': nat)
    requires Stores(h, depth, nodes, root, count, m)
    requires EndsAt(m, depth, key, x, sibs) && Fits(key, depth) && key !in m
    requires PartsAt(key, x, sibs, depth, parting)
    requires Faithful(h, m[key := value], depth)
    requires kept == nodes - Branches(h, Hash(h, x), PathOf(key, depth), Hashes(h, sibs)).Keys
    requires leaf == Hash(h, Leaf(key, value))
    requires siblings == Hashes(h, Extended(x, sibs, parting)) && |siblings| <= depth
    requires nodes' == kept[leaf := [key, value, 1]] + Branches(h, leaf, PathOf(key, depth), siblings)
    requires root' == Climb(h, leaf, PathOf(key, depth), siblings)
    ensures Stores(h, depth, nodes', root', count + 1, m[key := value])
  {
    hide Trie, Up, BitAt, BitLen, NodesOf, Distinct, Canonical, Entries, Climb, Branches, Pad, Extended;
    AddNodes(h, m, depth, key, value, x, sibs, parting);
  }

  /** Likewise for Delete. */
  lemma DeleteStored(h: Hasher, depth: nat, m: map<nat, nat>, nodes: map<nat, ChildNodes>, root: nat, count: int,
                     key: nat, x: Tree, sibs: seq<Tree>,
                     kept: map<nat, ChildNodes>, moved: nat, siblings: seq<nat>,
                     nodes': map<nat, ChildNodes>, root': nat)
    requires Stores(h, depth, nodes, root, count, m)
    requires EndsAt(m, depth, key, x, sibs) && key in m
    requires Faithful(h, m - {key}, depth)
    requires kept == nodes - {Hash(h, x)} - Branches(h, Hash(h, x), PathOf(key, depth), Hashes(h, sibs)).Keys
    requires moved == Hash(h, Collapsed(sibs).0)
    requires siblings == Hashes(h, Collapsed(sibs).1) && |siblings| <= depth
    requires nodes' == kept + Branches(h, moved, PathOf(key, depth), siblings)
    requires root' == Climb(h, moved, PathOf(key, depth), siblings)
    ensures Stores(h, depth, nodes', root', count - 1, m - {key})
  {
    hide Trie, Up, BitAt, BitLen, NodesOf, Distinct, Canonical, Entries, Climb, Branches, Collapsed, Trim;
    DeleteNodes(h, m, depth, key, x, sibs);
    assert m.Keys == (m - {key}).Keys + {key};
  }

  class SMT {
    const h: Hasher
    const depth: nat
    var nodes: map<nat, ChildNodes>
    var root: nat
    var count: int

    /** The map that the tree denotes. */
    ghost var entries: map<nat, nat>

    ghost predicate Valid()
      reads this
    {
      Stores(h, depth, nodes, root, count, entries)
    }

    constructor (h: Hasher, depth: nat)
      ensures Valid() && entries == map[] && this.h == h && this.depth == depth
    {
      this.h, this.depth := h, depth;
      nodes, root, count := map[], 0, 0;
      entries := map[];
    }

    /** Follows the key's path from the root. The ghost results are the subtree where the search
        ends and the sibling subtrees met. */
    method RetrieveEntry(key: nat)
        returns (entry: ChildNodes, matching: Option<ChildNodes>, siblings: seq<nat>,
                 ghost x: Tree, ghost sibs: seq<Tree>)
      requires Valid()
      ensures EndsAt(entries, depth, key, x, sibs)
      ensures siblings == Hashes(h, sibs)
      ensures entry == if key in entries then [key, entries[key], 1] else [key]
      ensures key in entries <==> x.Leaf? && x.key == key
      ensures matching == if x.Leaf? && key !in entries then Some(ChildrenOf(h, x)) else None
    {
      hide Spells, Trie, Up, BitAt, BitLen, NodesOf, Distinct, Canonical, Entries;
      ghost var t := TrieOf(entries, depth);
      var path := KeyToPath(key, depth);
      UpFromTop(t, path);
      siblings := [];
      var node := root;
      x, sibs := t, [];
      TrieHolds(entries, [], depth);
      var i := 0;
      while node != 0
        invariant i == |sibs| <= depth
        invariant t == Up(x, path, sibs)
        invariant node == Hash(h, x)
        invariant siblings == Hashes(h, sibs)
        decreases x
      {
        PlaceStored(h, x, path, sibs);
        if node !in nodes {
          break;
        }
        var childNodes := nodes[node];
        if IsLeaf(childNodes) {
          EndsAtLookup(entries, depth, key, x, sibs);
          if childNodes[0] == key {
            return childNodes, None, siblings, x, sibs;
          }
          return [key], Some(childNodes), siblings, x, sibs;
        }
        CanonicalDown(x, path, sibs, depth);
        StepDown(h, x, path, sibs);
        var direction := path[i];
        node := childNodes[direction];
        siblings := siblings + [childNodes[1 - direction]];
        x, sibs := ChildAt(direction, x), sibs + [ChildAt(1 - direction, x)];
        i := i + 1;
      }
      PlaceStored(h, x, path, sibs);
      EndsAtLookup(entries, depth, key, x, sibs);
      return [key], None, siblings, x, sibs;
    }

    method Get(key: nat) returns (value: Option<nat>)
      requires Valid()
      ensures value == if key in entries then Some(entries[key]) else None
    {
      var entry, _, _, _, _ := RetrieveEntry(key);
      if |entry| >= 2 {
        return Some(entry[1]);
      }
      return None;
    }

    /** Removes the branches above the node, bottom-up. */
    method DeleteOldNodes(node: nat, path: seq<Bit>, siblings: seq<nat>)
      requires |siblings| <= |path|
      modifies this`nodes
      ensures nodes == old(nodes) - Branches(h, node, path, siblings).Keys
    {
      hide Branches;
      var n := node;
      var i := |siblings| - 1;
      assert siblings[..i + 1] == siblings;
      while i >= 0
        invariant -1 <= i < |siblings|
        invariant nodes - Branches(h, n, path, siblings[..i + 1]).Keys
                  == old(nodes) - Branches(h, node, path, siblings).Keys
      {
        ClimbStep(h, n, path, siblings, i);
        ghost var above := Branches(h, BranchHash(h, path[i], n, siblings[i]), path, siblings[..i]);
        var children := BranchOf(path[i], n, siblings[i]);
        n := h.hash2(children[0], children[1]);
        StoreThenMerge(nodes, n, children, above);
        nodes := nodes - {n};
        i := i - 1;
      }
      NothingAbove(nodes, h, n, path, siblings[..0]);
    }

    /** Hashes from the node up past siblings[i], ..., siblings[0] and stores the branches. */
    method AddNewNodes(node: nat, path: seq<Bit>, siblings: seq<nat>, last: int) returns (n: nat)
      requires -1 <= last < |siblings| <= |path|
      modifies this`nodes
      ensures n == Climb(h, node, path, siblings[..last + 1])
      ensures nodes == old(nodes) + Branches(h, node, path, siblings[..last + 1])
      ensures last == |siblings| - 1 ==> siblings[..last + 1] == siblings
    {
      hide Climb, Branches;
      n := node;
      var i := last;
      while i >= 0
        invariant -1 <= i <= last
        invariant Climb(h, n, path, siblings[..i + 1]) == Climb(h, node, path, siblings[..last + 1])
        invariant nodes + Branches(h, n, path, siblings[..i + 1])
                  == old(nodes) + Branches(h, node, path, siblings[..last + 1])
      {
        ClimbStep(h, n, path, siblings, i);
        ghost var above := Branches(h, BranchHash(h, path[i], n, siblings[i]), path, siblings[..i]);
        var childNodes := BranchOf(path[i], n, siblings[i]);
        n := h.hash2(childNodes[0], childNodes[1]);
        StoreThenMerge(nodes, n, childNodes, above);
        nodes := nodes[n := childNodes];
        i := i - 1;
      }
      ClimbNoFurther(h, n, path, siblings[..0]);
      MergeEmpty(nodes);
    }

    method Add(key: nat, value: nat) returns (err: Outcome<Error>)
      requires Valid()
      requires Fits(key, depth) && key !in entries ==> Faithful(h, entries[key := value], depth)
      modifies this
      ensures Valid()
      ensures err == if !Fits(key, depth) then Fail(KeyTooWide)
                     else if key in old(entries) then Fail(KeyExists)
                     else Pass
      ensures entries == if err.Pass? then old(entries)[key := value] else old(entries)
    {
      hide Spells, Trie, Up, BitAt, BitLen, NodesOf, Distinct, Canonical, Entries, Climb, Branches, Pad,
           Stores, Faithful, AllFit, TrieOf, SibEntries, SibNodes;
      if BitLen(key) > depth {
        return Fail(KeyTooWide);
      }
      var entry, matching, siblings, x, sibs := RetrieveEntry(key);
      if |entry| >= 2 {
        return Fail(KeyExists);
      }
      ghost var m, m' := entries, entries[key := value];
      ghost var before := nodes;
      var path := KeyToPath(key, depth);
      var node := 0;
      if matching.Some? {
        node := h.hash3(matching.value[0], matching.value[1], matching.value[2]);
      }
      if |siblings| > 0 {
        DeleteOldNodes(node, path, siblings);
      } else {
        NothingAbove(nodes, h, node, path, siblings);
      }
      ghost var kept := nodes;
      assert kept == before - Branches(h, Hash(h, x), path, Hashes(h, sibs)).Keys;
      ghost var parting := 0;
      if matching.Some? {
        parting := FindParting(m, depth, key, x, sibs);
        var matchingPath := KeyToPath(matching.value[0], depth);
        var i := |siblings|;
        while matchingPath[i] == path[i]
          invariant |sibs| <= i == |siblings| <= parting
          invariant siblings[..|sibs|] == Hashes(h, sibs)
          invariant forall j :: |sibs| <= j < i ==> siblings[j] == 0
          decreases parting - i
        {
          siblings := siblings + [0];
          i := i + 1;
        }
        ExtendedHashes(h, x, sibs, parting, siblings);
        siblings := siblings + [node];
      }
      assert siblings == Hashes(h, Extended(x, sibs, parting));
      AddCanonical(m, depth, key, value, x, sibs, parting);
      var newNode := h.hash3(key, value, 1);
      nodes := nodes[newNode := [key, value, 1]];
      ghost var root0, count0 := root, count;
      ghost var grown := nodes;
      root := AddNewNodes(newNode, path, siblings, |siblings| - 1);
      assert nodes == grown + Branches(h, newNode, path, siblings);
      AddStored(h, depth, m, before, root0, count0, key, value, x, sibs, parting,
                kept, newNode, siblings, nodes, root);
      count := count + 1;
      entries := m';
      return Pass;
    }

    method Delete(key: nat) returns (err: Outcome<Error>)
      requires Valid()
      requires key in entries ==> Faithful(h, entries - {key}, depth)
      modifies this
      ensures Valid()
      ensures err == if key in old(entries) then Pass else Fail(KeyMissing)
      ensures entries == old(entries) - {key}
    {
      hide Spells, Trie, Up, BitAt, BitLen, NodesOf, Distinct, Canonical, Entries, Climb, Branches, Trim,
           Faithful, AllFit, TrieOf, SibEntries, SibNodes;
      ghost var m, m' := entries, entries - {key};
      var entry, _, siblings, x, sibs := RetrieveEntry(key);
      if |entry| < 2 {
        assert m' == m;
        return Fail(KeyMissing);
      }
      ghost var before, root0, count0 := nodes, root, count;
      var path := KeyToPath(key, depth);
      var node := h.hash3(entry[0], entry[1], entry[2]);
      EndsAtLookup(m, depth, key, x, sibs);
      DeleteShape(m, depth, key, x, sibs);
      nodes := nodes - {node};
      root := 0;
      ghost var kept, moved, rest := nodes, 0, siblings;
      if |siblings| > 0 {
        DeleteOldNodes(node, path, siblings);
        kept := nodes;
        LastSibling(h, m, depth, key, x, sibs);
        assert kept == SibNodes(h, sibs);
        var lastSibling := siblings[|siblings| - 1];
        var isLeaf := IsLeafNode(lastSibling);
        if !isLeaf {
          root := AddNewNodes(0, path, siblings, |siblings| - 1);
        } else {
          siblings := siblings[..|siblings| - 1];
          var i := IndexOfLastNonZero(siblings);
          TrimHashes(h, m, depth, key, x, sibs, siblings, i);
          root := AddNewNodes(lastSibling, path, siblings, i);
          moved, rest := lastSibling, siblings[..i + 1];
        }
      } else {
        NothingAbove(nodes, h, node, path, siblings);
        MergeEmpty(nodes);
        ClimbNoFurther(h, 0, path, siblings);
      }
      DeleteStored(h, depth, m, before, root0, count0, key, x, sibs, kept, moved, rest, nodes, root);
      count := count - 1;
      entries := m';
      return Pass;
    }

    /** Whether the hash is stored as a leaf. */
    method IsLeafNode(node: nat) returns (r: bool)
      ensures r == (node in nodes && IsLeaf(nodes[node]))
    {
      return node in nodes && IsLeaf(nodes[node]);
    }

    static method IndexOfLastNonZero(arr: seq<nat>) returns (r: int)
      ensures -1 <= r < |arr|
      ensures r >= 0 ==> arr[r] != 0
      ensures forall j :: r < j < |arr| ==> arr[j] == 0
    {
      var i := |arr| - 1;
      while i >= 0
        invariant -1 <= i < |arr|
        invariant forall j :: i < j < |arr| ==> arr[j] == 0
      {
        if arr[i] != 0 {
          return i;
        }
        i := i - 1;
      }
      return -1;
    }

    /** The result is read off the search; the loops that copy each element into a new slice are the
        sequence values themselves. */
    method CreateProof(key: nat) returns (proof: MerkleProof)
      requires Valid()
      ensures VerdictOf(h, proof, depth) == Accepted
      ensures proof.membership <==> key in entries
      ensures proof.entry == if key in entries then [key, entries[key], 1] else [key]
      ensures proof.matching.Some? ==> |proof.matching.value| == 3 && proof.matching.value[0] != key
      ensures proof.root == root && |proof.siblings| <= depth
      ensures exists x, sibs :: EndsAt(entries, depth, key, x, sibs) && proof == ProofAt(h, key, x, sibs, root)
    {
      var entry, matching, siblings, x, sibs := RetrieveEntry(key);
      var membership := |entry| >= 2;
      proof := MerkleProof(entry, matching, siblings, root, membership);
      EndsAtLookup(entries, depth, key, x, sibs);
      ProofComplete(h, entries, depth, key, x, sibs);
    }

    /** Restores a state from outside. Nothing is checked; m is the map it is meant to denote. */
    method SetNodes(nodes: map<nat, ChildNodes>, root: nat, count: int, ghost m: map<nat, nat>)
      modifies this
      ensures this.nodes == nodes && this.root == root && this.count == count && entries == m
    {
      this.nodes := nodes;
      this.root := root;
      this.count := count;
      entries := m;
    }

    /** Copies the map into a larger one. */
    method GrowNodes(additionalEntries: nat)
      modifies this`nodes
      ensures nodes == old(nodes)
    {
      var needed := |nodes| + additionalEntries * 3;
      if needed > |nodes| {
        var grown: map<nat, ChildNodes> := map[];
        var rest := nodes.Keys;
        while rest != {}
          invariant rest <= nodes.Keys
          invariant grown == map k | k in nodes.Keys - rest :: nodes[k]
        {
          var k :| k in rest;
          grown := grown[k := nodes[k]];
          rest := rest - {k};
        }
        nodes := grown;
      }
    }

    /** The keys of the leaves; order is the order in which the node map is traversed. */
    method Keys(order: seq<nat>) returns (keys: seq<nat>)
      requires Valid() && Lists(order, nodes)
      ensures keys == LeafKeys(nodes, order)
      ensures NoDuplicates(keys)
      ensures forall k :: k in keys <==> k in entries
    {
      hide LeafKeys, Collected, Unvisited, LeavesAre, NoDuplicates, NodesOf, Distinct, Canonical, Trie, Entries, IsLeaf;
      TrieHolds(entries, [], depth);
      LeavesStored(h, TrieOf(entries, depth), [], depth);
      keys := [];
      NothingCollected(h, nodes, entries, order);
      ghost var rest := nodes.Keys;
      for i := 0 to |order|
        invariant Unvisited(order, i, rest)
        invariant Collected(h, entries, keys, rest)
        invariant keys + LeafKeys(nodes, order[i..]) == LeafKeys(nodes, order)
      {
        var x := order[i];
        VisitNext(order, i, rest);
        CollectNext(h, nodes, entries, keys, rest, x);
        LeafKeysNext(nodes, order, i, keys);
        var cn := nodes[x];
        if IsLeaf(cn) {
          keys := keys + [cn[0]];
        }
        rest := rest - {x};
      }
      CollectedAll(h, nodes, entries, keys, order, rest);
    }

    /** The stored nodes in fixed-width form, in whatever order the map is traversed. */
    method NodesRaw() returns (out: seq<RawNode>)
      requires Encodable(nodes)
      ensures exists order: seq<nat> :: RawListing(out, order, nodes)
    {
      hide FitsHash, Encode, Capacity;
      ghost var order: seq<nat> := [];
      out := [];
      var rest := nodes.Keys;
      while rest != {}
        invariant rest <= nodes.Keys
        invariant NoDuplicates(order)
        invariant forall x :: x in order <==> x in nodes && x !in rest
        invariant |out| == |order|
        invariant forall i :: 0 <= i < |out| ==> out[i] == RawOf(order[i], nodes[order[i]])
      {
        var x :| x in rest;
        var cn := nodes[x];
        var hash := BigTo32(x);
        var children := [];
        for j := 0 to |cn|
          invariant |children| == j
          invariant forall i :: 0 <= i < j ==> children[i] == Encode(cn[i], HASH_BYTES)
        {
          var child := BigTo32(cn[j]);
          children := children + [child];
        }
        assert RawNode(IsLeaf(cn), hash, children) == RawOf(x, cn);
        out, order := out + [RawNode(IsLeaf(cn), hash, children)], order + [x];
        rest := rest - {x};
      }
      assert RawListing(out, order, nodes);
    }

    method BatchAdd(keys: seq<nat>, value: nat) returns (err: Outcome<Error>, ghost n: nat)
      requires Valid() && FaithfulAdds(h, entries, depth, keys, value)
      modifies this
      ensures Valid()
      ensures n <= |keys| && Addable(old(entries), depth, keys[..n])
      ensures entries == old(entries) + Constant(keys[..n], value)
      ensures err.Pass? <==> n == |keys|
      ensures err.Fail? ==>
                && !Addable(old(entries), depth, keys[..n + 1])
                && err.error == if !Fits(keys[n], depth) then KeyTooWide else KeyExists
    {
      hide Stores, Faithful, BitLen, Addable, Constant;
      GrowNodes(|keys|);
      ghost var m := entries;
      NoBatch(m, depth, keys, value);
      for i := 0 to |keys|
        invariant Valid()
        invariant Addable(m, depth, keys[..i])
        invariant entries == m + Constant(keys[..i], value)
      {
        BatchStep(m, depth, keys, value, i);
        err := Add(keys[i], value);
        if err.Fail? {
          return err, i;
        }
      }
      assert keys[..|keys|] == keys;
      return Pass, |keys|;
    }

    method BatchDelete(keys: seq<nat>) returns (err: Outcome<Error>, ghost n: nat)
      requires Valid() && FaithfulDeletes(h, entries, depth, keys)
      modifies this
      ensures Valid()
      ensures n <= |keys| && Deletable(old(entries), keys[..n])
      ensures entries == Without(old(entries), keys[..n])
      ensures err.Pass? <==> n == |keys|
      ensures err.Fail? ==> err.error == KeyMissing && !Deletable(old(entries), keys[..n + 1])
    {
      hide Stores, Faithful, Deletable, Without;
      ghost var m := entries;
      NoBatch(m, depth, keys, 0);
      for i := 0 to |keys|
        invariant Valid()
        invariant Deletable(m, keys[..i])
        invariant entries == Without(m, keys[..i])
      {
        BatchStep(m, depth, keys, 0, i);
        err := Delete(keys[i]);
        if err.Fail? {
          return err, i;
        }
      }
      assert keys[..|keys|] == keys;
      return Pass, |keys|;
    }
  }

  lemma ValidFits(t: SMT)
    requires t.Valid()
    ensures AllFit(t.entries, t.depth)
  {}

  /** What a valid tree holds, from its map alone: the root, and nodes that are content-addressed, closed, reach
      from the root and have exactly the entries for leaves. */
  lemma ValidSpelledOut(t: SMT)
    requires t.Valid()
    ensures t.root == MerkleRoot(t.h, t.entries, 0, t.depth)
    ensures Addressed(t.h, t.nodes) && (t.root == 0 || t.root in t.nodes)
    ensures LeavesAre(t.h, t.nodes, t.entries)
    ensures t.count == |t.entries|
  {
    hide MerkleRoot, Addressed, LeavesAre, BitLen;
    TrieRoot(t.h, t.entries, [], t.depth);
    NodesAddressed(t.h, TrieOf(t.entries, t.depth));
    TrieHolds(t.entries, [], t.depth);
    LeavesStored(t.h, TrieOf(t.entries, t.depth), [], t.depth);
  }
}
