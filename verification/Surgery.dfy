/** What Add and Delete do to a trie, stated on whole trees: the rebuilt path is the trie of the
    changed map, and the node map changes by exactly the deleted and the created nodes. */
module Surgery {
  import opened Paths
  import opened Hashing
  import opened Tries
  import opened Nodes
  import opened Zippers

  /** The search for key in the trie of m ends at x, having met the siblings sibs. */
  ghost predicate EndsAt(m: map<nat, nat>, depth: nat, key: nat, x: Tree, sibs: seq<Tree>) {
    && AllFit(m, depth)
    && |sibs| <= depth
    && TrieOf(m, depth) == Up(x, PathOf(key, depth), sibs)
    && !x.Node?
  }

  /** The search finds the key if it is there, and otherwise at most a key that agrees with it
      on every bit looked at. */
  lemma EndsAtLookup(m: map<nat, nat>, depth: nat, key: nat, x: Tree, sibs: seq<Tree>)
    requires EndsAt(m, depth, key, x, sibs)
    ensures x.Leaf? ==> x.key in m && m[x.key] == x.value
    ensures x.Leaf? ==> OnPath(PathOf(key, depth)[..|sibs|], x.key)
    ensures key in m <==> x.Leaf? && x.key == key
  {
    var path := PathOf(key, depth);
    EndsAtSplit(m, depth, key, x, sibs);
    CanonicalDown(x, path, sibs, depth);
    if key in SibEntries(sibs) {
      var j := SiblingOffPath(x, path, sibs, depth, key);
    }
  }

  lemma EndsAtSplit(m: map<nat, nat>, depth: nat, key: nat, x: Tree, sibs: seq<Tree>)
    requires EndsAt(m, depth, key, x, sibs)
    ensures Canonical(Up(x, PathOf(key, depth), sibs), [], depth)
    ensures m == Entries(x) + SibEntries(sibs)
    ensures Entries(x).Keys !! SibEntries(sibs).Keys
  {
    TrieHolds(m, [], depth);
    EntriesUp(x, PathOf(key, depth), sibs, depth);
  }

  // ------------------------------------------------------------------- adding

  lemma SnocEntries(sibs: seq<Tree>, x: Tree)
    ensures SibEntries(sibs + [x]) == SibEntries(sibs) + Entries(x)
  {
    assert (sibs + [x])[..|sibs|] == sibs;
  }

  lemma SnocNodes(h: Hasher, sibs: seq<Tree>, x: Tree)
    ensures SibNodes(h, sibs + [x]) == SibNodes(h, sibs) + NodesOf(h, x)
  {
    assert (sibs + [x])[..|sibs|] == sibs;
  }

  lemma MergeEmpty<K, V>(a: map<K, V>)
    ensures a + map[] == a
  {}

  /** sibs, followed by empty slots up to length n. */
  ghost function Pad(sibs: seq<Tree>, n: nat): (r: seq<Tree>)
    ensures |r| == if |sibs| < n then n else |sibs|
    ensures r[..|sibs|] == sibs
    ensures forall i :: |sibs| <= i < |r| ==> r[i].Empty?
    decreases n - |sibs|
  {
    if n <= |sibs| then sibs else Pad(sibs + [Empty], n)
  }

  lemma {:induction false} PadEntries(sibs: seq<Tree>, n: nat)
    ensures SibEntries(Pad(sibs, n)) == SibEntries(sibs)
    decreases n - |sibs|
  {
    if |sibs| >= n {
    } else {
      SnocEntries(sibs, Empty);
      MergeEmpty(SibEntries(sibs));
      PadEntries(sibs + [Empty], n);
    }
  }

  lemma {:induction false} PadNodes(h: Hasher, sibs: seq<Tree>, n: nat)
    ensures SibNodes(h, Pad(sibs, n)) == SibNodes(h, sibs)
    decreases n - |sibs|
  {
    if |sibs| >= n {
    } else {
      SnocNodes(h, sibs, Empty);
      MergeEmpty(SibNodes(h, sibs));
      PadNodes(h, sibs + [Empty], n);
    }
  }

  /** The siblings of a new leaf: those met on the way, and below them, if the search ended at
      another leaf, empty slots down to the bit where the two keys part. */
  ghost function Extended(x: Tree, sibs: seq<Tree>, parting: nat): seq<Tree>
    requires x.Empty? || |sibs| <= parting
  {
    if x.Empty? then sibs else Pad(sibs, parting) + [x]
  }

  /** The bit where the new key's path leaves that of the leaf found. */
  ghost predicate PartsAt(key: nat, x: Tree, sibs: seq<Tree>, depth: nat, parting: nat) {
    x.Leaf? ==>
      && |sibs| <= parting < depth
      && (forall i :: 0 <= i < parting ==> BitAt(x.key, i) == BitAt(key, i))
      && BitAt(x.key, parting) != BitAt(key, parting)
  }

  lemma ExtendedEntries(x: Tree, sibs: seq<Tree>, parting: nat)
    requires x.Empty? || |sibs| <= parting
    ensures SibEntries(Extended(x, sibs, parting)) == SibEntries(sibs) + Entries(x)
  {
    if x.Empty? {
      MergeEmpty(SibEntries(sibs));
    } else {
      PadEntries(sibs, parting);
      SnocEntries(Pad(sibs, parting), x);
    }
  }

  lemma ExtendedNodes(h: Hasher, x: Tree, sibs: seq<Tree>, parting: nat)
    requires x.Empty? || |sibs| <= parting
    ensures SibNodes(h, Extended(x, sibs, parting)) == SibNodes(h, sibs) + NodesOf(h, x)
  {
    if x.Empty? {
      MergeEmpty(SibNodes(h, sibs));
    } else {
      PadNodes(h, sibs, parting);
      SnocNodes(h, Pad(sibs, parting), x);
    }
  }

  /** The tree rebuilt by Add is the trie of the extended map. */
  lemma AddShape(m: map<nat, nat>, depth: nat, key: nat, value: nat, x: Tree, sibs: seq<Tree>, parting: nat)
    requires EndsAt(m, depth, key, x, sibs) && Fits(key, depth) && key !in m
    requires PartsAt(key, x, sibs, depth, parting)
    ensures EndsAt(m[key := value], depth, key, Leaf(key, value), Extended(x, sibs, parting))
  {
    var path := PathOf(key, depth);
    var sibs' := Extended(x, sibs, parting);
    var t := Up(Leaf(key, value), path, sibs');
    EndsAtSplit(m, depth, key, x, sibs);
    AddCanonical(m, depth, key, value, x, sibs, parting);
    EntriesUp(Leaf(key, value), path, sibs', depth);
    ExtendedEntries(x, sibs, parting);
    MergeInsert(m, Entries(x), SibEntries(sibs), key, value);
    CanonicalIsTrie(t, [], depth);
  }

  lemma MergeInsert(m: map<nat, nat>, x: map<nat, nat>, sibs: map<nat, nat>, key: nat, value: nat)
    requires m == x + sibs && x.Keys !! sibs.Keys && key !in m
    ensures map[key := value] + (sibs + x) == m[key := value]
  {}

  lemma AddCanonical(m: map<nat, nat>, depth: nat, key: nat, value: nat, x: Tree, sibs: seq<Tree>, parting: nat)
    requires EndsAt(m, depth, key, x, sibs) && Fits(key, depth)
    requires PartsAt(key, x, sibs, depth, parting)
    ensures |Extended(x, sibs, parting)| <= depth
    ensures Canonical(Up(Leaf(key, value), PathOf(key, depth), Extended(x, sibs, parting)), [], depth)
  {
    hide BitAt, BitLen, Trie;
    var path := PathOf(key, depth);
    var sibs' := Extended(x, sibs, parting);
    EndsAtSplit(m, depth, key, x, sibs);
    CanonicalDown(x, path, sibs, depth);
    forall j | 0 <= j < |sibs'|
      ensures Canonical(sibs'[j], path[..j] + [1 - path[j]], depth)
    {
      ExtendedAt(x, sibs, parting, j);
      if j == parting && x.Leaf? {
        LeafMoves(x, key, path[..|sibs|], depth, parting);
      }
    }
    LeafOnOwnPath(key, value, depth, |sibs'|);
    CanonicalUp(Leaf(key, value), path, sibs', depth);
  }

  lemma ExtendedAt(x: Tree, sibs: seq<Tree>, parting: nat, j: nat)
    requires x.Empty? || |sibs| <= parting
    requires j < |Extended(x, sibs, parting)|
    ensures Extended(x, sibs, parting)[j]
            == if j < |sibs| then sibs[j] else if j < parting then Empty else x
  {
    if !x.Empty? && j < |sibs| {
      assert Pad(sibs, parting)[j] == Pad(sibs, parting)[..|sibs|][j];
    }
  }

  /** When the search ended at another key's leaf, the two paths part inside the tree, below all the
      branches met: the zero-sibling loop of Add stops there, in range. */
  lemma FindParting(m: map<nat, nat>, depth: nat, key: nat, x: Tree, sibs: seq<Tree>) returns (parting: nat)
    requires EndsAt(m, depth, key, x, sibs) && Fits(key, depth) && key !in m && x.Leaf?
    ensures PartsAt(key, x, sibs, depth, parting)
  {
    EndsAtLookup(m, depth, key, x, sibs);
    parting := PartingBit(x.key, key, depth);
    hide BitAt, BitLen;
    assert forall i :: 0 <= i < |sibs| ==> PathOf(key, depth)[..|sibs|][i] == BitAt(key, i);
  }

  lemma ExtendedHashes(h: Hasher, x: Tree, sibs: seq<Tree>, parting: nat, siblings: seq<nat>)
    requires x.Leaf? && |sibs| <= parting == |siblings|
    requires siblings[..|sibs|] == Hashes(h, sibs)
    requires forall i :: |sibs| <= i < parting ==> siblings[i] == 0
    ensures siblings + [Hash(h, x)] == Hashes(h, Extended(x, sibs, parting))
  {
    forall i | 0 <= i <= parting
      ensures (siblings + [Hash(h, x)])[i] == Hashes(h, Extended(x, sibs, parting))[i]
    {
      ExtendedAt(x, sibs, parting, i);
      if i < |sibs| {
        assert siblings[i] == siblings[..|sibs|][i];
      }
    }
  }

  lemma LeafOnOwnPath(key: nat, value: nat, depth: nat, n: nat)
    requires Fits(key, depth) && n <= depth
    ensures Canonical(Leaf(key, value), PathOf(key, depth)[..n], depth)
  {}

  lemma LeafMoves(x: Tree, key: nat, p: seq<Bit>, depth: nat, parting: nat)
    requires x.Leaf? && Canonical(x, p, depth) && parting < depth
    requires forall i :: 0 <= i < parting ==> BitAt(x.key, i) == BitAt(key, i)
    requires BitAt(x.key, parting) != BitAt(key, parting)
    ensures Canonical(x, PathOf(key, depth)[..parting] + [1 - PathOf(key, depth)[parting]], depth)
  {
    var path := PathOf(key, depth);
    hide BitAt, BitLen;
    var q := path[..parting] + [1 - path[parting]];
    forall i | 0 <= i < |q|
      ensures q[i] == BitAt(x.key, i)
    {
      if i < parting {
        assert q[i] == path[i] == BitAt(key, i);
      } else {
        assert q[i] == 1 - BitAt(key, parting);
      }
    }
  }

  /** The node map after Add's deletions and insertions is the new trie's. */
  lemma AddNodes(h: Hasher, m: map<nat, nat>, depth: nat, key: nat, value: nat,
                 x: Tree, sibs: seq<Tree>, parting: nat)
    requires EndsAt(m, depth, key, x, sibs) && Fits(key, depth) && key !in m
    requires PartsAt(key, x, sibs, depth, parting)
    requires Faithful(h, m, depth) && Faithful(h, m[key := value], depth)
    ensures
      var path, leaf := PathOf(key, depth), Leaf(key, value);
      var removed := Branches(h, Hash(h, x), path, Hashes(h, sibs)).Keys;
      var sibs' := Extended(x, sibs, parting);
      |sibs'| <= depth &&
      NodesOf(h, TrieOf(m[key := value], depth))
      == (NodesOf(h, TrieOf(m, depth)) - removed)[Hash(h, leaf) := ChildrenOf(h, leaf)]
         + Branches(h, Hash(h, leaf), path, Hashes(h, sibs'))
      && Hash(h, TrieOf(m[key := value], depth)) == Climb(h, Hash(h, leaf), path, Hashes(h, sibs'))
  {
    var path, leaf, sibs' := PathOf(key, depth), Leaf(key, value), Extended(x, sibs, parting);
    AddShape(m, depth, key, value, x, sibs, parting);
    NodesUp(h, x, path, sibs);
    NodesUp(h, leaf, path, sibs');
    ExtendedNodes(h, x, sibs, parting);
    Replace(NodesOf(h, TrieOf(m, depth)), NodesOf(h, x), SibNodes(h, sibs),
            Branches(h, Hash(h, x), path, Hashes(h, sibs)),
            NodesOf(h, TrieOf(m[key := value], depth)), Hash(h, leaf), ChildrenOf(h, leaf),
            Branches(h, Hash(h, leaf), path, Hashes(h, sibs')));
    ClimbIsHash(h, leaf, path, sibs');
  }

  lemma Replace<V>(whole: map<nat, V>, x: map<nat, V>, sibs: map<nat, V>, above: map<nat, V>,
                   whole': map<nat, V>, leaf: nat, children: V, above': map<nat, V>)
    requires Partition(whole, x, sibs, above)
    requires Partition(whole', map[leaf := children], sibs + x, above')
    ensures whole' == (whole - above.Keys)[leaf := children] + above'
  {
    assert whole - above.Keys == x + sibs;
    MergeCommutes(x, sibs);
    MergeCommutes(map[leaf := children], sibs + x);
  }

  // ----------------------------------------------------------------- deleting

  /** sibs without the empty slots at its end. */
  ghost function Trim(sibs: seq<Tree>): (r: seq<Tree>)
    ensures r <= sibs
    ensures r != [] ==> !r[|r| - 1].Empty?
    ensures forall i :: |r| <= i < |sibs| ==> sibs[i].Empty?
    decreases |sibs|
  {
    if sibs == [] || !sibs[|sibs| - 1].Empty? then sibs else Trim(sibs[..|sibs| - 1])
  }

  lemma {:induction false} TrimEntries(sibs: seq<Tree>)
    ensures SibEntries(Trim(sibs)) == SibEntries(sibs)
    decreases |sibs|
  {
    if sibs == [] || !sibs[|sibs| - 1].Empty? {
    } else {
      TrimEntries(sibs[..|sibs| - 1]);
      MergeEmpty(SibEntries(sibs[..|sibs| - 1]));
    }
  }

  lemma {:induction false} TrimNodes(h: Hasher, sibs: seq<Tree>)
    ensures SibNodes(h, Trim(sibs)) == SibNodes(h, sibs)
    decreases |sibs|
  {
    if sibs == [] || !sibs[|sibs| - 1].Empty? {
    } else {
      TrimNodes(h, sibs[..|sibs| - 1]);
      MergeEmpty(SibNodes(h, sibs[..|sibs| - 1]));
    }
  }

  /** What takes the deleted leaf's place, and beside which siblings: a sibling leaf is lifted to just
      below the last sibling that is not empty; beside a branch the place stays, empty. */
  ghost function Collapsed(sibs: seq<Tree>): (Tree, seq<Tree>) {
    if sibs != [] && sibs[|sibs| - 1].Leaf? then (sibs[|sibs| - 1], Trim(sibs[..|sibs| - 1]))
    else (Empty, sibs)
  }

  lemma CollapsedEntries(sibs: seq<Tree>)
    ensures SibEntries(sibs) == SibEntries(Collapsed(sibs).1) + Entries(Collapsed(sibs).0)
  {
    if sibs != [] && sibs[|sibs| - 1].Leaf? {
      TrimEntries(sibs[..|sibs| - 1]);
    } else {
      MergeEmpty(SibEntries(sibs));
    }
  }

  lemma CollapsedNodes(h: Hasher, sibs: seq<Tree>)
    ensures SibNodes(h, sibs) == SibNodes(h, Collapsed(sibs).1) + NodesOf(h, Collapsed(sibs).0)
  {
    if sibs != [] && sibs[|sibs| - 1].Leaf? {
      TrimNodes(h, sibs[..|sibs| - 1]);
    } else {
      MergeEmpty(SibNodes(h, sibs));
    }
  }

  /** The tree rebuilt by Delete is the trie of the map without the key. */
  lemma DeleteShape(m: map<nat, nat>, depth: nat, key: nat, x: Tree, sibs: seq<Tree>)
    requires EndsAt(m, depth, key, x, sibs) && key in m
    ensures EndsAt(m - {key}, depth, key, Collapsed(sibs).0, Collapsed(sibs).1)
  {
    var (y, sibs') := Collapsed(sibs);
    var path := PathOf(key, depth);
    EndsAtSplit(m, depth, key, x, sibs);
    EndsAtLookup(m, depth, key, x, sibs);
    DeleteCanonical(m, depth, key, x, sibs);
    EntriesUp(y, path, sibs', depth);
    CollapsedEntries(sibs);
    MergeRemove(m, key, x.value, SibEntries(sibs));
    MergeCommutes(SibEntries(sibs'), Entries(y));
    CanonicalIsTrie(Up(y, path, sibs'), [], depth);
  }

  lemma MergeRemove(m: map<nat, nat>, key: nat, value: nat, sibs: map<nat, nat>)
    requires m == map[key := value] + sibs && key !in sibs
    ensures m - {key} == sibs
  {}

  lemma DeleteCanonical(m: map<nat, nat>, depth: nat, key: nat, x: Tree, sibs: seq<Tree>)
    requires EndsAt(m, depth, key, x, sibs) && x.Leaf?
    ensures |Collapsed(sibs).1| <= |sibs|
    ensures Canonical(Up(Collapsed(sibs).0, PathOf(key, depth), Collapsed(sibs).1), [], depth)
  {
    hide BitAt, BitLen, Trie;
    var (y, sibs') := Collapsed(sibs);
    var path := PathOf(key, depth);
    EndsAtSplit(m, depth, key, x, sibs);
    CanonicalDown(x, path, sibs, depth);
    if sibs == [] {
    } else if y.Leaf? {
      var i := |sibs| - 1;
      LeafLifts(y, path[..i] + [1 - path[i]], path[..|sibs'|], depth);
      CanonicalUp(y, path, sibs', depth);
    } else {
      CanonicalUp(y, path, sibs, depth);
    }
  }

  lemma LeafLifts(y: Tree, p: seq<Bit>, q: seq<Bit>, depth: nat)
    requires y.Leaf? && Canonical(y, p, depth)
    requires |q| < |p| && q == p[..|q|]
    ensures Canonical(y, q, depth)
  {
    hide BitAt, BitLen;
    assert forall i :: 0 <= i < |q| ==> q[i] == p[i];
  }

  /** The node map after Delete's removals and insertions is the new trie's. */
  lemma DeleteNodes(h: Hasher, m: map<nat, nat>, depth: nat, key: nat, x: Tree, sibs: seq<Tree>)
    requires EndsAt(m, depth, key, x, sibs) && key in m
    requires Faithful(h, m, depth) && Faithful(h, m - {key}, depth)
    ensures
      var path := PathOf(key, depth);
      var removed := Branches(h, Hash(h, x), path, Hashes(h, sibs)).Keys;
      var (y, sibs') := Collapsed(sibs);
      |sibs'| <= depth &&
      NodesOf(h, TrieOf(m - {key}, depth))
      == NodesOf(h, TrieOf(m, depth)) - {Hash(h, x)} - removed + Branches(h, Hash(h, y), path, Hashes(h, sibs'))
      && Hash(h, TrieOf(m - {key}, depth)) == Climb(h, Hash(h, y), path, Hashes(h, sibs'))
  {
    var path := PathOf(key, depth);
    var (y, sibs') := Collapsed(sibs);
    EndsAtLookup(m, depth, key, x, sibs);
    DeleteShape(m, depth, key, x, sibs);
    NodesUp(h, x, path, sibs);
    NodesUp(h, y, path, sibs');
    CollapsedNodes(h, sibs);
    Cut(NodesOf(h, TrieOf(m, depth)), Hash(h, x), ChildrenOf(h, x), SibNodes(h, sibs),
        Branches(h, Hash(h, x), path, Hashes(h, sibs)));
    MergeCommutes(NodesOf(h, y), SibNodes(h, sibs'));
    ClimbIsHash(h, y, path, sibs');
  }

  lemma Cut<V>(whole: map<nat, V>, leaf: nat, children: V, sibs: map<nat, V>, branches: map<nat, V>)
    requires Partition(whole, map[leaf := children], sibs, branches)
    ensures whole - {leaf} - branches.Keys == sibs
  {}

  /** The last sibling of a leaf is never empty. After the deletions the map holds the siblings' nodes
      only, and looking the last one up tells a leaf from a branch. */
  lemma LastSibling(h: Hasher, m: map<nat, nat>, depth: nat, key: nat, x: Tree, sibs: seq<Tree>)
    requires EndsAt(m, depth, key, x, sibs) && x.Leaf? && sibs != []
    requires Faithful(h, m, depth)
    ensures
      var last := sibs[|sibs| - 1];
      var removed := Branches(h, Hash(h, x), PathOf(key, depth), Hashes(h, sibs)).Keys;
      && !last.Empty?
      && NodesOf(h, TrieOf(m, depth)) - {Hash(h, x)} - removed == SibNodes(h, sibs)
      && Hash(h, last) in SibNodes(h, sibs)
      && SibNodes(h, sibs)[Hash(h, last)] == ChildrenOf(h, last)
  {
    var path := PathOf(key, depth);
    EndsAtSplit(m, depth, key, x, sibs);
    CanonicalDown(x, path, sibs, depth);
    NodesUp(h, x, path, sibs);
    SibNodesHold(h, x, path, sibs, |sibs| - 1);
    Cut(NodesOf(h, TrieOf(m, depth)), Hash(h, x), ChildrenOf(h, x), SibNodes(h, sibs),
        Branches(h, Hash(h, x), path, Hashes(h, sibs)));
  }

  /** Scanning the sibling hashes for the last non-zero one trims the empty slots. */
  lemma TrimHashes(h: Hasher, m: map<nat, nat>, depth: nat, key: nat, x: Tree, sibs: seq<Tree>,
                   arr: seq<nat>, i: int)
    requires EndsAt(m, depth, key, x, sibs) && sibs != []
    requires Faithful(h, m, depth)
    requires arr == Hashes(h, sibs)[..|sibs| - 1] && -1 <= i < |arr|
    requires i >= 0 ==> arr[i] != 0
    requires forall j :: i < j < |arr| ==> arr[j] == 0
    ensures arr[..i + 1] == Hashes(h, Trim(sibs[..|sibs| - 1]))
  {
    var front := sibs[..|sibs| - 1];
    var r := Trim(front);
    forall j | 0 <= j < |front|
      ensures front[j].Empty? <==> arr[j] == 0
    {
      SiblingStored(h, x, PathOf(key, depth), sibs, j);
    }
    assert |r| == i + 1;
    assert forall j :: 0 <= j < |r| ==> r[j] == front[j];
  }
}
