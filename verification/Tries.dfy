/** The compressed binary trie that a key-value map denotes, defined without reference to how
    the tree is updated, and the proof that it is the only canonical tree with those entries. */
module Tries {
  import opened Paths

  datatype Tree =
    | Empty
    | Leaf(key: nat, value: nat)
    | Node(left: Tree, right: Tree)

  ghost function Entries(t: Tree): map<nat, nat> {
    match t
    case Empty => map[]
    case Leaf(k, v) => map[k := v]
    case Node(l, r) => Entries(l) + Entries(r)
  }

  /** Number of leaves. */
  ghost function Size(t: Tree): nat {
    match t
    case Empty => 0
    case Leaf(_, _) => 1
    case Node(l, r) => Size(l) + Size(r)
  }

  /** Every leaf sits on its own key's path, and a branch is kept only where two keys part. */
  ghost predicate Canonical(t: Tree, p: seq<Bit>, depth: nat) {
    match t
    case Empty => true
    case Leaf(k, _) => Fits(k, depth) && OnPath(p, k)
    case Node(l, r) =>
      && |p| < depth
      && Canonical(l, p + [0], depth)
      && Canonical(r, p + [1], depth)
      && Size(t) >= 2
  }

  /** All keys of m fit and start with the path p. */
  ghost predicate Under(m: map<nat, nat>, p: seq<Bit>, depth: nat) {
    forall k :: k in m ==> Fits(k, depth) && OnPath(p, k)
  }

  ghost function Side(m: map<nat, nat>, i: nat, b: Bit): map<nat, nat> {
    map k | k in m && BitAt(k, i) == b :: m[k]
  }

  lemma SideUnder(m: map<nat, nat>, p: seq<Bit>, depth: nat, b: Bit)
    requires Under(m, p, depth)
    ensures Under(Side(m, |p|, b), p + [b], depth)
  {}

  lemma UnderSide(m: map<nat, nat>, p: seq<Bit>, depth: nat, b: Bit)
    requires Under(m, p + [b], depth)
    ensures Under(m, p, depth)
    ensures forall k :: k in m ==> BitAt(k, |p|) == b
  {
    forall k | k in m
      ensures OnPath(p, k) && BitAt(k, |p|) == b
    {
      assert forall i :: 0 <= i < |p| ==> p[i] == (p + [b])[i];
      assert (p + [b])[|p|] == b;
    }
  }

  /** Two different keys under one path leave room for another branch. */
  lemma RoomForBranch(m: map<nat, nat>, p: seq<Bit>, depth: nat)
    requires Under(m, p, depth) && |p| <= depth && |m| >= 2
    ensures |p| < depth
  {
    var k :| k in m;
    assert |m.Keys - {k}| >= 1;
    var k' :| k' in m.Keys - {k};
    if |p| == depth {
      assert PathOf(k, depth) == p == PathOf(k', depth);
      PathInjective(k, k', depth);
    }
  }

  /** The trie of m below the path p. */
  ghost function Trie(m: map<nat, nat>, p: seq<Bit>, depth: nat): Tree
    requires Under(m, p, depth) && |p| <= depth
    decreases depth - |p|
  {
    if |m| == 0 then Empty
    else if |m| == 1 then
      var k :| k in m;
      Leaf(k, m[k])
    else
      RoomForBranch(m, p, depth);
      SideUnder(m, p, depth, 0);
      SideUnder(m, p, depth, 1);
      Node(Trie(Side(m, |p|, 0), p + [0], depth), Trie(Side(m, |p|, 1), p + [1], depth))
  }

  lemma {:induction false} CanonicalEntries(t: Tree, p: seq<Bit>, depth: nat)
    requires Canonical(t, p, depth)
    ensures Under(Entries(t), p, depth)
    ensures |Entries(t)| == Size(t)
    ensures t.Node? ==> Entries(t.left).Keys !! Entries(t.right).Keys
  {
    match t
    case Empty =>
    case Leaf(k, v) =>
    case Node(l, r) =>
      CanonicalEntries(l, p + [0], depth);
      CanonicalEntries(r, p + [1], depth);
      UnderSide(Entries(l), p, depth, 0);
      UnderSide(Entries(r), p, depth, 1);
      assert Entries(t).Keys == Entries(l).Keys + Entries(r).Keys;
  }

  /** The trie of m is canonical and holds exactly m. */
  lemma {:induction false} TrieHolds(m: map<nat, nat>, p: seq<Bit>, depth: nat)
    requires Under(m, p, depth) && |p| <= depth
    ensures Canonical(Trie(m, p, depth), p, depth)
    ensures Entries(Trie(m, p, depth)) == m
    ensures Size(Trie(m, p, depth)) == |m|
    decreases depth - |p|
  {
    if |m| == 1 {
      var k :| k in m && Trie(m, p, depth) == Leaf(k, m[k]);
      Singleton(m, k);
    } else if |m| >= 2 {
      var l, r := Side(m, |p|, 0), Side(m, |p|, 1);
      RoomForBranch(m, p, depth);
      SideUnder(m, p, depth, 0);
      SideUnder(m, p, depth, 1);
      TrieHolds(l, p + [0], depth);
      TrieHolds(r, p + [1], depth);
      SidesPartition(m, |p|);
    }
  }

  lemma Singleton(m: map<nat, nat>, k: nat)
    requires |m| == 1 && k in m
    ensures m == map[k := m[k]]
  {
    assert |m.Keys - {k}| == 0;
  }

  lemma SidesPartition(m: map<nat, nat>, i: nat)
    ensures Side(m, i, 0) + Side(m, i, 1) == m
    ensures |Side(m, i, 0)| + |Side(m, i, 1)| == |m|
  {
    var l, r := Side(m, i, 0), Side(m, i, 1);
    assert m.Keys == l.Keys + r.Keys;
    assert |m.Keys| == |l.Keys| + |r.Keys|;
  }

  /** A canonical tree is the trie of its entries: the same entries admit no other shape. */
  lemma {:induction false} CanonicalIsTrie(t: Tree, p: seq<Bit>, depth: nat)
    requires Canonical(t, p, depth) && |p| <= depth
    ensures Under(Entries(t), p, depth)
    ensures t == Trie(Entries(t), p, depth)
    decreases t
  {
    CanonicalEntries(t, p, depth);
    if t.Leaf? {
      Singleton(Entries(t), t.key);
    } else if t.Node? {
      CanonicalIsTrie(t.left, p + [0], depth);
      CanonicalIsTrie(t.right, p + [1], depth);
      SidesOfNode(t, p, depth);
    }
  }

  lemma SidesOfNode(t: Tree, p: seq<Bit>, depth: nat)
    requires t.Node? && Canonical(t, p, depth)
    ensures Side(Entries(t), |p|, 0) == Entries(t.left)
    ensures Side(Entries(t), |p|, 1) == Entries(t.right)
  {
    CanonicalEntries(t, p, depth);
    CanonicalEntries(t.left, p + [0], depth);
    CanonicalEntries(t.right, p + [1], depth);
    UnderSide(Entries(t.left), p, depth, 0);
    UnderSide(Entries(t.right), p, depth, 1);
    SidesOfMerge(Entries(t.left), Entries(t.right), |p|);
  }

  lemma SidesOfMerge(l: map<nat, nat>, r: map<nat, nat>, i: nat)
    requires forall k :: k in l ==> BitAt(k, i) == 0
    requires forall k :: k in r ==> BitAt(k, i) == 1
    ensures Side(l + r, i, 0) == l
    ensures Side(l + r, i, 1) == r
  {}

  /** Maps with different keys can be merged in either order. */
  lemma MergeCommutes<K, V>(a: map<K, V>, b: map<K, V>)
    requires a.Keys !! b.Keys
    ensures a + b == b + a
  {}

  /** The keys of m fit, so its trie exists at the root. */
  ghost predicate AllFit(m: map<nat, nat>, depth: nat) {
    forall k :: k in m ==> Fits(k, depth)
  }

  ghost function TrieOf(m: map<nat, nat>, depth: nat): Tree
    requires AllFit(m, depth)
  {
    Trie(m, [], depth)
  }

  /** The depth only bounds the keys; the trie itself does not depend on it. */
  lemma {:induction false} TrieDepthFree(m: map<nat, nat>, p: seq<Bit>, d1: nat, d2: nat)
    requires Under(m, p, d1) && |p| <= d1
    requires Under(m, p, d2) && |p| <= d2
    ensures Trie(m, p, d1) == Trie(m, p, d2)
    decreases d1 - |p|
  {
    if |m| == 1 {
      var k :| k in m;
      Singleton(m, k);
    } else if |m| >= 2 {
      RoomForBranch(m, p, d1);
      RoomForBranch(m, p, d2);
      SideUnder(m, p, d1, 0);
      SideUnder(m, p, d1, 1);
      SideUnder(m, p, d2, 0);
      SideUnder(m, p, d2, 1);
      TrieDepthFree(Side(m, |p|, 0), p + [0], d1, d2);
      TrieDepthFree(Side(m, |p|, 1), p + [1], d1, d2);
    }
  }
}
