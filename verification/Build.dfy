/** How a tree is brought in line with a revocation list: server/cmd/smtbuild/main.go. */
module Build {
  import opened Wrappers
  import opened Arithmetic
  import opened Paths
  import opened Hashing
  import opened Tries
  import opened Nodes
  import opened SparseMerkleTree
  import opened Histories

  const DEFAULT_DEPTH := 128

  /** The outcomes of the loop body for one issuer. A skipped or unchanged tree is not exported. */
  datatype Status = Unchanged | Skipped | Built

  /** The serials in the order of their first occurrences. */
  ghost function Firsts(serials: seq<nat>): (r: seq<nat>)
    ensures NoDuplicates(r)
    ensures forall k :: k in r <==> k in serials
    decreases |serials|
  {
    if serials == [] then []
    else
      var front, last := Firsts(serials[..|serials| - 1]), serials[|serials| - 1];
      assert serials == serials[..|serials| - 1] + [last];
      if last in front then front else front + [last]
  }

  /** Reading on only appends, so each serial stands where it first occurred. */
  lemma {:induction false} FirstsInOrder(serials: seq<nat>, n: nat)
    requires n <= |serials|
    ensures Firsts(serials[..n]) <= Firsts(serials)
    decreases |serials|
  {
    assert serials[..|serials|] == serials;
    if n == |serials| {
    } else {
      var front := serials[..|serials| - 1];
      FirstsInOrder(front, n);
      assert front[..n] == serials[..n];
    }
  }

  /** Drops later occurrences of a serial. */
  method Deduplicate(serials: seq<nat>) returns (unique: seq<nat>)
    ensures unique == Firsts(serials)
    ensures NoDuplicates(unique)
    ensures forall k :: k in unique <==> k in serials
  {
    var seen := {};
    unique := [];
    for i := 0 to |serials|
      invariant unique == Firsts(serials[..i])
      invariant forall k :: k in seen <==> k in unique
    {
      var s := serials[i];
      assert serials[..i + 1][..i] == serials[..i];
      if s !in seen {
        seen := seen + {s};
        unique := unique + [s];
      }
    }
    assert serials[..|serials|] == serials;
  }

  /** The elements of keys outside except, in order. */
  ghost function Outside(keys: seq<nat>, except: set<nat>): (r: seq<nat>)
    ensures NoDuplicates(keys) ==> NoDuplicates(r)
    ensures forall k :: k in r <==> k in keys && k !in except
    decreases |keys|
  {
    if keys == [] then []
    else
      var front, last := Outside(keys[..|keys| - 1], except), keys[|keys| - 1];
      assert keys == keys[..|keys| - 1] + [last];
      if last in except then front else front + [last]
  }

  /** Reading on only appends, so the order is kept. */
  lemma {:induction false} OutsideInOrder(keys: seq<nat>, except: set<nat>, n: nat)
    requires n <= |keys|
    ensures Outside(keys[..n], except) <= Outside(keys, except)
    decreases |keys|
  {
    assert keys[..|keys|] == keys;
    if n == |keys| {
    } else {
      var front := keys[..|keys| - 1];
      OutsideInOrder(front, except, n);
      assert front[..n] == keys[..n];
    }
  }

  method Difference(keys: seq<nat>, except: set<nat>) returns (r: seq<nat>)
    requires NoDuplicates(keys)
    ensures r == Outside(keys, except)
    ensures NoDuplicates(r)
    ensures forall k :: k in r <==> k in keys && k !in except
  {
    r := [];
    for i := 0 to |keys|
      invariant r == Outside(keys[..i], except)
    {
      assert keys[..i + 1][..i] == keys[..i];
      if keys[i] !in except {
        r := r + [keys[i]];
      }
    }
    assert keys[..|keys|] == keys;
  }

  ghost function Elements(keys: seq<nat>): set<nat> {
    set k | k in keys
  }

  method ToSet(keys: seq<nat>) returns (r: set<nat>)
    ensures r == Elements(keys)
  {
    r := {};
    for i := 0 to |keys|
      invariant forall k :: k in r <==> k in keys[..i]
    {
      r := r + {keys[i]};
    }
  }

  // ----------------------------------------------------------- what is reached

  /** The incremental result: serials that stay keep their value, new ones get 1. */
  ghost function Updated(m: map<nat, nat>, serials: seq<nat>): map<nat, nat> {
    map k | k in serials :: if k in m then m[k] else 1
  }

  ghost function Fitting(m: map<nat, nat>, depth: nat): map<nat, nat> {
    map k | k in m && Fits(k, depth) :: m[k]
  }

  ghost predicate AllSerialsFit(serials: seq<nat>, depth: nat) {
    forall s :: s in serials ==> Fits(s, depth)
  }

  /** A tree of default depth takes exactly the serials below 2^128. */
  lemma FitsDefault(serial: nat)
    ensures Fits(serial, DEFAULT_DEPTH) <==> serial < 0x1_0000_0000_0000_0000_0000_0000_0000_0000
  {
    hide Fits, Pow2;
    FitsExactly(serial, DEFAULT_DEPTH);
    Pow2Of128();
  }

  /** The incremental and the full result agree exactly when the entries that stay have value 1. */
  lemma IncrementalIsRebuild(m: map<nat, nat>, serials: seq<nat>)
    ensures Updated(m, serials) == Constant(serials, 1) <==> forall k :: k in m && k in serials ==> m[k] == 1
  {
    if Updated(m, serials) == Constant(serials, 1) {
      forall k | k in m && k in serials
        ensures m[k] == 1
      {
        assert Updated(m, serials)[k] == Constant(serials, 1)[k];
      }
    }
  }

  /** An entry with another value keeps it. */
  lemma OldValueStays()
    ensures Updated(map[5 := 7], [5]) == map[5 := 7] && Constant([5], 1) == map[5 := 1]
  {}

  // ---------------------------------------------------------------- the delta

  /** The two difference lists are a legal delta, and applying it reaches the updated map. */
  lemma DeltaReaches(m: map<nat, nat>, depth: nat, serials: seq<nat>, toAdd: seq<nat>, toDelete: seq<nat>)
    requires AllFit(m, depth)
    requires NoDuplicates(toAdd) && forall k :: k in toAdd <==> k in serials && k !in m
    requires NoDuplicates(toDelete) && forall k :: k in toDelete <==> k in m && k !in serials
    ensures Deletable(m, toDelete)
    ensures Addable(Without(m, toDelete), depth, toAdd) <==> AllSerialsFit(serials, depth)
    ensures Without(m, toDelete) + Constant(toAdd, 1) == Updated(m, serials)
    ensures |toAdd| == 0 && |toDelete| == 0 <==> forall k :: k in serials <==> k in m
  {
    hide BitLen;
    assert |toAdd| > 0 ==> toAdd[0] in toAdd;
    assert |toDelete| > 0 ==> toDelete[0] in toDelete;
    if !AllSerialsFit(serials, depth) {
      var s :| s in serials && !Fits(s, depth);
      assert s in toAdd;
    }
  }

  lemma NothingDeleted(m: map<nat, nat>)
    ensures Without(m, []) == m
  {}

  lemma NothingAdded(m: map<nat, nat>, depth: nat, value: nat)
    ensures m + Constant([], value) == m && Addable(m, depth, [])
  {}

  // -------------------------------------------------------------- the builder

  /** Full rebuild into a new tree of default depth. */
  method FullRebuild(h: Hasher, unique: seq<nat>) returns (tree: SMT, err: Outcome<Error>)
    requires NoDuplicates(unique)
    requires FaithfulAdds(h, map[], DEFAULT_DEPTH, unique, 1)
    ensures fresh(tree) && tree.Valid() && tree.h == h && tree.depth == DEFAULT_DEPTH
    ensures err.Pass? <==> AllSerialsFit(unique, DEFAULT_DEPTH)
    ensures err.Pass? ==> tree.entries == Constant(unique, 1)
    ensures err.Fail? ==>
              tree.entries == map[] + Constant(unique[..AddablePrefix(map[], DEFAULT_DEPTH, unique)], 1)
  {
    hide Faithful, BitLen, FaithfulAdds, Stores, Addable, Constant;
    tree := new SMT(h, DEFAULT_DEPTH);
    FreshAdds(unique);
    ghost var n;
    err, n := tree.BatchAdd(unique, 1);
    AddsComplete(map[], DEFAULT_DEPTH, unique, n);
  }

  lemma FreshAdds(keys: seq<nat>)
    requires NoDuplicates(keys)
    ensures map[] + Constant(keys, 1) == Constant(keys, 1)
    ensures forall k :: k in keys ==> k in Constant(keys, 1) && Constant(keys, 1)[k] == 1
    ensures Addable(map[], DEFAULT_DEPTH, keys) <==> AllSerialsFit(keys, DEFAULT_DEPTH)
  {}

  /** The keys deleted, in the order in which the nodes are traversed. */
  ghost function ToDelete(nodes: map<nat, ChildNodes>, order: seq<nat>, unique: seq<nat>): seq<nat>
    requires Lists(order, nodes)
  {
    Outside(LeafKeys(nodes, order), Elements(unique))
  }

  ghost function ToAdd(m: map<nat, nat>, unique: seq<nat>): seq<nat> {
    Outside(unique, m.Keys)
  }

  /** No collision shows while an update first deletes and then adds. */
  ghost predicate FaithfulUpdate(h: Hasher, m: map<nat, nat>, depth: nat, toDelete: seq<nat>, toAdd: seq<nat>) {
    && FaithfulDeletes(h, m, depth, toDelete)
    && FaithfulAdds(h, Without(m, toDelete), depth, toAdd, 1)
  }

  /** A collision-free hasher meets the hypothesis of every update. */
  lemma CollisionFreeUpdate(h: Hasher, m: map<nat, nat>, depth: nat, toDelete: seq<nat>, toAdd: seq<nat>)
    requires CollisionFree(h) && AllFit(m, depth)
    ensures FaithfulUpdate(h, m, depth, toDelete, toAdd)
  {
    hide Faithful, BitLen, CollisionFree, FaithfulAdds, FaithfulDeletes;
    CollisionFreeOp(h, m, depth, DeleteBatch(toDelete));
    CollisionFreeOp(h, Without(m, toDelete), depth, AddBatch(toAdd, 1));
  }

  /** All deletions, and the additions before the first serial that does not fit. */
  ghost function UpToFirstBad(m: map<nat, nat>, depth: nat, toDelete: seq<nat>, toAdd: seq<nat>): map<nat, nat> {
    var between := Without(m, toDelete);
    between + Constant(toAdd[..AddablePrefix(between, depth, toAdd)], 1)
  }

  /** Deletes what is no longer listed, then adds what is new. order is the order in which the node map is
      traversed. */
  method UpdateIncrementally(tree: SMT, unique: seq<nat>, order: seq<nat>) returns (status: Status)
    requires tree.Valid() && NoDuplicates(unique) && Lists(order, tree.nodes)
    requires FaithfulUpdate(tree.h, tree.entries, tree.depth,
                            ToDelete(tree.nodes, order, unique), ToAdd(tree.entries, unique))
    modifies tree
    ensures tree.Valid()
    ensures status == Skipped <==> !AllSerialsFit(unique, tree.depth)
    ensures status == Unchanged <==> forall k :: k in unique <==> k in old(tree.entries)
    ensures status != Skipped ==> tree.entries == Updated(old(tree.entries), unique)
    ensures status == Skipped ==>
              tree.entries == UpToFirstBad(old(tree.entries), tree.depth,
                                           old(ToDelete(tree.nodes, order, unique)), old(ToAdd(tree.entries, unique)))
  {
    hide Faithful, BitLen, FaithfulAdds, FaithfulDeletes, Stores, AllFit, LeafKeys, Outside,
         Addable, Deletable, Constant, Without, Updated, AllSerialsFit;
    ghost var m := tree.entries;
    ValidFits(tree);
    var existingKeys := tree.Keys(order);
    var existingSet := ToSet(existingKeys);
    var newSet := ToSet(unique);
    var toAdd := Difference(unique, existingSet);
    var toDelete := Difference(existingKeys, newSet);
    assert existingSet == m.Keys;
    DeltaReaches(m, tree.depth, unique, toAdd, toDelete);
    if |toAdd| == 0 && |toDelete| == 0 {
      NothingDeleted(m);
      NothingAdded(m, tree.depth, 1);
      return Unchanged;
    }
    if |toDelete| > 0 {
      var err, n := tree.BatchDelete(toDelete);
      DeletesComplete(m, toDelete, n);
      if err.Fail? {
        return Skipped;
      }
    } else {
      NothingDeleted(m);
    }
    ghost var between := tree.entries;
    if |toAdd| > 0 {
      var err, n := tree.BatchAdd(toAdd, 1);
      AddsComplete(between, tree.depth, toAdd, n);
      if err.Fail? {
        return Skipped;
      }
    } else {
      NothingAdded(between, tree.depth, 1);
    }
    return Built;
  }

  /** A batch runs to its end exactly when all of it is legal. */
  lemma AddsComplete(m: map<nat, nat>, depth: nat, keys: seq<nat>, n: nat)
    requires n <= |keys| && Addable(m, depth, keys[..n])
    requires n < |keys| ==> !Addable(m, depth, keys[..n + 1])
    ensures n == |keys| <==> Addable(m, depth, keys)
    ensures keys[..|keys|] == keys && n == AddablePrefix(m, depth, keys)
  {
    AddablePrefixFound(m, depth, keys, n);
    AddablePrefixFits(m, depth, keys);
    assert keys[..|keys|] == keys;
  }

  lemma DeletesComplete(m: map<nat, nat>, keys: seq<nat>, n: nat)
    requires n <= |keys| && Deletable(m, keys[..n])
    requires n < |keys| ==> !Deletable(m, keys[..n + 1])
    requires Deletable(m, keys)
    ensures n == |keys| && keys[..n] == keys
  {
    DeletablePrefixFound(m, keys, n);
    assert keys[..|keys|] == keys;
  }

  /** The whole loop body: deduplicate, then update the tree found or, if there is none or it is empty,
      rebuild. */
  method ProcessIssuer(h: Hasher, existing: SMT?, revoked: seq<nat>, order: seq<nat>)
      returns (tree: SMT, status: Status)
    requires existing != null ==> existing.Valid() && existing.h == h && Lists(order, existing.nodes)
    requires existing != null && existing.count > 0 ==>
               FaithfulUpdate(h, existing.entries, existing.depth,
                              ToDelete(existing.nodes, order, Firsts(revoked)),
                              ToAdd(existing.entries, Firsts(revoked)))
    requires existing == null || existing.count <= 0 ==>
               FaithfulAdds(h, map[], DEFAULT_DEPTH, Firsts(revoked), 1)
    modifies existing
    ensures tree.Valid() && tree.h == h
    ensures existing != null && old(existing.count) > 0 ==>
              && tree == existing
              && (status == Unchanged <==> forall k :: k in revoked <==> k in old(existing.entries))
              && (status != Skipped ==> tree.entries == Updated(old(existing.entries), revoked))
    ensures existing == null || old(existing.count) <= 0 ==>
              && fresh(tree) && tree.depth == DEFAULT_DEPTH
              && status != Unchanged
              && (status == Built ==> tree.entries == Constant(revoked, 1))
              && (existing != null ==> unchanged(existing))
    ensures status == Skipped <==> !AllSerialsFit(revoked, tree.depth)
  {
    hide Faithful, BitLen, FaithfulAdds, FaithfulUpdate, Stores, ToDelete, ToAdd, Firsts;
    var unique := Deduplicate(revoked);
    assert Constant(unique, 1) == Constant(revoked, 1);
    if existing != null && existing.count > 0 {
      tree := existing;
      assert Updated(tree.entries, unique) == Updated(tree.entries, revoked);
      status := UpdateIncrementally(tree, unique, order);
    } else {
      var err;
      tree, err := FullRebuild(h, unique);
      status := if err.Pass? then Built else Skipped;
    }
  }

  /** Incremental equals rebuild: the store that an update reaches is that of a tree built from the list
      alone, provided every entry it keeps has value 1. */
  lemma UpdateStoresRebuild(updated: SMT, rebuilt: SMT, before: map<nat, nat>, serials: seq<nat>)
    requires updated.Valid() && rebuilt.Valid() && updated.h == rebuilt.h
    requires updated.entries == Updated(before, serials)
    requires rebuilt.entries == Constant(serials, 1)
    requires forall k :: k in before && k in serials ==> before[k] == 1
    ensures updated.nodes == rebuilt.nodes && updated.root == rebuilt.root && updated.count == rebuilt.count
  {
    IncrementalIsRebuild(before, serials);
    SameMapSameStore(updated, rebuilt);
  }
}
