/** Whole runs: whatever sequence of updates is replayed, the stored state is a function of the map
    reached, and the root determines that map. */
module Histories {
  import opened Wrappers
  import opened Paths
  import opened Hashing
  import opened Tries
  import opened Nodes
  import opened SparseMerkleTree

  datatype Op =
    | AddOne(key: nat, value: nat)
    | DeleteOne(key: nat)
    | AddBatch(keys: seq<nat>, value: nat)
    | DeleteBatch(keys: seq<nat>)

  /** Length of the longest prefix of keys that can be added to m: a batch stops at its first bad key. */
  ghost function AddablePrefix(m: map<nat, nat>, depth: nat, keys: seq<nat>): (n: nat)
    ensures n <= |keys|
  {
    if keys == [] || Addable(m, depth, keys) then |keys|
    else AddablePrefix(m, depth, keys[..|keys| - 1])
  }

  ghost function DeletablePrefix(m: map<nat, nat>, keys: seq<nat>): (n: nat)
    ensures n <= |keys|
  {
    if keys == [] || Deletable(m, keys) then |keys|
    else DeletablePrefix(m, keys[..|keys| - 1])
  }

  ghost function Effect(m: map<nat, nat>, depth: nat, op: Op): map<nat, nat> {
    match op
    case AddOne(k, v) => if Fits(k, depth) && k !in m then m[k := v] else m
    case DeleteOne(k) => m - {k}
    case AddBatch(ks, v) => m + Constant(ks[..AddablePrefix(m, depth, ks)], v)
    case DeleteBatch(ks) => Without(m, ks[..DeletablePrefix(m, ks)])
  }

  ghost function After(m: map<nat, nat>, depth: nat, ops: seq<Op>): map<nat, nat>
    decreases |ops|
  {
    if ops == [] then m else After(Effect(m, depth, ops[0]), depth, ops[1..])
  }

  ghost predicate FaithfulOp(h: Hasher, m: map<nat, nat>, depth: nat, op: Op) {
    match op
    case AddOne(k, v) => Fits(k, depth) && k !in m ==> Faithful(h, m[k := v], depth)
    case DeleteOne(k) => k in m ==> Faithful(h, m - {k}, depth)
    case AddBatch(ks, v) => FaithfulAdds(h, m, depth, ks, v)
    case DeleteBatch(ks) => FaithfulDeletes(h, m, depth, ks)
  }

  /** No collision shows in any of the tries that the run passes through. */
  ghost predicate FaithfulRun(h: Hasher, m: map<nat, nat>, depth: nat, ops: seq<Op>)
    decreases |ops|
  {
    ops != [] ==>
      && FaithfulOp(h, m, depth, ops[0])
      && FaithfulRun(h, Effect(m, depth, ops[0]), depth, ops[1..])
  }

  lemma {:induction false} AddablePrefixFound(m: map<nat, nat>, depth: nat, keys: seq<nat>, n: nat)
    requires n <= |keys| && Addable(m, depth, keys[..n])
    requires n < |keys| ==> !Addable(m, depth, keys[..n + 1])
    ensures n == AddablePrefix(m, depth, keys)
    decreases |keys|
  {
    hide Fits;
    assert keys[..|keys|] == keys;
    if n == |keys| {
    } else {
      if Addable(m, depth, keys) {
        assert forall k :: k in keys[..n + 1] ==> k in keys;
        assert false;
      }
      var front := keys[..|keys| - 1];
      assert keys[..n] == front[..n];
      assert n < |front| ==> keys[..n + 1] == front[..n + 1];
      AddablePrefixFound(m, depth, front, n);
    }
  }

  lemma {:induction false} DeletablePrefixFound(m: map<nat, nat>, keys: seq<nat>, n: nat)
    requires n <= |keys| && Deletable(m, keys[..n])
    requires n < |keys| ==> !Deletable(m, keys[..n + 1])
    ensures n == DeletablePrefix(m, keys)
    decreases |keys|
  {
    assert keys[..|keys|] == keys;
    if n == |keys| {
    } else {
      if Deletable(m, keys) {
        assert forall k :: k in keys[..n + 1] ==> k in keys;
        assert false;
      }
      var front := keys[..|keys| - 1];
      assert keys[..n] == front[..n];
      assert n < |front| ==> keys[..n + 1] == front[..n + 1];
      DeletablePrefixFound(m, front, n);
    }
  }

  /** Every run of updates leaves exactly the store of the map that the run leaves. */
  method Replay(t: SMT, ops: seq<Op>)
    requires t.Valid() && FaithfulRun(t.h, t.entries, t.depth, ops)
    modifies t
    ensures t.Valid()
    ensures t.entries == After(old(t.entries), t.depth, ops)
  {
    hide Stores, Faithful, FaithfulAdds, FaithfulDeletes, Addable, Deletable, Constant, Without, Fits;
    ghost var m := t.entries;
    assert ops[0..] == ops;
    for i := 0 to |ops|
      invariant t.Valid()
      invariant FaithfulRun(t.h, t.entries, t.depth, ops[i..])
      invariant After(t.entries, t.depth, ops[i..]) == After(m, t.depth, ops)
    {
      ghost var now := t.entries;
      assert ops[i..][1..] == ops[i + 1..];
      match ops[i]
      case AddOne(k, v) => var _ := t.Add(k, v);
      case DeleteOne(k) => var _ := t.Delete(k);
      case AddBatch(ks, v) =>
        var _, n := t.BatchAdd(ks, v);
        AddablePrefixFound(now, t.depth, ks, n);
      case DeleteBatch(ks) =>
        var _, n := t.BatchDelete(ks);
        DeletablePrefixFound(now, ks, n);
      assert t.entries == Effect(now, t.depth, ops[i]);
    }
  }

  /** The store is a function of the map alone: not of the history, nor of the depth. */
  lemma SameMapSameStore(a: SMT, b: SMT)
    requires a.Valid() && b.Valid() && a.h == b.h
    requires a.entries == b.entries
    ensures a.nodes == b.nodes && a.root == b.root && a.count == b.count
  {
    TrieDepthFree(a.entries, [], a.depth, b.depth);
  }

  /** And conversely the root alone determines map, nodes and count, up to a collision that the
      two trees exhibit. */
  lemma SameRootSameMap(a: SMT, b: SMT) returns (c: Option<Collision>)
    requires a.Valid() && b.Valid() && a.h == b.h
    ensures c.Some? ==>
              && c.value.Breaks(a.h)
              && c.value.Within(Queries(a.h, TrieOf(a.entries, a.depth)) + Queries(b.h, TrieOf(b.entries, b.depth)))
    ensures c.None? ==> (a.root == b.root <==> a.entries == b.entries)
  {
    c := None;
    if a.entries == b.entries {
      SameMapSameStore(a, b);
    } else if a.root == b.root {
      TrieHolds(a.entries, [], a.depth);
      TrieHolds(b.entries, [], b.depth);
      c := Some(Discrepancy(a.h, TrieOf(a.entries, a.depth), TrieOf(b.entries, b.depth)));
    }
  }

  /** Deleting a key right after adding it restores the map, hence nodes, root and count, exactly when
      the key was absent. */
  lemma AddThenDelete(m: map<nat, nat>, depth: nat, key: nat, value: nat)
    requires AllFit(m, depth)
    ensures After(m, depth, [AddOne(key, value), DeleteOne(key)]) == m <==> key !in m
  {
    var ops := [AddOne(key, value), DeleteOne(key)];
    var m' := Effect(m, depth, ops[0]);
    assert ops[1..] == [DeleteOne(key)];
    assert After(m, depth, ops) == After(m', depth, [DeleteOne(key)]);
    assert [DeleteOne(key)][1..] == [];
    assert After(m', depth, [DeleteOne(key)]) == m' - {key};
    if key !in m {
      assert m' - {key} == m;
    }
  }

  /** With a collision-free hasher every run is faithful. */
  lemma {:induction false} CollisionFreeRun(h: Hasher, m: map<nat, nat>, depth: nat, ops: seq<Op>)
    requires CollisionFree(h) && AllFit(m, depth)
    ensures FaithfulRun(h, m, depth, ops)
    decreases |ops|
  {
    if ops == [] {
    } else {
      CollisionFreeOp(h, m, depth, ops[0]);
      CollisionFreeRun(h, Effect(m, depth, ops[0]), depth, ops[1..]);
    }
  }

  lemma CollisionFreeOp(h: Hasher, m: map<nat, nat>, depth: nat, op: Op)
    requires CollisionFree(h) && AllFit(m, depth)
    ensures FaithfulOp(h, m, depth, op)
    ensures AllFit(Effect(m, depth, op), depth)
  {
    hide BitLen, TrieOf, Distinct;
    forall m' | AllFit(m', depth)
      ensures Faithful(h, m', depth)
    {
      CollisionFreeIsFaithful(h, m', depth);
    }
    if op.AddBatch? {
      AddablePrefixFits(m, depth, op.keys);
    }
  }

  lemma {:induction false} AddablePrefixFits(m: map<nat, nat>, depth: nat, keys: seq<nat>)
    ensures Addable(m, depth, keys[..AddablePrefix(m, depth, keys)])
    decreases |keys|
  {
    assert keys[..|keys|] == keys;
    if keys == [] || Addable(m, depth, keys) {
    } else {
      AddablePrefixFits(m, depth, keys[..|keys| - 1]);
      var n := AddablePrefix(m, depth, keys);
      assert keys[..|keys| - 1][..n] == keys[..n];
    }
  }
}
