/** The JSON snapshot as an in-memory node list: server/internal/snapshot/snapshot.go. */
module JsonSnapshot {
  import opened Wrappers
  import opened Hexadecimal
  import opened Hashing
  import opened Tries
  import opened Nodes
  import opened SparseMerkleTree
  import opened Build
  import opened SnapshotRoundTrip

  // ---------------------------------------------------------------- snapshots

  datatype NodeEntry = NodeEntry(hash: string, children: seq<string>)

  datatype Snapshot = Snapshot(root: string, count: int, depth: nat, crlNumber: nat, nodes: seq<NodeEntry>)

  ghost function EntryOf(hash: nat, cn: ChildNodes): NodeEntry {
    NodeEntry(BigToHex(hash), seq(|cn|, i requires 0 <= i < |cn| => BigToHex(cn[i])))
  }

  /** list holds the nodes in the given order. */
  ghost predicate EntryListing(list: seq<NodeEntry>, order: seq<nat>, nodes: map<nat, ChildNodes>) {
    && Lists(order, nodes)
    && |list| == |order|
    && forall i :: 0 <= i < |order| ==> list[i] == EntryOf(order[i], nodes[order[i]])
  }

  /** One entry written out. */
  lemma OneEntry()
    ensures EntryOf(255, [1, 16]) == NodeEntry("0xff", ["0x1", "0x10"])
  {
    assert Hex(15) == "f" && Hex(255) == "ff" && Hex(1) == "1" && Hex(16) == "10";
    assert BigToHex(1) == "0x1" && BigToHex(16) == "0x10";
    assert EntryOf(255, [1, 16]).children == ["0x1", "0x10"];
  }

  method Export(tree: SMT, crlNumber: nat) returns (s: Snapshot)
    ensures s.root == BigToHex(tree.root) && s.count == tree.count && s.depth == tree.depth
    ensures s.crlNumber == crlNumber
    ensures exists order: seq<nat> :: EntryListing(s.nodes, order, tree.nodes)
  {
    hide BigToHex;
    var list := [];
    ghost var order: seq<nat> := [];
    var rest := tree.nodes.Keys;
    while rest != {}
      invariant rest <= tree.nodes.Keys
      invariant NoDuplicates(order)
      invariant forall x :: x in order <==> x in tree.nodes && x !in rest
      invariant |list| == |order|
      invariant forall i :: 0 <= i < |order| ==> list[i] == EntryOf(order[i], tree.nodes[order[i]])
    {
      var x :| x in rest;
      var cn := tree.nodes[x];
      var children := [];
      for i := 0 to |cn|
        invariant |children| == i
        invariant forall j :: 0 <= j < i ==> children[j] == BigToHex(cn[j])
      {
        children := children + [BigToHex(cn[i])];
      }
      assert NodeEntry(BigToHex(x), children) == EntryOf(x, cn);
      list, order := list + [NodeEntry(BigToHex(x), children)], order + [x];
      rest := rest - {x};
    }
    assert EntryListing(list, order, tree.nodes);
    s := Snapshot(BigToHex(tree.root), tree.count, tree.depth, crlNumber, list);
  }

  ghost predicate Readable(e: NodeEntry) {
    HexToBig(e.hash).Some? && forall i :: 0 <= i < |e.children| ==> HexToBig(e.children[i]).Some?
  }

  ghost function ChildrenRead(e: NodeEntry): seq<int>
    requires Readable(e)
  {
    seq(|e.children|, i requires 0 <= i < |e.children| => HexToBig(e.children[i]).value)
  }

  /** The map that a node list denotes: later entries win. */
  ghost function ReadAll(list: seq<NodeEntry>, acc: map<int, seq<int>>): Option<map<int, seq<int>>>
    decreases |list|
  {
    if list == [] then Some(acc)
    else if !Readable(list[0]) then None
    else ReadAll(list[1..], acc[HexToBig(list[0].hash).value := ChildrenRead(list[0])])
  }

  /** A list is readable exactly when every entry is. */
  lemma {:induction false} ReadableList(list: seq<NodeEntry>, acc: map<int, seq<int>>)
    ensures ReadAll(list, acc).Some? <==> forall i :: 0 <= i < |list| ==> Readable(list[i])
    decreases |list|
  {
    hide HexToBig, ChildrenRead;
    if list == [] {
    } else if Readable(list[0]) {
      ReadableList(list[1..], acc[HexToBig(list[0].hash).value := ChildrenRead(list[0])]);
      assert forall i :: 0 < i < |list| ==> list[i] == list[1..][i - 1];
    }
  }

  /** The last entry read wins over all before it and leaves the other hashes alone. */
  lemma {:induction false} LaterWins(list: seq<NodeEntry>, e: NodeEntry, acc: map<int, seq<int>>)
    requires Readable(e) && ReadAll(list, acc).Some?
    ensures ReadAll([], acc) == Some(acc)
    ensures ReadAll(list + [e], acc)
            == Some(ReadAll(list, acc).value[HexToBig(e.hash).value := ChildrenRead(e)])
    decreases |list|
  {
    hide HexToBig, ChildrenRead;
    if list == [] {
      assert (list + [e])[1..] == [];
    } else {
      assert (list + [e])[1..] == list[1..] + [e];
      LaterWins(list[1..], e, acc[HexToBig(list[0].hash).value := ChildrenRead(list[0])]);
    }
  }

  method ReadEntry(e: NodeEntry) returns (r: Option<(int, seq<int>)>)
    ensures r.Some? <==> Readable(e)
    ensures r.Some? ==> r.value == (HexToBig(e.hash).value, ChildrenRead(e))
  {
    hide HexToBig;
    var hash := HexToBig(e.hash);
    if hash.None? {
      return None;
    }
    var children := [];
    for j := 0 to |e.children|
      invariant |children| == j
      invariant forall k :: 0 <= k < j ==> HexToBig(e.children[k]) == Some(children[k])
    {
      var c := HexToBig(e.children[j]);
      if c.None? {
        return None;
      }
      children := children + [c.value];
    }
    assert children == ChildrenRead(e);
    return Some((hash.value, children));
  }

  /** No number among the nodes is negative. */
  predicate Natural(nodes: map<int, seq<int>>) {
    forall x :: x in nodes ==> x >= 0 && forall i :: 0 <= i < |nodes[x]| ==> nodes[x][i] >= 0
  }

  function AsChildren(cn: seq<int>): (r: ChildNodes)
    requires forall i :: 0 <= i < |cn| ==> cn[i] >= 0
    ensures r == cn
  {
    seq(|cn|, i requires 0 <= i < |cn| => var c: nat := cn[i]; c)
  }

  function AsNodes(nodes: map<int, seq<int>>): (r: map<nat, ChildNodes>)
    requires Natural(nodes)
    ensures r == nodes
  {
    map x: nat | x in nodes :: AsChildren(nodes[x])
  }

  /** Negative: everything reads, but some number has a minus sign. The code goes on and builds a tree with
      it; a tree of hashes cannot hold it, so the model stops there. */
  datatype ImportStatus = Unreadable | Negative | Restored

  /** A depth of 0 is read as the default depth. m is the map that the snapshot is meant to hold. */
  method Import(h: Hasher, s: Snapshot, ghost m: map<nat, nat>)
      returns (status: ImportStatus, tree: SMT?, crlNumber: nat)
    ensures status == Unreadable <==> HexToBig(s.root).None? || ReadAll(s.nodes, map[]).None?
    ensures status == Restored <==> && HexToBig(s.root).Some? && HexToBig(s.root).value >= 0
                                    && ReadAll(s.nodes, map[]).Some? && Natural(ReadAll(s.nodes, map[]).value)
    ensures status == Restored <==> tree != null
    ensures tree != null ==>
              && fresh(tree) && tree.h == h && tree.entries == m
              && tree.depth == (if s.depth == 0 then DEFAULT_DEPTH else s.depth)
              && tree.nodes == ReadAll(s.nodes, map[]).value
              && tree.root == HexToBig(s.root).value
              && tree.count == s.count && crlNumber == s.crlNumber
  {
    hide HexToBig, Readable, Natural;
    var root := HexToBig(s.root);
    if root.None? {
      return Unreadable, null, 0;
    }
    var depth := if s.depth == 0 then DEFAULT_DEPTH else s.depth;
    var nodes: map<int, seq<int>> := map[];
    assert s.nodes[0..] == s.nodes;
    for i := 0 to |s.nodes|
      invariant ReadAll(s.nodes[i..], nodes) == ReadAll(s.nodes, map[])
    {
      assert s.nodes[i..][1..] == s.nodes[i + 1..];
      var entry := ReadEntry(s.nodes[i]);
      if entry.None? {
        return Unreadable, null, 0;
      }
      nodes := nodes[entry.value.0 := entry.value.1];
    }
    if root.value < 0 || !Natural(nodes) {
      return Negative, null, 0;
    }
    var t := new SMT(h, depth);
    t.SetNodes(AsNodes(nodes), root.value, s.count, m);
    return Restored, t, s.crlNumber;
  }

  lemma EntryRead(hash: nat, cn: ChildNodes)
    ensures Readable(EntryOf(hash, cn))
    ensures HexToBig(EntryOf(hash, cn).hash) == Some(hash)
    ensures ChildrenRead(EntryOf(hash, cn)) == cn
  {
    hide HexToBig, BigToHex;
    HexRoundTrip(hash);
    forall i | 0 <= i < |cn|
      ensures HexToBig(BigToHex(cn[i])) == Some(cn[i])
    {
      HexRoundTrip(cn[i]);
    }
  }

  lemma {:induction false} ReadAllOfExport(list: seq<NodeEntry>, order: seq<nat>, nodes: map<nat, ChildNodes>,
                                           acc: map<nat, ChildNodes>)
    requires Within(order, nodes) && |list| == |order|
    requires forall i :: 0 <= i < |order| ==> list[i] == EntryOf(order[i], nodes[order[i]])
    ensures ReadAll(list, acc) == Some(acc + Part(nodes, order))
    decreases |order|
  {
    hide Part, EntryOf, Readable, HexToBig, ChildrenRead;
    if order == [] {
      PartNone(nodes, order, acc);
    } else {
      var x := order[0];
      EntryRead(x, nodes[x]);
      PartCons(nodes, x, order[1..], order, acc);
      ReadAllOfExport(list[1..], order[1..], nodes, acc[x := nodes[x]]);
    }
  }

  /** Export, then import: the restored tree is valid and denotes the same map; only a tree of depth 0
      comes back with another depth, and even that one with the same store. */
  method ExportThenImport(t: SMT, crlNumber: nat) returns (t': SMT?, crl': nat)
    requires t.Valid()
    ensures t' != null && t'.Valid() && t'.entries == t.entries && crl' == crlNumber
    ensures t'.nodes == t.nodes && t'.root == t.root && t'.count == t.count
    ensures t'.depth == t.depth <==> t.depth != 0
  {
    hide BigToHex, HexToBig, ReadAll;
    var s := Export(t, crlNumber);
    ghost var order: seq<nat> :| EntryListing(s.nodes, order, t.nodes);
    ReadAllOfExport(s.nodes, order, t.nodes, map[]);
    PartAll(t.nodes, order);
    assert map[] + t.nodes == t.nodes;
    HexRoundTrip(t.root);
    if t.depth == 0 {
      ValidAtDepth(t, DEFAULT_DEPTH);
    }
    var status;
    status, t', crl' := Import(t.h, s, t.entries);
  }

  /** A store is one of any larger depth too. */
  lemma ValidAtDepth(t: SMT, depth: nat)
    requires t.Valid() && t.depth <= depth
    ensures Stores(t.h, depth, t.nodes, t.root, t.count, t.entries)
  {
    TrieDepthFree(t.entries, [], t.depth, depth);
  }
}
