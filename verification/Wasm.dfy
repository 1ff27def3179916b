/** The browser module's chunked reader: server/wasm/main.go. */
module Wasm {
  import opened Wrappers
  import opened Hexadecimal
  import opened Hashing
  import opened Nodes
  import opened Bytes
  import opened SparseMerkleTree
  import opened Snapshot
  import opened SnapshotRoundTrip

  /** NegativeRoot: the code would install a root with a minus sign, which no hash equals. */
  datatype JsError = NotInitialised | BadRoot | NegativeRoot

  /** The effect of one chunk: the map, the number of records taken, and the bytes dropped at the end. */
  datatype Chunked = Chunked(nodes: map<nat, ChildNodes>, parsed: nat, leftover: seq<Byte>)

  /** A record's length is read off its type byte: anything but 1 is taken for a branch. */
  ghost function RecordSize(buf: seq<Byte>): nat
    requires buf != []
  {
    if buf[0] == 1 then 129 else 97
  }

  ghost function Chunk(buf: seq<Byte>, nodes: map<nat, ChildNodes>): Chunked
    decreases |buf|
  {
    if buf == [] || |buf| < RecordSize(buf) then Chunked(nodes, 0, buf)
    else
      var size := RecordSize(buf);
      var cn := ReadFields(buf, 33, if buf[0] == 1 then 3 else 2);
      var r := Chunk(buf[size..], nodes[Decode(buf[1..33]) := cn]);
      r.(parsed := r.parsed + 1)
  }

  lemma ChunkStep(buf: seq<Byte>, nodes: map<nat, ChildNodes>)
    requires buf != []
    ensures |buf| < RecordSize(buf) ==> Chunk(buf, nodes) == Chunked(nodes, 0, buf)
    ensures |buf| >= RecordSize(buf) ==>
              var cn := ReadFields(buf, 33, if buf[0] == 1 then 3 else 2);
              var r := Chunk(buf[RecordSize(buf)..], nodes[Decode(buf[1..33]) := cn]);
              Chunk(buf, nodes) == Chunked(r.nodes, r.parsed + 1, r.leftover)
  {}

  lemma ChunkEnd(buf: seq<Byte>, nodes: map<nat, ChildNodes>)
    ensures buf == [] ==> Chunk(buf, nodes) == Chunked(nodes, 0, [])
  {}

  lemma Drop(buf: seq<Byte>, offset: nat, n: nat)
    requires offset + n <= |buf|
    ensures buf[offset..][n..] == buf[offset + n..]
  {}

  class Module {
    const h: Hasher
    var tree: SMT?
    var nodes: Option<map<nat, ChildNodes>>

    constructor (h: Hasher)
      ensures this.h == h && tree == null && nodes == None
    {
      this.h := h;
      tree, nodes := null, None;
    }

    /** The node count only sizes the map. */
    method InitTree(nodeCount: nat, depth: nat)
      modifies this
      ensures fresh(tree) && tree != null && tree.h == h && tree.depth == depth
      ensures nodes == Some(map[])
    {
      tree := new SMT(h, depth);
      nodes := Some(map[]);
    }

    method AddNodeChunk(buf: seq<Byte>) returns (r: Result<nat, JsError>)
      modifies this`nodes
      ensures old(nodes).None? ==> r == Failure(NotInitialised) && nodes == None
      ensures old(nodes).Some? ==>
                && var c := Chunk(buf, old(nodes).value);
                && r == Success(c.parsed) && nodes == Some(c.nodes)
    {
      if nodes.None? {
        return Failure(NotInitialised);
      }
      hide Decode, Chunk, ReadFields;
      ghost var all := Chunk(buf, nodes.value);
      var parsed, offset := 0, 0;
      assert buf[0..] == buf;
      while offset < |buf|
        invariant offset <= |buf|
        invariant nodes.Some?
        invariant Chunk(buf[offset..], nodes.value).nodes == all.nodes
        invariant parsed + Chunk(buf[offset..], nodes.value).parsed == all.parsed
        decreases |buf| - offset
      {
        ghost var rest := buf[offset..];
        ChunkStep(rest, nodes.value);
        if offset + 33 > |buf| {
          break;
        }
        var isLeaf := buf[offset] == 1;
        Slice(buf, offset, 1, 33);
        var hash := Decode(buf[offset + 1..offset + 33]);
        var numChildren := if isLeaf then 3 else 2;
        if offset + 33 + numChildren * 32 > |buf| {
          break;
        }
        var children := ReadChildren(buf, offset, numChildren);
        nodes := Some(nodes.value[hash := children]);
        parsed := parsed + 1;
        Drop(buf, offset, 33 + numChildren * 32);
        offset := offset + 33 + numChildren * 32;
      }
      ChunkEnd(buf[offset..], nodes.value);
      return Success(parsed);
    }

    /** The children of the record that starts at offset. */
    static method ReadChildren(buf: seq<Byte>, offset: nat, n: nat) returns (children: ChildNodes)
      requires offset + 33 + n * 32 <= |buf|
      ensures children == ReadFields(buf[offset..], 33, n)
    {
      hide Decode;
      children := [];
      for j := 0 to n
        invariant |children| == j
        invariant forall i :: 0 <= i < j ==>
                    children[i] == Decode(buf[offset..][33 + 32 * i..33 + 32 * i + 32])
      {
        var at := offset + 33 + 32 * j;
        Slice(buf, offset, 33 + 32 * j, 33 + 32 * j + 32);
        children := children + [Decode(buf[at..at + 32])];
      }
    }

    /** m is the map that the nodes are meant to hold. */
    method Finalize(rootHex: string, count: int, ghost m: map<nat, nat>) returns (r: Outcome<JsError>)
      modifies this`nodes, if tree != null then {tree} else {}
      ensures r == Fail(NotInitialised) <==> tree == null
      ensures r == Fail(BadRoot) <==> tree != null && SetString(rootHex).None?
      ensures r.Pass? <==> tree != null && SetString(rootHex).Some? && SetString(rootHex).value >= 0
      ensures r.Fail? ==> nodes == old(nodes) && (tree != null ==> unchanged(tree))
      ensures r.Pass? ==>
                && nodes == None
                && tree.nodes == (if old(nodes).Some? then old(nodes).value else map[])
                && tree.root == SetString(rootHex).value && tree.count == count && tree.entries == m
    {
      hide SetString;
      if tree == null {
        return Fail(NotInitialised);
      }
      var root := SetString(rootHex);
      if root.None? {
        return Fail(BadRoot);
      }
      if root.value < 0 {
        return Fail(NegativeRoot);
      }
      tree.SetNodes(if nodes.Some? then nodes.value else map[], root.value, count, m);
      nodes := None;
      return Pass;
    }
  }

  // ------------------------------------------------- streaming against batch

  /** Every record starts with type byte 0 or 1. */
  ghost predicate KnownTypes(buf: seq<Byte>)
    decreases |buf|
  {
    buf != [] && |buf| >= RecordSize(buf) ==> buf[0] <= 1 && KnownTypes(buf[RecordSize(buf)..])
  }

  /** On bytes that are whole records, the import accepts exactly when every type is known, and then both
      readers build the same map; the chunked reader alone takes any other type for a branch. */
  lemma {:induction false} ChunkAgainstImport(buf: seq<Byte>, nodes: map<nat, ChildNodes>, count: nat)
    requires Chunk(buf, nodes).leftover == []
    ensures
      var c := Chunk(buf, nodes);
      var r := ParseNodes(buf, c.parsed, nodes, count);
      && (r.Success? <==> KnownTypes(buf))
      && (r.Success? ==> r.value.0 == c.nodes && r.value.2 == [])
    decreases |buf|
  {
    hide Decode, ReadFields, Chunk;
    ChunkEnd(buf, nodes);
    if buf == [] {
    } else {
      ChunkStep(buf, nodes);
      var cn := ReadFields(buf, 33, if buf[0] == 1 then 3 else 2);
      ChunkAgainstImport(buf[RecordSize(buf)..], nodes[Decode(buf[1..33]) := cn],
                         if IsLeaf(cn) then count + 1 else count);
    }
  }

  /** A record of type 2 is a branch to the one and an error to the other. */
  lemma UnknownTypeTaken()
    ensures
      var buf := [2] + seq(96, _ => 0);
      && Chunk(buf, map[]).parsed == 1 && Chunk(buf, map[]).leftover == []
      && ParseNodes(buf, 1, map[], 0) == Failure(BadType)
  {
    hide Decode, ReadFields, Chunk;
    var buf: seq<Byte> := [2] + seq(96, _ => 0);
    ChunkStep(buf, map[]);
    ChunkEnd(buf[97..], map[Decode(buf[1..33]) := ReadFields(buf, 33, 2)]);
  }

  /** Any type byte but 1 is read as 0. */
  lemma TypeByteIgnored(typ: Byte, rest: seq<Byte>, nodes: map<nat, ChildNodes>)
    requires typ != 1
    ensures
      var c, branch := Chunk([typ] + rest, nodes), Chunk([0] + rest, nodes);
      c.nodes == branch.nodes && c.parsed == branch.parsed && |c.leftover| == |branch.leftover|
  {
    hide Decode, ReadFields, Chunk;
    var a, b := [typ] + rest, [0 as Byte] + rest;
    ChunkStep(a, nodes);
    ChunkStep(b, nodes);
    if |a| >= 97 {
      forall i, j | 1 <= i <= j <= |a|
        ensures a[i..j] == b[i..j]
      {}
      assert a[97..] == b[97..];
      FieldsIgnoreType(a, b);
    }
  }

  lemma FieldsIgnoreType(a: seq<Byte>, b: seq<Byte>)
    requires |a| == |b| >= 97
    requires forall i, j :: 1 <= i <= j <= |a| ==> a[i..j] == b[i..j]
    ensures ReadFields(a, 33, 2) == ReadFields(b, 33, 2)
  {
    hide Decode;
  }

  /** An incomplete record at the end is dropped: 97 bytes make a branch, 129 a leaf. */
  lemma ShortTailDropped(tail: seq<Byte>, nodes: map<nat, ChildNodes>)
    requires tail == [] || |tail| < if tail[0] == 1 then 129 else 97
    ensures Chunk(tail, nodes) == Chunked(nodes, 0, tail)
  {
    hide Decode, ReadFields;
  }

  /** Whether bytes are whole records does not depend on the map. */
  lemma {:induction false} LeftoverFromBytes(buf: seq<Byte>, nodes: map<nat, ChildNodes>, nodes': map<nat, ChildNodes>)
    ensures Chunk(buf, nodes).leftover == Chunk(buf, nodes').leftover
    ensures Chunk(buf, nodes).parsed == Chunk(buf, nodes').parsed
    decreases |buf|
  {
    hide Decode, ReadFields;
    if buf == [] || |buf| < RecordSize(buf) {
    } else {
      var cn := ReadFields(buf, 33, if buf[0] == 1 then 3 else 2);
      LeftoverFromBytes(buf[RecordSize(buf)..], nodes[Decode(buf[1..33]) := cn], nodes'[Decode(buf[1..33]) := cn]);
    }
  }

  ghost predicate Whole(buf: seq<Byte>) {
    Chunk(buf, map[]).leftover == []
  }

  /** Cutting at a record boundary changes nothing. */
  lemma {:induction false} ChunkSplits(a: seq<Byte>, b: seq<Byte>, nodes: map<nat, ChildNodes>)
    requires Chunk(a, nodes).leftover == []
    ensures
      var first := Chunk(a, nodes);
      var second := Chunk(b, first.nodes);
      Chunk(a + b, nodes) == Chunked(second.nodes, first.parsed + second.parsed, second.leftover)
    decreases |a|
  {
    hide Decode, Chunk;
    ChunkEnd(a, nodes);
    if a == [] {
      assert a + b == b;
    } else {
      ChunkStep(a, nodes);
      ChunkStep(a + b, nodes);
      var size := RecordSize(a);
      var n := if a[0] == 1 then 3 else 2;
      var cn := ReadFields(a, 33, n);
      assert (a + b)[1..33] == a[1..33];
      SameFields(a, b, n);
      assert (a + b)[size..] == a[size..] + b;
      ChunkSplits(a[size..], b, nodes[Decode(a[1..33]) := cn]);
    }
  }

  lemma SameFields(a: seq<Byte>, b: seq<Byte>, n: nat)
    requires 33 + 32 * n <= |a|
    ensures ReadFields(a + b, 33, n) == ReadFields(a, 33, n)
  {
    forall j | 0 <= j < n
      ensures (a + b)[33 + 32 * j..33 + 32 * j + 32] == a[33 + 32 * j..33 + 32 * j + 32]
    {}
  }

  ghost function Concat(chunks: seq<seq<Byte>>): seq<Byte> {
    if chunks == [] then [] else chunks[0] + Concat(chunks[1..])
  }

  /** The chunks' effect one after the other. */
  ghost function Stream(chunks: seq<seq<Byte>>, nodes: map<nat, ChildNodes>): (map<nat, ChildNodes>, nat)
    decreases |chunks|
  {
    if chunks == [] then (nodes, 0)
    else
      var c := Chunk(chunks[0], nodes);
      var (nodes', parsed) := Stream(chunks[1..], c.nodes);
      (nodes', c.parsed + parsed)
  }

  /** Any split at record boundaries builds the same map, and the parsed counts add up. */
  lemma {:induction false} StreamIsOneChunk(chunks: seq<seq<Byte>>, nodes: map<nat, ChildNodes>)
    requires forall c :: c in chunks ==> Whole(c)
    ensures Chunk(Concat(chunks), nodes) == Chunked(Stream(chunks, nodes).0, Stream(chunks, nodes).1, [])
    decreases |chunks|
  {
    hide Chunk;
    if chunks == [] {
      ChunkEnd([], nodes);
    } else {
      assert Whole(chunks[0]);
      LeftoverFromBytes(chunks[0], map[], nodes);
      ChunkSplits(chunks[0], Concat(chunks[1..]), nodes);
      StreamIsOneChunk(chunks[1..], Chunk(chunks[0], nodes).nodes);
    }
  }

  /** The node section of an export is whole records of known type. */
  lemma {:induction false} ChunkOfRecords(nodes: map<nat, ChildNodes>, order: seq<nat>, acc: map<nat, ChildNodes>)
    requires Within(order, nodes) && Recordable(nodes)
    ensures Chunk(Records(nodes, order), acc) == Chunked(acc + Part(nodes, order), |order|, [])
    decreases |order|
  {
    hide Chunk, Record, FitsRecord, Part;
    if order == [] {
      ChunkEnd([], acc);
      PartNone(nodes, order, acc);
    } else {
      var x, rest := order[0], order[1..];
      ChunkOfRecord(x, nodes[x], Records(nodes, rest), acc);
      ChunkOfRecords(nodes, rest, acc[x := nodes[x]]);
      PartCons(nodes, x, rest, order, acc);
    }
  }

  lemma ChunkOfRecord(hash: nat, cn: ChildNodes, rest: seq<Byte>, acc: map<nat, ChildNodes>)
    requires FitsRecord(hash, cn)
    ensures
      var r := Chunk(rest, acc[hash := cn]);
      Chunk(Record(hash, cn) + rest, acc) == Chunked(r.nodes, r.parsed + 1, r.leftover)
  {
    hide Chunk, Decode, Encode, ReadFields, Fields;
    var data := Record(hash, cn) + rest;
    RecordLength(hash, cn);
    ParseRecord(hash, cn, rest);
    ChunkStep(data, acc);
  }

  /** Streaming an exported node section in any chunks of whole records builds the exported map, with the
      parsed counts summing to the header's node count. */
  lemma StreamOfExport(nodes: map<nat, ChildNodes>, order: seq<nat>, chunks: seq<seq<Byte>>)
    requires Lists(order, nodes) && Recordable(nodes)
    requires Concat(chunks) == Records(nodes, order)
    requires forall c :: c in chunks ==> Whole(c)
    ensures Stream(chunks, map[]) == (nodes, |order|)
  {
    hide Chunk, Records, FitsRecord, Part, Stream;
    StreamIsOneChunk(chunks, map[]);
    ChunkOfRecords(nodes, order, map[]);
    PartAll(nodes, order);
    assert map[] + nodes == nodes;
  }

  /** Initialise, stream all chunks, finalise with the root in hex, padded or not: the browser's tree is then
      valid and denotes the same map as the tree that was exported. */
  method StreamExport(w: Module, t: SMT, ghost order: seq<nat>, chunks: seq<seq<Byte>>, rootHex: string)
      returns (total: nat)
    requires SetString(rootHex) == Some(t.root)
    requires t.Valid() && Encodable(t.nodes) && w.h == t.h
    requires Lists(order, t.nodes)
    requires Concat(chunks) == Records(t.nodes, order)
    requires forall c :: c in chunks ==> Whole(c)
    modifies w
    ensures total == |order|
    ensures w.tree != null && w.tree.Valid() && w.tree.entries == t.entries && w.tree.depth == t.depth
  {
    hide Chunk, Records, Stores, Whole, Concat, SetString;
    ExportableNodes(t, 0);
    ghost var want, m := t.nodes, t.entries;
    StreamOfExport(want, order, chunks);
    w.InitTree(|t.nodes|, t.depth);
    total := 0;
    assert chunks[0..] == chunks;
    for i := 0 to |chunks|
      invariant w.nodes.Some? && w.tree != null && fresh(w.tree) && w.tree.h == t.h && w.tree.depth == t.depth
      invariant Stream(chunks[i..], w.nodes.value).0 == want
      invariant total + Stream(chunks[i..], w.nodes.value).1 == |order|
    {
      assert chunks[i..][1..] == chunks[i + 1..];
      var r := w.AddNodeChunk(chunks[i]);
      total := total + r.value;
    }
    var _ := w.Finalize(rootHex, t.count, m);
  }
}
