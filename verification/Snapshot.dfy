/** The binary snapshot format: server/internal/snapshot/binary.go. */
module Snapshot {
  import opened Wrappers
  import opened Hashing
  import opened Nodes
  import opened Bytes
  import opened SparseMerkleTree

  const MAGIC := 0x534D
  const VERSION := 1
  const HEADER_SIZE := 52

  datatype ImportError = ShortHeader | BadMagic | BadVersion | ShortNode | BadType

  // ------------------------------------------------------------------ writing

  ghost function Header(nodeCount: nat, root: nat, depth: nat, crlNumber: nat): (r: seq<Byte>)
    ensures |r| == HEADER_SIZE
  {
    Encode(MAGIC, 2) + Encode(VERSION, 2) + Encode(nodeCount, 4) + Encode(root, 32)
    + Encode(depth, 4) + Encode(crlNumber, 8)
  }

  ghost function Fields(values: seq<nat>): (r: seq<Byte>)
    ensures |r| == 32 * |values|
  {
    if values == [] then [] else Encode(values[0], 32) + Fields(values[1..])
  }

  ghost function Record(hash: nat, cn: ChildNodes): seq<Byte> {
    [if IsLeaf(cn) then 1 else 0] + Encode(hash, 32) + Fields(cn)
  }

  ghost function Records(nodes: map<nat, ChildNodes>, order: seq<nat>): seq<Byte>
    requires forall x :: x in order ==> x in nodes
  {
    if order == [] then [] else Record(order[0], nodes[order[0]]) + Records(nodes, order[1..])
  }

  /** The exported bytes when the nodes are traversed in the given order. */
  ghost function Image(nodes: map<nat, ChildNodes>, order: seq<nat>, root: nat, depth: nat, crlNumber: nat): seq<Byte>
    requires forall x :: x in order ==> x in nodes
  {
    Header(|order|, root, depth, crlNumber) + Records(nodes, order)
  }

  /** Writes the low n bytes of x at the offset, as PutUint16, PutUint32, PutUint64 and copy do. */
  method PutUint(buf: array<Byte>, offset: nat, n: nat, x: nat)
    requires offset + n <= buf.Length
    modifies buf
    ensures buf[..] == old(buf[..offset]) + Encode(x, n) + old(buf[offset + n..])
  {
    var i, rest := n, x;
    while i > 0
      invariant 0 <= i <= n
      invariant buf[..offset] == old(buf[..offset]) && buf[offset + n..] == old(buf[offset + n..])
      invariant Encode(x, n) == Encode(rest, i) + buf[offset + i..offset + n]
    {
      i := i - 1;
      buf[offset + i] := rest % 256;
      rest := rest / 256;
    }
    assert buf[..] == buf[..offset] + buf[offset..offset + n] + buf[offset + n..];
  }

  /** out is the image of the tree for some traversal order of its nodes. */
  ghost predicate IsExport(out: seq<Byte>, order: seq<nat>, tree: SMT, crlNumber: nat)
    reads tree
  {
    Lists(order, tree.nodes) && out == Image(tree.nodes, order, tree.root, tree.depth, crlNumber)
  }

  method ExportBinary(tree: SMT, crlNumber: nat) returns (out: seq<Byte>)
    requires Encodable(tree.nodes) && FitsHash(tree.root)
    ensures exists order: seq<nat> :: IsExport(out, order, tree, crlNumber)
  {
    hide Encodable, Encode, Capacity, FitsHash, Records, Record, Fields, Header, NoDuplicates, RawOf;
    var raws := tree.NodesRaw();
    ghost var order: seq<nat> :| RawListing(raws, order, tree.nodes);
    out := WriteHeader(|raws|, tree.root, tree.depth, crlNumber);
    ghost var nodes := tree.nodes;
    ghost var all := out + Records(nodes, order);
    assert order[0..] == order;
    for i := 0 to |raws|
      invariant out + Records(nodes, order[i..]) == all
    {
      var record := WriteNode(raws[i], order[i], nodes[order[i]]);
      RecordsStep(nodes, order, i);
      out := out + record;
    }
    RecordsEnd(nodes, order[|raws|..]);
    assert IsExport(out, order, tree, crlNumber);
  }

  /** The header buffer, filled field by field. */
  method WriteHeader(nodeCount: nat, root: nat, depth: nat, crlNumber: nat) returns (r: seq<Byte>)
    ensures r == Header(nodeCount, root, depth, crlNumber)
  {
    hide Encode;
    var hdr := new Byte[HEADER_SIZE](_ => 0);
    PutUint(hdr, 0, 2, MAGIC);
    PutUint(hdr, 2, 2, VERSION);
    PutUint(hdr, 4, 4, nodeCount);
    PutUint(hdr, 8, 32, root);
    PutUint(hdr, 40, 4, depth);
    PutUint(hdr, 44, 8, crlNumber);
    r := hdr[..];
  }

  lemma RecordsStep(nodes: map<nat, ChildNodes>, order: seq<nat>, i: nat)
    requires forall x :: x in order ==> x in nodes
    requires i < |order|
    ensures Records(nodes, order[i..]) == Record(order[i], nodes[order[i]]) + Records(nodes, order[i + 1..])
  {
    assert order[i..][1..] == order[i + 1..];
  }

  lemma RecordsEnd(nodes: map<nat, ChildNodes>, order: seq<nat>)
    requires |order| == 0
    ensures Records(nodes, order) == []
  {}

  /** Type byte, hash, then each child. */
  method WriteNode(rn: RawNode, ghost hash: nat, ghost cn: ChildNodes) returns (w: seq<Byte>)
    requires rn == RawOf(hash, cn)
    ensures w == Record(hash, cn)
  {
    hide Encode;
    var typ := if rn.isLeaf then 1 else 0;
    w := [typ] + rn.hash;
    assert cn[0..] == cn;
    for j := 0 to |rn.children|
      invariant w + Fields(cn[j..]) == Record(hash, cn)
    {
      assert cn[j..][1..] == cn[j + 1..];
      w := w + rn.children[j];
    }
  }

  // ------------------------------------------------------------------ reading

  class ByteReader {
    const data: seq<Byte>
    var pos: nat

    ghost predicate Valid()
      reads this
    {
      pos <= |data|
    }

    ghost function Rest(): seq<Byte>
      reads this
      requires Valid()
    {
      data[pos..]
    }

    constructor (data: seq<Byte>)
      ensures Valid() && Rest() == data
    {
      this.data := data;
      pos := 0;
    }

    /** As `io.ReadFull`: n bytes, or an error and whatever there was is consumed. */
    method ReadFull(n: nat) returns (buf: Option<seq<Byte>>)
      requires Valid()
      modifies this
      ensures Valid()
      ensures buf.Some? <==> old(pos) + n <= |data|
      ensures buf.Some? ==> buf.value == data[old(pos)..old(pos) + n] && pos == old(pos) + n
      ensures buf.None? ==> pos == |data|
    {
      if pos + n > |data| {
        pos := |data|;
        return None;
      }
      buf := Some(data[pos..pos + n]);
      pos := pos + n;
    }
  }

  /** What one node's bytes mean, and the bytes after them. */
  ghost function ParseNode(data: seq<Byte>): Result<(nat, ChildNodes, seq<Byte>), ImportError> {
    if |data| < 33 then Failure(ShortNode)
    else if data[0] > 1 then Failure(BadType)
    else
      var n := if data[0] == 1 then 3 else 2;
      if |data| < 33 + 32 * n then Failure(ShortNode)
      else Success((Decode(data[1..33]), ReadFields(data, 33, n), data[33 + 32 * n..]))
  }

  ghost function ReadFields(data: seq<Byte>, at: nat, n: nat): (r: seq<nat>)
    requires at + 32 * n <= |data|
  {
    seq(n, j requires 0 <= j < n => Decode(data[at + 32 * j..at + 32 * j + 32]))
  }

  /** Reading n nodes into a map, counting leaves. */
  ghost function ParseNodes(data: seq<Byte>, n: nat, nodes: map<nat, ChildNodes>, count: nat)
      : Result<(map<nat, ChildNodes>, nat, seq<Byte>), ImportError>
    decreases n
  {
    if n == 0 then Success((nodes, count, data))
    else
      match ParseNode(data)
      case Failure(e) => Failure(e)
      case Success((x, cn, rest)) =>
        ParseNodes(rest, n - 1, nodes[x := cn], if IsLeaf(cn) then count + 1 else count)
  }

  datatype Imported = Imported(
    nodes: map<nat, ChildNodes>, root: nat, depth: nat, count: nat, crlNumber: nat)

  ghost function Parse(data: seq<Byte>): Result<Imported, ImportError> {
    if |data| < HEADER_SIZE then Failure(ShortHeader)
    else if Decode(data[0..2]) != MAGIC then Failure(BadMagic)
    else if Decode(data[2..4]) != VERSION then Failure(BadVersion)
    else
      match ParseNodes(data[HEADER_SIZE..], Decode(data[4..8]), map[], 0)
      case Failure(e) => Failure(e)
      case Success((nodes, count, _)) =>
        Success(Imported(nodes, Decode(data[8..40]), Decode(data[40..44]), count, Decode(data[44..52])))
  }

  /** The tree is null on error. m is the map that the snapshot is meant to hold. */
  method ImportBinary(h: Hasher, r: ByteReader, ghost m: map<nat, nat>)
      returns (tree: SMT?, crlNumber: nat, err: Outcome<ImportError>)
    requires r.Valid()
    modifies r
    ensures err.Fail? ==> tree == null && Parse(old(r.Rest())) == Failure(err.error)
    ensures err.Pass? ==>
              && tree != null && fresh(tree) && tree.h == h
              && tree.count >= 0
              && Parse(old(r.Rest())) == Success(Imported(tree.nodes, tree.root, tree.depth, tree.count, crlNumber))
              && (Stores(h, tree.depth, tree.nodes, tree.root, tree.count, m) ==> tree.Valid() && tree.entries == m)
  {
    hide Encode, Decode, Capacity, Stores, ParseNode;
    ghost var data := r.Rest();
    var hdr := r.ReadFull(HEADER_SIZE);
    if hdr.None? {
      return null, 0, Fail(ShortHeader);
    }
    var head := hdr.value;
    assert head == data[..HEADER_SIZE];
    assert forall i, j :: 0 <= i <= j <= HEADER_SIZE ==> head[i..j] == data[i..j];
    assert r.Rest() == data[HEADER_SIZE..];
    if Decode(head[0..2]) != MAGIC {
      return null, 0, Fail(BadMagic);
    }
    if Decode(head[2..4]) != VERSION {
      return null, 0, Fail(BadVersion);
    }
    var nodeCount := Decode(head[4..8]);
    var root := Decode(head[8..40]);
    var depth := Decode(head[40..44]);
    crlNumber := Decode(head[44..52]);
    var nodes: map<nat, ChildNodes> := map[];
    var count := 0;
    for i := 0 to nodeCount
      invariant r.Valid()
      invariant ParseNodes(r.Rest(), nodeCount - i, nodes, count)
                == ParseNodes(data[HEADER_SIZE..], nodeCount, map[], 0)
    {
      var x, children, e := ReadNode(r);
      if e.Fail? {
        return null, 0, e;
      }
      nodes := nodes[x := children];
      if IsLeaf(children) {
        count := count + 1;
      }
    }
    var t := new SMT(h, depth);
    t.SetNodes(nodes, root, count, m);
    return t, crlNumber, Pass;
  }

  /** One iteration's reads, in order: type, hash, and after the type test the children. */
  method ReadNode(r: ByteReader) returns (hash: nat, children: ChildNodes, err: Outcome<ImportError>)
    requires r.Valid()
    modifies r
    ensures r.Valid()
    ensures err.Fail? ==> ParseNode(old(r.Rest())) == Failure(err.error)
    ensures err.Pass? ==> ParseNode(old(r.Rest())) == Success((hash, children, r.Rest()))
  {
    hide Decode;
    ghost var data, start := r.Rest(), r.pos;
    hash, children := 0, [];
    var typeBuf := r.ReadFull(1);
    if typeBuf.None? {
      return hash, children, Fail(ShortNode);
    }
    var hashBuf := r.ReadFull(32);
    if hashBuf.None? {
      return hash, children, Fail(ShortNode);
    }
    Slice(r.data, start, 1, 33);
    if typeBuf.value[0] > 1 {
      return hash, children, Fail(BadType);
    }
    var numChildren := if typeBuf.value[0] == 1 then 3 else 2;
    for j := 0 to numChildren
      invariant r.Valid() && r.pos == start + 33 + 32 * j
      invariant |children| == j
      invariant forall i :: 0 <= i < j ==> children[i] == Decode(data[33 + 32 * i..33 + 32 * i + 32])
    {
      var childBuf := r.ReadFull(32);
      if childBuf.None? {
        return hash, children, Fail(ShortNode);
      }
      Slice(r.data, start, 33 + 32 * j, 33 + 32 * j + 32);
      children := children + [Decode(childBuf.value)];
    }
    hash := Decode(hashBuf.value);
    assert children == ReadFields(data, 33, numChildren);
    assert r.Rest() == data[33 + 32 * numChildren..];
    return hash, children, Pass;
  }

  lemma Slice(data: seq<Byte>, start: nat, from: nat, to: nat)
    requires from <= to && start + to <= |data|
    ensures data[start..][from..to] == data[start + from..start + to]
  {}
}
