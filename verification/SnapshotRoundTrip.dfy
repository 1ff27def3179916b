/** What the snapshot format guarantees: importing an export restores the tree, truncation is noticed,
    and the 32-bit node count is exact for every tree that can arise below a size bound. */
module SnapshotRoundTrip {
  import opened Wrappers
  import opened Hashing
  import opened Tries
  import opened Nodes
  import opened Bytes
  import opened SparseMerkleTree
  import opened Snapshot

  // ------------------------------------------------------------- one record

  lemma {:induction false} FieldAt(values: seq<nat>, j: nat)
    requires j < |values|
    ensures Fields(values)[32 * j..32 * j + 32] == Encode(values[j], 32)
    decreases j
  {
    hide Encode;
    var first, rest := Encode(values[0], 32), Fields(values[1..]);
    assert Fields(values) == first + rest;
    if j == 0 {
    } else {
      FieldAt(values[1..], j - 1);
      assert (first + rest)[32 * j..32 * j + 32] == rest[32 * (j - 1)..32 * (j - 1) + 32];
    }
  }

  /** A branch has two children and a leaf three. */
  ghost predicate Shaped(cn: ChildNodes) {
    |cn| == 2 || |cn| == 3
  }

  ghost predicate FitsRecord(hash: nat, cn: ChildNodes) {
    Shaped(cn) && FitsHash(hash) && forall c :: c in cn ==> FitsHash(c)
  }

  lemma RecordLength(hash: nat, cn: ChildNodes)
    ensures |Record(hash, cn)| == 33 + 32 * |cn|
  {}

  /** Reading back a written record yields its node and leaves what follows. */
  lemma ParseRecord(hash: nat, cn: ChildNodes, rest: seq<Byte>)
    requires FitsRecord(hash, cn)
    ensures ParseNode(Record(hash, cn) + rest) == Success((hash, cn, rest))
  {
    hide Encode, Decode, Capacity, Fields;
    var data := Record(hash, cn) + rest;
    RecordLength(hash, cn);
    assert data[1..33] == Encode(hash, 32);
    RoundTrip(hash, 32);
    forall j | 0 <= j < |cn|
      ensures Decode(data[33 + 32 * j..33 + 32 * j + 32]) == cn[j]
    {
      FieldAt(cn, j);
      assert data[33 + 32 * j..33 + 32 * j + 32] == Fields(cn)[32 * j..32 * j + 32];
      assert cn[j] in cn;
      RoundTrip(cn[j], 32);
    }
    assert ReadFields(data, 33, |cn|) == cn;
    assert data[33 + 32 * |cn|..] == rest;
  }

  // ---------------------------------------------------------------- all nodes

  ghost predicate Recordable(nodes: map<nat, ChildNodes>) {
    forall x :: x in nodes ==> FitsRecord(x, nodes[x])
  }

  ghost predicate Within(order: seq<nat>, nodes: map<nat, ChildNodes>) {
    forall x :: x in order ==> x in nodes
  }

  ghost function Part(nodes: map<nat, ChildNodes>, order: seq<nat>): map<nat, ChildNodes>
    requires Within(order, nodes)
  {
    map x | x in order :: nodes[x]
  }

  ghost function Leaves(nodes: map<nat, ChildNodes>, order: seq<nat>): nat
    requires Within(order, nodes)
  {
    if order == [] then 0 else (if IsLeaf(nodes[order[0]]) then 1 else 0) + Leaves(nodes, order[1..])
  }

  /** Reading k records of a written sequence yields the first k nodes. */
  lemma {:induction false} ParseRecords(nodes: map<nat, ChildNodes>, order: seq<nat>, k: nat,
                                        acc: map<nat, ChildNodes>, count: nat)
    requires Within(order, nodes) && Recordable(nodes) && k <= |order|
    ensures Within(order[..k], nodes)
    ensures ParseNodes(Records(nodes, order), k, acc, count)
            == Success((acc + Part(nodes, order[..k]), count + Leaves(nodes, order[..k]), Records(nodes, order[k..])))
    decreases k
  {
    hide ParseNode, Record, FitsRecord, Part;
    if k == 0 {
      PartNone(nodes, order[..0], acc);
      assert order[0..] == order;
    } else {
      var x, rest := order[0], order[1..];
      ParseRecord(x, nodes[x], Records(nodes, rest));
      ParseRecords(nodes, rest, k - 1, acc[x := nodes[x]], if IsLeaf(nodes[x]) then count + 1 else count);
      PartNext(nodes, order, k, acc);
    }
  }

  lemma PartNone(nodes: map<nat, ChildNodes>, order: seq<nat>, acc: map<nat, ChildNodes>)
    requires |order| == 0
    ensures acc + Part(nodes, order) == acc && Leaves(nodes, order) == 0
  {}

  lemma PartNext(nodes: map<nat, ChildNodes>, order: seq<nat>, k: nat, acc: map<nat, ChildNodes>)
    requires Within(order, nodes) && 0 < k <= |order|
    ensures Within(order[..k], nodes) && Within(order[1..][..k - 1], nodes)
    ensures acc[order[0] := nodes[order[0]]] + Part(nodes, order[1..][..k - 1]) == acc + Part(nodes, order[..k])
    ensures Leaves(nodes, order[..k])
            == (if IsLeaf(nodes[order[0]]) then 1 else 0) + Leaves(nodes, order[1..][..k - 1])
    ensures order[1..][k - 1..] == order[k..]
  {
    hide IsLeaf, Part;
    assert order[..k][1..] == order[1..][..k - 1];
    PartCons(nodes, order[0], order[1..][..k - 1], order[..k], acc);
  }

  lemma PartCons(nodes: map<nat, ChildNodes>, x: nat, rest: seq<nat>, order: seq<nat>, acc: map<nat, ChildNodes>)
    requires order != [] && order[0] == x && order[1..] == rest && Within(order, nodes)
    ensures Within(rest, nodes)
    ensures acc[x := nodes[x]] + Part(nodes, rest) == acc + Part(nodes, order)
  {
    assert order == [x] + rest;
  }

  /** A truncated sequence of records is never read to its end. */
  lemma {:induction false} ParseTruncated(nodes: map<nat, ChildNodes>, order: seq<nat>, n: nat,
                                          acc: map<nat, ChildNodes>, count: nat)
    requires Within(order, nodes) && Recordable(nodes) && n < |Records(nodes, order)|
    ensures ParseNodes(Records(nodes, order)[..n], |order|, acc, count).Failure?
    decreases |order|
  {
    hide Record, FitsRecord;
    var x, rest := order[0], order[1..];
    var first := Record(x, nodes[x]);
    var data := Records(nodes, order)[..n];
    if n < |first| {
      RecordCut(x, nodes[x], data);
    } else {
      assert data == first + Records(nodes, rest)[..n - |first|];
      ParseRecord(x, nodes[x], Records(nodes, rest)[..n - |first|]);
      ParseTruncated(nodes, rest, n - |first|, acc[x := nodes[x]], if IsLeaf(nodes[x]) then count + 1 else count);
    }
  }

  lemma RecordCut(hash: nat, cn: ChildNodes, data: seq<Byte>)
    requires FitsRecord(hash, cn)
    requires data < Record(hash, cn)
    ensures ParseNode(data).Failure?
  {
    hide Encode, Decode;
    RecordLength(hash, cn);
    if |data| >= 33 {
      assert data[0] == Record(hash, cn)[0];
    }
  }

  // ------------------------------------------------------------ whole snapshots

  lemma HeaderFields(nodeCount: nat, root: nat, depth: nat, crlNumber: nat, body: seq<Byte>)
    requires FitsHash(root) && crlNumber < UINT64
    ensures
      var data := Header(nodeCount, root, depth, crlNumber) + body;
      && |data| == HEADER_SIZE + |body| && data[HEADER_SIZE..] == body
      && Decode(data[0..2]) == MAGIC && Decode(data[2..4]) == VERSION
      && Decode(data[4..8]) == nodeCount % UINT32
      && Decode(data[8..40]) == root
      && Decode(data[40..44]) == depth % UINT32
      && Decode(data[44..52]) == crlNumber
  {
    HeaderCapacities();
    RoundTrip(MAGIC, 2);
    RoundTrip(VERSION, 2);
    DecodeEncode(nodeCount, 4);
    RoundTrip(root, 32);
    DecodeEncode(depth, 4);
    RoundTrip(crlNumber, 8);
    HeaderSlices(nodeCount, root, depth, crlNumber, body);
  }

  lemma HeaderSlices(nodeCount: nat, root: nat, depth: nat, crlNumber: nat, body: seq<Byte>)
    ensures
      var data := Header(nodeCount, root, depth, crlNumber) + body;
      && |data| == HEADER_SIZE + |body| && data[HEADER_SIZE..] == body
      && data[0..2] == Encode(MAGIC, 2) && data[2..4] == Encode(VERSION, 2)
      && data[4..8] == Encode(nodeCount, 4) && data[8..40] == Encode(root, 32)
      && data[40..44] == Encode(depth, 4) && data[44..52] == Encode(crlNumber, 8)
  {
    hide Encode;
  }

  // ------------------------------------------------------- the format spelled out

  lemma DecodeTwo(data: seq<Byte>, i: nat)
    requires i + 2 <= |data|
    ensures Decode(data[i..i + 2]) == (data[i] as nat) * 256 + data[i + 1] as nat
  {
    var two := data[i..i + 2];
    assert two[..1][..0] == [];
    assert Decode(two[..1]) == two[0];
  }

  lemma {:induction false} NodesNeverBlameHeader(data: seq<Byte>, n: nat, nodes: map<nat, ChildNodes>, count: nat)
    ensures
      var r := ParseNodes(data, n, nodes, count);
      r.Failure? ==> r.error == ShortNode || r.error == BadType
    decreases n
  {
    hide Decode, ReadFields;
    if n == 0 || ParseNode(data).Failure? {
    } else {
      var (x, cn, rest) := ParseNode(data).value;
      NodesNeverBlameHeader(rest, n - 1, nodes[x := cn], if IsLeaf(cn) then count + 1 else count);
    }
  }

  /** A snapshot starts with 53 4D 00 01; which of the three header errors is reported, and when. */
  lemma HeaderErrors(data: seq<Byte>)
    ensures Parse(data) == Failure(ShortHeader) <==> |data| < 52
    ensures Parse(data) == Failure(BadMagic) <==> |data| >= 52 && data[..2] != [0x53, 0x4D]
    ensures Parse(data) == Failure(BadVersion) <==>
              |data| >= 52 && data[..2] == [0x53, 0x4D] && data[2..4] != [0, 1]
    ensures Parse(data).Success? ==> |data| >= 52 && data[..4] == [0x53, 0x4D, 0, 1]
  {
    hide Decode, ParseNodes;
    if |data| >= 52 {
      DecodeTwo(data, 0);
      DecodeTwo(data, 2);
      assert data[0..2] == data[..2];
      NodesNeverBlameHeader(data[HEADER_SIZE..], Decode(data[4..8]), map[], 0);
    }
  }

  /** A record is 97 bytes of type 0 with two children or 129 bytes of type 1 with three; which error is reported
      for anything else. */
  lemma NodeErrors(data: seq<Byte>)
    ensures ParseNode(data) == Failure(BadType) <==> |data| >= 33 && data[0] > 1
    ensures ParseNode(data) == Failure(ShortNode) <==>
              |data| < 33 || (data[0] == 0 && |data| < 97) || (data[0] == 1 && |data| < 129)
    ensures ParseNode(data).Success? ==>
              && |ParseNode(data).value.1| == (if data[0] == 1 then 3 else 2)
              && ParseNode(data).value.2 == data[if data[0] == 1 then 129 else 97..]
  {
    hide Decode;
  }

  function Zeros(n: nat): seq<Byte> {
    seq(n, _ => 0)
  }

  /** The bytes of a snapshot of one leaf, written out. */
  lemma OneLeafImage()
    ensures
      Image(map[2 := [5, 7, 1]], [2], 2, 128, 9)
      == ([0x53, 0x4D, 0, 1] + [0, 0, 0, 1] + (Zeros(31) + [2]) + [0, 0, 0, 128] + [0, 0, 0, 0, 0, 0, 0, 9])
         + ([1] + (Zeros(31) + [2]) + (Zeros(31) + [5]) + (Zeros(31) + [7]) + (Zeros(31) + [1]))
  {
    hide Header, Record, Zeros;
    var nodes: map<nat, ChildNodes> := map[2 := [5, 7, 1]];
    OneLeafHeader();
    OneLeafRecord();
    assert [2][1..] == [];
    assert Records(nodes, [2][1..]) == [];
    assert Records(nodes, [2]) == Record(2, [5, 7, 1]) + [] == Record(2, [5, 7, 1]);
  }

  lemma OneLeafHeader()
    ensures
      Header(1, 2, 128, 9)
      == [0x53, 0x4D, 0, 1] + [0, 0, 0, 1] + (Zeros(31) + [2]) + [0, 0, 0, 128] + [0, 0, 0, 0, 0, 0, 0, 9]
  {
    hide Encode;
    MagicBytes();
    EncodeSmall(1, 4);
    EncodeSmall(2, 32);
    EncodeSmall(128, 4);
    EncodeSmall(9, 8);
  }

  lemma MagicBytes()
    ensures Encode(MAGIC, 2) == [0x53, 0x4D] && Encode(VERSION, 2) == [0, 1]
  {
    assert Encode(0x53, 1) == [0x53];
    assert Encode(0, 1) == [0];
  }

  lemma OneLeafRecord()
    ensures
      Record(2, [5, 7, 1])
      == [1] + (Zeros(31) + [2]) + (Zeros(31) + [5]) + (Zeros(31) + [7]) + (Zeros(31) + [1])
  {
    hide Encode;
    EncodeSmall(2, 32);
    EncodeSmall(5, 32);
    EncodeSmall(7, 32);
    EncodeSmall(1, 32);
    assert [5, 7, 1][1..] == [7, 1] && [7, 1][1..] == [1] && [1][1..] == [];
    assert Fields([1]) == Encode(1, 32);
    assert Fields([7, 1]) == Encode(7, 32) + Encode(1, 32);
    assert Fields([5, 7, 1]) == Encode(5, 32) + (Encode(7, 32) + Encode(1, 32));
  }

  /** Importing an export, whatever the traversal order: the root and the number come back, and as many
      nodes as the 32-bit count in the header announces. */
  lemma ImportOfExport(nodes: map<nat, ChildNodes>, order: seq<nat>, root: nat, depth: nat, crlNumber: nat)
    requires Within(order, nodes) && Recordable(nodes) && FitsHash(root) && crlNumber < UINT64
    ensures
      var k := |order| % UINT32;
      && Within(order[..k], nodes)
      && Parse(Image(nodes, order, root, depth, crlNumber))
         == Success(Imported(Part(nodes, order[..k]), root, depth % UINT32, Leaves(nodes, order[..k]), crlNumber))
  {
    hide Encode, Decode, Header, Records, Recordable;
    HeaderFields(|order|, root, depth, crlNumber, Records(nodes, order));
    var k := |order| % UINT32;
    ParseRecords(nodes, order, k, map[], 0);
    assert map[] + Part(nodes, order[..k]) == Part(nodes, order[..k]);
  }

  ghost predicate Rejected(bytes: seq<Byte>) {
    Parse(bytes).Failure?
  }

  /** Every strict prefix of an export is rejected exactly when its node count fits 32 bits. */
  lemma StrictPrefixRejected(nodes: map<nat, ChildNodes>, order: seq<nat>, root: nat, depth: nat, crlNumber: nat)
    requires Within(order, nodes) && Recordable(nodes) && FitsHash(root) && crlNumber < UINT64
    ensures
      var image := Image(nodes, order, root, depth, crlNumber);
      (forall n :: 0 <= n < |image| ==> Rejected(image[..n])) <==> |order| < UINT32
  {
    hide Image, Rejected, Recordable;
    var image := Image(nodes, order, root, depth, crlNumber);
    if |order| < UINT32 {
      forall n | 0 <= n < |image|
        ensures Rejected(image[..n])
      {
        PrefixRejected(nodes, order, root, depth, crlNumber, n);
      }
    } else {
      var n := PrefixAccepted(nodes, order, root, depth, crlNumber);
      assert !Rejected(image[..n]);
    }
  }

  lemma PrefixRejected(nodes: map<nat, ChildNodes>, order: seq<nat>, root: nat, depth: nat, crlNumber: nat, n: nat)
    requires Within(order, nodes) && Recordable(nodes) && FitsHash(root) && crlNumber < UINT64
    requires |order| < UINT32
    requires n < |Image(nodes, order, root, depth, crlNumber)|
    ensures Rejected(Image(nodes, order, root, depth, crlNumber)[..n])
  {
    hide Encode, Decode, Header, Records, Recordable;
    if n >= HEADER_SIZE {
      var body := Records(nodes, order)[..n - HEADER_SIZE];
      assert Image(nodes, order, root, depth, crlNumber)[..n] == Header(|order|, root, depth, crlNumber) + body;
      HeaderFields(|order|, root, depth, crlNumber, body);
      ParseTruncated(nodes, order, n - HEADER_SIZE, map[], 0);
    }
  }

  /** The cut after as many records as the 32-bit count announces. */
  lemma PrefixAccepted(nodes: map<nat, ChildNodes>, order: seq<nat>, root: nat, depth: nat, crlNumber: nat)
      returns (n: nat)
    requires Within(order, nodes) && Recordable(nodes) && FitsHash(root) && crlNumber < UINT64
    requires |order| >= UINT32
    ensures n < |Image(nodes, order, root, depth, crlNumber)|
    ensures !Rejected(Image(nodes, order, root, depth, crlNumber)[..n])
  {
    hide Encode, Decode, Header, Records, Recordable;
    var k := |order| % UINT32;
    var front := order[..k];
    RecordsSplit(nodes, order, k);
    var body := Records(nodes, front);
    n := HEADER_SIZE + |body|;
    assert Image(nodes, order, root, depth, crlNumber)[..n] == Header(|order|, root, depth, crlNumber) + body;
    HeaderFields(|order|, root, depth, crlNumber, body);
    ParseRecords(nodes, front, k, map[], 0);
  }

  lemma {:induction false} RecordsSplit(nodes: map<nat, ChildNodes>, order: seq<nat>, k: nat)
    requires Within(order, nodes) && k < |order|
    ensures Within(order[..k], nodes)
    ensures |Records(nodes, order[..k])| < |Records(nodes, order)|
    ensures Records(nodes, order[..k]) <= Records(nodes, order)
    decreases k
  {
    hide Record;
    RecordLength(order[0], nodes[order[0]]);
    if k == 0 {
    } else {
      RecordsSplit(nodes, order[1..], k - 1);
      assert order[..k][1..] == order[1..][..k - 1];
    }
  }

  // ------------------------------------------------------------- whole trees

  /** What a valid tree must satisfy for FillBytes not to panic and for the CRL number to be a uint64. */
  ghost predicate Exportable(t: SMT, crlNumber: nat)
    reads t
  {
    t.Valid() && Encodable(t.nodes) && crlNumber < UINT64
  }

  lemma {:induction false} NodesShaped(h: Hasher, t: Tree)
    ensures forall x :: x in NodesOf(h, t) ==> Shaped(NodesOf(h, t)[x])
    ensures t.Empty? || Hash(h, t) in NodesOf(h, t)
  {
    if !t.Node? {
    } else {
      NodesShaped(h, t.left);
      NodesShaped(h, t.right);
    }
  }

  lemma ExportableNodes(t: SMT, crlNumber: nat)
    requires Exportable(t, crlNumber)
    ensures Recordable(t.nodes) && FitsHash(t.root)
  {
    NodesShaped(t.h, TrieOf(t.entries, t.depth));
    assert FitsHash(0);
  }

  ghost function LeafHashes(nodes: map<nat, ChildNodes>): set<nat> {
    set x | x in nodes && IsLeaf(nodes[x])
  }

  lemma {:induction false} LeafHashesCounted(h: Hasher, t: Tree)
    requires Distinct(h, t)
    ensures |LeafHashes(NodesOf(h, t))| == Size(t)
  {
    match t
    case Empty =>
    case Leaf(_, _) =>
      assert LeafHashes(NodesOf(h, t)) == {Hash(h, t)};
    case Node(l, r) =>
      LeafHashesCounted(h, l);
      LeafHashesCounted(h, r);
      LeafHashesMerge(NodesOf(h, l), NodesOf(h, r), Hash(h, t), ChildrenOf(h, t));
  }

  lemma LeafHashesMerge(l: map<nat, ChildNodes>, r: map<nat, ChildNodes>, top: nat, branch: ChildNodes)
    requires l.Keys !! r.Keys && top !in l && top !in r && |branch| == 2
    ensures |LeafHashes(l + r + map[top := branch])| == |LeafHashes(l)| + |LeafHashes(r)|
  {
    LeafHashesUnion(l, r, top, branch);
    assert LeafHashes(l) !! LeafHashes(r);
  }

  lemma LeafHashesUnion(l: map<nat, ChildNodes>, r: map<nat, ChildNodes>, top: nat, branch: ChildNodes)
    requires l.Keys !! r.Keys && top !in l && top !in r && |branch| == 2
    ensures LeafHashes(l + r + map[top := branch]) == LeafHashes(l) + LeafHashes(r)
  {
    hide IsLeaf;
    assert !IsLeaf(branch) by { NotLeaf(branch); }
  }

  lemma NotLeaf(cn: ChildNodes)
    requires |cn| == 2
    ensures !IsLeaf(cn)
  {}

  lemma {:induction false} LeavesAreLeafHashes(nodes: map<nat, ChildNodes>, order: seq<nat>)
    requires Within(order, nodes) && NoDuplicates(order)
    ensures Leaves(nodes, order) == |LeafHashes(Part(nodes, order))|
    decreases |order|
  {
    if order == [] {
    } else {
      LeavesAreLeafHashes(nodes, order[1..]);
      PartSplits(nodes, order);
      LeafHashesInsert(Part(nodes, order[1..]), order[0], nodes[order[0]]);
    }
  }

  lemma PartSplits(nodes: map<nat, ChildNodes>, order: seq<nat>)
    requires order != [] && Within(order, nodes) && NoDuplicates(order)
    ensures Within(order[1..], nodes) && order[0] !in Part(nodes, order[1..])
    ensures Part(nodes, order) == Part(nodes, order[1..])[order[0] := nodes[order[0]]]
  {
    assert order == [order[0]] + order[1..];
  }

  lemma LeafHashesInsert(m: map<nat, ChildNodes>, x: nat, cn: ChildNodes)
    requires x !in m
    ensures |LeafHashes(m[x := cn])| == |LeafHashes(m)| + if IsLeaf(cn) then 1 else 0
  {
    hide IsLeaf;
    assert LeafHashes(m[x := cn]) == LeafHashes(m) + if IsLeaf(cn) then {x} else {};
  }

  lemma {:induction false} ListSize(order: seq<nat>, s: set<nat>)
    requires NoDuplicates(order) && forall x :: x in order <==> x in s
    ensures |order| == |s|
    decreases |order|
  {
    if order == [] {
    } else {
      var x, rest := order[0], order[1..];
      assert forall y :: y in rest <==> y in s - {x};
      ListSize(rest, s - {x});
    }
  }

  /** The round trip restores every field exactly when node count and depth fit the header's 32 bits. */
  lemma TreeRoundTrip(t: SMT, order: seq<nat>, crlNumber: nat)
    requires Exportable(t, crlNumber) && Lists(order, t.nodes)
    ensures Parse(Image(t.nodes, order, t.root, t.depth, crlNumber))
            == Success(Imported(t.nodes, t.root, t.depth, t.count, crlNumber))
            <==> |t.nodes| < UINT32 && t.depth < UINT32
  {
    hide Encodable, FitsHash, Image, Parse, Recordable, Stores, Part, Leaves, LeafHashes;
    ExportableNodes(t, crlNumber);
    ImportOfExport(t.nodes, order, t.root, t.depth, crlNumber);
    ListSize(order, t.nodes.Keys);
    var k := |order| % UINT32;
    if k == |order| {
      assert order[..k] == order;
      PartAll(t.nodes, order);
      LeavesAreLeafHashes(t.nodes, order);
      CountIsLeaves(t);
    } else {
      PartSmaller(t.nodes, order, k);
    }
  }

  /** The empty tree of depth 2^32 comes back with depth 0. */
  lemma DepthTruncated()
    ensures Parse(Image(map[], [], 0, UINT32, 0)) == Success(Imported(map[], 0, 0, 0, 0))
  {
    hide Encode, Decode, Header, Parse, Image;
    assert FitsHash(0);
    ImportOfExport(map[], [], 0, UINT32, 0);
  }

  lemma CountIsLeaves(t: SMT)
    requires t.Valid()
    ensures t.count == |LeafHashes(t.nodes)|
  {
    LeafHashesCounted(t.h, TrieOf(t.entries, t.depth));
    TrieHolds(t.entries, [], t.depth);
  }

  lemma PartAll(nodes: map<nat, ChildNodes>, order: seq<nat>)
    requires Lists(order, nodes)
    ensures Part(nodes, order) == nodes
  {}

  lemma PartSmaller(nodes: map<nat, ChildNodes>, order: seq<nat>, k: nat)
    requires Lists(order, nodes) && k < |order|
    ensures Within(order[..k], nodes) && Part(nodes, order[..k]) != nodes
  {
    assert order[k] in nodes;
    assert order[k] !in order[..k];
  }

  /** A valid tree has at most (depth + 1) nodes per entry, so the header's count is exact whenever that
      product stays below 2^32. */
  lemma SizeBound(t: SMT)
    requires t.Valid()
    ensures |t.nodes| <= NodeBudget(|t.entries|, t.depth) == |t.entries| * (t.depth + 1)
    ensures NodeBudget(|t.entries|, t.depth) < UINT32 ==> |t.nodes| < UINT32
  {
    hide Faithful;
    NodesBounded(t.h, t.entries, t.depth);
  }

  /** Export, then import: the restored tree is valid and denotes the same map. */
  method ExportThenImport(t: SMT, crlNumber: nat) returns (t': SMT?, crl': nat)
    requires Exportable(t, crlNumber) && |t.nodes| < UINT32 && t.depth < UINT32
    ensures t' != null && t'.Valid() && t'.entries == t.entries && t'.depth == t.depth && t'.h == t.h
    ensures crl' == crlNumber
  {
    hide Image, Parse, FitsHash, Encodable;
    ExportableNodes(t, crlNumber);
    var bytes := ExportBinary(t, crlNumber);
    ghost var order: seq<nat> :| IsExport(bytes, order, t, crlNumber);
    TreeRoundTrip(t, order, crlNumber);
    var r := new ByteReader(bytes);
    var err;
    t', crl', err := ImportBinary(t.h, r, t.entries);
  }
}
