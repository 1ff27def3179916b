/** The served trees and the polling rebuild: server/internal/manager/manager.go and
    server/internal/crl/watcher.go. */
module Watcher {
  import opened Wrappers
  import opened Arithmetic
  import opened Paths
  import opened Hashing
  import opened Hexadecimal
  import opened Bytes
  import opened Tries
  import opened Nodes
  import opened Proofs
  import opened SparseMerkleTree
  import opened Build

  datatype TreeEntry = TreeEntry(tree: SMT, crlNumber: nat)

  /** `big.Int.Uint64` keeps the low 64 bits. */
  function Uint64(n: nat): nat {
    n % UINT64
  }

  /** The watcher's list is newer than the one served. */
  predicate Newer(served: nat, crlNumber: nat) {
    Uint64(crlNumber) > served
  }

  /** The guard says whether the list is newer exactly when its number fits 64 bits or its low 64 bits pass
      the served number. */
  lemma GuardIsExact(served: nat, crlNumber: nat)
    requires served < 0x1_0000_0000_0000_0000
    ensures (Newer(served, crlNumber) <==> crlNumber > served)
            <==> crlNumber < 0x1_0000_0000_0000_0000 || crlNumber % 0x1_0000_0000_0000_0000 > served
  {}

  /** 2^64 is above 1 and its list is skipped. */
  lemma WideNumberSkipped()
    ensures !Newer(1, 0x1_0000_0000_0000_0000)
  {}

  /** No collision shows in any of the tries that the watcher passes through. */
  ghost predicate FaithfulPrefixes(h: Hasher, serials: seq<nat>) {
    forall n :: 0 <= n <= |serials| ==>
      Faithful(h, Fitting(Constant(serials[..n], 1), DEFAULT_DEPTH), DEFAULT_DEPTH)
  }

  lemma CollisionFreePrefixes(h: Hasher, serials: seq<nat>)
    requires CollisionFree(h)
    ensures FaithfulPrefixes(h, serials)
  {
    hide Faithful, BitLen, CollisionFree;
    forall n | 0 <= n <= |serials|
      ensures Faithful(h, Fitting(Constant(serials[..n], 1), DEFAULT_DEPTH), DEFAULT_DEPTH)
    {
      CollisionFreeIsFaithful(h, Fitting(Constant(serials[..n], 1), DEFAULT_DEPTH), DEFAULT_DEPTH);
    }
  }

  /** Adds each serial with value 1 and skips every one that is refused. */
  method AddAllSkippingErrors(h: Hasher, serials: seq<nat>) returns (tree: SMT)
    requires FaithfulPrefixes(h, serials)
    ensures fresh(tree) && tree.Valid() && tree.h == h && tree.depth == DEFAULT_DEPTH
    ensures tree.entries == Fitting(Constant(serials, 1), DEFAULT_DEPTH)
  {
    hide Faithful, BitLen, Stores, Constant, Fitting, Fits;
    tree := new SMT(h, DEFAULT_DEPTH);
    NothingFits(serials, DEFAULT_DEPTH);
    for i := 0 to |serials|
      invariant fresh(tree) && tree.Valid() && tree.h == h && tree.depth == DEFAULT_DEPTH
      invariant tree.entries == Fitting(Constant(serials[..i], 1), DEFAULT_DEPTH)
    {
      NextFits(serials, i, DEFAULT_DEPTH);
      var err := tree.Add(serials[i], 1);
      if err.Fail? {
        continue;
      }
    }
    assert serials[..|serials|] == serials;
  }

  lemma NothingFits(serials: seq<nat>, depth: nat)
    ensures Fitting(Constant(serials[..0], 1), depth) == map[]
  {}

  lemma NextFits(serials: seq<nat>, i: nat, depth: nat)
    requires i < |serials|
    ensures
      var m, m' := Fitting(Constant(serials[..i], 1), depth), Fitting(Constant(serials[..i + 1], 1), depth);
      m' == if Fits(serials[i], depth) && serials[i] !in m then m[serials[i] := 1] else m
  {
    hide BitLen;
    assert serials[..i + 1] == serials[..i] + [serials[i]];
  }

  /** The watcher and the full rebuild reach the same map exactly when every serial fits; otherwise the
      rebuild reports an error and the watcher serves the rest. */
  lemma WatcherAgreesWithRebuild(serials: seq<nat>)
    ensures Fitting(Constant(serials, 1), DEFAULT_DEPTH) == Constant(serials, 1)
            <==> AllSerialsFit(serials, DEFAULT_DEPTH)
  {
    hide BitLen;
    var m := Constant(serials, 1);
    if Fitting(m, DEFAULT_DEPTH) == m {
      forall s | s in serials
        ensures Fits(s, DEFAULT_DEPTH)
      {
        assert s in m && s in Fitting(m, DEFAULT_DEPTH);
      }
    }
  }

  /** One serial of 129 bits is enough to tell them apart. */
  lemma WideSerialDiffers()
    ensures
      var m := Constant([Pow2(DEFAULT_DEPTH)], 1);
      Fitting(m, DEFAULT_DEPTH) == map[] && m == map[Pow2(DEFAULT_DEPTH) := 1]
  {
    hide BitLen, Pow2;
    FitsExactly(Pow2(DEFAULT_DEPTH), DEFAULT_DEPTH);
  }

  datatype Poll = Poll(id: string, crlNumber: Option<nat>)

  /** The served number of each issuer after one poll, and after a sequence of polls. */
  ghost function ServedAfter(served: map<string, nat>, p: Poll): map<string, nat> {
    if p.id in served && p.crlNumber.Some? && !Newer(served[p.id], p.crlNumber.value) then served
    else served[p.id := if p.crlNumber.Some? then Uint64(p.crlNumber.value) else 0]
  }

  ghost function ServedAfterAll(served: map<string, nat>, polls: seq<Poll>): (r: map<string, nat>)
    ensures served.Keys <= r.Keys
    decreases |polls|
  {
    if polls == [] then served
    else ServedAfter(ServedAfterAll(served, polls[..|polls| - 1]), polls[|polls| - 1])
  }

  ghost function Numbers(trees: map<string, TreeEntry>): map<string, nat> {
    map id | id in trees :: trees[id].crlNumber
  }

  lemma NumbersOf(trees: map<string, TreeEntry>, id: string)
    ensures id in Numbers(trees) <==> id in trees
    ensures id in trees ==> Numbers(trees)[id] == trees[id].crlNumber
  {}

  lemma NumbersSet(trees: map<string, TreeEntry>, id: string, entry: TreeEntry)
    ensures Numbers(trees[id := entry]) == Numbers(trees)[id := entry.crlNumber]
  {}

  /** NotNewer: the list is skipped. Crashed: the tree is published, and then logging the first 16 hex
      digits of its root slices a shorter string. */
  datatype PollResult = NotNewer | Published | Crashed

  const LOGGED_DIGITS := 16

  /** The root prints with fewer hex digits than the log line slices off. */
  predicate ShortRoot(root: nat) {
    |Hex(root)| < LOGGED_DIGITS
  }

  lemma ShortRootBound(root: nat)
    ensures ShortRoot(root) <==> root < 0x1000_0000_0000_0000
  {
    hide Hex;
    HexLength(root, 15);
    assert Sixteens(15) == 0x1000_0000_0000_0000 by {
      assert Sixteens(5) == 0x10_0000;
      assert Sixteens(10) == 0x100_0000_0000;
    }
  }

  /** The root that a poll publishes, as a function of the list alone. */
  ghost function RootOf(h: Hasher, revoked: seq<nat>): nat {
    Hash(h, TrieOf(Fitting(Constant(revoked, 1), DEFAULT_DEPTH), DEFAULT_DEPTH))
  }

  lemma ValidRoot(t: SMT)
    requires t.Valid()
    ensures t.root == Hash(t.h, TrieOf(t.entries, t.depth))
  {}

  class TreeManager {
    const h: Hasher
    var trees: map<string, TreeEntry>

    /** Every published tree is a valid tree of this manager's hasher. */
    ghost predicate Valid()
      reads this, set id | id in trees :: trees[id].tree
    {
      forall id :: id in trees ==> trees[id].tree.Valid() && trees[id].tree.h == h
    }

    constructor (h: Hasher)
      ensures Valid() && this.h == h && trees == map[]
    {
      this.h := h;
      trees := map[];
    }

    method GetTree(id: string) returns (entry: Option<TreeEntry>)
      ensures entry == if id in trees then Some(trees[id]) else None
    {
      if id in trees {
        return Some(trees[id]);
      }
      return None;
    }

    method SetTree(id: string, tree: SMT, crlNumber: nat)
      requires Valid() && tree.Valid() && tree.h == h
      modifies this
      ensures Valid() && trees == old(trees)[id := TreeEntry(tree, crlNumber)]
    {
      trees := trees[id := TreeEntry(tree, crlNumber)];
    }

    /** Every proof served is accepted against the served root and tells the truth about the served tree. */
    method GetProof(id: string, serial: nat) returns (proof: Option<MerkleProof>)
      requires Valid()
      ensures proof.None? <==> id !in trees
      ensures proof.Some? ==>
                && proof.value.root == trees[id].tree.root
                && VerdictOf(h, proof.value, trees[id].tree.depth) == Accepted
                && (proof.value.membership <==> serial in trees[id].tree.entries)
                && proof.value.entry == (if serial in trees[id].tree.entries
                                         then [serial, trees[id].tree.entries[serial], 1] else [serial])
                && (proof.value.matching.Some? ==>
                      |proof.value.matching.value| == 3 && proof.value.matching.value[0] != serial)
                && |proof.value.siblings| <= trees[id].tree.depth
    {
      if id !in trees {
        return None;
      }
      var p := trees[id].tree.CreateProof(serial);
      return Some(p);
    }

    /** One poll of one issuer, after its list was fetched and parsed. No tree that was served before
        is modified. */
    method FetchAndRebuild(id: string, revoked: seq<nat>, crlNumber: Option<nat>) returns (result: PollResult)
      requires Valid()
      requires FaithfulPrefixes(h, revoked)
      modifies this
      ensures Valid()
      ensures Numbers(trees) == ServedAfter(Numbers(old(trees)), Poll(id, crlNumber))
      ensures result.NotNewer? <==>
                id in old(trees) && crlNumber.Some? && !Newer(old(trees)[id].crlNumber, crlNumber.value)
      ensures result.NotNewer? ==> trees == old(trees)
      ensures !result.NotNewer? ==>
                && id in trees
                && trees == old(trees)[id := trees[id]]
                && fresh(trees[id].tree)
                && trees[id].tree.entries == Fitting(Constant(revoked, 1), DEFAULT_DEPTH)
                && trees[id].tree.root == RootOf(h, revoked)
                && (result.Crashed? <==> ShortRoot(RootOf(h, revoked)))
                && (crlNumber.None? ==> trees[id].crlNumber == 0)
                && (crlNumber.Some? ==> trees[id].crlNumber == crlNumber.value % 0x1_0000_0000_0000_0000)
      ensures id in old(trees) && crlNumber.Some? ==>
                (result.NotNewer? <==> crlNumber.value % 0x1_0000_0000_0000_0000 <= old(trees)[id].crlNumber)
      ensures forall i :: i in old(trees) ==> unchanged(old(trees)[i].tree)
    {
      hide Stores, Faithful, BitLen, FaithfulPrefixes, Fitting, Constant, Numbers, Hex;
      NumbersOf(trees, id);
      var existing := GetTree(id);
      if existing.Some? && crlNumber.Some? {
        if Uint64(crlNumber.value) <= existing.value.crlNumber {
          return NotNewer;
        }
      }
      var tree := AddAllSkippingErrors(h, revoked);
      ValidRoot(tree);
      var number := 0;
      if crlNumber.Some? {
        number := Uint64(crlNumber.value);
      }
      NumbersSet(trees, id, TreeEntry(tree, number));
      SetTree(id, tree, number);
      return if ShortRoot(tree.root) then Crashed else Published;
    }
  }

  // ---------------------------------------------------------- over many polls

  /** What one poll does to the served numbers, for issuers known and unknown: nothing to the others; a list with
      a number is skipped unless its low 64 bits pass the number served, and otherwise they are stored; a list
      without a number stores 0. */
  lemma PollStep(served: map<string, nat>, polls: seq<Poll>, n: nat, id: string)
    requires n < |polls|
    ensures
      var p, before, after := polls[n], ServedAfterAll(served, polls[..n]), ServedAfterAll(served, polls[..n + 1]);
      && (p.id != id ==> (id in after <==> id in before) && (id in after ==> after[id] == before[id]))
      && (p.id == id ==> id in after)
      && (p.id == id && p.crlNumber.None? ==> after[id] == 0)
      && (p.id == id && p.crlNumber.Some? ==>
            var low := p.crlNumber.value % 0x1_0000_0000_0000_0000;
            after[id] == if id in before && low <= before[id] then before[id] else low)
    ensures ServedAfterAll(served, polls[..0]) == served
  {
    assert polls[..n + 1][..n] == polls[..n];
  }

  /** A list with a number that is polled again right after is skipped and changes nothing, whether or not the
      issuer was known before. */
  lemma RepeatSkipped(served: map<string, nat>, p: Poll)
    requires p.crlNumber.Some?
    ensures
      var after := ServedAfter(served, p);
      && p.id in after && !Newer(after[p.id], p.crlNumber.value)
      && ServedAfter(after, p) == after
  {}

  /** The issuer's served number after the first n polls. */
  ghost function ServedAt(served: map<string, nat>, polls: seq<Poll>, n: nat, id: string): nat
    requires n <= |polls| && id in served
  {
    ServedAfterAll(served, polls[..n])[id]
  }

  /** A list without a number meets a positive served number. */
  ghost predicate Resets(served: nat, p: Poll, id: string) {
    p.id == id && p.crlNumber.None? && served > 0
  }

  /** What one poll does to the served number. */
  lemma ServedNext(served: map<string, nat>, polls: seq<Poll>, n: nat, id: string)
    requires n < |polls| && id in served
    ensures
      var before, after := ServedAt(served, polls, n, id), ServedAt(served, polls, n + 1, id);
      after < before <==> Resets(before, polls[n], id)
  {
    assert polls[..n + 1][..n] == polls[..n];
  }

  ghost predicate NeverFalls(served: map<string, nat>, polls: seq<Poll>, id: string)
    requires id in served
  {
    forall i, j :: 0 <= i <= j <= |polls| ==> ServedAt(served, polls, i, id) <= ServedAt(served, polls, j, id)
  }

  lemma {:induction false} ServedMonotone(served: map<string, nat>, polls: seq<Poll>, id: string, i: nat, j: nat)
    requires id in served && i <= j <= |polls|
    requires forall n :: 0 <= n < |polls| ==> !Resets(ServedAt(served, polls, n, id), polls[n], id)
    ensures ServedAt(served, polls, i, id) <= ServedAt(served, polls, j, id)
    decreases j
  {
    hide ServedAt;
    if i == j {
    } else {
      ServedMonotone(served, polls, id, i, j - 1);
      ServedNext(served, polls, j - 1, id);
    }
  }

  /** Over a sequence of polls an issuer's served number never falls exactly when no list without a number
      meets a positive one. */
  lemma ServedNumberNeverFalls(served: map<string, nat>, polls: seq<Poll>, id: string)
    requires id in served
    ensures NeverFalls(served, polls, id)
            <==> forall n :: 0 <= n < |polls| ==> !Resets(ServedAt(served, polls, n, id), polls[n], id)
  {
    hide ServedAt, Resets;
    if NeverFalls(served, polls, id) {
      forall n | 0 <= n < |polls|
        ensures !Resets(ServedAt(served, polls, n, id), polls[n], id)
      {
        ServedNext(served, polls, n, id);
        assert ServedAt(served, polls, n, id) <= ServedAt(served, polls, n + 1, id);
      }
    } else {
      var i, j :| 0 <= i <= j <= |polls| && ServedAt(served, polls, i, id) > ServedAt(served, polls, j, id);
      if forall n :: 0 <= n < |polls| ==> !Resets(ServedAt(served, polls, n, id), polls[n], id) {
        ServedMonotone(served, polls, id, i, j);
      }
    }
  }

  /** A list without a number resets the served number to 0, so an older list is taken after it. */
  lemma UnnumberedListResets(served: map<string, nat>, id: string)
    requires id in served && served[id] > 1
    ensures
      var polls := [Poll(id, None), Poll(id, Some(1))];
      ServedAt(served, polls, 0, id) > 1 && ServedAt(served, polls, 2, id) == 1
  {
    var polls := [Poll(id, None), Poll(id, Some(1))];
    assert polls[..2][..1] == [polls[0]];
    assert polls[..1][..0] == [];
    assert polls[..2][1] == polls[1];
    assert ServedAfterAll(served, polls[..2]) == ServedAfter(ServedAfterAll(served, [polls[0]]), polls[1]);
    assert ServedAfterAll(served, [polls[0]]) == ServedAfter(ServedAfterAll(served, []), polls[0]);
  }

  /** A list none of whose serials fits, an empty one above all, makes the poll crash. */
  lemma EmptyTreeCrashes(h: Hasher, revoked: seq<nat>)
    requires forall k :: k in revoked ==> !Fits(k, DEFAULT_DEPTH)
    ensures RootOf(h, revoked) == 0 && ShortRoot(RootOf(h, revoked))
  {
    hide BitLen;
    assert Fitting(Constant(revoked, 1), DEFAULT_DEPTH) == map[];
    TrieHolds(map[], [], DEFAULT_DEPTH);
  }
}
