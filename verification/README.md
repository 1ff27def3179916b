# Verified model of the MOICA revocation SMT

A Dafny model of the pipeline that turns certificate revocation lists into a sparse Merkle tree, proves
membership against its root, ships the tree as a snapshot and posts the root on chain. Every line of code
cited below has a counterpart here with the same branches, edge cases and constants.

| file | part of the system |
|---|---|
| `Arithmetic.dfy`, `Paths.dfy`, `Hashing.dfy` | division facts; keys as LSB-first bit paths; the two hash functions as parameters, and what a collision is |
| `Tries.dfy` | the compressed binary trie of a key-value map, defined independently of any update |
| `Nodes.dfy` | its content-addressed node map, and why no two places share a hash |
| `Zippers.dfy`, `Surgery.dfy` | path surgery: what deleting and re-hashing along one path does to the whole tree |
| `SparseMerkleTree.dfy` | class `SMT`: `nodes`, `root`, `count` updated in place by the same loops as the Go code |
| `Proofs.dfy` | proof verification, completeness, soundness |
| `Histories.dfy` | whole runs: history independence, the root as a commitment |
| `Build.dfy`, `Watcher.dfy` | incremental update, full rebuild, the polling rebuild and the served trees |
| `Bytes.dfy`, `Snapshot.dfy`, `SnapshotRoundTrip.dfy`, `Wasm.dfy` | binary snapshot, its reader and the browser's chunked reader |
| `Hexadecimal.dfy`, `JsonSnapshot.dfy` | numbers as hex text; the JSON snapshot as a node list |
| `Relaying.dfy`, `PostProtocol.dfy`, `Registry.dfy` | fee-bumped posting, the call against a chain in every interleaving, the contract |

## How to read it

**State.** Class `SMT` has the Go fields and one ghost field, `entries`: the map that the tree denotes.
`Valid()` says that `nodes` is exactly the node set of the trie of `entries` (nothing missing, nothing left
over), `root` its hash, `count` its size. Every update states the new `entries`, so the whole new state is
determined. Hashes and keys are natural numbers; the Go map's key, the hash in lower-case hex, stands for
the number one to one (`Hexadecimal.NodeKeyInjective`). A node's children are a sequence of two or three
numbers, and presence is decided by its length, never by a value being zero.

**Hash hypothesis.** Nothing is assumed about Hash2 and Hash3 globally. Updates require `Faithful` for the maps
they pass through and no others: in the trie of each of these no two places share a hash and no hash is zero. A
batch of n keys passes through n + 1 maps, in the order of the keys; so do the builder and the watcher, for whom
the order in which the Go node map happens to be traversed is an input. This can hold for a real 256-bit hash
function. When it fails, `Nodes.SharingCollision` returns a concrete collision, or a preimage of zero, among the
inputs hashed for that very tree. A collision-free hasher meets it for every run (`Histories.CollisionFreeRun`,
`Build.CollisionFreeUpdate`, `Watcher.CollisionFreePrefixes`), and collision-freeness is not contradictory
(`Hashing.PairingIsCollisionFree`). Soundness of verification assumes nothing: it returns the collision, among
the inputs that the builder of the tree and the verifier have hashed. The codec bounds only the hashes that
occur in the exported tree.

**Where the code differs from what one might expect.** Each entry names the lemma with the exact condition under
which the expected property holds and, where that one does not show it, another with an input for which it does not.
- `VerifyProof` never compares the matching key with the queried one and never reads `Membership`. With a
  matching entry the key is absent exactly when it differs from the matching key
  (`Proofs.ProofSound`; `Proofs.MatchingEntryIsNotCompared`).
- The incremental update keeps old values; it equals the rebuild exactly when the kept values are 1
  (`Build.IncrementalIsRebuild`; `Build.OldValueStays`).
- The watcher skips serials that do not fit, the builder reports an error; they agree exactly when all serials
  fit (`Watcher.WatcherAgreesWithRebuild`; `Watcher.WideSerialDiffers`).
- The watcher compares the low 64 bits of a CRL number with the served one. This says which is newer exactly when
  the number fits 64 bits or its low bits pass the served number (`Watcher.GuardIsExact`; `Watcher.WideNumberSkipped`).
- A list without a number resets the served number. Over a sequence of polls it never falls exactly when no such list
  meets a positive one (`Watcher.ServedNumberNeverFalls`; `Watcher.UnnumberedListResets`).
- After publishing a tree, the watcher's log line slices out of range exactly when the root prints with fewer than 16
  hex digits (`Watcher.TreeManager.FetchAndRebuild`; `Watcher.EmptyTreeCrashes`).
- The snapshot header keeps 32 bits of node count and depth; the round trip is exact exactly when both fit
  (`SnapshotRoundTrip.TreeRoundTrip`; `SnapshotRoundTrip.DepthTruncated`), and a truncated snapshot is rejected exactly
  when the node count fits (`SnapshotRoundTrip.StrictPrefixRejected`; `SnapshotRoundTrip.PrefixAccepted` gives the
  accepted cut of any larger one). The JSON format loses only the depth 0, which it reads as 128
  (`JsonSnapshot.ExportThenImport`).
- The chunked reader takes any type byte but 1 for a branch where the import rejects everything above 1; they
  agree exactly on known types (`Wasm.ChunkAgainstImport`; `Wasm.UnknownTypeTaken`).
- A 13% bump reaches the 10% replacement minimum after rounding down always, and without rounding except at
  the eight tiny fees listed (`Relaying.BumpClearsExactly`).
- An error from `PostRoot` does not mean that the root was not posted, or will not be: only a reported revert rules it
  out by itself. Once the call has returned, posting is ruled out for good exactly when it has not happened and,
  besides, either no node took a transaction, or the account's nonce has passed the pinned one, or the registry would
  not accept the call now (`PostProtocol.PostingRuledOut`; `PostProtocol.ErrorDespitePosting`).

## Model

| member | source | states |
|---|---|---|
| `SparseMerkleTree.SMT.Add` | server/internal/smt/tree.go:83-127 | Rejects a key wider than the tree or already present and changes nothing; otherwise the store becomes exactly that of the map with the key added. |
| `SparseMerkleTree.SMT.Delete` | server/internal/smt/tree.go:137-169 | Fails exactly on a missing key; otherwise the store becomes exactly that of the map without the key, whether the sibling is lifted or an empty slot stays. |
| `SparseMerkleTree.SMT.RetrieveEntry` | server/internal/smt/tree.go:238-268 | The search stays inside the path, ends at the leaf or empty slot on it, returns the stored entry iff the key is present, otherwise the leaf met, with the hashes of the siblings passed. |
| `SparseMerkleTree.SMT.AddNewNodes` | server/internal/smt/tree.go:271-284 | Returns the root climbed from a node past siblings last..0 and stores exactly the branches on the way. |
| `SparseMerkleTree.SMT.DeleteOldNodes` | server/internal/smt/tree.go:287-299 | Removes exactly the branches above a node. |
| `SparseMerkleTree.SMT.Get` | server/internal/smt/tree.go:64-73 | The value of a present key, nothing otherwise. |
| `SparseMerkleTree.SMT.IndexOfLastNonZero` | server/internal/smt/tree.go:309-316 | The last non-zero position, or -1 when all are zero. |
| `SparseMerkleTree.SMT.Keys` | server/internal/smt/tree.go:215-225 | The keys of the leaves in traversal order: every key of the map, once, whatever the order. |
| `SparseMerkleTree.SMT.SetNodes` | server/internal/smt/tree.go:228-234 | Installs the given fields unchecked. |
| `SparseMerkleTree.SMT.GrowNodes` | server/internal/smt/tree.go:42-51 | Copying into a larger map keeps every node. |
| `SparseMerkleTree.BigTo32` | server/internal/smt/tree.go:186-192 | 32 big-endian bytes of a number that fits. |
| `SparseMerkleTree.SMT.NodesRaw` | server/internal/smt/tree.go:195-212 | Every node once in fixed-width form, for every traversal order. |
| `SparseMerkleTree.SMT.constructor` | server/internal/smt/tree.go:31-38 | The empty tree is the store of the empty map. |
| `SparseMerkleTree.SMT.BatchAdd` | server/internal/smt/batch.go:11-21 | Adds exactly the keys before the first bad one and reports that one; succeeds iff all fit, are new and distinct. |
| `SparseMerkleTree.SMT.BatchDelete` | server/internal/smt/batch.go:25-34 | Deletes exactly the keys before the first missing or repeated one. |
| `SparseMerkleTree.SMT.CreateProof` | server/internal/smt/proof.go:21-55 | For every key, also one wider than the tree: the proof is that of the place where the search for this key ends, it is accepted against the root, membership holds iff the key is present, the matching key differs, and there are at most depth siblings. |
| `SparseMerkleTree.ValidSpelledOut` | server/internal/smt/tree.go:16-23 | A valid tree has the root that its map determines and content-addressed, closed nodes whose leaves are exactly the entries. |
| `SparseMerkleTree.LeafKeysInOrder` | server/internal/smt/tree.go:215-225 | The keys come in the order in which the nodes are traversed. |
| `SparseMerkleTree.FitsHashExactly` | server/internal/smt/tree.go:186-192 | Exactly the numbers below 2^256 have 32 bytes. |
| `Tries.TrieHolds` | server/internal/smt/tree.go:270-284 | The trie of a map is canonical and holds exactly that map. |
| `Tries.CanonicalIsTrie` | server/internal/smt/tree.go:83-169 | A canonical tree is the trie of its entries: the same map admits no other shape. |
| `Tries.CanonicalEntries` | server/internal/smt/tree.go:236-268 | In a canonical tree each key lies on its own path, leaves equal entries in number, and halves of a branch share no key. |
| `Tries.TrieDepthFree` | server/internal/smt/tree.go:22 | The trie does not depend on the depth as long as the keys fit. |
| `Nodes.Discrepancy` | server/internal/smt/tree.go:254-266 | Two different trees with one root exhibit a collision among the inputs hashed for them. |
| `Nodes.SharingCollision` | server/internal/smt/tree.go:287-299 | If two places of a canonical tree share a hash, or one hashes to zero, a collision among its own inputs is returned. |
| `Nodes.CollisionFreeIsFaithful` | server/internal/smt/hasher.go:10-15 | With a collision-free hasher the trie of every map has distinct non-zero hashes. |
| `Nodes.LeavesStored` | server/internal/smt/tree.go:215-225 | The leaves stored are exactly the entries, each under the hash of its triple. |
| `Nodes.TrieRoot` | server/internal/smt/tree.go:270-284 | The root of a map from the map alone: 0 for none, the leaf hash for one entry, otherwise hash2 of the half with even quotients and the half with odd ones. |
| `Nodes.SmallRoots` | server/internal/smt/tree.go:270-284 | The roots of {0, 1} and of {1, 3} written out. |
| `Nodes.NodesAddressed` | server/internal/smt/tree.go:270-284 | Every stored node lies under the hash of its children, and every child is 0 or stored. |
| `Nodes.NodesBounded` | server/internal/snapshot/binary.go:48 | At most one leaf and one branch per level for each entry. |
| `Hashing.PairingIsCollisionFree` | server/internal/smt/hasher.go:10-15 | Collision-freeness of both hash functions together is satisfiable. |
| `Zippers.NodesUp` | server/internal/smt/tree.go:287-299 | No sharing: the nodes of a tree split into those of a place, those of the siblings and the path branches, pairwise disjoint, so deleting the path removes nothing reachable off it. |
| `Zippers.CanonicalUp` | server/internal/smt/tree.go:271-284 | Rebuilding a path from canonical parts is canonical when its lowest branch keeps two leaves. |
| `Zippers.CanonicalDown` | server/internal/smt/tree.go:244-264 | Every place and every sibling met on the way down a canonical tree is canonical on its own path, above depth. |
| `Zippers.EntriesUp` | server/internal/smt/tree.go:244-264 | The entries around a place are its own and, apart from them, those of the siblings. |
| `Zippers.SiblingOffPath` | server/internal/smt/tree.go:260-263 | A key in a sibling differs from the searched path at that sibling. |
| `Zippers.ClimbIsHash` | server/internal/smt/proof.go:90-101 | Climbing from a subtree hash past the sibling hashes gives the hash of the whole tree. |
| `Zippers.SiblingStored` | server/internal/smt/tree.go:302-305 | A sibling hash is zero exactly for an empty sibling and is otherwise stored with its children. |
| `Surgery.EndsAtLookup` | server/internal/smt/tree.go:238-268 | The place where the search ends holds the key iff the map does, and any leaf there agrees with the key on every bit looked at. |
| `Surgery.FindParting` | server/internal/smt/tree.go:108-114 | Two distinct keys that agree on all branches met part inside the depth, so the zero-sibling loop stops in range at the first differing bit. |
| `Surgery.AddShape` | server/internal/smt/tree.go:108-124 | The tree rebuilt by Add is the trie of the extended map. |
| `Surgery.AddNodes` | server/internal/smt/tree.go:102-124 | Old nodes minus the old branches plus leaf and new branches are exactly the new trie's nodes. |
| `Surgery.DeleteShape` | server/internal/smt/tree.go:152-165 | Both ways of deleting, keeping an empty slot beside a branch or lifting a lone leaf to just below the last non-empty sibling, give the trie without the key. |
| `Surgery.DeleteNodes` | server/internal/smt/tree.go:146-165 | Old nodes minus leaf and branches plus the rebuilt branches are exactly the new trie's nodes. |
| `Surgery.LastSibling` | server/internal/smt/tree.go:155-156 | The last sibling of a leaf is never empty and is still stored after the deletions. |
| `Surgery.TrimHashes` | server/internal/smt/tree.go:160-163 | Scanning for the last non-zero sibling hash trims exactly the empty slots. |
| `Paths.KeyToPath` | server/internal/smt/path.go:14-20 | Element i is key / 2^i modulo 2, and a key that fits is read back from its path. |
| `Paths.BitIsDigit` | server/internal/smt/path.go:14-20 | Bit i of a number is its quotient by 2^i modulo 2. |
| `Paths.PathRead` | server/internal/smt/path.go:14-20 | The path of a key that fits, read as a binary number, is the key. |
| `Paths.FitsExactly` | server/internal/smt/tree.go:84 | The width test admits exactly the keys below 2^depth. |
| `Paths.PathInjective` | server/internal/smt/path.go:14-20 | Keys that fit are determined by their paths. |
| `Paths.GetFirstCommonBits` | server/internal/smt/path.go:23-34 | Exactly the length of the longest common prefix. |
| `Paths.PartingBit` | server/internal/smt/path.go:23-34 | Two different keys that fit have a first differing bit below depth. |
| `Proofs.VerifyProof` | server/internal/smt/proof.go:59-87 | Accepts, rejects or indexes out of range as the specification of the two proof forms says, for every proof whatsoever. |
| `Proofs.CalculateRoot` | server/internal/smt/proof.go:90-101 | The climbed root. |
| `Proofs.ProofComplete` | server/internal/smt/proof.go:21-87 | Every proof read off a trie is accepted against its root, for every key. |
| `Proofs.Locate` | server/internal/smt/proof.go:90-101 | A climb that reaches a tree's root started at a subtree of it with that hash, or yields a collision. |
| `Proofs.LocateWithin` | server/internal/smt/proof.go:90-101 | A collision met on the way lies among the inputs hashed for the tree and on the climb. |
| `Proofs.ExtractCollision` | server/internal/smt/proof.go:59-87 | Whatever collision is extracted from an accepted proof is a real one, and lies among the inputs hashed for the tree and while verifying the proof. |
| `Proofs.ProofSound` | server/internal/smt/proof.go:59-87 | With no assumption on the hasher: an accepted proof tells the truth about presence and value, or a collision is extracted from it. |
| `Proofs.KeyLearned` | server/internal/smt/proof.go:59-87 | A verifier that checks that the accepted proof is about its key learns presence and value, or is handed a collision. |
| `Proofs.AcceptedExactly` | server/internal/smt/proof.go:59-87 | With a collision-free hasher a proof is accepted against the root of a map iff it shows a place of its tree: right siblings, right leaf or empty slot. |
| `Proofs.OneRoot` | server/internal/smt/proof.go:59-101 | Every proof of legal shape is accepted against exactly one root, or against none when a matching key leaves the path early. |
| `Proofs.PanicsExactly` | server/internal/smt/proof.go:59-87 | Exactly which proofs make the verifier index out of range. |
| `Proofs.MatchingEntryIsNotCompared` | server/internal/smt/proof.go:72-84 | For every hasher, accepted proofs whose entry says the opposite of the map: equal keys, and an unchecked entry. |
| `Histories.Replay` | server/internal/smt/tree.go:83-169 | Every sequence of single and batch updates leaves exactly the store of the map that the sequence leaves. |
| `Histories.SameMapSameStore` | server/internal/smt/tree.go:16-23 | History independence: the same map means the same nodes, root and count, at any depths. |
| `Histories.SameRootSameMap` | server/internal/smt/tree.go:20 | Roots agree iff maps agree, or a collision among the two trees' inputs is returned. |
| `Histories.AddThenDelete` | server/internal/smt/tree.go:76-134 | Add then delete restores the map exactly when the key was absent. |
| `Histories.CollisionFreeRun` | server/internal/smt/hasher.go:10-15 | A collision-free hasher meets the hypothesis of every run. |
| `Build.Deduplicate` | server/cmd/smtbuild/main.go:80-88 | Every serial once, in the order of first occurrences. |
| `Build.Difference` | server/cmd/smtbuild/main.go:126-139 | The keys not in a set, each once and in order. |
| `Build.FirstsInOrder` | server/cmd/smtbuild/main.go:80-88 | Each serial stands where it first occurred. |
| `Build.OutsideInOrder` | server/cmd/smtbuild/main.go:126-139 | The order of the keys is kept. |
| `Build.FitsDefault` | server/internal/smt/tree.go:84 | A tree of default depth takes exactly the serials below 2^128. |
| `Build.DeltaReaches` | server/cmd/smtbuild/main.go:125-143 | The two difference lists are a legal delta and applying it gives the listed serials, old values kept; both are empty iff nothing changed. |
| `Build.UpdateIncrementally` | server/cmd/smtbuild/main.go:112-164 | Unchanged iff the key sets agree, skipped iff a serial does not fit, otherwise exactly the updated map; when skipped, the deletions and the additions before the first bad serial have been made. |
| `Build.FullRebuild` | server/cmd/smtbuild/main.go:165-176 | Succeeds iff every serial fits, and then holds exactly the serials with value 1. |
| `Build.ProcessIssuer` | server/cmd/smtbuild/main.go:79-176 | The loop body: deduplicate, then update the tree found or rebuild when there is none or it is empty. |
| `Build.IncrementalIsRebuild` | server/cmd/smtbuild/main.go:112-176 | The incremental map equals the rebuilt one iff every kept value is 1. |
| `Build.OldValueStays` | server/cmd/smtbuild/main.go:112-164 | An entry with another value is left as it is by the update. |
| `Build.UpdateStoresRebuild` | server/cmd/smtbuild/main.go:112-176 | Then nodes, root and count agree too. |
| `Watcher.AddAllSkippingErrors` | server/internal/crl/watcher.go:97-103 | Exactly the serials that fit, each once with value 1, duplicates or not. |
| `Watcher.WatcherAgreesWithRebuild` | server/internal/crl/watcher.go:97-103 | The watcher serves what the rebuild builds iff every serial fits. |
| `Watcher.WideSerialDiffers` | server/internal/crl/watcher.go:97-103 | With the one serial 2^128 the watcher serves an empty tree; the rebuild would need that key. |
| `Watcher.TreeManager.FetchAndRebuild` | server/internal/crl/watcher.go:85-112 | Skips a list whose low 64 bits do not pass the served number; otherwise publishes a new valid tree for this issuer only with that number, or 0 without one, for known and unknown issuers alike; leaves every served tree unmodified; crashes exactly when the root prints with fewer than 16 hex digits. |
| `Watcher.TreeManager.SetTree` | server/internal/manager/manager.go:52-61 | Replaces this issuer's entry only. |
| `Watcher.TreeManager.GetProof` | server/internal/manager/manager.go:64-75 | Fails iff the issuer is unknown; otherwise an accepted proof for the serial asked for, with its value if present, another matching key if not, and at most depth siblings. |
| `Watcher.GuardIsExact` | server/internal/crl/watcher.go:85-93 | The guard tells a newer list from an older one iff the number fits 64 bits or its low 64 bits pass the served number. |
| `Watcher.WideNumberSkipped` | server/internal/crl/watcher.go:87-92 | Number 2^64 is skipped although 1 is served. |
| `Watcher.ServedNext` | server/internal/crl/watcher.go:85-110 | One poll lowers the served number iff it is of this issuer, carries no number, and meets a positive one. |
| `Watcher.PollStep` | server/internal/crl/watcher.go:85-110 | What one poll stores for an issuer known or unknown, and that it touches no other. |
| `Watcher.RepeatSkipped` | server/internal/crl/watcher.go:86-92 | A list with a number that is polled again right after is skipped and changes nothing, from every state. |
| `Watcher.ServedNumberNeverFalls` | server/internal/crl/watcher.go:85-110 | Over every sequence of polls an issuer's served number never falls iff no list without a number meets a positive one. |
| `Watcher.UnnumberedListResets` | server/internal/crl/watcher.go:105-110 | After a list without a number an older list is taken. |
| `Watcher.EmptyTreeCrashes` | server/internal/crl/watcher.go:111-112 | For a list none of whose serials fits the root published is 0, too short for the log line. |
| `Watcher.ShortRootBound` | server/internal/crl/watcher.go:112 | A root is too short to print 16 hex digits iff it is below 16^15. |
| `Hexadecimal.HexLength` | server/internal/smt/tree.go:54-56 | A number prints with at most k hex digits iff it is below 16^k. |
| `Snapshot.PutUint` | server/internal/snapshot/binary.go:45-52 | Overwrites exactly the field with the low bytes of the number. |
| `Snapshot.WriteHeader` | server/internal/snapshot/binary.go:44-52 | The 52 header bytes: magic, version, node count, root, depth, CRL number. |
| `Snapshot.WriteNode` | server/internal/snapshot/binary.go:59-75 | One record: type byte, hash, children. |
| `Snapshot.ExportBinary` | server/internal/snapshot/binary.go:41-78 | Header and one record per node, for every traversal order. |
| `Snapshot.ByteReader.ReadFull` | server/internal/snapshot/binary.go:85 | n bytes, or an error when fewer are left. |
| `Snapshot.ReadNode` | server/internal/snapshot/binary.go:116-139 | One record, or the first error in reading order. |
| `Snapshot.ImportBinary` | server/internal/snapshot/binary.go:82-153 | Exactly what the byte string denotes; a tree whose fields are the store of a map is valid for it. |
| `SnapshotRoundTrip.ParseRecord` | server/internal/snapshot/binary.go:115-139 | Reading a written record gives back its node and leaves the rest. |
| `SnapshotRoundTrip.HeaderErrors` | server/internal/snapshot/binary.go:84-97 | Which header error is reported, and when; an accepted snapshot starts with 53 4D 00 01. |
| `SnapshotRoundTrip.NodeErrors` | server/internal/snapshot/binary.go:115-139 | Which node error is reported, and when: records are 97 bytes of type 0 or 129 bytes of type 1. |
| `SnapshotRoundTrip.OneLeafImage` | server/internal/snapshot/binary.go:44-75 | The bytes of the export of one leaf, written out. |
| `SnapshotRoundTrip.ImportOfExport` | server/internal/snapshot/binary.go:41-153 | For every traversal order the import gives back root, number and as many nodes as the 32-bit count announces. |
| `SnapshotRoundTrip.TreeRoundTrip` | server/internal/snapshot/binary.go:41-153 | All fields of a valid tree come back iff node count and depth fit 32 bits. |
| `SnapshotRoundTrip.DepthTruncated` | server/internal/snapshot/binary.go:41-153 | The export of the empty tree of depth 2^32 is read back with depth 0. |
| `SnapshotRoundTrip.ExportThenImport` | server/internal/snapshot/binary.go:41-153 | The restored tree is valid and denotes the same map, so later updates agree. |
| `SnapshotRoundTrip.StrictPrefixRejected` | server/internal/snapshot/binary.go:115-139 | Every strict prefix of an export is rejected iff the node count fits 32 bits. |
| `SnapshotRoundTrip.PrefixAccepted` | server/internal/snapshot/binary.go:48-141 | An export of 2^32 or more nodes, cut after as many as its header announces, is accepted. |
| `SnapshotRoundTrip.SizeBound` | server/internal/snapshot/binary.go:48 | A valid tree has at most (depth + 1) nodes per entry, which keeps the count exact. |
| `SnapshotRoundTrip.CountIsLeaves` | server/internal/snapshot/binary.go:144-146 | The number of leaf records is the tree's count. |
| `Bytes.DecodeEncode` | server/internal/snapshot/binary.go:225-231 | Fixed-width encoding keeps a number modulo its width. |
| `Bytes.ByteIsDigit` | server/internal/snapshot/binary.go:45-52 | Byte i, most significant first, is the quotient by 256^(n-1-i) modulo 256. |
| `Wasm.Module.InitTree` | server/wasm/main.go:37-47 | A new tree of the given depth and an empty map. |
| `Wasm.Module.AddNodeChunk` | server/wasm/main.go:52-102 | Exactly the whole records of the chunk are taken and counted; an incomplete one at the end is dropped. |
| `Wasm.Module.Finalize` | server/wasm/main.go:105-126 | Installs the collected nodes under the root that the hex text denotes and forgets them; an error, with nothing changed, before initialisation or when the text is no number. |
| `Wasm.ChunkAgainstImport` | server/wasm/main.go:68-99 | On whole records both readers build the same map iff every type byte is known; otherwise only the import rejects. |
| `Wasm.UnknownTypeTaken` | server/wasm/main.go:68-99 | A record of type 2 is taken by the chunked reader and rejected by the import. |
| `Wasm.TypeByteIgnored` | server/wasm/main.go:68-99 | Any type byte but 1 is read as 0. |
| `Wasm.ShortTailDropped` | server/wasm/main.go:68-99 | Fewer than 97 bytes, or 129 of type 1, at the end are dropped. |
| `Wasm.ChunkSplits` | server/wasm/main.go:52-102 | Cutting at a record boundary changes nothing and the counts add up. |
| `Wasm.StreamOfExport` | server/wasm/main.go:52-102 | Any split of an exported node section at record boundaries builds the exported map, the counts summing to the node count. |
| `Wasm.StreamExport` | server/wasm/main.go:37-126 | Initialise, stream, finalise gives a valid tree for the exported map. |
| `Hexadecimal.HexRoundTrip` | server/internal/snapshot/snapshot.go:33-50 | Reading a printed number gives it back. |
| `Hexadecimal.NodeKeyInjective` | server/internal/smt/tree.go:54-56 | Different hashes have different map keys. |
| `Hexadecimal.PaddedHex` | server/wasm/main.go:116 | A root printed in hex, with or without leading zeros, reads back. |
| `Hexadecimal.HexDigitAt` | server/internal/snapshot/snapshot.go:33-38 | Each printed digit is that of the quotient by the power of 16. |
| `Hexadecimal.LowerCase` | server/internal/snapshot/snapshot.go:33-38 | Digits above nine are printed as lower-case letters. |
| `Hexadecimal.TextRead` | server/internal/snapshot/snapshot.go:41-50 | A text is read iff it is hex digits of either case after an optional sign. |
| `Hexadecimal.CharRead` | server/internal/snapshot/snapshot.go:41-50 | The characters that count as digits. |
| `Hexadecimal.SignRead` | server/internal/snapshot/snapshot.go:41-50 | A minus sign negates, a plus sign does not. |
| `Hexadecimal.BareRead` | server/internal/snapshot/snapshot.go:41-44 | The 0x may be missing. |
| `JsonSnapshot.ReadEntry` | server/internal/snapshot/snapshot.go:148-164 | One list entry with its numbers, signs included, or an error if any field is not a number. |
| `JsonSnapshot.ReadAllOfExport` | server/internal/snapshot/snapshot.go:65-75 | Reading an exported list, in whatever order it was written, gives back the nodes. |
| `JsonSnapshot.ReadableList` | server/internal/snapshot/snapshot.go:148-164 | A list reads iff each of its entries does. |
| `JsonSnapshot.LaterWins` | server/internal/snapshot/snapshot.go:148-164 | Of two entries with one hash the later one is kept. |
| `JsonSnapshot.OneEntry` | server/internal/snapshot/snapshot.go:65-75 | One entry written out. |
| `JsonSnapshot.Export` | server/internal/snapshot/snapshot.go:53-75 | Root, count, depth, number and one entry per node, for every traversal order. |
| `JsonSnapshot.Import` | server/internal/snapshot/snapshot.go:137-170 | An error iff some field does not read; otherwise the nodes are what the list denotes, later entries winning. |
| `JsonSnapshot.ExportThenImport` | server/internal/snapshot/snapshot.go:53-170 | The restored tree is valid for the same map; only depth 0 does not come back. |
| `Relaying.Relayer.ApplyGasBounds` | server/internal/chain/relayer.go:177-215 | The fee cap is twice the base fee plus the tip, or the ceiling if that is lower; nonce pinned; refuses exactly when base fee plus tip passes the ceiling. |
| `Relaying.Relayer.BumpFees` | server/internal/chain/relayer.go:261-280 | Raises both fees, or fails exactly when the cap would pass the ceiling and changes nothing. |
| `Relaying.BumpClears` | server/internal/chain/relayer.go:264-270 | A bump is strict and reaches 110% rounded down. |
| `Relaying.BumpClearsExactly` | server/internal/chain/relayer.go:262-270 | It reaches 110% unrounded iff the fee is not one of eight small values. |
| `Relaying.BumpExact` | server/internal/chain/relayer.go:262-270 | A bump adds 13 percent rounded down, or 1 wei below 8 wei. |
| `Relaying.AttemptsReplace` | server/internal/chain/relayer.go:252-254 | Every later attempt legally replaces every earlier one at the same nonce. |
| `Relaying.AttemptsOrdered` | server/internal/chain/relayer.go:272-279 | Bumping keeps tip <= fee cap and the nonce. |
| `Relaying.Relayer.SendAndConfirm` | server/internal/chain/relayer.go:219-256 | Confirmed iff the last reply is a successful receipt, Reverted iff a failed one; exactly the sends that the loop's rules give, at most maxReplacements + 1 with one nonce and safe growing fees; the time waited is the sum of the waits and within MaxPostDuration. |
| `Relaying.CallExplained` | server/internal/chain/relayer.go:219-256 | Each of the six results iff the last reply and the limits say so; all earlier attempts timed out and were bumped under the ceiling. |
| `Relaying.AllWaitsTimeOut` | server/internal/chain/relayer.go:149-151 | MaxPostDuration is attained when every wait runs into the timeout. |
| `Relaying.Relayer.PostRoot` | server/internal/chain/relayer.go:156-173 | Fails before sending exactly when an answer of the node is missing or the ceiling is passed, and then sends nothing; otherwise the first transaction has the pending nonce and the bounded fees, and the loop runs from it with its exact result and waiting bound. |
| `PostProtocol.NextKeepsInv` | server/internal/chain/relayer.go:219-256 | Every step of send, failed send, mine, receipt, time out, bump and cancel, and every other registry call, keeps the invariant and only appends to the log. |
| `PostProtocol.RunSafe` | server/internal/chain/relayer.go:206-256 | In every interleaving: bounded sends, one nonce, safe growing fees; the registry's log gains at most one event from this call; a reported confirmation means that it did and a reported revert that it did not; a receipt heard is how the transaction was mined; afterwards this root or a higher number is served. |
| `PostProtocol.AtMostOneUpdate` | server/internal/chain/relayer.go:206-256 | If nobody else updates the registry meanwhile, it is as before or as after exactly one setRoot. |
| `PostProtocol.ErrorDespitePosting` | server/internal/chain/relayer.go:231-256 | For every call, its replies and every error result: some run with these replies, sends and result posts the root iff the result is not a reported revert. |
| `PostProtocol.PostingRuledOut` | server/internal/chain/relayer.go:219-256 | From a returned state no continuation ever posts iff nothing has been posted and either no node took a transaction, or the nonce is used up, or the registry would not accept the call now. |
| `PostProtocol.RunsAreCalls` | server/internal/chain/relayer.go:219-256 | The state machine and the loop agree: for all replies, a list of sends and a result are the loop's iff some run hears exactly these replies and ends so, a confirmation also needing a call the registry can accept. |
| `Registry.SMTRootStorage.SetRoot` | onchain-contract/contracts/SMTRootStorage.sol:29-37 | Reverts exactly for a stranger or a number not above the stored one, changing nothing; otherwise stores root, number and time and emits the event. |
| `Registry.SMTRootStorage.GetRoot` | onchain-contract/contracts/SMTRootStorage.sol:39-41 | The root of the issuer's last event, zero if there is none. |
| `Registry.CallsInTurn` | onchain-contract/contracts/SMTRootStorage.sol:29-37 | Calls take effect in turn; an unknown issuer's first number need only be positive. |
| `Registry.HistoryConsistent` | onchain-contract/contracts/SMTRootStorage.sol:29-37 | Over all call histories each issuer's numbers strictly increase and the stored root and number are its last event's. |
| `Registry.IssuersIndependent` | onchain-contract/contracts/SMTRootStorage.sol:12-37 | What an issuer reads and emits depends only on the calls that name it. |
| `Registry.RepeatRejected` | onchain-contract/contracts/SMTRootStorage.sol:34 | A number is never accepted twice in a row, and 0 never. |

## Left out

- Poseidon itself: the hash functions are parameters.
- Locks: each public method is one atomic step; the served trees are never modified once published.
- `BatchAddWithProgress`: apart from its progress callback it is `BatchAdd`. `PrecomputeLeafHashes`: its result is unused.
- Nil elements inside a child or proof slice: no code path stores one. `ChildNodes.Clone` copies and is not used by the modelled code.
- Watcher.TreeManager.FetchAndRebuild: starts after the list is fetched and parsed, and leaves out the background file export.
- Build.ProcessIssuer: ends where the tree is ready; comparing with the old root file and writing files are left out.
- JsonSnapshot.Import: stops with `Negative` where the code would go on to build a tree with a negative number; gzip and JSON text are left out.
- Wasm.Module.Finalize: stops with `NegativeRoot` where the code would install a root with a minus sign; the JavaScript argument checks and the page that cuts the chunks are left out.
- Snapshot.ExportBinary: the writer cannot fail; requires numbers below 2^256, where the code panics otherwise.
- Relaying.Relayer.SendAndConfirm: waiting times are inputs bounded by the confirm timeout; signing and key handling are left out. With a negative replacement count one attempt is still made and `MaxPostDuration` does not cover it.
- PostProtocol.RunsAreCalls: the state machine has no clock, so waiting times are bounded for the loop only.
- Integer widths: keys, hashes and fees are unbounded as in the code's big integers; the 32- and 64-bit header fields and the 64-bit CRL number are cut explicitly. The contract's 256-bit words are only compared and stored.
- Gas refunds, block times, reorganisations of the chain; REST, gRPC and protobuf wrappers; the unused key-value store; downloads, DER parsing, configuration and logging beyond the one log line that slices out of range.
