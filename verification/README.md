# CompactLog, modelled and proved in Dafny

CompactLog is an append-only Certificate Transparency log. It keeps a Merkle tree as a flat in-order
array (Appendix C of RFC 9420) inside a key-value store, appends leaves in batches, answers proofs at
historical sizes, and sequences submissions so that every SCT it hands out names an index whose leaf is
already committed. This project models that core and proves what it promises.

`dafny verify dfyconfig.toml` checks the whole project.

## How it is put together

- **Array tree and RFC 6962.** `Bits`, `TreeMath`, `TreeOps`: the index operations, first as the source's
  bit tricks, then as leaf ranges, with the loops on 64-bit words proved against the ranges. `Rfc6962`: MTH,
  PATH and SUBPROOF as sections 2.1, 2.1.1 and 2.1.2 of RFC 6962 define them. `Subtree`, `Inclusion`,
  `Consistency`, `ConsistencyProofs`: both proof systems, generation and verification, with completeness and
  soundness.
- **The stored tree.** `TreeStore` says what one batch writes and what the store then satisfies; `TreeRuns`
  that every batch keeps it; `TreeReads` what a versioned read returns, with its cache; `NodeCache` which reads
  that cache survives; `BatchCompute`,
  `TileMath` and `BackedTree` are the imperative tree (class `SlateDbBackedTree`), each method proved against
  those specifications; `TreeHistory` states the results over whole runs, in terms of the batches alone.
- **Sequencing.** `KeyCodec` and `LeafCodec` hold the byte layouts; `LogStore` the invariant of the sequenced
  log; `Flush` and `CtStorage` the flush and the readers (class `CtStorage`); `BatchWorker` the queue worker;
  `Sequencer` and `MergeDelay` the whole path from the queue to the replies; `ProofByHash` the lookup of a
  proof by leaf hash.
- **Serving.** `TileAnswers`, `TileServer`, `Pages`, `PageServer` and `TilePath`: tiles, pages, data tiles and
  tile paths.

The hash is a parameter (any function from byte strings to 32-byte digests). Completeness needs nothing of it.
Soundness, the bijection of leaf hashes and deduplication ask that no two of the *finitely many strings
actually hashed* collide; injectivity on all strings is never assumed.

## Where the code does less than one might hope

- **Node cache.** A read of a node under a size that is not yet committed caches an answer that can hide the
  node later. `NodeCache.EarlyReadHidesLeaf` is a run of that kind, and `NodeCache.CacheKeptIffSafe` says
  exactly which reads keep all later answers at published sizes right. All reads the tree itself makes, also
  those during tile precomputation under the size of a batch in flight, are of the safe kind.
- **Gaps in a batch.** The index told to a submitter is the position among the entries that serialise, while
  its SCT is signed for the position among all entries. `Flush.ReplyMatchesSct` and `Flush.RecordsIffNoGap`
  say exactly when the two agree: no earlier entry of the batch failed to serialise; `Flush.GapOfTwo` is the
  smallest batch where they do not. In every case the leaf at the told index is what the SCT signs
  (`Flush.ReplyLeaf`, and over whole runs `MergeDelay.ServeAny`).
- **Wrapping page and tile numbers.** The release profile does not check overflow, so some very large page and
  tile numbers get the answer for another range: `PageServer.PageWraps`, `TileAnswers.TileWraps` and
  `PageServer.DataTileWraps` name such requests, and `PageServer.PageExact`, `TileAnswers.TileExact` and
  `PageServer.DataTileExact` say exactly which numbers get their own answer.
- **Immutable tiles.** Every tile and data tile is served as immutable, partial ones included.
  `TileAnswers.KeptIffComplete` and `PageServer.DataTileKept` say exactly which answers do stay the same, and
  `TileAnswers.PartialTileGrows` is a request whose answer does not.
- The comment on `SlateDbBackedTree` speaks of `node:{index}` keys; the code stores nodes under an index and a
  size. The model follows the code.

## Model

| member | source | states |
|---|---|---|
| `TreeMath.RootIdxIsRoot` | src/merkle_tree/ct_merkle_vendored.rs:278-281 | `root_idx`, a power of two by logarithm and shift, is for every size the node that covers all leaves |
| `TreeMath.RootCovers` | src/merkle_tree/ct_merkle_vendored.rs:266-281 | the root lies in the tree and covers leaf 0 up to the last |
| `TreeMath.NodeUnique` | src/merkle_tree/ct_merkle_vendored.rs:176-281 | two nodes of one tree that cover the same leaves are the same node |
| `TreeMath.ParentStepBlock` | src/merkle_tree/ct_merkle_vendored.rs:197-201 | the bit formula of `parent_step` gives the node whose block splits where `x` ends (left half) or starts (right half) |
| `TreeMath.LeftChildBlock` | src/merkle_tree/ct_merkle_vendored.rs:219-224 | the xor of `left_child` gives the node of the left half of the block |
| `TreeMath.RightStepBlock` | src/merkle_tree/ct_merkle_vendored.rs:230-234 | the xor of `right_child` gives the node of the right half, before truncation |
| `TreeMath.Descend` | src/merkle_tree/ct_merkle_vendored.rs:235-240 | following left children ends in a node of the tree with the same leaves |
| `TreeMath.ChildrenOf` | src/merkle_tree/ct_merkle_vendored.rs:176-254 | both children of every inner node, truncated edge included, have it as their parent and each other as sibling |
| `TreeMath.ParentOf` | src/merkle_tree/ct_merkle_vendored.rs:196-213 | every node but the root is a child of its parent, on the side `is_left` says, and covers fewer leaves |
| `TreeMath.SiblingInvolution` | src/merkle_tree/ct_merkle_vendored.rs:246-254 | `sibling` is an involution; siblings differ, share their parent and lie on opposite sides |
| `TreeOps.ClimbFits` | src/merkle_tree/ct_merkle_vendored.rs:207-213 | no intermediate node of the climb leaves 64 bits, up to 2^63 leaves |
| `TreeOps.ParentIdx` | src/merkle_tree/ct_merkle_vendored.rs:196-213 | the loop of `parent` terminates on 64-bit words at the parent in the truncated tree |
| `TreeOps.IsLeft` | src/merkle_tree/ct_merkle_vendored.rs:184-187 | comparing with the parent decides on which side of it the node lies |
| `TreeOps.RightChildIdx` | src/merkle_tree/ct_merkle_vendored.rs:230-240 | the loop of `right_child` ends at the node of the right half, cut off at the tree |
| `TreeOps.SiblingIdx` | src/merkle_tree/ct_merkle_vendored.rs:246-254 | `sibling` gives the other child of the parent |
| `Rfc6962.NodeSplits` | src/merkle_tree/ct_merkle_vendored.rs:196-254 | the array tree splits every node where RFC 6962 does, at the largest power of two below its size |
| `Rfc6962.NodeHashInner` | src/merkle_tree/ct_merkle_vendored.rs:144-163 | the MTH of a node's leaves is the parent hash of the MTHs of its children |
| `Rfc6962.NodeHashRoot` | src/merkle_tree/ct_merkle_vendored.rs:278-281 | the hash of the root node is MTH of all leaves |
| `Rfc6962.FirstTrees` | src/merkle_tree/ct_merkle_vendored.rs:88-163 | the roots of no, one and two leaves byte for byte: nothing, 0x00 before a leaf, 0x01 before two digests |
| `Subtree.SubtreeNodeCovers` | src/merkle_tree/consistency.rs:61-80 | an aligned range is exactly what its node covers in the tree that ends with it |
| `Subtree.NodeIsAligned` | src/merkle_tree/consistency.rs:61-80 | every node of every tree is the subtree root of the range it covers |
| `Subtree.SubtreeHalves` | src/merkle_tree/consistency.rs:68-79 | the two halves of an aligned range are siblings below its node |
| `Subtree.LargestPowerOfTwoLessThan` | src/merkle_tree/consistency.rs:82-92 | the doubling loop finds the split point of RFC 6962 without overflow |
| `Subtree.ComputeSubtreeRoot` | src/merkle_tree/consistency.rs:61-80 | the node covering exactly the aligned range; the asserted sibling relation always holds |
| `Inclusion.PathThrough` | src/merkle_tree/ct_merkle_vendored.rs:325-360 | the walk up from a leaf passes through each of its ancestors |
| `Inclusion.PathDownIsAuditPath` | src/merkle_tree/ct_merkle_vendored.rs:325-360 | the siblings between a leaf and an ancestor carry PATH of the ancestor's leaves |
| `Inclusion.AuditPath` | src/merkle_tree/ct_merkle_vendored.rs:325-360 | the nodes of an inclusion proof carry exactly PATH(i, D[n]) of section 2.1.1 of RFC 6962 |
| `Inclusion.IndicesForInclusionProof` | src/merkle_tree/ct_merkle_vendored.rs:325-360 | the loop lists the siblings from the leaf to the root, lowest first |
| `Rfc6962.ChunksOfFlat` | src/merkle_tree/ct_merkle_vendored.rs:300-313 | the bytes of a proof are cut into the digests it was made of |
| `Rfc6962.FlatOfChunks` | src/merkle_tree/ct_merkle_vendored.rs:411-413 | bytes cut into digests are the bytes of those digests |
| `Inclusion.VerifyInclusion` | src/merkle_tree/ct_merkle_vendored.rs:372-432 | for any index and proof bytes, against the root of any tree of that size: accepts if and only if the leaf is the one at the index and the bytes are those of its audit path, unless hashed strings collide |
| `Inclusion.FoldUpComplete` | src/merkle_tree/ct_merkle_vendored.rs:406-431 | folding true siblings over a true node hash gives the true root, from any node |
| `Inclusion.InclusionComplete` | src/merkle_tree/ct_merkle_vendored.rs:372-432 | the verifier accepts PATH(i, D[n]) for every leaf of every tree, whatever the hash |
| `Inclusion.FoldUpSound` | src/merkle_tree/ct_merkle_vendored.rs:406-431 | without collisions a fold that ends in the true root started from the true node hash and met the true siblings |
| `Inclusion.InclusionSound` | src/merkle_tree/ct_merkle_vendored.rs:372-432 | for any digests at all: an accepted leaf is leaf i of the tree and the proof is its audit path, unless hashed strings collide |
| `Inclusion.InclusionExact` | src/merkle_tree/ct_merkle_vendored.rs:372-432 | without collisions the verifier accepts exactly PATH(i, D) for exactly leaf i |
| `Inclusion.VerifierExact` | src/merkle_tree/ct_merkle_vendored.rs:372-432 | the same of the acceptance condition; wrong indices and lengths are inside the statement |
| `Inclusion.OneRoot` | src/merkle_tree/ct_merkle_vendored.rs:426-431 | whatever the hash, one leaf, index, size and proof are accepted for at most one root |
| `Consistency.SubproofWithOffset` | src/merkle_tree/consistency.rs:34-58 | the recursion on offsets names the SUBPROOF nodes of the slice it works on, within the whole tree |
| `Consistency.IndicesForConsistencyProof` | src/merkle_tree/consistency.rs:8-26 | the proof nodes from m to m + additions leaves |
| `Consistency.SubproofHashes` | src/merkle_tree/consistency.rs:34-58 | the nodes SUBPROOF names carry the digests of SUBPROOF in section 2.1.2 of RFC 6962 |
| `Consistency.ConsistencyPath` | src/merkle_tree/consistency.rs:8-58 | the generated proof is PROOF(m, D[n]) |
| `Consistency.SubproofIsWalk` | src/merkle_tree/consistency.rs:29-58 | from any node on: SUBPROOF names the start node unless m is a power of two, then the siblings from it upwards |
| `Consistency.ConsistencyIsWalk` | src/merkle_tree/ct_merkle_vendored.rs:543-580 | for all 0 < m < n the recursive generator lists exactly what the iterative verifier walks, in its order |
| `Consistency.FirstNodeWithDivergingParents` | src/merkle_tree/ct_merkle_vendored.rs:447-458 | the climb finds the largest complete block that ends at m, and its parents exist at every step |
| `Consistency.Diverges` | src/merkle_tree/ct_merkle_vendored.rs:447-458 | along the right edge of the old tree the two parents differ exactly at a left half |
| `Consistency.WalkLength` | src/merkle_tree/ct_merkle_vendored.rs:514-555 | the number of digests a proof must have, with and without the start hash |
| `Consistency.VerifyConsistency` | src/merkle_tree/ct_merkle_vendored.rs:496-590 | for any proof bytes: accepts if and only if sizes are in range, the length fits and both recomputed roots are the given ones |
| `Consistency.WalkLoop` | src/merkle_tree/ct_merkle_vendored.rs:554-580 | the loop with two cursors computes the two roots and never asks for a parent that does not exist |
| `ConsistencyProofs.StepFromLeft` | src/merkle_tree/ct_merkle_vendored.rs:557-580 | going up from a left child of the new tree leaves the old cursor in place |
| `ConsistencyProofs.StepFromRight` | src/merkle_tree/ct_merkle_vendored.rs:557-580 | going up from a right child moves both cursors to the same node past the same complete sibling |
| `ConsistencyProofs.PairedAtRoot` | src/merkle_tree/ct_merkle_vendored.rs:557-590 | when the new cursor is at its root, the old cursor is at the old root |
| `ConsistencyProofs.WalkComplete` | src/merkle_tree/ct_merkle_vendored.rs:543-580 | with true hashes the walk ends in both true roots |
| `ConsistencyProofs.ConsistencyComplete` | src/merkle_tree/ct_merkle_vendored.rs:496-590 | the iterative verifier accepts the recursive PROOF(m, D[n]) for all 0 < m <= n, whatever the hash |
| `ConsistencyProofs.SameHashSameLeaves` | src/merkle_tree/ct_merkle_vendored.rs:144-163 | without collisions, nodes of any two trees with equal hashes cover equal leaves; 0x00 and 0x01 keep leaves and inner nodes apart |
| `ConsistencyProofs.RootBinds` | src/merkle_tree/ct_merkle_vendored.rs:88-163 | a root binds its tree across all sizes: equal roots of non-empty trees, equal leaves, unless hashed strings collide |
| `ConsistencyProofs.WalkSound` | src/merkle_tree/ct_merkle_vendored.rs:543-580 | any digests that lead both cursors to true roots started from true hashes, are the true siblings, and all leaves left of the cursors agree |
| `ConsistencyProofs.ConsistencySound` | src/merkle_tree/ct_merkle_vendored.rs:496-590 | for any digests at all: if accepted for MTH(A) and MTH(B), A is a prefix of B and the proof is PROOF, unless hashed strings collide |
| `ConsistencyProofs.ConsistencyExact` | src/merkle_tree/ct_merkle_vendored.rs:496-590 | without collisions the verifier accepts exactly PROOF(m, B) of exactly the prefixes |
| `ConsistencyProofs.ConsistencyBytesExact` | src/merkle_tree/ct_merkle_vendored.rs:496-590 | the same for any proof bytes, wrong lengths included |
| `ConsistencyProofs.OneNewRoot` | src/merkle_tree/ct_merkle_vendored.rs:582-589 | whatever the hash, an old root and a proof are accepted for at most one new root, and a proof with a start hash for at most one old root |
| `TreeRuns.BatchPutsAt` | src/merkle_tree/slatedb_backed_tree.rs:310-390 | which keys of each kind one write batch holds, and with which values |
| `TreeRuns.NodeKeysStep` | src/merkle_tree/slatedb_backed_tree.rs:356-367 | after a batch a node is stored under a size exactly when the batch that ended there touched it, with its hash at that size |
| `TreeRuns.VersionKeysStep` | src/merkle_tree/slatedb_backed_tree.rs:356-367 | the one pointer per node names the last batch that touched it: the current size for every incomplete node, a size past its end for a complete one |
| `TreeRuns.TileKeysStep` | src/merkle_tree/slatedb_backed_tree.rs:213-226 | a tile of level at most 5 is stored exactly when it is full, and holds the 256 roots of its aligned subtrees |
| `TreeRuns.StepKeepsInv` | src/merkle_tree/slatedb_backed_tree.rs:254-390 | every call, empty, failed or successful, keeps the whole store invariant |
| `TreeRuns.RunKeepsInv` | src/merkle_tree/slatedb_backed_tree.rs:254-390 | so does every run; leaves and published sizes only grow, at the far end |
| `TreeRuns.EmptyInv` | src/merkle_tree/slatedb_backed_tree.rs:122-128 | the freshly initialised store satisfies it, and so does the one left by a stop between the two initial writes |
| `TreeRuns.NodeHashAppend` | src/merkle_tree/slatedb_backed_tree.rs:602-713 | appending leaves changes no hash at an earlier size |
| `TreeReads.PointerOfComplete` | src/merkle_tree/slatedb_backed_tree.rs:654-699 | a node not written at a published size is complete, and its pointer leads to a smaller size from which it can be read now and later |
| `TreeReads.ReadPublished` | src/merkle_tree/slatedb_backed_tree.rs:622-713 | at a published size every node is read as the hash of its range, with any batches committed between the three probes |
| `TreeReads.ReadComplete` | src/merkle_tree/slatedb_backed_tree.rs:622-713 | a complete node reads right under any size at or past the committed one, so under a batch in flight |
| `TreeReads.ReadCompleteLater` | src/merkle_tree/slatedb_backed_tree.rs:622-713 | the same with batches committed between the probes |
| `TreeReads.ReadLatestCorrect` | src/merkle_tree/slatedb_backed_tree.rs:602-620 | `get_node_hash` reads the current hash of every node, and the zero digest exactly for nodes not in the tree |
| `TreeReads.ReadOutside` | src/merkle_tree/slatedb_backed_tree.rs:622-713 | a node the requested tree does not have reads as the zero digest, at every size |
| `TreeReads.ReadAhead` | src/merkle_tree/slatedb_backed_tree.rs:622-713 | past the committed size every node reads as in the committed tree |
| `TreeReads.ReadUnpublished` | src/merkle_tree/slatedb_backed_tree.rs:622-713 | between published sizes exactly the nodes complete at an earlier published size read as their hash, all others as the zero digest |
| `TreeReads.SafeReadKeepsCache` | src/merkle_tree/slatedb_backed_tree.rs:622-713 | a safe read keeps the cache right and, through the cache, answers like the store |
| `TreeReads.InterleavedRead` | src/merkle_tree/slatedb_backed_tree.rs:622-713 | so does a safe read whose three probes and cache insertion are all separated by commits |
| `NodeCache.OkIsRight` | src/merkle_tree/slatedb_backed_tree.rs:622-713 | a right cache answers every node at every published size with its hash, now and after every further run |
| `NodeCache.SafeReadStaysRight` | src/merkle_tree/slatedb_backed_tree.rs:622-713 | a safe read leaves a cache that answers right for ever, if it did before |
| `NodeCache.UnsafeReadSpoilsCache` | src/merkle_tree/slatedb_backed_tree.rs:654-711 | after an unsafe read, of any two batches that reach the size and differ below the node one leaves a published size at which the node is answered wrongly, unless the two trees collide |
| `NodeCache.WaysToGoOn` | src/merkle_tree/slatedb_backed_tree.rs:654-711 | such batches exist for every unsafe read |
| `NodeCache.CacheKeptIffSafe` | src/merkle_tree/slatedb_backed_tree.rs:622-713 | exactly the safe reads keep a cache whose answers at all published sizes of all further runs are right, given two ways to go on that do not collide |
| `NodeCache.EarlyReadHidesLeaf` | src/merkle_tree/slatedb_backed_tree.rs:622-713 | the run in which an early read of leaf 0 hides it after it is committed |
| `TreeReads.StepKeepsCache` | src/merkle_tree/slatedb_backed_tree.rs:457-475 | batches and failed writes keep the cache right, also for entries cached under the size in flight |
| `TreeReads.EvictionKeepsCache` | src/merkle_tree/slatedb_backed_tree.rs:69-71 | the cache may drop any entries at any time |
| `BatchCompute.EdgeStep` | src/merkle_tree/slatedb_backed_tree.rs:318-351 | the path of a new last leaf goes up the right edge, always from a right child, past complete siblings, missing no edge node |
| `BatchCompute.NodesToPrefetch` | src/merkle_tree/slatedb_backed_tree.rs:267-289 | the prefetch set holds every old sibling that any leaf of the batch will meet |
| `BatchCompute.SiblingsOnPath` | src/merkle_tree/slatedb_backed_tree.rs:272-288 | the same for one leaf |
| `BatchCompute.SiblingSource` | src/merkle_tree/slatedb_backed_tree.rs:325-339 | a sibling is in `computed_hashes` with its final hash, or lies wholly in the old tree; stale prefetched hashes are always shadowed |
| `BatchCompute.EdgeFinish` | src/merkle_tree/slatedb_backed_tree.rs:310-354 | rehashing the edge gives every touched node of the grown tree its hash |
| `BatchCompute.PushLeaf` | src/merkle_tree/slatedb_backed_tree.rs:310-354 | one item: `computed_hashes` holds exactly the touched nodes with their hashes; the default-hash and re-read branches are dead |
| `BatchCompute.PushItems` | src/merkle_tree/slatedb_backed_tree.rs:310-354 | the whole loop: leaf records, and the MTH of every node of the final tree that covers a new leaf |
| `TileMath.PositionNode` | src/merkle_tree/slatedb_backed_tree.rs:459-466 | a tile position is an aligned range, complete or cut off at the tree, and its subtree root covers exactly it |
| `TileMath.NewTileIsVisited` | src/merkle_tree/slatedb_backed_tree.rs:405-446 | a tile that becomes full lies in the affected range and all its positions exist, so no tile is lost |
| `TileMath.LastChildFull` | src/merkle_tree/slatedb_backed_tree.rs:499-513 | testing the last child tile is testing the tile itself |
| `TileMath.LevelDone` | src/merkle_tree/slatedb_backed_tree.rs:405-446 | outside the visited range of a level no tile becomes full |
| `TileMath.AllTilesDone` | src/merkle_tree/slatedb_backed_tree.rs:392-533 | after the last level exactly the newly full tiles have been put |
| `BackedTree.RootKeyStored` | src/merkle_tree/slatedb_backed_tree.rs:716-746 | the root key of a size is stored exactly when the size is published |
| `BackedTree.SlateDbBackedTree.constructor` | src/merkle_tree/slatedb_backed_tree.rs:108-131 | opens a store that holds a tree, or initialises one that does not |
| `BackedTree.SlateDbBackedTree.GetCommittedSize` | src/merkle_tree/slatedb_backed_tree.rs:182-197 | the number of leaves |
| `BackedTree.SlateDbBackedTree.Len` | src/merkle_tree/slatedb_backed_tree.rs:156-179 | the number of leaves |
| `BackedTree.SlateDbBackedTree.GetNodeHashAtVersion` | src/merkle_tree/slatedb_backed_tree.rs:622-713 | answer and cache of a cached read; at a published size the node's hash, and safe reads keep the object valid |
| `BackedTree.SlateDbBackedTree.GetNodeHash` | src/merkle_tree/slatedb_backed_tree.rs:602-620 | the current hash of a node, or the zero digest if the tree does not have it |
| `BackedTree.SlateDbBackedTree.RootAtSize` | src/merkle_tree/slatedb_backed_tree.rs:716-746 | MTH of the first n leaves, exactly for size 0 and the published sizes |
| `BackedTree.SlateDbBackedTree.ProveInclusionAtSize` | src/merkle_tree/slatedb_backed_tree.rs:752-801 | PATH(i, D[n]), exactly for published n and i < n, and the verifier accepts it against the root of n |
| `BackedTree.SlateDbBackedTree.ProveConsistencyBetween` | src/merkle_tree/slatedb_backed_tree.rs:535-600 | PROOF(m, D[n]), exactly for equal non-zero sizes and published pairs, and the verifier accepts it against both roots |
| `BackedTree.SlateDbBackedTree.Prefetch` | src/merkle_tree/slatedb_backed_tree.rs:291-304 | the current hashes of the prefetched nodes |
| `BackedTree.SlateDbBackedTree.NodeForTile` | src/merkle_tree/slatedb_backed_tree.rs:468-492 | a tile's node hash comes from the batch or, under the size in flight, from the store, and is its hash in the new tree either way |
| `BackedTree.SlateDbBackedTree.BuildTile` | src/merkle_tree/slatedb_backed_tree.rs:457-497 | the hashes of a tile of the tree being committed |
| `BackedTree.SlateDbBackedTree.PrecomputeTile` | src/merkle_tree/slatedb_backed_tree.rs:424-526 | one tile: put exactly if it becomes full now; the skips never lose it |
| `BackedTree.SlateDbBackedTree.PrecomputeLevel` | src/merkle_tree/slatedb_backed_tree.rs:401-527 | one level of tiles |
| `BackedTree.SlateDbBackedTree.PrecomputeTiles` | src/merkle_tree/slatedb_backed_tree.rs:392-533 | exactly the tiles that become full with this batch |
| `BackedTree.SlateDbBackedTree.PrepareBatch` | src/merkle_tree/slatedb_backed_tree.rs:261-384 | the write batch of the specification, and only the cache changed so far |
| `BackedTree.SlateDbBackedTree.BatchPushWithData` | src/merkle_tree/slatedb_backed_tree.rs:254-390 | the new state is one atomic step of the specification (leaves appended, size published); a failed write changes nothing but the cache, which stays right |
| `TreeHistory.RunIs` | src/merkle_tree/slatedb_backed_tree.rs:254-390 | after any run the leaves are those of the written batches in order, published at the sizes where they ended |
| `TreeHistory.RootStoredIffEnded` | src/merkle_tree/slatedb_backed_tree.rs:716-746 | over all runs a size has its root key stored iff a written, non-empty batch ended there |
| `TreeHistory.HistoricRead` | src/merkle_tree/slatedb_backed_tree.rs:602-713 | over all runs, with any batches between the three probes, every node reads as the hash of its range at every end size |
| `TreeHistory.HistoricInclusion` | src/merkle_tree/slatedb_backed_tree.rs:752-801 | over all runs every later store holds PATH(i, D[v]) and the root of v, and the verifier accepts the one against the other |
| `TreeHistory.HistoricConsistency` | src/merkle_tree/slatedb_backed_tree.rs:535-600 | over all runs, for any two end sizes, every later store holds PROOF(m, D[n]) and both roots, and the verifier accepts |
| `KeyCodec.KeysInjective` | src/merkle_tree/slatedb_backed_tree.rs:79-154 | keys of different kind or fields have different bytes (tree keys and those of the storage layer together) |
| `KeyCodec.TagsSeparate` | src/storage/mod.rs:90-102 | no key of one kind is a key of another, although `cert:` and `cert_sct:` start alike |
| `LeafCodec.FromBeOfBe` | src/types/sct_extensions.rs:20-50 | a big-endian field reads back as its value when that fits |
| `LeafCodec.EncodeExtensions` | src/types/sct_extensions.rs:63-122 | total length, then each extension with its type, length and data, in order |
| `LeafCodec.DecodeExtensions` | src/types/sct_extensions.rs:131-152 | the decoding loop is the recursive decoder |
| `LeafCodec.ExtensionsRoundTrip` | src/types/sct_extensions.rs:107-152 | decoding an encoded list gives it back, for every list whose total length fits 16 bits |
| `LeafCodec.DecoderExact` | src/types/sct_extensions.rs:75-152 | the decoder accepts exactly the encodings of the lists that fit 16 bits |
| `LeafCodec.SerializeMerkleTreeLeaf` | src/types/mod.rs:226-298 | the MerkleTreeLeaf of section 3.4 of RFC 6962 with the leaf-index extension |
| `LeafCodec.LeafLayout` | src/types/mod.rs:226-298 | both kinds of leaf at an index byte for byte |
| `LeafCodec.LeafLayoutDefaults` | src/types/mod.rs:263-295 | 32 zero bytes for a missing issuer key hash, two zero bytes for a missing index |
| `LeafCodec.LeafDetermines` | src/types/mod.rs:226-298 | equal leaves come from entries that agree in type, timestamp, issuer key hash, certificate and index, within the field widths |
| `LeafCodec.CreateSct` | src/types/sct.rs:153-191 | refused exactly above 40 bits; otherwise signed over exactly the MerkleTreeLeaf with that index |
| `LeafCodec.SctSignsLeaf` | src/types/sct.rs:44-105 | the signature input of section 3.2 of RFC 6962 and the leaf are byte-identical for every entry, timestamp and index |
| `LeafCodec.SignatureLayout` | src/types/sct.rs:171-190 | the signature bytes: SHA-256 and ECDSA codes, length, and the signature over the leaf |
| `LeafCodec.LeafEndsInIndex` | src/types/mod.rs:281-291 | a leaf ends in the ten bytes of the extension field of its index |
| `LeafCodec.LeavesDiffer` | src/types/sct_extensions.rs:20-60 | leaves with different indices differ, whatever their entries |
| `LogStore.HandlerIsHonest` | src/api/handlers.rs:198-212 | the callback a handler submits signs the very entry it submits, at every index |
| `LogStore.SubmittedIsWellFormed` | src/types/mod.rs:180-223 | the entries the handlers build, X.509 and precert, are of the form the log invariant asks for |
| `LogStore.LeafHashesDiffer` | src/storage/mod.rs:575-581 | records at different positions have different leaf hashes, unless strings collide |
| `LogStore.FlushKeepsHashes` | src/storage/mod.rs:575-604 | the leaf-hash index stays a bijection onto the positions; no hash key is overwritten |
| `LogStore.FlushKeepsScts` | src/storage/mod.rs:586-604 | every stored SCT belongs to a record of the log with that certificate hash and index |
| `LogStore.FlushKeepsCerts` | src/storage/mod.rs:469-531 | the certificate store holds every certificate of the log under its own hash, skipped ones included |
| `LogStore.FlushKeepsEntries` | src/storage/mod.rs:564-602 | the entry at every index is the deduplicated record |
| `LogStore.FlushKeepsLogInv` | src/storage/mod.rs:315-677 | every flush keeps the invariant that ties entries, hashes, SCTs and certificates to the tree |
| `Flush.ReplyMatchesSct` | src/storage/mod.rs:641-677 | the told index is the index the SCT was signed for iff no earlier entry of the batch failed to serialise |
| `Flush.RecordsIffNoGap` | src/storage/mod.rs:364-452 | the surviving entries are the next records of the log iff there is no gap |
| `Flush.GapOfTwo` | src/storage/mod.rs:641-677 | the smallest failure: of two entries the first does not serialise, and the second is told an index its SCT is not signed for |
| `Flush.ReplyLeaf` | src/storage/mod.rs:641-677 | even with gaps, the leaf at the told index is what the SCT signs |
| `Flush.ReplyLogged` | src/storage/mod.rs:364-410 | field by field: at the index told to a submitter the log holds the submitted certificate hash, certificate, chain, timestamp, type, issuer key hash and precertificate, with the SCT it got |
| `Flush.SurvivorAt` | src/storage/mod.rs:414-441 | a surviving entry is found at its rank among the survivors |
| `Flush.Separate` | src/storage/mod.rs:414-441 | the loop keeps the surviving entries and their leaves, in order |
| `Flush.CollectAll` | src/storage/mod.rs:469-500 | the certificate map holds every certificate of the batch under its hash and nothing else |
| `Flush.BuildMetaPairs` | src/storage/mod.rs:564-604 | entry, leaf-hash and SCT pairs at consecutive indices |
| `Flush.BuildCertPairs` | src/storage/mod.rs:607-616 | the pairs of the certificates the store does not hold yet, in any map order |
| `Flush.NotifyAll` | src/storage/mod.rs:641-677 | each submitter gets its own reply, errors included |
| `CtStorageModel.CtStorage.FindIndexByHash` | src/storage/mod.rs:755-769 | the one position whose leaf has the hash, exactly when there is one |
| `CtStorageModel.CtStorage.GetSctByCertHash` | src/storage/mod.rs:772-788 | found exactly for certificates of the log; the SCT signs the bytes of the committed leaf it names |
| `CtStorageModel.CtStorage.GetCertificate` | src/storage/mod.rs:791-799 | the certificate with that hash, for every certificate of the log |
| `CtStorageModel.CtStorage.GetChainCertificate` | src/storage/mod.rs:802-823 | the same answer through the chain cache |
| `CtStorageModel.CtStorage.ReconstructLogEntry` | src/storage/mod.rs:845-927 | undoes deduplication for every entry of the log, X.509 and precert |
| `CtStorageModel.CtStorage.GetEntry` | src/storage/mod.rs:930-953 | exactly the sequenced entry, through the entry cache, and it re-serialises to the leaf in the tree |
| `CtStorageModel.CtStorage.PushRecords` | src/storage/mod.rs:469-627 | leaves and additional data are committed together or not at all, whether or not the certificate probe answered; records of the next positions extend the log |
| `CtStorageModel.CtStorage.FlushBatch` | src/storage/mod.rs:315-677 | on any valid tree, all replies of a flush in every case: nothing survives, failed write, gaps; each Ok names a committed leaf that its SCT signs; without a gap the log invariant is kept and each told index holds the submitted fields |
| `CtStorageModel.SerializedIsLeaf` | src/types/mod.rs:346-369 | `serialize` of a sequenced entry gives the leaf bytes |
| `CtStorageModel.EntryHasSources` | src/types/mod.rs:118-169 | everything reconstruction needs of a deduplicated entry is in the certificate store |
| `BatchWorker.AfterHolds` | src/storage/mod.rs:220-312 | after any script of wake-ups: everything received is flushed or pending, in order, a deadline is set iff something is pending, and no full batch is left pending |
| `BatchWorker.BatchesConserve` | src/storage/mod.rs:220-312 | every entry lands in exactly one batch in arrival order, and no batch is empty or too large |
| `BatchWorker.DeadlineFlushes` | src/storage/mod.rs:233-253 | a passed deadline cuts the run: the batches are those before it followed by those of a fresh worker after it |
| `BatchWorker.FullUntilExit` | src/storage/mod.rs:266-291 | without a passed deadline every batch but the last has exactly the maximal size |
| `BatchWorker.DeadlineIsOldest` | src/storage/mod.rs:260-264 | the deadline counts from the arrival of the oldest pending entry |
| `BatchWorker.Receive` | src/storage/mod.rs:260-292 | the branch after `recv`: one entry and more while there is room, flushed when full |
| `BatchWorker.Run` | src/storage/mod.rs:220-312 | the loop forms exactly those batches, nothing is pending at exit |
| `Sequencer.FlushOne` | src/storage/mod.rs:315-677 | one flush with total serialisation: next indices, no gap, every Ok kept and logged with the submitted fields |
| `Sequencer.FlushAll` | src/storage/mod.rs:315-677 | any run of flushes, whatever writes fail: every Ok is committed with a matching SCT and the submitted fields in every later state, indices distinct, gap-free, in order |
| `LogStore.EmptyLogInv` | src/merkle_tree/slatedb_backed_tree.rs:122-128 | the freshly initialised store holds the empty log |
| `MergeDelay.NewLog` | src/storage/mod.rs:125-165 | a new log on an empty store is valid and empty, so every run has a start |
| `Sequencer.FlushRun` | src/storage/mod.rs:315-677 | any run of flushes on any valid tree, whatever entries and writes fail and whatever collides: every told index is committed, the leaf there is what the SCT signs, told indices are distinct, gap-free and in order |
| `MergeDelay.KeptInQueue` | src/storage/mod.rs:641-677 | replies that fit batch by batch fit the queue as a whole |
| `MergeDelay.Serve` | src/storage/mod.rs:220-677 | every run of worker and flushes in which all entries serialise: each SCT is signed for the committed index it comes with, that index holds the submitted fields, and the log grows by the written batches in queue order |
| `MergeDelay.ReadBack` | src/storage/mod.rs:772-788 | what was told can be read back: the SCT by the submitted certificate hash, and every submitted field at the told index |
| `MergeDelay.ServeAny` | src/storage/mod.rs:220-677 | every run of worker and flushes at all: zero merge delay for each submission in the queue |
| `ProofByHash.GetProofByHash` | src/api/handlers.rs:485-522 | a path is served exactly for hashes of leaves below a published size, and leads from that hash to that root |
| `TileAnswers.TileExact` | src/api/static_handlers.rs:219-233 | a request gets the answer for the tile it names iff the number is below 2^56 or wraps past the tree |
| `TileAnswers.TileWraps` | src/api/static_handlers.rs:223-233 | tile 2^56 of any non-empty tree gets tile 0 instead of not found |
| `TileAnswers.TileReads` | src/api/static_handlers.rs:216-287 | not found exactly past the tree, otherwise as many position hashes as asked for and as exist |
| `TileAnswers.PositionIs` | src/api/static_handlers.rs:247-262 | a position hash is MTH of its 256^level leaves, cut off at the tree |
| `TileAnswers.CompleteKept` | src/api/static_handlers.rs:185-189 | an answer made of complete positions only is the same in every larger tree |
| `TileAnswers.ShortAnswerGrows` | src/api/static_handlers.rs:185-189 | an answer with fewer hashes than asked for gets longer with the next position |
| `TileAnswers.PartialAnswerChanges` | src/api/static_handlers.rs:185-189 | an answer whose last position is incomplete changes after one of any two ways to go on that differ there, unless the trees collide |
| `TileAnswers.KeptIffComplete` | src/api/static_handlers.rs:185-189 | a served tile, always marked immutable, stays the same for ever iff all positions asked for exist and are complete, given two ways to complete a partial one that do not collide |
| `TileAnswers.PartialTileGrows` | src/api/static_handlers.rs:185-189 | five hashes asked of three leaves at level 0: three are served, four after the next leaf |
| `TileServer.GenerateMerkleTile` | src/api/static_handlers.rs:209-287 | at every published size, also one that batches have passed since: the roots of exactly the requested positions that exist, or not found |
| `TileServer.FullIsGenerated` | src/api/static_handlers.rs:130-160 | what is stored of a full tile is what generation gives, at any width |
| `TileServer.GetTile` | src/api/static_handlers.rs:66-171 | stored or generated, the answer is the same; bad requests exactly for level above 5 or width outside 1-256 |
| `TileServer.TileStable` | src/merkle_tree/slatedb_backed_tree.rs:239-249 | a stored tile stays, unchanged, and is the tile of every later tree |
| `Pages.EntriesPage.ToBinary` | src/types/pages.rs:34-71 | the added entries in order in the page layout |
| `Pages.PageRoundTrip` | src/types/pages.rs:42-71 | a page determines its first index and its entries, within the field widths |
| `Pages.OneEntryPage` | src/types/pages.rs:42-71 | a page with one entry byte for byte |
| `Pages.AssembleDataTile` | src/api/static_handlers.rs:463-468 | the leaf encodings one after the other |
| `Pages.TakesTileLeaf` | src/types/tiles.rs:51-71 | a reader finds the end of the first leaf in any data tile, although no length is written |
| `Pages.DataTileUnique` | src/types/tiles.rs:51-71 | equal data tiles hold equal leaf sequences |
| `Pages.TileRoundTrip` | src/types/tiles.rs:51-71 | a reader finds all leaves of a data tile |
| `Pages.PrecertLeaf` | src/types/tiles.rs:51-71 | the leaf of a precertificate with one issuer byte for byte |
| `PageServer.PageExact` | src/api/pages_handlers.rs:24-51 | a request gets the answer for the page it names iff the number is at most 18446744073709551 or wraps past the log |
| `PageServer.PageWraps` | src/api/pages_handlers.rs:24-51 | page 2^61 of any non-empty log gets page 0 instead of not found |
| `PageServer.GetPage` | src/api/pages_handlers.rs:20-125 | not found exactly past the log; otherwise a page that decodes to its start and up to 1000 entries, each with its tree leaf and the hashes of its chain in order, immutable exactly when entries follow it |
| `PageServer.PageAnswerReads` | src/api/pages_handlers.rs:54-122 | the same of the specified answer, for every start |
| `PageServer.ImmutablePage` | src/api/pages_handlers.rs:112-122 | a page served as immutable is byte-identical, and immutable, in every later state |
| `PageServer.PagesPartitionLog` | src/api/pages_handlers.rs:24-51 | consecutive pages hold every entry exactly once, in order |
| `PageServer.RecordLeafFits` | src/types/tiles.rs:37-71 | every sequenced record within the field widths gives a leaf a data tile determines |
| `PageServer.DataTileDeterminesLeaves` | src/api/static_handlers.rs:389-470 | equal data tiles of two logs show equal leaves, however many each holds |
| `PageServer.DataTileExact` | src/api/static_handlers.rs:395-410 | a request gets the answer for the data tile it names iff the number is below 2^56 or wraps past the log |
| `PageServer.DataTileWraps` | src/api/static_handlers.rs:395-410 | data tile 2^56 of any non-empty log gets data tile 0 instead of not found |
| `PageServer.DataTileKept` | src/api/static_handlers.rs:364-369 | a served data tile, always marked immutable, keeps its bytes in a later log iff all entries asked for were there, or none was added |
| `PageServer.GenerateDataTile` | src/api/static_handlers.rs:389-470 | at every size up to the committed one: not found exactly past the end, otherwise bytes that decode to the leaves of the range, each with its tree leaf, precertificate and the hashes of its chain in order |
| `PageServer.DataAnswerReads` | src/api/static_handlers.rs:389-470 | the same of the specified answer, for every start |
| `PageServer.DataLeaf` | src/api/static_handlers.rs:423-435 | precert entries carry the precertificate fetched by hash, others none |
| `TilePath.ParseTileIndex` | src/types/tiles.rs:74-111 | accepted exactly for up to 64 three-character numbers; the value is the number they spell, modulo 2^64 |
| `TilePath.SpelledGrows` | src/types/tiles.rs:81-108 | if the spelled number fits, no intermediate value overflows |
| `TilePath.FormatTileIndex` | src/types/tiles.rs:114-131 | base-1000 digits, three characters each, all but the last marked |
| `TilePath.PathSpells` | src/types/tiles.rs:74-131 | the path of every 64-bit number spells exactly that number, in at most seven parts, without overflow |
| `TilePath.SomePaths` | src/types/tiles.rs:140-170 | some indices and their paths, character for character |
| `TilePath.SomeParts` | src/types/tiles.rs:81-101 | some parts that are accepted, among them a plus sign and a missing mark, and some that are not |
| `TilePath.FormatThenParse` | src/types/tiles.rs:74-131 | parsing a formatted index gives it back, for every 64-bit number |

## Left out

- SlateDB, object stores, rate limiting and durability: the store is a map and one write batch is one atomic update that happens or does not; errors of single reads are not modelled, except for the certificate probe of a flush.
- SHA-256, ECDSA, base64, gzip and postcard: hash and signing are function parameters, postcard is taken as total except where a flush may fail to serialise an entry; stored values are kept decoded.
- A failing postcard serialisation of an SCT entry, which drops the three pairs of that entry: not modelled.
- X.509 parsing, chain validation, TBS extraction, issuer key hashes and CCADB: extraction is an arbitrary deterministic function, the rest is not modelled.
- HTTP plumbing, configuration, metrics, batch statistics, signed tree heads, checkpoints and the write-only tile cache: easy or without effect on results.
- Submission queue limits and closed reply channels: `add_entry_batched` is the script of arrivals of `BatchWorker.Run`.
- Time: arrivals and passed deadlines come in any order the script says; how long a deadline is does not matter to what is proved.
- BackedTree.SlateDbBackedTree.ProveInclusionAtSize and ProveConsistencyBetween return the digests of a proof; their concatenation to bytes is `Rfc6962.ChunksOfFlat`, and the verifiers work on bytes.
- Concurrency of readers with writers: the class methods read one store; reads split over several commits are the lemmas `TreeReads.ReadPublished`, `TreeReads.InterleavedRead` and `TreeHistory.HistoricRead`, and tiles are generated at any published size. Writers are serialised by the write lock in the source and here.
- Panics inside the blocking tasks of a flush: the 40-bit bound on indices, above which signing panics, is a hypothesis (`FitsIndex`).
- Tiles of trees of more than 2^63 leaves and 64-bit overflow inside `is_tile_full_at_size` for tile indices that never occur in a batch: tile arithmetic in a batch is on unbounded numbers.
- BackedTree.SlateDbBackedTree.BuildTile: fetches the missing nodes of a tile in one pass where the source fetches all of them first.
- BackedTree.SlateDbBackedTree.ProveConsistencyBetween: for equal sizes that are not published it states only that the proof is empty, as the source returns before looking at the store.
- CtStorageModel.CtStorage.FlushBatch: after a batch with a gap it states replies and leaves but not the log invariant, which `Flush.RecordsIffNoGap` shows to fail there; lookups of entries behind a gap are not covered.
- Sequencer.FlushOne: for submissions that all serialise; `Sequencer.FlushRun` is the run without that assumption.
- Sequencer.FlushAll: the same.
- MergeDelay.Serve: the same; `MergeDelay.ServeAny` is the run without that assumption.
- TilePath.ParseTileIndex: it accepts more spellings than the formatter writes, as its contract says; only parsing what was formatted is claimed to be a round trip.
- `push`, `recalculate_path_batch` and the other test-only methods of the tree: a batch of one item.
