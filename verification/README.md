# Astria: the Merkle tree, the conductor's cache and state, the restarting stream

This project models four parts of the repository and proves what they are for.

**The Merkle tree** (`crates/astria-merkle`) keeps the hashes of all nodes in one byte buffer,
in order: leaves at even indices, branches at odd ones. Parents, children and siblings are found
by bit operations on the index; trees whose number of leaves is not a power of two are cut-off
perfect trees. The specification is the recursive one of RFC 6962: the Merkle tree hash of
section 2.1 and the audit path of section 2.1.1. Proved, for all trees and all leaves:

- the bit operations on 64-bit words are arithmetic on aligned blocks of leaves, and the
  navigation functions walk exactly the recursive split of RFC 6962, at every depth of a cut-off
  tree (`Words`, `InOrder`, `Navigation`);
- after any pushes every node holds the Merkle tree hash of exactly the entries below it, although
  a push rewrites one path only; the root is the Merkle tree hash (`MerkleTree`);
- a constructed proof carries exactly the audit path and checking it returns the root; nothing else
  of the right length does; for every checked proof of any size, index and length it is settled
  when reconstruction panics, when it gives the root, and for which entry, unless a collision is
  exhibited (`Rfc6962`, `Proofs`, `MerkleTree`).

**The block cache** (`crates/astria-conductor/src/block_cache.rs`) is a reorder buffer. Every run
of insertions, pops and drops keeps an invariant that ties the cache and what was popped to the
first block offered at each height; without drops the order of insertions and their interleaving
with pops do not matter (`BlockCaches`).

**The conductor state** (`crates/astria-conductor/src/state.rs`) maps rollup numbers to sequencer
heights and back, takes over exactly the commitments that can be mapped, and never leaves the
domain of that mapping (`ConductorState`).

**The restarting stream** (`crates/astria-auctioneer/src/streaming_utils.rs`) refines the
concatenation of the streams it opens, under every pattern of pending polls (`RestartingStreams`).

## How things are modelled

- `usize` and `u64` are the naturals below 2^64. `&`, `|`, `!`, `<<`, `>>`, wrapping and saturating
  operations are written out on them; `&` and `|` work bit by bit.
- A panic is the value `Outcome.Panic` where a caller can reach it (a leaf index above
  `usize::MAX / 2`, a climb that arrives at `usize::MAX`, an increment of the largest height) and a
  `requires` where it is an assertion about the index passed (`is_branch`, `i < n`, `is_perfect`).
  The proofs that call such functions establish these assertions.
- SHA-256 is a parameter: any function from byte strings to 32 bytes. Nothing is assumed about it,
  so binding results name the two colliding inputs instead of assuming that there are none: that
  some collision exists says nothing, since 32 bytes cannot be injective.
- The growing buffer is a field of type `seq` that methods reassign. Its size is bounded by the
  largest allocation, `isize::MAX` bytes, which the standard library enforces by panicking.
  Results that involve the root or right child functions cover trees of up to 2^62 leaves, beyond
  which the next power of two leaves a word. The climb, the walk from a leaf, reconstruction and
  audits are covered for every size of a word.
- Block `i` with `k` trailing one-bits heads `Span(i) = 2^k` leaves from leaf `First(i)`; a tree of
  `leaves` leaves keeps `Count(i, leaves)` of them. `NodeAt(a, c)` is the node of leaves `[a, a + c)`.
- A tendermint `Height` is a natural of at most `i64::MAX`; its `increment` panics at that value.
  Both are facts of the tendermint library, which is not part of this model.
- The inner streams and openings of a restarting stream are scripts of poll answers. A stream that
  never ends looks, for any finite number of polls, like one with a longer script.

## Where the code and its documentation disagree

- `UncheckedProof::audit_path` says that a path of implausible length gives an incorrect root.
  - A path with more segments than the leaf is deep makes reconstruction panic instead. For every
    checked proof, whatever its tree size, only such a path does; an even size counts as the next
    odd one (`Proofs.ReconstructPanicsExactly`, `Proofs.LongPathPanics`).
  - A path with fewer segments can give the correct root, for another entry
    (`Proofs.ShortPathProvesOtherEntry`). `Proofs.VerifiesExactly` and
    `Proofs.ReconstructsRootExactly` say exactly when, and `Proofs.IndexIsBoundExactly` that for the
    size of the tree the entry is the one at the proof's leaf index exactly when the number of
    segments is the depth of that leaf, which a caller can compare before the audit.
- `UncheckedProof::try_into_proof` says that a leaf index outside the tree is an error. For a
  non-zero tree size and a leaf index above `usize::MAX / 2` it panics
  (`Proofs.CheckingOutcomes`, `Proofs.LargeLeafIndexPanics`); such an index can come from a decoded
  message (`crates/astria-core/src/primitive/v1/mod.rs:62-79`).
- `Tree::construct_proof` and `Tree::leaf` say that they return `None` for a leaf outside the tree.
  For a leaf index above `usize::MAX / 2` they panic, the former for non-empty trees only
  (`MerkleTree.Tree.ConstructProof`, `MerkleTree.Tree.Leaf`).
- `map_rollup_number_to_sequencer_height` says it fails if `start + (number - first)` is out of
  range of `u64` or the number is more than one below the first. It also fails when `number + 1` or
  `start + number` overflows and when the result exceeds the largest height, `i64::MAX`; in no other
  case (`ConductorState.IntermediateSumOverflows`, `ConductorState.HeightOverflows`,
  `ConductorState.DocumentedConditionGap`).
- `BlockCache::insert` says it fails if a block exists at that height. It also fails for heights
  already passed (`BlockCaches.InsertRejectedExactly`).

## Model

| member | source | states |
|---|---|---|
| `Navigation.LastZeroBitIsSpan` | crates/astria-merkle/src/lib.rs:526-539 | with `k` trailing ones, the last zero bit is `2^k` |
| `Navigation.PerfectParentMeaning` | crates/astria-merkle/src/lib.rs:541-562 | for every index but `usize::MAX`, also where the shift drops a bit: the parent is one span right of a left child and one span left of a right child, and its block is the enclosing aligned block of twice the size |
| `Navigation.PerfectChildrenMeaning` | crates/astria-merkle/src/lib.rs:564-601 | the children lie half a span to either side of a branch |
| `Navigation.BranchesAreOdd` | crates/astria-merkle/src/lib.rs:687-694 | branches are exactly the odd indices |
| `Navigation.PerfectExactly` | crates/astria-merkle/src/lib.rs:714-718 | a size passes the perfect-size test exactly when it is one less than a power of two |
| `Navigation.CompleteRoot` | crates/astria-merkle/src/lib.rs:603-623 | the assertion of `perfect_root` holds for every size whose next power of two fits a word and for `usize::MAX`, which wraps, and the root is not beyond the size |
| `Navigation.LargestSizeWraps` | crates/astria-merkle/src/lib.rs:621-623 | the size `usize::MAX` has root zero |
| `Navigation.CompleteRootHeadsAll` | crates/astria-merkle/src/lib.rs:610-623 | the root of a tree is the node that heads all its leaves |
| `Navigation.CompleteRootIsSplit` | crates/astria-merkle/src/lib.rs:610-623 | for two or more leaves the root is `2k - 1`, `k` the largest power of two below the number of leaves, as section 2.1 of RFC 6962 splits |
| `Navigation.CompleteParent` | crates/astria-merkle/src/lib.rs:634-642 | the climbing loop terminates for every index and size and computes the first ancestor inside the buffer, or the panic at `usize::MAX` |
| `Navigation.CompleteParentOf` | crates/astria-merkle/src/lib.rs:634-642 | a parent is a branch inside the buffer |
| `Navigation.ClimbPanicsExactly` | crates/astria-merkle/src/lib.rs:625-642 | for any index and size, odd or even, the climb panics exactly when no ancestor is inside: on the left edge, when the perfect parent is outside; elsewhere, when the node before the largest power of two up to `i + 1` is |
| `Navigation.OnlyRootHasNoParent` | crates/astria-merkle/src/lib.rs:625-642 | in a tree the climb panics exactly from the root |
| `Navigation.TopHasNoParent` | crates/astria-merkle/src/lib.rs:625-642 | the climb panics from the node that heads all leaves, for every size of a word |
| `Navigation.ClimbIgnoresParity` | crates/astria-merkle/src/lib.rs:634-642 | a buffer of even size has the parents of the next odd size |
| `Navigation.ChildrenOfNode` | crates/astria-merkle/src/lib.rs:644-670 | children of a branch in a cut-off tree; the fallback of the right child is the shifted root of the remaining leaves |
| `Navigation.SubtreeChildren` | crates/astria-merkle/src/lib.rs:644-670 | at every depth, the children of the node of a subtree are the nodes of the two halves of its RFC 6962 split |
| `Navigation.SubtreeParent` | crates/astria-merkle/src/lib.rs:625-642 | the nodes of both halves lie on either side of the subtree's node and have it as complete parent |
| `Navigation.ChildrenHaveParent` | crates/astria-merkle/src/lib.rs:625-670 | left child < branch < right child < size, and both have the branch as complete parent |
| `Navigation.ParentAndSibling` | crates/astria-merkle/src/lib.rs:672-685 | a node below the root has a parent inside the tree, is exactly one of its children, and the sibling returned is the other |
| `Rfc6962.PathFoldsToRoot` | crates/astria-merkle/src/audit.rs:540-558 | combining a leaf hash with its audit path on the sides RFC 6962 prescribes gives the Merkle tree hash |
| `Rfc6962.FoldBinds` | crates/astria-merkle/src/audit.rs:540-558 | a leaf hash and path of the right length that fold to the root are those of the leaf, or a constructed pair of inputs to `combine` collides |
| `Rfc6962.FoldedDataIsEntry` | crates/astria-merkle/src/lib.rs:147-163 | data that folds to the root along any sides and any number of segments is an entry, and sides and segments are those of its audit path, or a constructed pair of inputs collides; the prefixes of leaves and branches make it so |
| `Rfc6962.DataFoldsToRootExactly` | crates/astria-merkle/src/audit.rs:546-557 | data folds to the root exactly along the audit path of an entry that it is, but for a collision |
| `Rfc6962.HashFoldsToRootExactly` | crates/astria-merkle/src/audit.rs:546-557 | a hash folds to the root exactly along the path from a subtree whose hash it is, but for a collision |
| `Rfc6962.SidesDiffer` | crates/astria-merkle/src/audit.rs:550-554 | the sides of an audit path determine the leaf |
| `Rfc6962.DepthBound` | crates/astria-merkle/src/lib.rs:360-366 | a proof has at most ceil(log2 L) segments, exactly that many in a perfect tree |
| `Rfc6962.CeilLog2Meaning` | crates/astria-merkle/src/lib.rs:360-366 | the bound is the exponent of the smallest power of two that is at least L |
| `Rfc6962.MthEquations` | crates/astria-merkle/src/lib.rs:147-163 | the Merkle tree hash obeys the three equations of section 2.1 of RFC 6962, down to the prefix bytes and the order of the hashed parts |
| `Rfc6962.PathEquations` | crates/astria-merkle/src/lib.rs:354-372 | the audit path obeys the equations of section 2.1.1 |
| `Proofs.CheckingInvertsUnchecking` | crates/astria-merkle/src/audit.rs:374-431 | checking returns a proof exactly for the unchecked form of a proof with a leaf inside its tree and whole digests |
| `Proofs.CheckingOutcomes` | crates/astria-merkle/src/audit.rs:374-402 | the exact condition and contents of success, of each of the three errors, and of the panic |
| `Proofs.LargeLeafIndexPanics` | crates/astria-merkle/src/audit.rs:366-385 | a concrete leaf index outside the tree that panics instead of giving the documented error |
| `Proofs.SegmentsOfHashes` | crates/astria-merkle/src/audit.rs:548 | chunking a concatenation of digests gives the digests back |
| `Proofs.FlattenSegments` | crates/astria-merkle/src/audit.rs:548 | the chunks of any path concatenate to the path |
| `Proofs.WalkUp` | crates/astria-merkle/src/audit.rs:546-556 | from a leaf, the walk visits the nodes of the subtrees around it and turns as the RFC 6962 path prescribes |
| `Proofs.WalkReachesRoot` | crates/astria-merkle/src/audit.rs:546-556 | after as many steps as the leaf is deep the walk is at the root |
| `Proofs.WalkEndsAtRoot` | crates/astria-merkle/src/audit.rs:546-556 | it can make exactly that many steps, and a shorter walk turns as the beginning of the RFC 6962 path does |
| `Proofs.CheckedWalk` | crates/astria-merkle/src/audit.rs:546-556 | every tree size of a checked proof, odd or even, walks like the tree of `treeSize / 2 + 1` leaves |
| `Proofs.ReconstructRootWithLeafHash` | crates/astria-merkle/src/audit.rs:540-558 | the loop computes the fold of the segments along the walk, or the panic of the climb, for any size, index and path |
| `Proofs.ReconstructPanicsExactly` | crates/astria-merkle/src/audit.rs:540-558 | for a leaf inside the size a proof carries, odd or even, reconstruction panics exactly when the path has more segments than the leaf is deep |
| `Proofs.TreeProofPanicsExactly` | crates/astria-merkle/src/audit.rs:540-558 | the same for the size of a tree |
| `Proofs.LongPathPanics` | crates/astria-merkle/src/audit.rs:325-334 | a concrete checked proof of even size for which reconstruction panics instead of giving an incorrect root |
| `Proofs.AuditCompletes` | crates/astria-merkle/src/audit.rs:202-214 | completeness: the RFC 6962 proof of every leaf is a checked proof, reconstructs the root and verifies |
| `Proofs.AuditBinds` | crates/astria-merkle/src/audit.rs:540-558 | binding: a proof with the tree's size and as many segments as its leaf is deep that leads to the root is that leaf's RFC 6962 proof for that leaf's hash, or a collision of `combine` is exhibited |
| `Proofs.VerifiesExactly` | crates/astria-merkle/src/audit.rs:602-619 | membership: with any checked proof, whatever its size, index and length, data verifies against the root exactly when the segments are the audit path of an entry that it is and the proof's walk turns as that path does, or a collision is exhibited |
| `Proofs.ReconstructsRootExactly` | crates/astria-merkle/src/audit.rs:540-558 | the same for any starting hash: exactly when the segments lead to a subtree with that hash |
| `Proofs.IndexIsBoundExactly` | crates/astria-merkle/src/audit.rs:325-334 | a proof proves at most one entry; for the size of the tree, the one at its leaf index exactly when the path has as many segments as that leaf is deep |
| `Proofs.ShortPathProvesOtherEntry` | crates/astria-merkle/src/audit.rs:325-334 | a concrete path of implausible length that gives the correct root |
| `MerkleTree.WithNodeMeaning` | crates/astria-merkle/src/lib.rs:287-316 | writing one node of the byte buffer changes that node only |
| `MerkleTree.RootHoldsMth` | crates/astria-merkle/src/lib.rs:403-409 | the node at the root index holds the Merkle tree hash of all entries |
| `MerkleTree.RepresentationIsUnique` | crates/astria-merkle/src/lib.rs:456-484 | the buffer depends on the entries only, so a leaf written in parts gives the tree of the leaf pushed whole |
| `MerkleTree.AppendFrame` | crates/astria-merkle/src/lib.rs:233-266 | whatever is appended later, every node whose perfect subtree lay inside the tree keeps its hash |
| `MerkleTree.NodeSplits` | crates/astria-merkle/src/lib.rs:276-280 | the Merkle tree hash of what a branch covers combines those of its children |
| `MerkleTree.OffEdgeKeepsCover` | crates/astria-merkle/src/lib.rs:244-264 | a node that does not cover the new leaf existed before and covers the same entries |
| `MerkleTree.EdgeStep` | crates/astria-merkle/src/lib.rs:255-264 | the parent of a node that covers the last leaf is the next such node; the node is its right child and its left child does not cover the last leaf |
| `MerkleTree.PushStarts` | crates/astria-merkle/src/lib.rs:248-253 | once the new leaf is written only its ancestors are stale |
| `MerkleTree.PushClimbs` | crates/astria-merkle/src/lib.rs:255-263 | one round of the loop leaves one stale ancestor fewer |
| `MerkleTree.PushEnds` | crates/astria-merkle/src/lib.rs:260-263 | at the root no node is stale |
| `MerkleTree.ProofStep` | crates/astria-merkle/src/lib.rs:362-366 | one round of proof construction extends the audit path within a subtree to the parent's subtree |
| `MerkleTree.LeafBuilder.Drop` | crates/astria-merkle/src/lib.rs:233-266 | dropping a builder appends what was written as one entry and every node is correct again |
| `MerkleTree.LeafBuilder.Write` | crates/astria-merkle/src/lib.rs:223-230 | writes concatenate |
| `MerkleTree.Tree.SetNode` | crates/astria-merkle/src/lib.rs:311-316 | one node is set, all others and the size stay |
| `MerkleTree.Tree.Push` | crates/astria-merkle/src/lib.rs:482-484 | pushing appends one entry and every node is correct again |
| `MerkleTree.Tree.FromLeaves` | crates/astria-merkle/src/lib.rs:490-500 | the entries are the leaves given, in order |
| `MerkleTree.Tree.Root` | crates/astria-merkle/src/lib.rs:403-409 | the root of every reachable tree, also the empty one, is the Merkle tree hash of its entries |
| `MerkleTree.Tree.Leaf` | crates/astria-merkle/src/lib.rs:393-396 | the hash of that entry, `None` outside the tree, a panic above `usize::MAX / 2` |
| `MerkleTree.Tree.ConstructProof` | crates/astria-merkle/src/lib.rs:354-372 | for every leaf in a reachable tree, the proof carries exactly its RFC 6962 audit path, index and size; otherwise `None`, or the panic of a leaf index too large for a word |
| `BlockCaches.BlockCache.WithNextHeight` | crates/astria-conductor/src/block_cache.rs:38-47 | only height zero is rejected; the cache starts empty |
| `BlockCaches.BlockCache.Insert` | crates/astria-conductor/src/block_cache.rs:90-108 | in each of the three cases the result or error, and what is cached afterwards |
| `BlockCaches.BlockCache.Pop` | crates/astria-conductor/src/block_cache.rs:50-57 | the block at the next height is removed and the height moves by one, which cannot overflow, or nothing changes |
| `BlockCaches.BlockCache.DropObsolete` | crates/astria-conductor/src/block_cache.rs:59-67 | the height to pop is raised to the latest height, never lowered; cached stays exactly what is not below the latest height, also where the split is skipped |
| `BlockCaches.RunKeepsInvariant` | crates/astria-conductor/src/block_cache.rs:31-109 | over every run of the three operations: cached is exactly the first block offered at each height not passed; popped heights strictly increase and each popped block is the first offered at its height; a height is missing only if it was dropped |
| `BlockCaches.DropsTakeEffect` | crates/astria-conductor/src/block_cache.rs:59-67 | in every run, after a drop the next height is not below the dropped height, and neither is any block popped afterwards |
| `BlockCaches.DropRemovesExactly` | crates/astria-conductor/src/block_cache.rs:59-67 | after any run, a drop removes exactly what is cached below it |
| `BlockCaches.NoGapsWithoutDrops` | crates/astria-conductor/src/block_cache.rs:50-57 | without drops the k-th popped block has the k-th height from the start |
| `BlockCaches.YieldIsGapFree` | crates/astria-conductor/src/block_cache.rs:50-108 | confluence: insertions and pops in any interleaving, then popping until nothing comes, yield the longest gap-free run of the first blocks offered |
| `BlockCaches.OrderDoesNotMatter` | crates/astria-conductor/src/block_cache.rs:50-108 | two runs that offer the same blocks, one per height, yield the same sequence |
| `BlockCaches.InsertRejectedExactly` | crates/astria-conductor/src/block_cache.rs:87-108 | an insertion is rejected as old exactly when its height was passed and as occupied exactly when it was offered before and not passed; without drops it is rejected exactly when it is below the start or was offered before |
| `ConductorState.MappingMeaning` | crates/astria-conductor/src/state.rs:413-434 | which height a number maps to, and exactly when |
| `ConductorState.MappingErrors` | crates/astria-conductor/src/state.rs:418-434 | which error a number gives, and exactly when |
| `ConductorState.MappingBackMeaning` | crates/astria-conductor/src/state.rs:440-462 | which number a height maps to, and exactly when it maps to none |
| `ConductorState.IntermediateSumOverflows` | crates/astria-conductor/src/state.rs:413-434 | a concrete number for which the documentation promises success and the code fails because it adds first |
| `ConductorState.HeightOverflows` | crates/astria-conductor/src/state.rs:413-434 | a concrete number for which the documentation promises success and the code fails because the height is too large |
| `ConductorState.DocumentedConditionGap` | crates/astria-conductor/src/state.rs:413-434 | where the documentation promises success, the code fails exactly when an intermediate sum overflows or the result exceeds the largest height |
| `ConductorState.MappingBack` | crates/astria-conductor/src/state.rs:418-462 | mapping back recovers the number exactly when it is not below the start; the next height maps to the next number also at that boundary |
| `ConductorState.MappingForth` | crates/astria-conductor/src/state.rs:418-462 | mapping forth again recovers the height exactly when no sum overflows |
| `ConductorState.MappingIsMonotone` | crates/astria-conductor/src/state.rs:418-434 | the forward mapping is strictly monotone, both ways |
| `ConductorState.CommitmentIssueExactly` | crates/astria-conductor/src/state.rs:107-149 | a commitment has an issue exactly when a number its level enables, firm or soft, has no height; the firm one is reported first, with its purpose, error and number |
| `ConductorState.SessionAcceptedExactly` | crates/astria-conductor/src/state.rs:258-292 | a session is accepted, unchanged, exactly when the firm and soft numbers its level enables and the end block have heights; otherwise the first issue is reported |
| `ConductorState.NextExpectedFirmMeaning` | crates/astria-conductor/src/state.rs:402-405 | the next expected firm height is one above the height of the firm number; it panics exactly where there is none or it is the largest |
| `ConductorState.NextExpectedSoftMeaning` | crates/astria-conductor/src/state.rs:407-410 | the same for the soft number |
| `ConductorState.SequencerStopHeightMeaning` | crates/astria-conductor/src/state.rs:80-93 | the stop height is the height of the end block; there is none exactly without an end block or where that is zero; a panic exactly where it has none |
| `ConductorState.StateSender.TryUpdateCommitmentState` | crates/astria-conductor/src/state.rs:158-174 | accepted exactly when the enabled numbers have heights, and then the commitment is taken over and nothing else changes; otherwise nothing changes and the first issue is reported |
| `ConductorState.LastAcceptableIsTaken` | crates/astria-conductor/src/state.rs:158-174 | after any sequence of updates the commitment is the last acceptable one of the sequence, and the session is the same |
| `ConductorState.UnacceptableIsIgnored` | crates/astria-conductor/src/state.rs:158-174 | updates without an acceptable commitment change nothing |
| `ConductorState.UpdatesKeepAcceptable` | crates/astria-conductor/src/state.rs:158-174 | over any accepted or rejected updates the session stays and the enabled numbers keep their heights |
| `ConductorState.AccessorsDoNotPanic` | crates/astria-conductor/src/state.rs:57-94 | in every state reachable under one commit level the firm and soft numbers that level enables have heights and the stop height does not panic; a next expected height panics exactly where it would pass the largest height |
| `ConductorState.PoppedBlocksContinueSoft` | crates/astria-conductor/src/state.rs:407-462 | a cache started at the next expected soft height is never rejected, and its k-th block maps back to soft + 1 + k, or to nothing exactly when that does not fit |
| `RestartingStreams.RestartingStream.PollNext` | crates/astria-auctioneer/src/streaming_utils.rs:111-151 | one poll; nothing is polled after it is done and opening and running are never both set |
| `RestartingStreams.RunKeepsInvariant` | crates/astria-auctioneer/src/streaming_utils.rs:73-151 | after any number of polls, what was put out followed by what is held back is the concatenation of the streams opened; all earlier openings succeeded |
| `RestartingStreams.OutputsArePrefix` | crates/astria-auctioneer/src/streaming_utils.rs:111-151 | the output is a prefix of the concatenation and contains all of every stream but the last opened |
| `RestartingStreams.EndsAfterFailure` | crates/astria-auctioneer/src/streaming_utils.rs:124-127 | a poll answers with the end exactly after the one failed opening, whose error was put out once and last |
| `RestartingStreams.EndIsFinal` | crates/astria-auctioneer/src/streaming_utils.rs:150 | after the end every poll answers with the end and nothing more is put out |
| `RestartingStreams.StreamsRunInFull` | crates/astria-auctioneer/src/streaming_utils.rs:130-148 | as long as openings succeed, after exactly the polls that the first n streams take all their items are out and opening n + 1 starts |
| `RestartingStreams.FailureIsReported` | crates/astria-auctioneer/src/streaming_utils.rs:124-150 | when opening n fails after n successful ones, after exactly the polls that they and the failing opening take its error is the last output, and the next answer is the end |

## Left out

- The typestate builders `Audit` and `LeafBuilder` of `audit.rs`: they only carry a proof, a leaf hash and a root to the functions modelled here.
- SHA-256 itself, serialization, and the `Display` and `Error` implementations.
- `Proof::unchecked_from_parts` and deserialized proofs: reconstruction is modelled for any proof value, so they need nothing of their own.
- `BlockCache::next_block`: a future that is always ready with `pop`.
- The generic block type of the cache: blocks are a height and a payload.
- Tokio watch channels and change notification: the watched state is one mutable field.
- The fields of the conductor state that no mapping reads (hashes, chain names, Celestia heights) and their getters.
- Whether a restarting stream wakes its task: only the answers to polls are modelled.
- `make_instrumented_channel`, the auctioneer, composer, relayer and withdrawer services: plumbing around foreign libraries.
- The executor's decisions on soft and firm blocks: they compare the heights modelled here and call an external service.
