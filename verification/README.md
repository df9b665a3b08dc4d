# A verified model of rs-merkle-tree

`rs-merkle-tree` keeps an append-only Merkle tree of fixed depth and stores every node of it.
A batch of leaves is added level by level: the new leaves are one contiguous run at level 0, that
run pairs up into one run at level 1, and so on up to the root. Nothing is ever rebuilt. `root`,
`proof` and `verify_proof` then read the stored nodes.

This project models the tree, its hashers, the in-memory store and the flat file store, and proves
that they agree with the plain definition: the recursive hash of the leaf array padded with zero nodes.

## How it is laid out

| file | what it holds |
|---|---|
| `Words.dfy` | machine words, shifts, masks and xor digit by digit, and what they are in arithmetic |
| `Results.dfy`, `Nodes.dfy` | errors; the 32-byte node, its memory layout, its hexadecimal text and parser |
| `Hashing.dfy`, `ParallelHashing.dfy` | one hash, batches of hashes, and batches cut into parallel chunks |
| `Stores.dfy` | the contract behind the `Store` trait, on sequences of nodes |
| `MemoryStores.dfy`, `Files.dfy`, `FileStores.dfy`, `AnyStores.dfy` | the two stores as classes, ideal files, and a store that is either of the two |
| `MerkleSpec.dfy` | the specification: `NodeAt`, and the bottom-up recomputation the repository's own tests compare with |
| `LevelRuns.dfy`, `AppendRuns.dfy` | one level of an append; the whole append, and its proof |
| `HashCount.dfy` | how many hashes an append performs |
| `MerkleProofs.dfy` | completeness and binding of membership proofs |
| `MerkleTrees.dfy` | the tree itself, as a class with two scratch buffers |
| `Histories.dfy` | whole histories of batches, refusals and reopens, on both stores |

`dafny verify dfyconfig.toml` checks everything.

## Main results

* **The tree is the padded tree, after every history.** From an empty store, whatever batches are offered,
  accepted or refused, level `l` holds exactly ceil(n / 2^l) nodes, each the recursive hash of its subtree,
  and the root is the root of the padded leaf array (`Histories.StoredAfterHistory`). `AddLeaves`, with its
  packed fetch, scratch buffers and swap, is proved to keep this (`MerkleTrees.MerkleTree.AddLeaves`).
* **Batching and reopening cannot be observed** (`Histories.BatchingIsUnobservable`), nor can the choice of store
  (`Histories.SameOnBothStores`, `AnyStores.RunOnBoth`).
* **Append-only**: a node over a complete subtree never changes again (`Histories.CompleteNodesNeverChange`).
* **Exact outcome**: `AddLeaves` fails exactly when the batch does not fit, with `TreeFull`, and then changes neither the store nor the buffers.
  The tree's own index and length checks, every `put` and every sum of its `u64` arithmetic are shown to succeed on the way.
* **Proofs are complete and binding**: every index below 2^DEPTH gets an accepted proof; two accepted proofs for
  one index and root are equal, or the walk down their paths returns two different inputs with one hash. Where two padded
  leaf arrays under equal roots differ, the same walk, at the first position of difference, returns such inputs
  (`MerkleProofs.RootBinds`). The padded array, in turn, fixes the leaf list up to trailing zero leaves and no further
  (`MerkleSpec.SamePadding`). The hash is an arbitrary function throughout.
* **Hash count**: the exact number of hashes of a call, and from it the bounds that hold.
* **Stores**: the file store, on raw bytes and with a torn tail allowed, and the memory store refine one contract. Each
  answer of a read is also stated by itself, on the stored vectors and on the bytes of the named file.
* **Down to bytes and characters**: the order of a hash's inputs, the zero node, byte positions, file names and hexadecimal
  digits are each fixed by a lemma that does not go through their own definition (`Hashing.Hasher.HashOne`,
  `Nodes.ZeroIsAllZeros`, `Nodes.ByteOfRun`, `Files.LevelFileNameIs`, `Nodes.DigitTables`).
* **Parallel hashing**: every interleaving of the chunk jobs, one hash at a time, gives the serial result.

## Where the code and its comments differ

The model follows the code.

* `src/tree.rs:99-100` promises at most `leaves + DEPTH` hashes for a call. A batch that fits costs exactly
  `k + DEPTH - 1 + ones(n) - ones(n + k - 1)` hashes, where `ones` counts binary ones, `n` is the old leaf count and
  `k > 0` the batch. So the promise holds for a call exactly when `ones(n) <= ones(n + k - 1) + 1`, and for all calls
  exactly when DEPTH is below 4. With two leaves placed across the middle of the tree the cost is `2 * DEPTH - 1`.
* `src/tree.rs:239` lets `leaf_idx == 2^DEPTH` through. That proof is accepted exactly when the root is the root of the empty tree;
  `MerkleProofs.RefusedAtCapacity` gives a tree for which it is refused.
* `src/stores/file_store.rs:45-46` relies on level files having no gaps. Where a directory does have a gap,
  `ensure_level` opens what lies beyond it with its contents (`FileStores.FileStore.Put` states this), and reopening
  finds the same levels exactly when no further level file lies next to the open ones. `FileStores.ReopenFindsMore` reaches
  such a directory with files for levels 0 and 2, a `put` at level 1, and a reopen.
* `src/node.rs:51-52` parses with `from_str_radix`, which takes a leading `+`. Printing what was parsed gives the digits
  back exactly when they hold no `+`; `Nodes.PlusIsNotPrintedBack` is a text for which it does not.

## Conventions

* A word is an integer with its range in its type, so that storing a sum in a `u64` is an overflow check. `usize` is 64 bits wide.
* `Batch` is a slice of at most (2^63 - 1) / 32 nodes, which is what Rust allows a slice to span.
* DEPTH is a field, between 1 and 63: `new` indexes `zero[DEPTH - 1]`, and `1 << DEPTH` has to fit a `u64`.
* A slice that is only read is passed as a sequence. A slice that is written is an array and its first index.
* The tree's methods are stated for a valid tree: its store holds the tree over its leaves. A new tree on an empty
  store is valid, a new tree on a reopened store is valid when the store held one, and every call keeps it so.
* A ghost result counts the hashes that were performed; each single hash reports itself to it.
* `hide` keeps definitions out of the larger proofs. The small lemmas that restate one definition serve those proofs.

## Model

| member | source | states |
|---|---|---|
| MerkleTrees.MerkleTree.AddLeaves | src/tree.rs:105-215 | fails with `TreeFull` exactly when old leaves plus batch exceed 2^DEPTH, and then store and scratch buffers are unchanged; otherwise the leaves are the old ones followed by the batch and every stored level is that of the tree over them, whatever the scratch buffers held; the number of hashes is `HashesOf`; the buffers grow only if the batch needs it, and stay in place otherwise |
| MerkleTrees.MerkleTree.CarryAll | src/tree.rs:172-212 | the loop over the levels: started with level 0 written, it ends with every level of the extended tree written, in either swap parity |
| MerkleTrees.MerkleTree.CarryLevel | src/tree.rs:177-211 | one iteration: the scratch slice read next is exactly the extended tree's run of the level above, it was stored there, the buffers are swapped, and the store accepted the run |
| MerkleTrees.MerkleTree.HashLevel | src/tree.rs:180-204 | head, pairs and tail together are the parents of the run, each slot written, one hash for each |
| MerkleTrees.MerkleTree.HashBody | src/tree.rs:196-204 | both the parallel and the in-line branch write the hash of each pair into its slot and leave all other slots alone |
| MerkleTrees.MerkleTree.GrowScratch | src/tree.rs:161-170 | both buffers reach the size and keep their stale contents; long enough ones are left in place |
| MerkleTrees.MerkleTree.PlanFetch | src/tree.rs:125-138 | the packed arrays hold exactly the levels whose run start is odd, with the index left of it |
| MerkleTrees.MerkleTree.FetchLeftPartners | src/tree.rs:128-150 | every slot holds the stored node left of its run, and none of the nodes that are needed is missing |
| MerkleTrees.MerkleTree.Scatter | src/tree.rs:143-150 | each fetched node lands in the slot of its level, all other slots stay zero |
| MerkleTrees.MerkleTree.ComputeZeros | src/tree.rs:74-84 | entry 0 is 32 zero bytes, each further entry up to and including DEPTH is the hash of the one before it with itself, left and right, and so entry `l` is the root of an empty subtree of height `l` |
| MerkleTrees.MerkleTree.constructor | src/tree.rs:74-91 | a new tree has the right zero nodes and leaves the store as it is |
| Nodes.ZeroIsAllZeros | src/node.rs:14-14 | the zero node is the one node whose 32 bytes are all 0 |
| MerkleTrees.MerkleTree.Root | src/tree.rs:217-225 | never fails, and is the root of the padded leaf array: for Keccak the digest of the left half's root followed by the right half's, for any other hasher its hash of the two in that order |
| MerkleTrees.MerkleTree.Proof | src/tree.rs:227-284 | an error exactly above 2^DEPTH; otherwise the index itself, the leaf that is there or 32 zero bytes, the current root, and at each level the other child of the parent on the path; below 2^DEPTH the proof is accepted |
| MerkleTrees.MerkleTree.SiblingsIn | src/tree.rs:269-273 | of what was fetched the first DEPTH entries become the siblings, a zero node of the right level for each that is absent |
| MerkleTrees.MerkleTree.PlanProof | src/tree.rs:251-264 | the level and index lists hold the other child at each level of the path, then the leaf |
| MerkleTrees.MerkleTree.VerifyProof | src/tree.rs:286-297 | the loop with its bit test accepts exactly when the fold of the path is the proof's root, and exactly when halving the index step by step, even to the left and odd to the right, leads there |
| MerkleProofs.AcceptsIsPathRoot | src/tree.rs:286-297 | testing the digits of the index and halving the index climb the same path |
| MerkleProofs.AcceptanceReadsLowDigits | src/tree.rs:286-297 | acceptance is the same for every index with the same remainder modulo 2^DEPTH |
| MerkleProofs.ProofOfHolds | src/tree.rs:246-283 | for every index a proof holds the leaf or 32 zero bytes, the root of the padded leaves, and the other child at each level of the path |
| MerkleTrees.MerkleTree.NumLeaves | src/tree.rs:299-301 | the number of leaves added |
| MerkleSpec.ReferenceRoot | src/tree.rs:417-430 | the bottom-up recomputation over the padded array is the recursive root |
| MerkleSpec.NodesFromBelow | src/tree.rs:417-430 | each node from the two below it, left before right, in bytes for Keccak; at the bottom the leaves, and 32 zero bytes past them |
| MerkleSpec.RootOverThree | src/tree.rs:417-430 | the Keccak root over three leaves written out as digests of bytes |
| MerkleSpec.ZerosFromBelow | src/tree.rs:77-84 | the zero nodes, from 32 zero bytes upwards |
| MerkleSpec.AbsentIsZero | src/tree.rs:140-142 | a node with no leaf under it is the zero node of its level |
| MerkleSpec.CompleteIsStable | src/tree.rs:140-150 | a complete subtree hashes the same after any append |
| MerkleSpec.CompleteMeansFull | src/tree.rs:125-127 | `i < n >> l` says that all 2^l leaves under node `i` are there |
| LevelRuns.PartsAreParents | src/tree.rs:180-204 | odd head, whole pairs and odd tail, put one after the other, are the parents of the run in order |
| AppendRuns.ChildIsNode | src/tree.rs:180-194 | each child that is hashed, fetched partner, run node or zero, is the node of the extended tree |
| AppendRuns.ParentRunIsRun | src/tree.rs:176-212 | the parents are exactly the extended tree's nodes from `n >> (l + 1)` to the ceiling of the new count |
| AppendRuns.SplicedRunIsLevel | src/tree.rs:206-207 | writing the run over the old level gives the level of the extended tree |
| AppendRuns.AppendRestCompletes | src/tree.rs:176-212 | from any level on, the rest of the append ends in the tree over the extended leaves |
| AppendRuns.AppendIsTree | src/tree.rs:105-215 | appending a batch to the tree over some leaves gives the tree over those leaves and the batch |
| AppendRuns.CompleteNodesSurvive | src/stores/file_store.rs:5-7 | a call never changes a stored node over a complete subtree |
| AppendRuns.OverwrittenNodes | src/tree.rs:152-159 | of the stored nodes of a level the run of a batch covers exactly the last one if 2^l does not divide the old count, and none otherwise |
| HashCount.ExactHashes | src/tree.rs:94-101 | the exact number of hashes of a batch that fits |
| HashCount.DocumentedBound | src/tree.rs:97-101 | the documented bound holds for a call exactly when the old count has at most one binary one more than the last new index |
| HashCount.DocumentedBoundForAllCalls | src/tree.rs:97-101 | the documented bound holds for all calls exactly when DEPTH is below 4 |
| HashCount.AtMost | src/tree.rs:97-101 | two leaves or more cost at most `k + 2 * DEPTH - 3` hashes |
| HashCount.AttainedAtTheMiddle | src/tree.rs:97-101 | that bound is attained by two leaves across the middle of the tree |
| HashCount.SingleLeafHashes | src/tree.rs:97-101 | a single leaf costs DEPTH hashes |
| HashCount.AtMostOnePathALeaf | src/tree.rs:97-101 | never more than `k * DEPTH` hashes |
| Histories.LargestBatchDecides | src/tree.rs:103-104 | after any history in memory the scratch buffers are as long as the largest accepted batch needs, and no longer |
| Histories.SmallerBatchFits | src/tree.rs:103-104 | a batch no larger than an earlier one makes no buffer grow |
| HashCount.ScratchSuffices | src/tree.rs:161-165 | no run above the leaves is longer than half the batch and one node |
| MerkleProofs.FoldIsNode | src/tree.rs:254-297 | after `j` steps the verifier holds node `index >> j` of level `j` |
| MerkleProofs.ProofsAreAccepted | src/tree.rs:227-297 | every index below 2^DEPTH, past the last leaf too, has an accepted proof with the right leaf and root |
| MerkleProofs.ProofAtCapacity | src/tree.rs:239-244 | the proof of index 2^DEPTH is accepted exactly when the root is that of the empty tree |
| MerkleProofs.RefusedAtCapacity | src/tree.rs:239-244 | a tree of height 1 whose proof of index 2 is refused |
| MerkleProofs.DifferenceCollides | src/tree.rs:286-297 | the highest step at which two paths to one hash differ is a collision; without one, leaf and siblings agree |
| MerkleProofs.ProofsBind | src/tree.rs:286-297 | two accepted proofs for one root and equal indices modulo 2^DEPTH are equal or give a collision |
| MerkleProofs.AcceptedCarriesTheLeaf | src/tree.rs:286-297 | an accepted proof against the tree's root carries the leaf really there, or gives a collision |
| MerkleProofs.RootBindsPosition | src/tree.rs:286-297 | under equal roots the padded leaves at an index agree, or the two paths to it collide |
| MerkleProofs.FirstDifference | src/tree.rs:420-424 | the first position where two padded leaf arrays differ, or none and they are equal |
| MerkleProofs.RootBinds | src/tree.rs:286-297 | where two padded leaf arrays under equal roots differ, the paths to that position collide at the step that is returned |
| MerkleSpec.SamePadding | src/tree.rs:420-424 | two lists that fit have equal padded arrays exactly when the longer is the shorter followed by zeros |
| MerkleSpec.SamePaddingSameNodes | src/tree.rs:420-429 | lists with equal padded arrays have the same node at every level and index, the root included |
| MerkleSpec.ZeroLeafKeepsRoot | src/tree.rs:420-429 | a further zero leaf leaves the root as it is |
| Histories.HistoryIsTree | src/tree.rs:431-458 | every history of accepted and refused batches and reopens ends in the tree over the leaves that were kept |
| Histories.StoredAfterHistory | src/tree.rs:105-225 | level `l` holds ceil(n / 2^l) nodes, each the hash of its padded subtree, and the root is the padded root |
| Histories.BatchingIsUnobservable | src/tree.rs:488-526 | any two ways of cutting the same leaves give the same stored nodes at every level |
| Histories.AppendTwice | src/tree.rs:488-526 | appending twice is appending both batches at once |
| Histories.CompleteNodesNeverChange | src/stores/file_store.rs:5-7 | once complete, a stored node is the same after any further history |
| Histories.RunOnMemory | src/tree.rs:446-451 | a tree on the memory store follows the history |
| Histories.RunOnFiles | tests/tree.rs:73-125 | a tree on the file store follows the history, with store and tree dropped and reopened at any points |
| Histories.SameOnBothStores | tests/tree.rs:73-125 | root and proofs are the same on memory and on files, and the root is the padded root |
| Stores.LookupAfterPut | src/stores/store.rs:12-21 | a read after a `put` gives the run inside it and what was there before outside it; a refused run adds the missing levels too |
| Stores.LookupIs | src/stores/store.rs:12-16 | a read finds a node exactly when it lies at that level and index |
| MemoryStores.MemoryStore.Get | src/stores/memory_store.rs:21-39 | answer `k` is the node at level `k` and index `k` of the request, `None` outside the stored prefix, whatever else is requested; unequal lengths are an error that names both |
| MemoryStores.MemoryStore.Put | src/stores/memory_store.rs:41-67 | a run is spliced in, over the tail, past the end or both; refused is exactly a run that would leave a hole, after missing levels were made |
| MemoryStores.MemoryStore.GetNumLeaves | src/stores/memory_store.rs:69-71 | the length of level 0, or zero |
| Files.LevelFileNameIs | src/stores/file_store.rs:31-33 | the file name of a level, character by character: `level_` and three digits below 1000, all digits above |
| Files.LevelFileNamesDiffer | src/stores/file_store.rs:31-33 | different levels have different file names |
| Files.LevelsAreBounded | src/stores/file_store.rs:45-64 | probing ends: a directory holds no more level files than files |
| Files.ByteAfterWrite | src/stores/file_store.rs:139-141 | each byte and the length of a file after a positional write |
| Files.RecordsAfterWrite | src/stores/file_store.rs:139-142 | a positional write of a run, torn tail or not, splices it into the whole records of the file |
| Files.LevelsAfterWrite | src/stores/file_store.rs:139-142 | a write to one level file changes that level as the contract says, and no other |
| Files.OffsetsFit | src/stores/file_store.rs:110-142 | while a file's length fits a `u64`, so do the byte offset and the new count of a run that starts inside its records |
| FileStores.ReopenFindsMore | src/stores/file_store.rs:45-64 | a directory with a gap, reached by opening and one `put`, in which a reopened store has one level more, all that probing finds |
| Files.ReopenFindsTheSame | src/stores/file_store.rs:45-64 | reopening finds the same levels exactly when no further level file lies next to them |
| FileStores.FileStore.constructor | src/stores/file_store.rs:37-67 | opens exactly the levels before the first missing file, none exactly when `level_000` is missing, with counts that are the whole records of each |
| FileStores.FileStore.EnsureLevel | src/stores/file_store.rs:70-85 | every level up to the one asked for is open, under its own name, contents as they were, new files empty, no other file made |
| FileStores.FileStore.Get | src/stores/file_store.rs:89-115 | answer `k` is the record at index `k` of the request in the file of level `k`, as bytes, and `None` past the whole records or the open levels; unequal lengths are an error that names both; read offsets fit a `u64` when file lengths do |
| FileStores.FileStore.Put | src/stores/file_store.rs:124-145 | the level's file is the old one with the run's bytes written at 32 times the start, or is unchanged when the start lies past its whole records, which is the one refusal; no other file's contents change; counts stay file length divided by 32; the levels change as the contract says, in a directory with gaps too; offset and new count fit a `u64` when file lengths do |
| FileStores.FileStore.WriteRun | src/stores/file_store.rs:132-142 | the write itself: the whole directory after it, count and refusal, with its offset and new count fitting a `u64` when file lengths do |
| FileStores.FileStore.GetNumLeaves | src/stores/file_store.rs:147-149 | the whole records of `level_000`, which are the nodes of level 0, or zero |
| AnyStores.Reopen | src/stores/file_store.rs:37-67 | after any calls a store rebuilt from its directory holds the same nodes |
| AnyStores.RunOnBoth | tests/store.rs:71-98 | any sequence of calls, reopens among them, gets the same replies from both stores and leaves them with the same nodes |
| Hashing.Hasher.HashOne | src/hasher.rs:9-9 | for Keccak the digest of the left bytes followed by the right, for any other hasher its hash of left and right in that order; counted as one |
| Hashing.Hasher.HashMessage | src/hasher.rs:40-45 | the message buffer holds left then right, and the result is its digest |
| Hashing.Hasher.HashPairs | src/hasher.rs:8-20 | whichever body the hasher has, each slot gets the hash of its pair, left node first, and all other slots stay |
| Hashing.Hasher.HashPairsOneByOne | src/hasher.rs:15-20 | each slot gets the hash of its pair, all other slots stay |
| Hashing.Hasher.HashPairsStaged | src/hasher.rs:47-69 | staging in groups of eight, short last group included, writes the same hashes, one for each pair |
| Hashing.Hasher.Stage | src/hasher.rs:52-57 | each staged message is the left node's bytes followed by the right node's |
| ParallelHashing.AnyScheduleHashesAll | src/tree.rs:197-201 | every interleaving of the chunk jobs that completes them gives the serial result and touches nothing else |
| ParallelHashing.SomeScheduleFinishes | src/tree.rs:197-201 | from every state the jobs can complete, in as many steps as hashes are left |
| ParallelHashing.ChunksPartition | src/tree.rs:198-200 | every position lies in exactly one chunk |
| ParallelHashing.ParHashPairs | src/tree.rs:197-201 | chunk jobs taken in any order write the hash of each pair and nothing else, one hash for each pair |
| Nodes.AsBytesOfPair | src/node.rs:16-28 | the bytes of a pair are the left node's followed by the right node's |
| Nodes.ByteOfRun | src/node.rs:16-28 | byte `j` of node `i` lies at `32 * i + j` of a run's bytes |
| Nodes.ByteOfRecord | src/stores/file_store.rs:108-112 | byte `j` of record `i` is read from `32 * i + j` |
| Nodes.SliceLimit | src/node.rs:23-28 | a batch is a run of fewer than 2^63 bytes |
| Nodes.RecordOfRun | src/node.rs:16-28 | record `i` of a run's bytes is node `i` |
| Nodes.TryFrom | src/node.rs:40-57 | accepted are exactly 64 characters after an optional `0x`, hexadecimal digits or a `+` for a high digit; byte `i` is what characters `2i` and `2i + 1` spell in the digit tables; the length error is for any other length in bytes, the digit error for the rest |
| Nodes.DigitTables | src/node.rs:51-73 | printed digits are those of `0123456789abcdef`; parsed digits are those and their upper-case forms, with the same values |
| Nodes.PrefixIsDropped | src/node.rs:41-41 | one `0x` is dropped whatever follows it, any other text stays |
| Nodes.Utf8LenOfConcat | src/node.rs:43-45 | lengths in bytes add up |
| Nodes.Utf8LenOfOne | src/node.rs:43-45 | a character takes one to four bytes |
| Nodes.AcceptedShape | src/node.rs:40-57 | accepted are exactly 64 characters after an optional `0x`, digits or a `+` at an even place |
| Nodes.ParseOfDisplay | src/node.rs:66-77 | parsing a node's text, with or without the prefix, gives the node |
| Nodes.DisplayedDigits | src/node.rs:66-77 | 66 characters: `0x`, then the two table digits of each byte, high digit first |
| Nodes.LowerTable | src/node.rs:66-77 | the lower-case form of a digit is the digit of the first table with its value |
| Nodes.PlusIsNotPrintedBack | src/node.rs:40-77 | an accepted text with a `+` that is printed differently |
| Nodes.DisplayOfParse | src/node.rs:40-77 | printing a parsed text gives its lower-case digits exactly when it holds no `+` |
| Words.AndBits | src/tree.rs:133-133 | the mask keeps the digits both words have |
| Words.XorBits | src/tree.rs:256-256 | the xor keeps the digits in which the words differ |
| Words.ShrBits | src/tree.rs:132-132 | the shift moves digits down |
| Words.AndShlOne | src/tree.rs:289-289 | `index & (1 << j)` tests the parity after `j` shifts |
| Words.ShrIsDivision | src/tree.rs:132-132 | a shift by `k` divides by 2^k, rounding down |
| Words.BitIsParity | src/tree.rs:132-133 | digit `k` of a word is the parity of the word divided by 2^k |
| Words.WordSizes | src/tree.rs:118-121 | words have 32 and 64 digits, and `1 << d` fits a `u64` exactly for `d` below 64 |

## Left out

- The SQLite, RocksDB and sled stores: what is not in the engines is key layout and query text.
- The digests themselves (Keccak, Poseidon), vector instructions and field ranges: a hash is an arbitrary function of two nodes.
- I/O failures, partial writes and crashes: a directory is a map from names to growable byte sequences, an open handle is a name, and nothing removes or renames files.
- Two stores open on one directory at the same time: each store's contract speaks of a directory that only it writes.
- The Rayon thread pool: what remains of it is the cut into chunks and an arbitrary order of steps.
- `Node::random`, error texts, feature flags, benchmarks and disk sizes.
- DEPTH 0 and DEPTH of 64 or more, which the shifts and the array of zeros do not support.
- FileStores.FileStore.Put: a write that would take a file to 2^64 bytes or more, an I/O error in the source, succeeds in the model; the word arithmetic is shown to fit for every shorter file.
- MemoryStores.MemoryStore.Put: running out of memory is not modelled.
- Hashing.Hasher.DigestMany: stands for the library's batch digest, which is taken to digest each message on its own.
- ParallelHashing.ParHashPairs: runs each chunk job as a whole in an arbitrary order; finer interleavings are covered by `AnyScheduleHashesAll`.
