# Exochain verification model

A Dafny model of the authenticated data structures, protocols, clocks, searches and
policies of Exochain, with proofs of what they promise. Each module follows one source
file (two where a file only makes sense with its neighbour). `dafny verify dfyconfig.toml`
checks the whole project.

| file | models |
|---|---|
| `Basics.dfy` | digests, DIDs, timestamps, powers of two |
| `Mmr.dfy` | Merkle Mountain Range: level-order peaks, merging append, proofs |
| `Smt.dfy` | sparse Merkle tree: pruned root, key and bit conversion, inclusion and absence proofs |
| `BinaryMerkle.dfy` | binary Merkle root and proof with odd-node duplication |
| `Dag.dfy` | append-only DAG: append, ancestors (breadth-first search and Kahn's sort), tips, node verification |
| `DagStore.dfy` | validated append to a node store, stored integrity |
| `Consensus.dfy` | one voting replica as a step machine; any number of replicas side by side |
| `Hlc.dfy` | hybrid logical clock; any number of clocks exchanging timestamps |
| `Delegation.dfy` | delegation registry with two indexes, reachability and path search, authority chains |
| `Combinator.dfy` | combinator language and its reduction engine |
| `Bcts.dfy` | transaction lifecycle with a hash-chained history |
| `PeerSelection.dfy` | round-robin peer selection across autonomous systems, peer rotation |
| `Consent.dfy` | consent policy evaluation over time, consent gate |
| `HashWitness.dfy` | explicit hash functions that meet the collision-free hypotheses |

## How to read it

Code that updates state is a class or a method with loops; its contract ties the new state
to a function of the old one, and the theorems are lemmas about those functions. Invariants
of "every run" are either `Valid()` predicates that a constructor establishes and every
method keeps, or lemmas about all event lists (`Consensus.Execute`, `DagStore.StoreAfter`,
`Hlc.Stamp`).

Hash functions are fields of a `Hasher` value, so a theorem without a hypothesis about the
hasher holds for every hash function. Soundness theorems name the hypothesis
`CollisionFree(h)`: injective, with disjoint ranges where the source separates domains by
prefixes. Digests are unbounded, so the hypothesis can be met; `HashWitness.dfy` exhibits
functions for every such hypothesis. Signature checks are function parameters, wall
clocks are arguments, and error texts are dropped.

## Where code and documentation differ

The model follows the code.

- `HybridClock::now` and `update` are documented as strictly increasing. They saturate their
  32-bit counter: `Hlc.SaturatedClockRepeats` is a run that yields one timestamp twice,
  `Hlc.NowStrictExactly` and `Hlc.UpdateStrictExactly` give the exact condition.
- Parallel branches are documented as order-independent. Every branch output carries the
  untouched input fields and overwrites earlier branches; `Combinator.OrderMatters` is an
  input where the order shows in the fields, `Combinator.CheckpointOrderMatters` one where it
  shows in the checkpoint, `Combinator.ParallelOrderExactly` the exact condition for the whole
  outcome.
- A guard's key is documented as one that must exist and be truthy. Any value passes when none
  is expected (`Combinator.GuardOnPresence`).
- Splicing a nested `Sequence` into its parent is not always neutral: an empty last sequence
  forgets the checkpoint (`Combinator.SpliceForgetsCheckpoint`; exactly then,
  `Combinator.SpliceExactly`).
- The MMR proof is described as a proof for a position. The verifier takes the peak from the
  proof, so a proof is accepted for every position with the same remainder modulo the peak's
  width (`Mmr.OtherPositionsAccepted`, `Mmr.WrongPositionAccepted`). An accepted proof speaks
  of its position exactly when the peak it names holds that position
  (`Mmr.SpeaksOfPositionExactly`). A caller who knows the length can check this, and then
  positions are bound (`Mmr.CheckedPositionIsBound`).
- `verify_merkle_proof` does not know the tree height or the number of leaves, so inner nodes
  pass as leaves of shorter proofs and a leaf that is itself a hash can be opened further
  (`BinaryMerkle.LengthMatters`); `BinaryMerkle.AcceptedExactly` says for every proof length
  what is accepted. Lists of different length can share a root;
  `BinaryMerkle.RootBinds` says exactly when.
- `validated_append` does not recompute the node's hash. A node that reuses a stored hash can
  leave a child older than its parent (`DagStore.ReusedHashBreaksCausality`);
  `DagStore.AppendCausalExactly` gives the exact condition.
- `rotate_peers` is documented to evict stale peers, but it does not remove them from the
  candidates. `PeerSelection.EvictedPeerReturns` is a rotation whose evicted peer comes straight
  back, `PeerSelection.EvictedPeerStaysAway` one whose evicted peer is offered and not taken,
  and `PeerSelection.EvictionFailsExactly` the exact condition.
- `max_peers_per_asn` is documented as the most peers allowed from one autonomous system.
  `rotate_peers` applies it to the replacements alone: `PeerSelection.RotationExceedsCap` is an
  input that leaves the cap, `PeerSelection.RotationWithinCapExactly` the exact condition.
- Transaction transitions are described as ordered by a hybrid logical clock, but `transition`
  takes any clock. One clock orders them (`Bcts.OneClockOrders`); a second one can take the
  log back in time while the receipt chain verifies (`Bcts.SecondClockGoesBack`);
  `Bcts.StaysOrderedExactly` is the exact condition.

## Model

| member | source | states |
|---|---|---|
| Mmr.CopySubtree | crates/exo-dag/src/mmr.rs:112-124 | the recursive in-place copy puts entry j of the source subtree at the one corresponding entry of the destination and changes nothing else |
| Mmr.Merge | crates/exo-dag/src/mmr.rs:89-110 | merging two peaks of equal height gives the level-order Merkle tree over both leaf lists in order |
| Mmr.ProofPath | crates/exo-dag/src/mmr.rs:127-153 | the index loop collects exactly the siblings on the way from the leaf to the root |
| Mmr.MerkleMountainRange.Append | crates/exo-dag/src/mmr.rs:189-211 | appends one leaf and keeps the invariant: peaks of strictly decreasing height that partition the leaves, each a level-order Merkle tree of its slice |
| Mmr.MerkleMountainRange.Root | crates/exo-dag/src/mmr.rs:214-217 | a range of 2^d leaves has the root of the perfect tree over them, an empty range the empty hash, any other the bag of the perfect trees of the greedy power-of-two split |
| Mmr.RootMeans | crates/exo-dag/src/mmr.rs:28-41 | what bagging yields: the empty hash, the single perfect tree when the leaves fill one, the bag hash of all peaks otherwise |
| Mmr.MerkleMountainRange.Prove | crates/exo-dag/src/mmr.rs:220-250 | for every position in range the proof is accepted against the root; out of range it is the empty proof; the proof names the peak that holds the position |
| Mmr.VerifyProof | crates/exo-dag/src/mmr.rs:253-284 | the loop decides acceptance: climb from the recovered local index reaches the named peak and the peaks bag to the root |
| Mmr.HeightsAreBits | crates/exo-dag/src/mmr.rs:161-166 | the peak heights are exactly the set bits of the length, highest first |
| Mmr.PeaksAreReference | crates/exo-dag/src/mmr.rs:89-110 | the merging array code computes the recursively defined perfect-tree roots of the greedy split |
| Mmr.LocalIndex | crates/exo-dag/src/mmr.rs:264-265 | position modulo 2^height is the position minus the leaves before the peak |
| Mmr.ProofsAreAccepted | crates/exo-dag/src/mmr.rs:220-284 | round trip: in every well-formed range the proof of every position verifies, for every hash function |
| Mmr.AcceptedExactly | crates/exo-dag/src/mmr.rs:253-284 | collision-free: a proof is accepted if and only if it carries the true peaks, the true sibling path of the named peak's leaf at position modulo 2^height, and that stored leaf |
| Mmr.OtherPositionsAccepted | crates/exo-dag/src/mmr.rs:261-266 | the proof of a position is accepted for every position with the same remainder modulo the peak's width |
| Mmr.WrongPositionAccepted | crates/exo-dag/src/mmr.rs:253-284 | in every range of three leaves the last leaf is accepted at position 0 |
| Mmr.SpeaksOfPositionExactly | crates/exo-dag/src/mmr.rs:253-284 | the leaf an accepted proof names stands at the given position if and only if the named peak holds that position |
| Mmr.HoldsIsInPeak | crates/exo-dag/src/mmr.rs:230-240 | whether a peak holds a position can be told from the length alone |
| Mmr.CheckedPositionIsBound | crates/exo-dag/src/mmr.rs:253-284 | a leaf has an accepted proof at a position whose named peak holds the position if and only if it is the leaf stored there |
| Mmr.RootBinds | crates/exo-dag/src/mmr.rs:214-217 | collision-free: two ranges of any lengths with the same root hold the same leaves in the same order |
| Smt.BitsToKey | crates/exo-dag/src/smt.rs:49-62 | the loop writes exactly the given bits, ignoring those past the key width |
| Smt.KeyRoundTrip | crates/exo-dag/src/smt.rs:43-62 | bit extraction and bits_to_key are inverse to each other |
| Smt.ComputeDefaultHash | crates/exo-dag/src/smt.rs:18-27 | the loop computes the hash of an empty subtree of the level |
| Smt.SearchPrefix | crates/exo-dag/src/smt.rs:143-157 | the nested loops decide whether some stored key has the prefix |
| Smt.PrunedIsFull | crates/exo-dag/src/smt.rs:117-141 | the pruned node hash equals the hash of the unpruned full tree at every position |
| Smt.RootIsFull | crates/exo-dag/src/smt.rs:98-104 | the root, also of the empty tree, is the full tree's root |
| Smt.SparseMerkleTree.Insert | crates/exo-dag/src/smt.rs:174-180 | an empty value is refused and changes nothing; otherwise exactly the key is set and the new root is returned |
| Smt.SparseMerkleTree.Prove | crates/exo-dag/src/smt.rs:189-201 | one true sibling per level, and the result is accepted for the stored value or absence |
| Smt.VerifyProof | crates/exo-dag/src/smt.rs:204-229 | the loop decides acceptance by climbing the key's bits from the leaf |
| Smt.ProofsAreAccepted | crates/exo-dag/src/smt.rs:159-229 | completeness: the proof of every key, present or absent, is accepted, for every hash function |
| Smt.AcceptedExactly | crates/exo-dag/src/smt.rs:204-229 | collision-free: accepted if and only if the value (or absence) is the stored one and the siblings are the tree's own |
| Smt.RootBinds | crates/exo-dag/src/smt.rs:98-141 | collision-free: equal roots mean equal maps |
| BinaryMerkle.MerkleRoot | crates/exo-core/src/hash.rs:40-65 | the loops compute the recursive level-by-level root |
| BinaryMerkle.MerkleProof | crates/exo-core/src/hash.rs:76-109 | the padding loops produce the sibling path of the index; an index out of range is an error |
| BinaryMerkle.VerifyMerkleProof | crates/exo-core/src/hash.rs:117-136 | the loop decides acceptance |
| BinaryMerkle.PaddedLevel | crates/exo-core/src/hash.rs:90-105 | pushing a duplicate onto an odd level and pairing the last node with itself give the same next level and siblings |
| BinaryMerkle.ProofsAreAccepted | crates/exo-core/src/hash.rs:40-136 | agreement of the two loops: the proof of every leaf verifies against the root |
| BinaryMerkle.AcceptedExactly | crates/exo-core/src/hash.rs:117-136 | injective pairing, every list, index and proof: a proof of at most full height is accepted if and only if it is the true path of the true node of the level it is high enough for (the leaf itself at full height); a longer one if and only if its surplus climbs to a leaf whose true path the rest is |
| BinaryMerkle.RootBinds | crates/exo-core/src/hash.rs:40-65 | injective pairing, lists of any two lengths: equal roots if and only if the levels at the smaller height are equal with all odd-node duplications written out |
| BinaryMerkle.SameLengthBinds | crates/exo-core/src/hash.rs:40-65 | injective pairing: lists of equal length have equal roots if and only if they are equal |
| BinaryMerkle.LengthMatters | crates/exo-core/src/hash.rs:40-136 | concrete inputs: two lengths with one root, an inner node accepted as a leaf, a leaf opened further |
| BinaryMerkle.OddDuplication | crates/exo-core/src/hash.rs:53-59 | duplicating the last leaf of any odd list of three or more keeps the root |
| Dag.HybridClock.Tick | crates/exo-dag/src/dag.rs:40-43 | a tick strictly advances the clock by one logical step |
| Dag.HybridClock.Advance | crates/exo-dag/src/dag.rs:46-51 | advancing reaches at least the given time and is strictly later |
| Dag.Dag.Append | crates/exo-dag/src/dag.rs:135-188 | keeps the history invariant; answers, in this order, empty parents, the first missing parent, the existing hash, or adds exactly the canonical signed node with sorted, deduplicated parents; a refusal changes neither nodes nor index, and the clock has ticked once exactly when the parents were accepted |
| Dag.Dag.AddToParents | crates/exo-dag/src/dag.rs:177-183 | the child is added under each parent and nowhere else |
| Dag.OneGenesis | crates/exo-dag/src/dag.rs:143-146 | in every history only the first node has no parents, and it is an ancestor of every other node |
| Dag.NoCycles | crates/exo-dag/src/dag.rs:148-153 | no node is its own ancestor |
| Dag.InverseGrows | crates/exo-dag/src/dag.rs:177-186 | the children index stays the exact inverse of the parent lists |
| Dag.ReachableParents | crates/exo-dag/src/dag.rs:197-217 | breadth-first search visits exactly the nodes reachable through parent edges, and ends |
| Dag.BuildEdges | crates/exo-dag/src/dag.rs:224-247 | in-degrees count parents inside the set; adjacency lists children inside the set, once each |
| Dag.Release | crates/exo-dag/src/dag.rs:261-269 | every neighbour loses one degree and exactly those that reach zero are released |
| Dag.KahnStep | crates/exo-dag/src/dag.rs:258-272 | emitting a hash keeps: emitted and queued are exactly the hashes with no unemitted parent, each once, parents first |
| Dag.AllReleased | crates/exo-dag/src/dag.rs:258-273 | by acyclicity, a set that contains whatever it releases contains every hash |
| Dag.TopologicalSort | crates/exo-dag/src/dag.rs:224-273 | every given hash exactly once, every parent before its child; the order is Kahn's, a function of the nodes and the set alone, by position of the last parent and then by hash |
| Dag.OrderUnique | crates/exo-dag/src/dag.rs:224-273 | deterministic ordering: parents first, last parent's position, then hash leave exactly one list |
| Dag.Dag.Ancestors | crates/exo-dag/src/dag.rs:197-221 | exactly the ancestors, each once, every parent before its child; the order is a function of the nodes and the hash alone, by position of the last parent and then by hash |
| Dag.Dag.Tips | crates/exo-dag/src/dag.rs:276-289 | ascending list of exactly the nodes no node names as parent; nonempty unless the DAG is empty |
| Dag.Dag.VerifyNode | crates/exo-dag/src/dag.rs:292-336 | accepts exactly nodes with ascending present parents, canonical hash and valid signature; the cycle check never fires; a failure is a missing parent (the first one) exactly when form and hash are right and a parent is missing |
| Dag.AppendedVerifies | crates/exo-dag/src/dag.rs:135-188 | an appended node verifies if and only if the verifier accepts the signature on its hash |
| DagStore.MemoryStore.PutNode | crates/exo-dag/src/store.rs:70-78 | stores the node and lists it under each parent |
| DagStore.MemoryStore.ValidatedAppend | crates/exo-dag/src/append.rs:34-69 | skew, parent and causality checks in order, then put; a refused node changes nothing |
| DagStore.MemoryStore.VerifyStoredIntegrity | crates/exo-dag/src/append.rs:77-99 | reports whether parents are present and the hash recomputes; an unknown hash is an error |
| DagStore.AcceptedParents | crates/exo-dag/src/append.rs:53-66 | the parent loop passes if and only if every parent is stored and strictly older |
| DagStore.AcceptedExactly | crates/exo-dag/src/append.rs:34-72 | accepted if and only if at most 500 ms ahead of the wall clock with all parents stored and older; clock skew is reported exactly beyond that |
| DagStore.FirstBadParent | crates/exo-dag/src/append.rs:54-69 | within the skew the first parent that is missing or not older gives the error |
| DagStore.RunsAreTimely | crates/exo-dag/src/append.rs:34-72 | in every run each stored node was appended when it was at most 500 ms ahead |
| DagStore.AppendCausalExactly | crates/exo-dag/src/append.rs:53-68 | an accepted append keeps the store causal if and only if the node is not its own parent and is older than every stored child of its hash |
| DagStore.ReusedHashBreaksCausality | crates/exo-dag/src/append.rs:34-69 | a concrete accepted run after which a child is older than its parent |
| DagStore.RunsAreCausal | crates/exo-dag/src/append.rs:34-69 | collision-free, canonical hashes: in every run each parent is stored and strictly older than its child, re-appends included |
| DagStore.AncestorsAreOlder | crates/exo-dag/src/append.rs:59-65 | timestamps strictly increase along every ancestor path, so there is no cycle |
| DagStore.IntegrityExactly | crates/exo-dag/src/append.rs:77-99 | in every run whatsoever a stored node verifies if and only if it carries its canonical hash |
| DagStore.CanonicalRunsAreIntact | crates/exo-dag/src/append.rs:77-99 | in every run of canonical nodes every stored node verifies |
| DagStore.CanonicalRunChildren | crates/exo-dag/src/store.rs:70-78 | collision-free, canonical hashes: in every run the child lists name exactly the children |
| DagStore.CanonicalRunTips | crates/exo-dag/src/store.rs:84-93 | in every such run the tips are exactly the nodes no stored node names as parent, and a nonempty store has one |
| Consensus.QuorumBounds | crates/exo-dag/src/consensus.rs:36-54 | the quorum never exceeds n minus the fault tolerance, and two quorums overlap in more than the fault tolerance; the tolerance is the largest number below a third, the quorum the smallest above two thirds |
| Consensus.ConsensusState.Propose | crates/exo-dag/src/consensus.rs:138-157 | a validator's proposal opens an empty ballot without disturbing votes; others are refused |
| Consensus.ConsensusState.Vote | crates/exo-dag/src/consensus.rs:160-191 | exact acceptance conditions; an accepted vote is counted once under its round and node |
| Consensus.ConsensusState.TryCommit | crates/exo-dag/src/consensus.rs:195-214 | a certificate exactly when the current round's votes for the node reach a positive quorum |
| Consensus.StepKeepsCount | crates/exo-dag/src/consensus.rs:138-221 | every step keeps: counted votes are by validators for that round and node, and no validator counts twice in a round |
| Consensus.RunsAreConsistent | crates/exo-dag/src/consensus.rs:138-221 | in every run of any number of replicas every certificate is backed by still-recorded votes of its replica |
| Consensus.RunsRecordCommits | crates/exo-dag/src/consensus.rs:217-227 | in every run a replica's committed list is the nodes of the certificates it committed, in order, and a node is finalized by the last certificate that names it, and only then |
| Consensus.RunsReflect | crates/exo-dag/src/consensus.rs:132-190 | in every run a replica counts exactly each validator's first vote per round cast while it stands in that round, holds ballots exactly for proposed and voted nodes, and stands in the round it has advanced to |
| Consensus.RefusalsMean | crates/exo-dag/src/consensus.rs:160-180 | why a vote is refused, in terms of the run: not a validator, else not in the replica's round, else the validator has voted in it already |
| Consensus.ConsensusState.IsFinalized | crates/exo-dag/src/consensus.rs:225-227 | a node is finalized if and only if a certificate is recorded for it |
| Consensus.NoQuorum | crates/exo-dag/src/consensus.rs:36-54 | without validators the tolerance is zero and nothing can be committed |
| Consensus.CertificateHasQuorum | crates/exo-dag/src/consensus.rs:195-214 | a certificate carries at least a quorum of distinct validator voters for its round and node |
| Consensus.AgreementWithinMargin | crates/exo-dag/src/consensus.rs:138-221 | any configuration: if fewer than twice the quorum minus the number of validators vote for different nodes in a round, all certificates of the round at all replicas name one node |
| Consensus.Agreement | crates/exo-dag/src/consensus.rs:36-54 | in particular if at most the configured fault tolerance do |
| Consensus.MarginIsTight | crates/exo-dag/src/consensus.rs:138-221 | the bound is tight: for any validators that make it up there is a run of two replicas in which only they equivocate and one round certifies two nodes |
| Hlc.HybridClock.Now | crates/exo-core/src/hlc.rs:61-70 | takes the wall time if it is ahead, otherwise saturating increment |
| Hlc.HybridClock.Update | crates/exo-core/src/hlc.rs:81-109 | a remote time beyond the drift tolerance is refused and changes nothing; otherwise the four-way merge |
| Hlc.NowStrictExactly | crates/exo-core/src/hlc.rs:57-70 | the result is strictly later if and only if the wall advanced or the counter is below its maximum |
| Hlc.UpdateStrictExactly | crates/exo-core/src/hlc.rs:72-109 | an accepted update exceeds both local and remote time if and only if the counter it advances is below its maximum |
| Hlc.NowIsLeast | crates/exo-core/src/hlc.rs:61-74 | the clock follows the wall: `now` yields the least timestamp after the clock and not before the wall, or stays at the full counter |
| Hlc.UpdateIsLeast | crates/exo-core/src/hlc.rs:80-109 | an accepted `update` yields the least timestamp after the clock and the remote time and not before the wall, unless the counter is full |
| Hlc.FirstStamp | crates/exo-core/src/hlc.rs:61-74 | the first local timestamp of a new clock in any run |
| Hlc.SaturatedClockRepeats | crates/exo-core/src/hlc.rs:61-109 | one accepted remote timestamp with a full counter makes a clock issue the same timestamp again |
| Hlc.SameClockOrder | crates/exo-core/src/hlc.rs:61-109 | in every run, later events of one clock have later timestamps, strictly unless the counter ends at its maximum |
| Hlc.HappenedBeforeIsBefore | crates/exo-core/src/hlc.rs:61-109 | in every run of any number of clocks happened-before implies a strictly smaller timestamp while no counter on the chain is at its maximum |
| Hlc.DriftBounded | crates/exo-core/src/hlc.rs:19-19 | a clock's physical part never exceeds its largest wall reading by more than 60000 ms, whatever it receives |
| Delegation.DelegationRegistry.Delegate | crates/exo-authority/src/delegation.rs:34-76 | refused exactly when the delegate already reaches the delegator; otherwise adds the link with its computed depth and keeps indexes and acyclicity; its depth is one more than that of a registered link to the delegator, zero when there is none |
| Delegation.DelegationRegistry.RevokeDelegation | crates/exo-authority/src/delegation.rs:82-97 | removes exactly the link and keeps indexes and acyclicity; an unknown id is an error |
| Delegation.DelegationRegistry.HasPathInner | crates/exo-authority/src/delegation.rs:132-154 | the visited-set search: found means reachable; not found means the visited set is closed under delegation and misses the target |
| Delegation.DelegationRegistry.HasPath | crates/exo-authority/src/delegation.rs:127-130 | true if and only if the target is reachable |
| Delegation.AddEdgeAcyclic | crates/exo-authority/src/delegation.rs:43-49 | adding a link that closes no path keeps the graph free of cycles |
| Delegation.PushIndexes | crates/exo-authority/src/delegation.rs:64-73 | after the push the index lists exactly the registered links, as sets |
| Delegation.DropIndexes | crates/exo-authority/src/delegation.rs:88-94 | after the retain the index lists exactly the remaining links |
| Delegation.DelegationRegistry.FindPathDfs | crates/exo-authority/src/delegation.rs:156-182 | found if and only if a path within the remaining depth exists; a failed branch restores the path, a success appends a contiguous trail |
| Delegation.DelegationRegistry.FindChain | crates/exo-authority/src/delegation.rs:100-111 | a chain exactly when 1 to 5 registered links lead from one to the other; it is such a trail renumbered 0, 1, 2, ... and chain building never fails |
| Delegation.BuildChainWithDepth | crates/exo-authority/src/chain.rs:134-175 | succeeds if and only if the links are nonempty, within depth, contiguous and numbered from 0; a failure names the empty list, the length, or the first link that breaks the chain |
| Delegation.VerifyChain | crates/exo-authority/src/chain.rs:186-239 | succeeds if and only if every link is genuine and unexpired and every scope lies in the one before; a failure names the first faulty link and the first check it fails |
| Delegation.VerifiedExactly | crates/exo-authority/src/chain.rs:186-239 | verified if and only if nonempty, within the depth limit, and every link is genuine, unexpired and grants nothing the link before it does not |
| Delegation.LeafDecides | crates/exo-authority/src/chain.rs:246-252 | in a verified chain a permission holds throughout if and only if the last link has it |
| Combinator.Reduce | crates/exo-gatekeeper/src/combinator.rs:157-266 | the engine's loops compute the recursive meaning of the program |
| Combinator.ReduceRetry | crates/exo-gatekeeper/src/combinator.rs:235-250 | the attempt loop, with its early return and last error, computes the attempt-by-attempt meaning of retry |
| Combinator.FrameTheorem | crates/exo-gatekeeper/src/combinator.rs:157-266 | every successful program keeps all input keys and changes only keys its text writes |
| Combinator.SpliceExactly | crates/exo-gatekeeper/src/combinator.rs:164-186 | splicing a nested sequence keeps success and fields, and the whole outcome exactly unless it is an empty last step after a checkpoint |
| Combinator.SpliceForgetsCheckpoint | crates/exo-gatekeeper/src/combinator.rs:164-186 | a checkpoint step followed by an empty sequence loses the checkpoint |
| Combinator.RetryIsOneRun | crates/exo-gatekeeper/src/combinator.rs:235-250 | retry equals its body with retry_attempts set to "0", whatever the limit |
| Combinator.ChoiceIsFirstSuccess | crates/exo-gatekeeper/src/combinator.rs:207-217 | choice answers with its first alternative that succeeds, and fails exactly when all fail |
| Combinator.GuardAfterTransform | crates/exo-gatekeeper/src/combinator.rs:28-36 | after a key is written, a guard on it passes exactly for the value written, and its body runs on that value |
| Combinator.GuardOnAbsentKey | crates/exo-gatekeeper/src/combinator.rs:28-36 | a guard on a key neither in the input nor written before fails, whatever it expects |
| Combinator.GuardOnPresence | crates/exo-gatekeeper/src/combinator.rs:28-36 | a guard without expected value passes exactly when the key is there |
| Combinator.TimeoutRecordsBudget | crates/exo-gatekeeper/src/combinator.rs:252-258 | a timeout changes one field only, from which the budget can be read back |
| Combinator.CheckpointIsLocal | crates/exo-gatekeeper/src/combinator.rs:260-264 | a checkpoint marks its own output and is neutral before a further step |
| Combinator.MergedField | crates/exo-gatekeeper/src/combinator.rs:140-147 | a merged field comes from the last branch that has it, else from what was merged before |
| Combinator.MergedCheckpoint | crates/exo-gatekeeper/src/combinator.rs:140-147 | the merged checkpoint is that of the last branch that sets one, else the earlier one |
| Combinator.ParallelOrderExactly | crates/exo-gatekeeper/src/combinator.rs:188-205 | every order of the branches gives the same outcome (failure, fields and checkpoint) if and only if a branch fails, or results agree wherever they overlap and no two branches set different checkpoints |
| Combinator.DisjointBranchesCommute | crates/exo-gatekeeper/src/combinator.rs:188-207 | branches that write disjoint keys absent from the input may be permuted without changing success or fields |
| Combinator.OrderMatters | crates/exo-gatekeeper/src/combinator.rs:76-77 | a concrete input on which two branches give different fields in different orders |
| Combinator.CheckpointOrderMatters | crates/exo-gatekeeper/src/combinator.rs:76-77 | of two branches with checkpoints the later one wins |
| Bcts.Transaction.Advance | crates/exo-core/src/bcts.rs:218-248 | succeeds exactly on table transitions, appends one chained receipt and transition stamped by the clock; refused ones change nothing; a log in time order and not ahead of the clock stays so |
| Bcts.Transaction.VerifyReceiptChain | crates/exo-core/src/bcts.rs:182-210 | accepts exactly chains whose receipts all recompute; every run from a new transaction is accepted |
| Bcts.VerifiesExactly | crates/exo-core/src/bcts.rs:182-210 | a log verifies with as many receipts if and only if each receipt is the hash of its transition and the receipt before it, from the zero digest on |
| Bcts.LifecyclePush | crates/exo-core/src/bcts.rs:43-67 | a longer log is a lifecycle run if and only if the shorter one is and the last step is allowed |
| Bcts.ConsentBeforeDeliberation | crates/exo-core/src/bcts.rs:43-61 | any run in Deliberated through Closed or in Escalated went through IdentityResolved then ConsentValidated right after its last Submitted |
| Bcts.ClosedOnlyThroughStretch | crates/exo-core/src/bcts.rs:43-61 | Closed is final and entered only through the seven last stages in a row |
| Bcts.SideStates | crates/exo-core/src/bcts.rs:43-61 | from where a transaction can be denied, escalated or remediated, and what can follow an escalation |
| Bcts.DenialRestarts | crates/exo-core/src/bcts.rs:43-61 | in every run a denial is followed by remediation and then a new submission |
| Bcts.NeverStuck | crates/exo-core/src/bcts.rs:43-61 | every run can be extended to Closed within eleven steps |
| Bcts.EveryStateReachable | crates/exo-core/src/bcts.rs:43-61 | every state is reached by some run |
| Bcts.ReceiptBindsHistory | crates/exo-core/src/bcts.rs:151-210 | collision-free: two verified histories with the same last receipt are identical |
| Bcts.OneClockOrders | crates/exo-core/src/bcts.rs:218-248 | transitions stamped by one clock, whatever else it does in between, never go back in time and advance unless the counter is full |
| Bcts.StaysOrderedExactly | crates/exo-core/src/bcts.rs:218-248 | a further transition keeps the log in time order if and only if the next reading of the clock used is not before the last transition |
| Bcts.SecondClockGoesBack | crates/exo-core/src/bcts.rs:178-248 | with a second clock the log can go back in time and still verify |
| PeerSelection.GroupByAsn | crates/exo-api/src/p2p.rs:213-217 | one nonempty bucket per ASN, by increasing ASN, with that ASN's candidates in order |
| PeerSelection.GroupsMean | crates/exo-api/src/p2p.rs:178-183 | peers without an ASN form one group with those of ASN 0, which comes first; other groups are ordered by ASN |
| PeerSelection.ServeRound | crates/exo-api/src/p2p.rs:226-238 | one round adds at most one candidate per ASN, in serving order, and reports whether it added any |
| PeerSelection.RoundRobin | crates/exo-api/src/p2p.rs:219-244 | the nested loops end in the closed form, in serving order: every bucket contributes a prefix fixed by the round reached, and the limit or all capped buckets are used up |
| PeerSelection.ShapeIsDiverse | crates/exo-api/src/p2p.rs:200-246 | the closed form is distinct, of optimal size, within the cap, a prefix of each bucket, balanced within one unless exhausted, and covers as many ASNs as fit |
| PeerSelection.ShapeIsSelection | crates/exo-api/src/p2p.rs:200-246 | a candidate is selected if and only if its rank in its ASN is below the cap and fewer than the limit precede it by rank and ASN |
| PeerSelection.SelectDiversePeers | crates/exo-api/src/p2p.rs:204-247 | for every candidate list, cap and limit the selection is exactly the chosen candidates in serving order, and has all the diversity properties |
| PeerSelection.RotatePeers | crates/exo-api/src/p2p.rs:268-300 | evicts exactly the stale ids, keeps the others in order, appends the selection from the candidates not kept, never grows the set and selects no kept id again |
| PeerSelection.RotatedExactly | crates/exo-api/src/p2p.rs:268-300 | a peer is in the rotated set if and only if it was kept or is a chosen candidate of the pool |
| PeerSelection.EvictionFailsExactly | crates/exo-api/src/p2p.rs:285-298 | the rotated set contains a stale peer, or an evicted id, if and only if the pool offers one that is within its ASN's cap and served among the first replacements |
| PeerSelection.EvictedPeerReturns | crates/exo-api/src/p2p.rs:285-298 | rotating a stale peer that is the only candidate leaves it in the set |
| PeerSelection.EvictedPeerStaysAway | crates/exo-api/src/p2p.rs:285-298 | rotating a stale peer offered behind another candidate of its ASN removes it |
| PeerSelection.RotatedCount | crates/exo-api/src/p2p.rs:268-300 | the per-ASN count of the rotated set: how far it exceeds the peers kept is decided by the ranks of the chosen candidates |
| PeerSelection.RotationWithinCapExactly | crates/exo-api/src/p2p.rs:153-154 | the rotated set stays within the per-ASN cap if and only if the peers kept do and each replacement fits beside those of its ASN |
| PeerSelection.RotationExceedsCap | crates/exo-api/src/p2p.rs:268-300 | a kept peer and a replacement of its ASN exceed a cap of one |
| Consent.RunPolicy | crates/exo-consent/src/policy.rs:62-139 | the loops with early returns compute the recursive decision |
| Consent.GrantMeans | crates/exo-consent/src/policy.rs:88-138 | granted if and only if every applicable requirement is satisfied, and the expiry is the least expiry of all consents that count |
| Consent.UnmetMeans | crates/exo-consent/src/policy.rs:96-114 | an unmet requirement escalates to the bailor of the first active delegation consent for the action, and is denied when there is none |
| Consent.FirstUnmetDecides | crates/exo-consent/src/policy.rs:90-114 | without a grant the first unmet requirement gives the answer |
| Consent.GateGrantsExactly | crates/exo-consent/src/gatekeeper.rs:81-104 | at the gate: without a requirement for the action the policy's default decides; otherwise granted if and only if each has a registration with that action and role, enough clearance and an active, unexpired bailment |
| Consent.GateRefusesExactly | crates/exo-consent/src/gatekeeper.rs:81-104 | at the gate: a refusal escalates to the bailor of the first active registration that delegates the action, and without one denies naming an unmet requirement |
| Consent.PrefilterIrrelevant | crates/exo-consent/src/gatekeeper.rs:86-103 | dropping inactive consents first never changes the decision |
| Consent.ConsentGate.CheckConsent | crates/exo-consent/src/gatekeeper.rs:81-104 | the gate answers with the decision on the actor's active consents |
| Consent.ConsentGate.RevokeByBailmentId | crates/exo-consent/src/gatekeeper.rs:71-78 | removes every consent backed by the bailment, for every actor, and no other |
| Consent.ExpiryIsExact | crates/exo-consent/src/gatekeeper.rs:81-104 | after a grant the same answer is given at a later time if and only if that time is before the reported expiry; always if there is none |
| Consent.NoLateGrant | crates/exo-consent/src/bailment.rs:120-128 | waiting never turns a refusal or an escalation into a grant |
| Consent.RevocationNeverGrants | crates/exo-consent/src/gatekeeper.rs:71-78 | revoking never creates a grant, and a surviving grant expires no earlier than before |

## Left out

- Real cryptography: hashing, signatures and canonical encoding are abstract functions; ambiguity of concatenated encodings is not modelled.
- Machine integers: `usize` and `u64` counters are unbounded naturals, except where the code saturates (clock counters, drift and skew horizons, staleness).
- Mmr.VerifyProof: takes fewer than 64 siblings, because the source computes `1usize << depth`.
- Dag.HybridClock.Tick: does not model overflow of the 32-bit counter, which the source does not guard.
- Smt.SparseMerkleTree: the key width is a parameter; the source fixes 32 bytes.
- Delegation.DelegationRegistry: link ids are assumed injective in the link contents, which the source's concatenated payload does not guarantee by itself.
- Combinator.Eval: error texts are one value; predicate and transform names are only for tracing.
- PeerSelection.SelectDiversePeers: returns positions in the candidate list instead of clones of the peers.
- Consent.ConsentGate: `register_bailment` and the bailment map, which `check` never reads.
- Bailment `propose`, `accept` and `terminate`: single-guard status setters.
- `MemoryStore::mark_committed` and `committed_height`: a running maximum.
- `AuthorityLink::signable_payload`, `PermissionSet` encodings and the chain cache.
- Peer registry, rate limiter, discovery and the ASN diversity check: lookups and counters.
- `crates/exo-bcts`, `crates/decision-forum`, `crates/exo-escalation`, governance monitors, gateway, schema, web and demo code.
